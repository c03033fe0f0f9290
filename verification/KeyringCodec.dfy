/** The two records the chunked keyring stores beside its chunks, and their
    string encodings: a chunk manifest and a generation inventory. */
module KeyringCodec {
  import opened Bytes
  import Base64

  const CHUNK_SOURCE_BYTES: nat := 72
  const MAX_LOGICAL_CREDENTIAL_BYTES: nat := 16384
  const MAX_CHUNK_COUNT: nat := 228
  const PROMPT_MAX_VALUE_BYTES: nat := 127
  const CHUNK_MANIFEST_BYTES: nat := 65
  const INVENTORY_BYTES: nat := 38
  const CHUNK_MANIFEST_PAYLOAD_BYTES: nat := 87
  const INVENTORY_PAYLOAD_BYTES: nat := 51
  const MANIFEST_VERSION: Byte := 2
  const LEGACY_VERSION: Byte := 1
  const INVENTORY_VERSION: Byte := 2

  const MANIFEST_PREFIX: Bytes := Ascii("cfctl:keyring:manifest:v2:")
  const LEGACY_PREFIX: Bytes := Ascii("cfctl:keyring:v1:")
  const INVENTORY_PREFIX: Bytes := Ascii("cfctl:keyring:inventory:v2:")
  const ROOT_MARKER: Bytes := Ascii("cfctl:keyring:managed:v2")

  /** A 16-byte write identity. */
  type WriteId = b: Bytes | |b| == 16 witness [0, 0, 0, 0, 0, 0, 0, 0, 0, 0, 0, 0, 0, 0, 0, 0]

  const ZERO_ID: WriteId := [0, 0, 0, 0, 0, 0, 0, 0, 0, 0, 0, 0, 0, 0, 0, 0]

  datatype Manifest = Manifest(id: WriteId, count: nat, length: nat, digest: Bytes)

  datatype GenerationRef = GenerationRef(id: WriteId, count: nat)

  datatype State =
    | PreparingLegacy
    | Active
    | ActiveWithPending
    | ActiveWithRetiring
    | PublishedNeedsRootScrub
    | Deleting
    | PublishedLegacyV1NeedsRootScrub
    | DeletingLegacyV1

  datatype Inventory = Inventory(state: State, primary: GenerationRef, secondary: Option<GenerationRef>)

  function ChunkCount(length: nat): (n: nat)
    ensures 72 * n >= length
    ensures n > 0 ==> 72 * (n - 1) < length
  {
    (length + 71) / 72
  }

  // ---------------------------------------------------------------- manifest

  predicate ValidManifestFields(count: nat, length: nat) {
    length <= MAX_LOGICAL_CREDENTIAL_BYTES && count <= MAX_CHUNK_COUNT && count == ChunkCount(length)
  }

  predicate ValidManifest(m: Manifest) {
    ValidManifestFields(m.count, m.length) && m.id != ZERO_ID && |m.digest| == 32
  }

  function ManifestPayload(m: Manifest, version: Byte): (b: Bytes)
    ensures |b| == 33 + |m.digest|
  {
    [version] + m.id + ToBe(m.count, 8) + ToBe(m.length, 8) + m.digest
  }

  function EncodeManifest(m: Manifest): (s: Option<Bytes>) {
    if !ValidManifest(m) then None
    else
      var s := MANIFEST_PREFIX + Base64.Encode(ManifestPayload(m, MANIFEST_VERSION));
      if |s| != |MANIFEST_PREFIX| + CHUNK_MANIFEST_PAYLOAD_BYTES || |s| > PROMPT_MAX_VALUE_BYTES
      then None else Some(s)
  }

  /** A manifest under `prefix`, before its fields are judged; a string without
      the prefix and a malformed one both read as None. */
  function DecodeManifest(s: Bytes, prefix: Bytes, version: Byte): (m: Option<Manifest>) {
    if !(prefix <= s) || |s| != |prefix| + CHUNK_MANIFEST_PAYLOAD_BYTES then None
    else
      var decoded := Base64.Decode(s[|prefix|..]);
      if decoded.None? || |decoded.value| != CHUNK_MANIFEST_BYTES || decoded.value[0] != version then None
      else
        var d := decoded.value;
        Some(Manifest(d[1..17], FromBe(d[17..25]), FromBe(d[25..33]), d[33..65]))
  }

  function ParseManifest(s: Bytes): (m: Option<Manifest>) {
    var m := DecodeManifest(s, MANIFEST_PREFIX, MANIFEST_VERSION);
    if m.Some? && ValidManifestFields(m.value.count, m.value.length) && m.value.id != ZERO_ID then m else None
  }

  /** The legacy root manifest, whose fields are judged later. */
  function ParseLegacy(s: Bytes): Option<Manifest> {
    DecodeManifest(s, LEGACY_PREFIX, LEGACY_VERSION)
  }

  lemma ManifestSlices(m: Manifest, version: Byte, d: Bytes)
    requires |m.digest| == 32
    requires d == ManifestPayload(m, version)
    ensures d[0] == version && d[1..17] == m.id && d[17..25] == ToBe(m.count, 8)
    ensures d[25..33] == ToBe(m.length, 8) && d[33..65] == m.digest
  {
  }

  lemma ManifestRoundTrip(m: Manifest)
    requires ValidManifest(m)
    ensures EncodeManifest(m).Some?
    ensures |EncodeManifest(m).value| == 113
    ensures ParseManifest(EncodeManifest(m).value) == Some(m)
  {
    PowerValues();
    var d := ManifestPayload(m, MANIFEST_VERSION);
    var s := MANIFEST_PREFIX + Base64.Encode(d);
    assert s[|MANIFEST_PREFIX|..] == Base64.Encode(d);
    Base64.DecodeEncode(d);
    ManifestSlices(m, MANIFEST_VERSION, d);
    FromToBe(m.count, 8);
    FromToBe(m.length, 8);
  }

  lemma ManifestCanonical(s: Bytes)
    requires ParseManifest(s).Some?
    ensures ValidManifest(ParseManifest(s).value)
    ensures EncodeManifest(ParseManifest(s).value) == Some(s)
  {
    PowerValues();
    var m := ParseManifest(s).value;
    var d := Base64.Decode(s[|MANIFEST_PREFIX|..]).value;
    Base64.EncodeDecode(s[|MANIFEST_PREFIX|..]);
    ToFromBe(d[17..25]);
    ToFromBe(d[25..33]);
    assert d[..1] == [d[0]];
    Cut(d, 1, 17, 25, 33);
    assert ManifestPayload(m, MANIFEST_VERSION) == d;
    assert s == MANIFEST_PREFIX + s[|MANIFEST_PREFIX|..];
  }

  /** The text of a manifest: prefix, then version, identity, chunk count, length and
      digest, in base64url. */
  function ManifestText(prefix: Bytes, version: Byte, m: Manifest): Bytes {
    prefix + Base64.Encode([version] + m.id + ToBe(m.count, 8) + ToBe(m.length, 8) + m.digest)
  }

  lemma DecodeManifestExactly(s: Bytes, prefix: Bytes, version: Byte, m: Manifest)
    ensures DecodeManifest(s, prefix, version) == Some(m) <==>
              s == ManifestText(prefix, version, m) && |m.digest| == 32 &&
              m.count < 0x1_0000_0000_0000_0000 && m.length < 0x1_0000_0000_0000_0000
  {
    PowerValues();
    if DecodeManifest(s, prefix, version) == Some(m) {
      var d := Base64.Decode(s[|prefix|..]).value;
      Base64.EncodeDecode(s[|prefix|..]);
      ToFromBe(d[17..25]);
      ToFromBe(d[25..33]);
      assert d[..1] == [d[0]];
      Cut(d, 1, 17, 25, 33);
      assert s == prefix + s[|prefix|..];
    }
    if s == ManifestText(prefix, version, m) && |m.digest| == 32 &&
       m.count < 0x1_0000_0000_0000_0000 && m.length < 0x1_0000_0000_0000_0000 {
      var d := ManifestPayload(m, version);
      assert s[|prefix|..] == Base64.Encode(d);
      Base64.DecodeEncode(d);
      ManifestSlices(m, version, d);
      FromToBe(m.count, 8);
      FromToBe(m.length, 8);
    }
  }

  /** Exactly these texts are manifests: at most 16384 bytes in chunks of 72. */
  lemma ManifestExactly(s: Bytes, m: Manifest)
    ensures ParseManifest(s) == Some(m) <==>
              && s == ManifestText(Ascii("cfctl:keyring:manifest:v2:"), 2, m) && |m.digest| == 32
              && m.length <= 16384 && m.length <= 72 * m.count < m.length + 72
              && exists i | 0 <= i < 16 :: m.id[i] != 0
  {
    DecodeManifestExactly(s, MANIFEST_PREFIX, MANIFEST_VERSION, m);
    NonzeroId(m.id);
  }

  /** Exactly these texts are legacy roots, whose fields are judged later. */
  lemma LegacyExactly(s: Bytes, m: Manifest)
    ensures ParseLegacy(s) == Some(m) <==>
              && s == ManifestText(Ascii("cfctl:keyring:v1:"), 1, m) && |m.digest| == 32
              && m.count < 0x1_0000_0000_0000_0000 && m.length < 0x1_0000_0000_0000_0000
  {
    DecodeManifestExactly(s, LEGACY_PREFIX, LEGACY_VERSION, m);
  }

  lemma NonzeroId(id: WriteId)
    ensures id != ZERO_ID <==> exists i | 0 <= i < 16 :: id[i] != 0
  {
    if forall i | 0 <= i < 16 :: id[i] == 0 {
      assert id == ZERO_ID;
    }
  }

  // --------------------------------------------------------------- inventory

  predicate ValidRef(g: GenerationRef) {
    g.id != ZERO_ID && g.count <= MAX_CHUNK_COUNT
  }

  predicate ExpectsSecondary(s: State) {
    s.ActiveWithPending? || s.ActiveWithRetiring? || s.PublishedLegacyV1NeedsRootScrub?
  }

  predicate ValidInventory(i: Inventory) {
    && ValidRef(i.primary)
    && (i.secondary.Some? ==> ValidRef(i.secondary.value))
    && i.secondary != Some(i.primary)
    && (i.secondary.Some? <==> ExpectsSecondary(i.state))
  }

  function StateByte(s: State): Byte {
    match s
    case PreparingLegacy => 1
    case Active => 2
    case ActiveWithPending => 3
    case ActiveWithRetiring => 4
    case PublishedNeedsRootScrub => 5
    case Deleting => 6
    case PublishedLegacyV1NeedsRootScrub => 7
    case DeletingLegacyV1 => 8
  }

  function StateFromByte(b: Byte): Option<State> {
    if b == 1 then Some(PreparingLegacy)
    else if b == 2 then Some(Active)
    else if b == 3 then Some(ActiveWithPending)
    else if b == 4 then Some(ActiveWithRetiring)
    else if b == 5 then Some(PublishedNeedsRootScrub)
    else if b == 6 then Some(Deleting)
    else if b == 7 then Some(PublishedLegacyV1NeedsRootScrub)
    else if b == 8 then Some(DeletingLegacyV1)
    else None
  }

  function SecondaryOrZero(i: Inventory): GenerationRef {
    if i.secondary.Some? then i.secondary.value else GenerationRef(ZERO_ID, 0)
  }

  function InventoryPayload(i: Inventory): (b: Bytes)
    ensures |b| == INVENTORY_BYTES
  {
    var second := SecondaryOrZero(i);
    [INVENTORY_VERSION, StateByte(i.state)] + i.primary.id + ToBe(i.primary.count, 2) +
    second.id + ToBe(second.count, 2)
  }

  function EncodeInventory(i: Inventory): (s: Option<Bytes>) {
    if !ValidInventory(i) then None
    else
      var s := INVENTORY_PREFIX + Base64.Encode(InventoryPayload(i));
      if |s| != |INVENTORY_PREFIX| + INVENTORY_PAYLOAD_BYTES || |s| > PROMPT_MAX_VALUE_BYTES
      then None else Some(s)
  }

  /** The inventory a 38-byte payload stands for. */
  function InventoryOfPayload(d: Bytes): (i: Option<Inventory>)
    requires |d| == INVENTORY_BYTES
  {
    var state := StateFromByte(d[1]);
    var primary := GenerationRef(d[2..18], FromBe(d[18..20]));
    var second := GenerationRef(d[20..36], FromBe(d[36..38]));
    var secondary := if second == GenerationRef(ZERO_ID, 0) then None else Some(second);
    if d[0] != INVENTORY_VERSION || state.None? || !ValidInventory(Inventory(state.value, primary, secondary))
    then None
    else Some(Inventory(state.value, primary, secondary))
  }

  function ParseInventory(s: Bytes): (i: Option<Inventory>) {
    if |s| != |INVENTORY_PREFIX| + INVENTORY_PAYLOAD_BYTES || !(INVENTORY_PREFIX <= s) then None
    else
      var decoded := Base64.Decode(s[|INVENTORY_PREFIX|..]);
      if decoded.None? || |decoded.value| != INVENTORY_BYTES then None
      else InventoryOfPayload(decoded.value)
  }

  lemma InventorySlices(i: Inventory, d: Bytes)
    requires d == InventoryPayload(i)
    ensures d[0] == INVENTORY_VERSION && d[1] == StateByte(i.state)
    ensures d[2..18] == i.primary.id && d[18..20] == ToBe(i.primary.count, 2)
    ensures d[20..36] == SecondaryOrZero(i).id && d[36..38] == ToBe(SecondaryOrZero(i).count, 2)
  {
  }

  lemma PayloadRoundTrip(i: Inventory)
    requires ValidInventory(i)
    ensures InventoryOfPayload(InventoryPayload(i)) == Some(i)
  {
    PowerValues();
    InventorySlices(i, InventoryPayload(i));
    FromToBe(i.primary.count, 2);
    FromToBe(SecondaryOrZero(i).count, 2);
  }

  lemma Cut(d: Bytes, a: nat, b: nat, e: nat, f: nat)
    requires a <= b <= e <= f <= |d|
    ensures d[..a] + d[a..b] + d[b..e] + d[e..f] + d[f..|d|] == d
  {
  }

  lemma PayloadCanonical(d: Bytes)
    requires |d| == INVENTORY_BYTES && InventoryOfPayload(d).Some?
    ensures InventoryPayload(InventoryOfPayload(d).value) == d
  {
    var i := InventoryOfPayload(d).value;
    ToFromBe(d[18..20]);
    ToFromBe(d[36..38]);
    assert i.primary == GenerationRef(d[2..18], FromBe(d[18..20]));
    assert SecondaryOrZero(i) == GenerationRef(d[20..36], FromBe(d[36..38]));
    assert d[..2] == [INVENTORY_VERSION, StateByte(i.state)];
    hide InventoryOfPayload, FromBe, ToBe, ValidInventory, SecondaryOrZero, StateByte, StateFromByte;
    Cut(d, 2, 18, 20, 36);
  }

  lemma InventoryRoundTrip(i: Inventory)
    requires ValidInventory(i)
    ensures EncodeInventory(i).Some?
    ensures |EncodeInventory(i).value| == 78
    ensures ParseInventory(EncodeInventory(i).value) == Some(i)
  {
    var encoded := Base64.Encode(InventoryPayload(i));
    Base64.DecodeEncode(InventoryPayload(i));
    PayloadRoundTrip(i);
    assert (INVENTORY_PREFIX + encoded)[|INVENTORY_PREFIX|..] == encoded;
  }

  lemma InventoryCanonical(s: Bytes)
    requires ParseInventory(s).Some?
    ensures ValidInventory(ParseInventory(s).value)
    ensures EncodeInventory(ParseInventory(s).value) == Some(s)
  {
    var encoded := s[|INVENTORY_PREFIX|..];
    Base64.EncodeDecode(encoded);
    PayloadCanonical(Base64.Decode(encoded).value);
    assert s == INVENTORY_PREFIX + encoded;
  }

  /** The code of a state, and whether a second generation goes with it. */
  predicate Coded(s: State, code: Byte, pair: bool) {
    && (code == 1 ==> s == PreparingLegacy && !pair)
    && (code == 2 ==> s == Active && !pair)
    && (code == 3 ==> s == ActiveWithPending && pair)
    && (code == 4 ==> s == ActiveWithRetiring && pair)
    && (code == 5 ==> s == PublishedNeedsRootScrub && !pair)
    && (code == 6 ==> s == Deleting && !pair)
    && (code == 7 ==> s == PublishedLegacyV1NeedsRootScrub && pair)
    && (code == 8 ==> s == DeletingLegacyV1 && !pair)
    && 1 <= code <= 8
  }

  /** A generation an inventory may name. */
  predicate Nameable(g: GenerationRef) {
    g.count <= 228 && exists i | 0 <= i < 16 :: g.id[i] != 0
  }

  /** Exactly these texts are inventories: prefix, then version, state code and two
      references of identity and chunk count, in base64url; a second reference that is
      not there is all zeros. */
  lemma InventoryExactly(s: Bytes, i: Inventory)
    ensures ParseInventory(s) == Some(i) <==>
              var second := if i.secondary.Some? then i.secondary.value
                            else GenerationRef([0, 0, 0, 0, 0, 0, 0, 0, 0, 0, 0, 0, 0, 0, 0, 0], 0);
              && Nameable(i.primary) && (i.secondary.Some? ==> Nameable(second)) && second != i.primary
              && exists code: Byte :: Coded(i.state, code, i.secondary.Some?) &&
                   s == Ascii("cfctl:keyring:inventory:v2:") +
                        Base64.Encode([2, code] + i.primary.id + ToBe(i.primary.count, 2) +
                                      second.id + ToBe(second.count, 2))
  {
    NonzeroId(i.primary.id);
    NonzeroId(SecondaryOrZero(i).id);
    CodedExactly(i.state);
    hide Base64.Encode, Base64.Decode, InventoryOfPayload, ToBe, StateByte, ExpectsSecondary;
    if ParseInventory(s) == Some(i) {
      InventoryCanonical(s);
      assert Coded(i.state, StateByte(i.state), i.secondary.Some?);
    }
    if ValidInventory(i) {
      InventoryRoundTrip(i);
    }
  }

  lemma CodedExactly(s: State)
    ensures forall code: Byte, pair: bool ::
              Coded(s, code, pair) <==> code == StateByte(s) && pair == ExpectsSecondary(s)
  {
  }
}
