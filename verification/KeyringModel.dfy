/** What one logical keyring item means: the raw keychain as a map, the read path
    as functions of it, and the invariant of every reachable raw state. */
module KeyringModel {
  import opened Bytes
  import opened KeyringCodec

  datatype Part =
    | RootKey
    | InventoryKey
    | ManifestKey(id: WriteId)
    | ChunkKey(id: WriteId, index: nat)
    | LegacyChunkKey(id: WriteId, index: nat)

  type Raw = map<Part, Bytes>

  datatype Error =
    | Fault | TooLong | NotExact | InvalidInventory | InvalidManifest | ManifestMissing
    | ChunkMissing | ChunkBound | ChunkEncoding | DigestMismatch | NotUtf8 | MarkerMissing
    | DeletionIncomplete | AmbiguousLegacy | LineBreak | TooLarge | ReadbackMismatch

  type Read = Result<Option<Bytes>, Error>

  /** The encodings and the two primitives the protocol takes as given. The
      protocol only relies on Lawful; KeyringConcrete supplies the real ones. */
  datatype Codec = Codec(
    encodeInventory: Inventory -> Option<Bytes>,
    parseInventory: Bytes -> Option<Inventory>,
    encodeManifest: Manifest -> Option<Bytes>,
    parseManifest: Bytes -> Option<Manifest>,
    parseLegacy: Bytes -> Option<Manifest>,
    encode64: Bytes -> Bytes,
    decode64: Bytes -> Option<Bytes>,
    digest: Bytes -> Bytes,
    utf8: Bytes -> bool,
    marker: Bytes)

  ghost predicate Lawful(c: Codec) {
    && (forall i: Inventory | ValidInventory(i) ::
          c.encodeInventory(i).Some? && |c.encodeInventory(i).value| <= MAX_LOGICAL_CREDENTIAL_BYTES &&
          c.parseInventory(c.encodeInventory(i).value) == Some(i))
    && (forall m: Manifest | ValidManifest(m) ::
          c.encodeManifest(m).Some? && |c.encodeManifest(m).value| <= MAX_LOGICAL_CREDENTIAL_BYTES &&
          c.parseManifest(c.encodeManifest(m).value) == Some(m))
    && (forall b: Bytes :: c.decode64(c.encode64(b)) == Some(b))
    && (forall b: Bytes | 0 < |b| <= CHUNK_SOURCE_BYTES :: 0 < |c.encode64(b)| <= 96)
    && (forall b: Bytes :: |c.digest(b)| == 32)
    && c.parseLegacy(c.marker) == None
    && |c.marker| <= MAX_LOGICAL_CREDENTIAL_BYTES
  }

  // ------------------------------------------------------------- the read path

  /** One bounded raw read. */
  function Lookup(raw: Raw, k: Part): Read {
    if k !in raw then Ok(None)
    else if |raw[k]| > MAX_LOGICAL_CREDENTIAL_BYTES then Err(TooLong)
    else Ok(Some(raw[k]))
  }

  function ReadInventory(c: Codec, raw: Raw): Result<Option<Inventory>, Error> {
    match Lookup(raw, InventoryKey)
    case Err(e) => Err(e)
    case Ok(None) => Ok(None)
    case Ok(Some(s)) => if c.parseInventory(s).None? then Err(InvalidInventory) else Ok(c.parseInventory(s))
  }

  /** The chunk loop from index `i` on, given what each chunk read returned. */
  function Collect(c: Codec, m: Manifest, fetched: seq<Read>, i: nat, decoded: Bytes): Result<Bytes, Error>
    requires |fetched| == m.count && i <= m.count
    decreases m.count - i
  {
    if i == m.count then
      if |decoded| != m.length || c.digest(decoded) != m.digest then Err(DigestMismatch)
      else if !c.utf8(decoded) then Err(NotUtf8)
      else Ok(decoded)
    else if fetched[i].Err? then Err(fetched[i].error)
    else if fetched[i].value.None? then Err(ChunkMissing)
    else
      var next := Append(c, m, i, decoded, fetched[i].value.value);
      if next.Err? then next else Collect(c, m, fetched, i + 1, next.value)
  }

  /** One iteration: bound, decode and append chunk `i`. */
  function Append(c: Codec, m: Manifest, i: nat, decoded: Bytes, encoded: Bytes): Result<Bytes, Error> {
    if |encoded| == 0 || |encoded| > 96 then Err(ChunkBound)
    else if c.decode64(encoded).None? then Err(ChunkEncoding)
    else if m.length < i * CHUNK_SOURCE_BYTES then Err(InvalidManifest)
    else
      var chunk := c.decode64(encoded).value;
      var remaining := m.length - i * CHUNK_SOURCE_BYTES;
      var expected := if remaining < CHUNK_SOURCE_BYTES then remaining else CHUNK_SOURCE_BYTES;
      var total := |decoded| + |chunk|;
      if |chunk| != expected || total > m.length || total > MAX_LOGICAL_CREDENTIAL_BYTES then Err(ChunkBound)
      else Ok(decoded + chunk)
  }

  function ChunkReads(raw: Raw, id: WriteId, count: nat): (s: seq<Read>)
    ensures |s| == count
    ensures forall i | 0 <= i < count :: s[i] == Lookup(raw, ChunkKey(id, i))
  {
    seq(count, i requires 0 <= i < count => Lookup(raw, ChunkKey(id, i)))
  }

  function LegacyReads(raw: Raw, id: WriteId, count: nat): (s: seq<Read>)
    ensures |s| == count
    ensures forall i | 0 <= i < count :: s[i] == Lookup(raw, LegacyChunkKey(id, i))
  {
    seq(count, i requires 0 <= i < count => Lookup(raw, LegacyChunkKey(id, i)))
  }

  /** A generation read whose raw reads returned `manifest` and `fetched`. */
  function GenerationFrom(c: Codec, g: GenerationRef, manifest: Read, fetched: seq<Read>): Result<Bytes, Error>
    requires |fetched| == g.count
  {
    if manifest.Err? then Err(manifest.error)
    else if manifest.value.None? then Err(ManifestMissing)
    else
      var m := c.parseManifest(manifest.value.value);
      if m.None? || m.value.id != g.id || m.value.count != g.count then Err(InvalidManifest)
      else Collect(c, m.value, fetched, 0, [])
  }

  function ReadGeneration(c: Codec, raw: Raw, g: GenerationRef): Result<Bytes, Error> {
    GenerationFrom(c, g, Lookup(raw, ManifestKey(g.id)), ChunkReads(raw, g.id, g.count))
  }

  function RootIsMarker(c: Codec, root: Read): Result<(), Error> {
    if root.Err? then Err(root.error)
    else if root.value == Some(c.marker) then Ok(())
    else Err(MarkerMissing)
  }

  datatype Legacy = NotLegacy | Confirmed(manifest: Manifest) | Ambiguous

  /** Whether the root item is a legacy v1 manifest, and whether any of its
      chunks is still there to confirm it. */
  function Classify(c: Codec, raw: Raw): Result<Legacy, Error> {
    match Lookup(raw, RootKey)
    case Err(e) => Err(e)
    case Ok(None) => Ok(NotLegacy)
    case Ok(Some(root)) =>
      if c.parseLegacy(root).None? then Ok(NotLegacy)
      else
        var m := c.parseLegacy(root).value;
        if !ValidManifestFields(m.count, m.length) || m.id == ZERO_ID then Err(InvalidManifest)
        else AnyChunk(m, LegacyReads(raw, m.id, m.count), 0)
  }

  function AnyChunk(m: Manifest, fetched: seq<Read>, i: nat): Result<Legacy, Error>
    requires i <= |fetched|
    decreases |fetched| - i
  {
    if i == |fetched| then Ok(Ambiguous)
    else if fetched[i].Err? then Err(fetched[i].error)
    else if fetched[i].value.Some? then Ok(Confirmed(m))
    else AnyChunk(m, fetched, i + 1)
  }

  lemma {:induction false} AnyChunkResult(m: Manifest, fetched: seq<Read>, i: nat)
    requires i <= |fetched|
    ensures var r := AnyChunk(m, fetched, i); r.Err? || r == Ok(Ambiguous) || r == Ok(Confirmed(m))
    decreases |fetched| - i
  {
    if i < |fetched| {
      AnyChunkResult(m, fetched, i + 1);
    }
  }

  lemma {:induction false} AnyChunkExactly(m: Manifest, fetched: seq<Read>, i: nat)
    requires i <= |fetched| && forall j | i <= j < |fetched| :: fetched[j].Ok?
    ensures AnyChunk(m, fetched, i) ==
              if exists j :: i <= j < |fetched| && fetched[j].value.Some? then Ok(Confirmed(m)) else Ok(Ambiguous)
    decreases |fetched| - i
  {
    if i < |fetched| {
      AnyChunkExactly(m, fetched, i + 1);
    }
  }

  function ReadLegacy(c: Codec, raw: Raw, m: Manifest): Result<Bytes, Error> {
    Collect(c, m, LegacyReads(raw, m.id, m.count), 0, [])
  }

  function Present(r: Result<Bytes, Error>): Read {
    match r
    case Ok(v) => Ok(Some(v))
    case Err(e) => Err(e)
  }

  function Unmanaged(c: Codec, raw: Raw): Read {
    match Classify(c, raw)
    case Err(e) => Err(e)
    case Ok(Confirmed(m)) => Present(ReadLegacy(c, raw, m))
    case Ok(Ambiguous) => Err(AmbiguousLegacy)
    case Ok(NotLegacy) => Lookup(raw, RootKey)
  }

  /** The value of the item: what `get` answers on an unchanging raw state. */
  function Get(c: Codec, raw: Raw): Read {
    match ReadInventory(c, raw)
    case Err(e) => Err(e)
    case Ok(None) => Unmanaged(c, raw)
    case Ok(Some(inventory)) =>
      match inventory.state
      case PreparingLegacy => Unmanaged(c, raw)
      case Deleting => Err(DeletionIncomplete)
      case DeletingLegacyV1 => Err(DeletionIncomplete)
      case PublishedNeedsRootScrub => Present(ReadGeneration(c, raw, inventory.primary))
      case PublishedLegacyV1NeedsRootScrub => Present(ReadGeneration(c, raw, inventory.primary))
      case _ =>
        var root := RootIsMarker(c, Lookup(raw, RootKey));
        if root.Err? then Err(root.error) else Present(ReadGeneration(c, raw, inventory.primary))
  }

  // ------------------------------------------------- what a generation consists of

  function ManifestOf(c: Codec, id: WriteId, v: Bytes): Manifest {
    Manifest(id, ChunkCount(|v|), |v|, c.digest(v))
  }

  function ChunkAt(v: Bytes, i: nat): Bytes
    requires i < ChunkCount(|v|)
  {
    v[72 * i..if 72 * (i + 1) < |v| then 72 * (i + 1) else |v|]
  }

  function RefOf(id: WriteId, v: Bytes): GenerationRef {
    GenerationRef(id, ChunkCount(|v|))
  }

  /** The value each write identity was allotted, over the whole history. */
  type Content = map<WriteId, Bytes>

  ghost predicate Storable(c: Codec, id: WriteId, v: Bytes) {
    id != ZERO_ID && |v| <= MAX_LOGICAL_CREDENTIAL_BYTES && c.utf8(v)
  }

  ghost predicate ContentOk(c: Codec, content: Content) {
    forall id | id in content :: Storable(c, id, content[id])
  }

  /** A manifest or chunk item holds what its identity was allotted, or nothing. */
  ghost predicate Pieces(c: Codec, raw: Raw, content: Content) {
    && (forall id: WriteId | ManifestKey(id) in raw ::
          id in content && Some(raw[ManifestKey(id)]) == c.encodeManifest(ManifestOf(c, id, content[id])))
    && (forall id: WriteId, i: nat | ChunkKey(id, i) in raw ::
          id in content && i < ChunkCount(|content[id]|) &&
          raw[ChunkKey(id, i)] == c.encode64(ChunkAt(content[id], i)))
  }

  ghost predicate Complete(raw: Raw, id: WriteId, v: Bytes) {
    && ManifestKey(id) in raw
    && (forall i: nat | i < ChunkCount(|v|) :: ChunkKey(id, i) in raw)
  }

  ghost predicate OnlyIds(raw: Raw, ids: set<WriteId>) {
    && (forall id: WriteId | ManifestKey(id) in raw :: id in ids)
    && (forall id: WriteId, i: nat | ChunkKey(id, i) in raw :: id in ids)
  }

  ghost predicate OnlyLegacy(raw: Raw, g: GenerationRef) {
    forall id: WriteId, i: nat | LegacyChunkKey(id, i) in raw :: id == g.id && i < g.count
  }

  ghost predicate NoLegacy(raw: Raw) {
    forall id: WriteId, i: nat :: LegacyChunkKey(id, i) !in raw
  }

  ghost predicate LegacyOwnedByRoot(c: Codec, raw: Raw) {
    forall id: WriteId, i: nat | LegacyChunkKey(id, i) in raw ::
      RootKey in raw && c.parseLegacy(raw[RootKey]).Some? &&
      c.parseLegacy(raw[RootKey]).value.id == id && i < c.parseLegacy(raw[RootKey]).value.count
  }

  ghost predicate Allotted(content: Content, g: GenerationRef) {
    g.id in content && g == RefOf(g.id, content[g.id])
  }

  ghost predicate Whole(raw: Raw, content: Content, g: GenerationRef) {
    Allotted(content, g) && Complete(raw, g.id, content[g.id])
  }

  ghost predicate HasMarker(c: Codec, raw: Raw) {
    RootKey in raw && raw[RootKey] == c.marker
  }

  /** The root of an active item: the marker, or nothing where a recovery has
      deleted it from under the inventory. */
  ghost predicate Scrubbed(c: Codec, raw: Raw) {
    RootKey in raw ==> raw[RootKey] == c.marker
  }

  /** No generation has been published: `get` takes the unmanaged branch. */
  predicate Quiescent(c: Codec, raw: Raw) {
    match ReadInventory(c, raw)
    case Ok(None) => true
    case Ok(Some(i)) => i.state.PreparingLegacy?
    case Err(_) => false
  }

  /** A deletion has been recorded and not finished. */
  predicate Removing(c: Codec, raw: Raw) {
    var i := ReadInventory(c, raw);
    i.Ok? && i.value.Some? && (i.value.value.state.Deleting? || i.value.value.state.DeletingLegacyV1?)
  }

  /** A published generation is on record. */
  predicate Managed(c: Codec, raw: Raw) {
    ReadInventory(c, raw).Ok? && !Quiescent(c, raw) && !Removing(c, raw)
  }

  predicate Published(i: Inventory) {
    i.state.PublishedNeedsRootScrub? || i.state.PublishedLegacyV1NeedsRootScrub?
  }

  /** The shape of the raw state in each inventory state. */
  ghost predicate Shape(c: Codec, raw: Raw, content: Content, i: Inventory) {
    && ValidInventory(i)
    && match i.state
       case PreparingLegacy =>
         Allotted(content, i.primary) && OnlyIds(raw, {i.primary.id}) && LegacyOwnedByRoot(c, raw)
       case PublishedNeedsRootScrub =>
         Whole(raw, content, i.primary) && OnlyIds(raw, {i.primary.id}) && NoLegacy(raw)
       case PublishedLegacyV1NeedsRootScrub =>
         Whole(raw, content, i.primary) && OnlyIds(raw, {i.primary.id}) && OnlyLegacy(raw, i.secondary.value)
       case Active =>
         Whole(raw, content, i.primary) && OnlyIds(raw, {i.primary.id}) && NoLegacy(raw) && Scrubbed(c, raw)
       case Deleting =>
         Allotted(content, i.primary) && OnlyIds(raw, {i.primary.id}) && NoLegacy(raw)
       case DeletingLegacyV1 =>
         OnlyIds(raw, {}) && OnlyLegacy(raw, i.primary)
       case _ => // ActiveWithPending, ActiveWithRetiring
         && Whole(raw, content, i.primary) && Allotted(content, i.secondary.value)
         && i.secondary.value.id != i.primary.id
         && OnlyIds(raw, {i.primary.id, i.secondary.value.id}) && NoLegacy(raw) && Scrubbed(c, raw)
  }

  /** Every reachable raw state: each v2 manifest and chunk belongs to a
      generation the inventory names, each legacy chunk to the legacy root or
      to the legacy generation the inventory names. */
  ghost predicate Inv(c: Codec, raw: Raw, content: Content) {
    && ContentOk(c, content)
    && Pieces(c, raw, content)
    && match ReadInventory(c, raw)
       case Err(_) => false
       case Ok(None) => OnlyIds(raw, {}) && LegacyOwnedByRoot(c, raw)
       case Ok(Some(i)) => Shape(c, raw, content, i)
  }

  /** What `get` answers, told from the inventory alone. */
  ghost function Meaning(c: Codec, raw: Raw, content: Content): Read
    requires Inv(c, raw, content)
  {
    match ReadInventory(c, raw)
    case Ok(None) => Unmanaged(c, raw)
    case Ok(Some(i)) =>
      match i.state
      case PreparingLegacy => Unmanaged(c, raw)
      case Deleting => Err(DeletionIncomplete)
      case DeletingLegacyV1 => Err(DeletionIncomplete)
      case _ => if Published(i) || HasMarker(c, raw) then Ok(Some(content[i.primary.id])) else Err(MarkerMissing)
  }

  // ------------------------------------------------------------ reading back

  lemma ManifestOfValid(c: Codec, id: WriteId, v: Bytes)
    requires Lawful(c) && Storable(c, id, v)
    ensures ValidManifest(ManifestOf(c, id, v))
    ensures ValidRef(RefOf(id, v))
  {
  }

  /** Appending chunk `i` of `v` to the first `i` chunks gives the first `i + 1`. */
  lemma AppendChunk(c: Codec, id: WriteId, v: Bytes, i: nat)
    requires Lawful(c) && Storable(c, id, v) && i < ChunkCount(|v|)
    ensures 72 * i <= |v|
    ensures 0 < |ChunkAt(v, i)| <= 72
    ensures 0 < |c.encode64(ChunkAt(v, i))| <= 96
    ensures Append(c, ManifestOf(c, id, v), i, v[..72 * i], c.encode64(ChunkAt(v, i))) ==
            Ok(v[..if 72 * (i + 1) < |v| then 72 * (i + 1) else |v|])
  {
    var chunk := ChunkAt(v, i);
    assert 72 * i < |v|;
    assert v[..72 * i] + chunk == v[..if 72 * (i + 1) < |v| then 72 * (i + 1) else |v|];
    assert c.decode64(c.encode64(chunk)) == Some(chunk);
  }

  function Prefix(v: Bytes, i: nat): Bytes {
    v[..if 72 * i < |v| then 72 * i else |v|]
  }

  ghost predicate Faithful(c: Codec, v: Bytes, fetched: seq<Read>) {
    && |fetched| == ChunkCount(|v|)
    && (forall i | 0 <= i < |fetched| ::
          fetched[i].Err? || fetched[i].value == None || fetched[i].value == Some(c.encode64(ChunkAt(v, i))))
  }

  /** A chunk loop fed with the right chunks or none at all yields the value or
      an error, and the value when every chunk is there. */
  lemma {:induction false} CollectFrom(c: Codec, id: WriteId, v: Bytes, fetched: seq<Read>, i: nat)
    requires Lawful(c) && Storable(c, id, v) && Faithful(c, v, fetched)
    requires i <= ChunkCount(|v|)
    ensures var r := Collect(c, ManifestOf(c, id, v), fetched, i, Prefix(v, i));
            && (r == Ok(v) || (r.Err? && exists j :: i <= j < |fetched| && !(fetched[j].Ok? && fetched[j].value.Some?)))
    decreases ChunkCount(|v|) - i
  {
    var m := ManifestOf(c, id, v);
    if i == m.count {
      assert Prefix(v, i) == v;
    } else if fetched[i].Ok? && fetched[i].value.Some? {
      AppendChunk(c, id, v, i);
      assert Prefix(v, i) == v[..72 * i];
      CollectFrom(c, id, v, fetched, i + 1);
    }
  }

  lemma CollectWhole(c: Codec, id: WriteId, v: Bytes, fetched: seq<Read>)
    requires Lawful(c) && Storable(c, id, v) && Faithful(c, v, fetched)
    ensures var r := Collect(c, ManifestOf(c, id, v), fetched, 0, []);
            && (r == Ok(v) || r.Err?)
            && ((forall j | 0 <= j < |fetched| :: fetched[j].Ok? && fetched[j].value.Some?) ==> r == Ok(v))
  {
    assert Prefix(v, 0) == [];
    CollectFrom(c, id, v, fetched, 0);
  }

  /** Chunk `j` of `v`, as it was read: its 72 bytes, or what is left. */
  ghost predicate IsSlice(c: Codec, v: Bytes, read: Read, j: nat) {
    && read.Ok? && read.value.Some? && 0 < |read.value.value| <= 96 && 72 * j <= |v|
    && c.decode64(read.value.value) == Some(v[72 * j..if 72 * j + 72 < |v| then 72 * j + 72 else |v|])
  }

  lemma {:induction false} CollectIsGenuine(c: Codec, m: Manifest, fetched: seq<Read>, i: nat, decoded: Bytes)
    requires |fetched| == m.count && i <= m.count && Collect(c, m, fetched, i, decoded).Ok?
    requires |decoded| == if 72 * i < m.length then 72 * i else m.length
    ensures var v := Collect(c, m, fetched, i, decoded).value;
            && decoded <= v && |v| == m.length && c.digest(v) == m.digest && c.utf8(v)
            && forall j | i <= j < m.count :: IsSlice(c, v, fetched[j], j)
    decreases m.count - i
  {
    if i < m.count {
      var next := Append(c, m, i, decoded, fetched[i].value.value).value;
      CollectIsGenuine(c, m, fetched, i + 1, next);
      var v := Collect(c, m, fetched, i, decoded).value;
      assert v[..|next|] == next;
      assert c.decode64(fetched[i].value.value).value == v[|decoded|..|next|];
    }
  }

  lemma MissingChunk(c: Codec, m: Manifest, fetched: seq<Read>)
    requires |fetched| == m.count && exists j :: 0 <= j < |fetched| && fetched[j] == Ok(None)
    ensures Collect(c, m, fetched, 0, []).Err?
  {
    if Collect(c, m, fetched, 0, []).Ok? {
      CollectIsGenuine(c, m, fetched, 0, []);
      hide Collect;
      var v := Collect(c, m, fetched, 0, []).value;
      var j :| 0 <= j < |fetched| && fetched[j] == Ok(None);
      var bad := IsSlice(c, v, fetched[j], j);
      assert false;
    }
  }

  /** Whatever a read of a generation yields is vouched for by its manifest: right
      identity, count, length and digest, text, and every chunk its slice. */
  lemma ReadIsGenuine(c: Codec, raw: Raw, g: GenerationRef)
    requires ReadGeneration(c, raw, g).Ok?
    ensures var v := ReadGeneration(c, raw, g).value;
            && ManifestKey(g.id) in raw && c.parseManifest(raw[ManifestKey(g.id)]).Some?
            && var m := c.parseManifest(raw[ManifestKey(g.id)]).value;
               && m.id == g.id && m.count == g.count && |v| == m.length && c.digest(v) == m.digest && c.utf8(v)
               && forall j: nat | j < m.count :: IsSlice(c, v, Lookup(raw, ChunkKey(g.id, j)), j)
  {
    var m := c.parseManifest(raw[ManifestKey(g.id)]).value;
    CollectIsGenuine(c, m, ChunkReads(raw, g.id, g.count), 0, []);
  }

  /** A generation whose pieces are all in place reads back as its value. */
  lemma ReadWhole(c: Codec, raw: Raw, content: Content, g: GenerationRef)
    requires Lawful(c) && ContentOk(c, content) && Pieces(c, raw, content) && Whole(raw, content, g)
    ensures ReadGeneration(c, raw, g) == Ok(content[g.id])
  {
    var v := content[g.id];
    ManifestOfValid(c, g.id, v);
    var fetched := ChunkReads(raw, g.id, g.count);
    forall i | 0 <= i < g.count
      ensures fetched[i] == Ok(Some(c.encode64(ChunkAt(v, i))))
    {
      AppendChunk(c, g.id, v, i);
      assert ChunkKey(g.id, i) in raw;
    }
    CollectWhole(c, g.id, v, fetched);
  }

  lemma GetIsMeaning(c: Codec, raw: Raw, content: Content)
    requires Lawful(c) && Inv(c, raw, content)
    ensures Get(c, raw) == Meaning(c, raw, content)
  {
    match ReadInventory(c, raw)
    case Ok(None) =>
    case Ok(Some(i)) =>
      if i.state.PreparingLegacy? || i.state.Deleting? || i.state.DeletingLegacyV1? {
      } else {
        ReadWhole(c, raw, content, i.primary);
      }
  }

  /** What one raw write of a mutation may do to the parts the unmanaged branch
      reads: legacy chunks and roots only go, the marker comes only under a published
      generation, and a published generation goes only by a recorded deletion that
      has removed the root. */
  ghost predicate Succeeds(c: Codec, a: Raw, b: Raw) {
    && (forall id: WriteId, i: nat | LegacyChunkKey(id, i) in b ::
          LegacyChunkKey(id, i) in a && b[LegacyChunkKey(id, i)] == a[LegacyChunkKey(id, i)])
    && (RootKey in b ==>
          (RootKey in a && b[RootKey] == a[RootKey]) || (b[RootKey] == c.marker && !Quiescent(c, b)))
    && (Quiescent(c, b) ==> Quiescent(c, a) || (Removing(c, a) && RootKey !in b))
  }

  ghost predicate Link(c: Codec, h: seq<Raw>, i: nat)
    requires 0 < i < |h|
  {
    Succeeds(c, h[i - 1], h[i])
  }

  ghost predicate Lineage(c: Codec, h: seq<Raw>) {
    forall i {:trigger Link(c, h, i)} | 0 < i < |h| :: Link(c, h, i)
  }

  lemma LineageGrows(c: Codec, h: seq<Raw>, raw: Raw)
    requires Lineage(c, h) && |h| > 0
    requires raw == h[|h| - 1] || Succeeds(c, h[|h| - 1], raw)
    ensures Lineage(c, h + [raw])
  {
    var longer := h + [raw];
    forall i | 0 < i < |longer| ensures Link(c, longer, i) {
      if i < |h| {
        assert Link(c, h, i);
      }
    }
  }

  /** The unmanaged reading depends on the root and the legacy chunks only. */
  lemma UnmanagedFrame(c: Codec, a: Raw, b: Raw)
    requires forall k: Part | k.RootKey? || k.LegacyChunkKey? :: Lookup(a, k) == Lookup(b, k)
    ensures Classify(c, a) == Classify(c, b) && Unmanaged(c, a) == Unmanaged(c, b)
  {
    assert Lookup(a, RootKey) == Lookup(b, RootKey);
    match Lookup(a, RootKey)
    case Err(_) =>
    case Ok(None) =>
    case Ok(Some(root)) =>
      if c.parseLegacy(root).Some? {
        var m := c.parseLegacy(root).value;
        assert LegacyReads(a, m.id, m.count) == LegacyReads(b, m.id, m.count);
        AnyChunkResult(m, LegacyReads(a, m.id, m.count), 0);
      }
  }
}
