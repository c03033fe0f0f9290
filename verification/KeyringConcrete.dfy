/** The encodings the keyring really uses satisfy what the protocol relies on. */
module KeyringConcrete {
  import opened Bytes
  import opened KeyringCodec
  import opened KeyringModel
  import opened KeyringSteps
  import Base64

  /** The real codec over a digest and a UTF-8 test, both left uninterpreted. */
  function RealCodec(digest: Bytes -> Bytes, utf8: Bytes -> bool): Codec {
    Codec(EncodeInventory, ParseInventory, EncodeManifest, ParseManifest, ParseLegacy,
          Base64.Encode, Base64.Decode, digest, utf8, ROOT_MARKER)
  }

  lemma RealCodecLawful(digest: Bytes -> Bytes, utf8: Bytes -> bool)
    requires forall b: Bytes :: |digest(b)| == 32
    ensures Lawful(RealCodec(digest, utf8))
  {
    hide EncodeInventory, ParseInventory, EncodeManifest, ParseManifest, ValidManifest, ValidInventory;
    hide Base64.Encode, Base64.Decode;
    forall i: Inventory | ValidInventory(i)
      ensures EncodeInventory(i).Some? && |EncodeInventory(i).value| <= MAX_LOGICAL_CREDENTIAL_BYTES
      ensures ParseInventory(EncodeInventory(i).value) == Some(i)
    {
      InventoryRoundTrip(i);
    }
    forall m: Manifest | ValidManifest(m)
      ensures EncodeManifest(m).Some? && |EncodeManifest(m).value| <= MAX_LOGICAL_CREDENTIAL_BYTES
      ensures ParseManifest(EncodeManifest(m).value) == Some(m)
    {
      ManifestRoundTrip(m);
    }
    forall b: Bytes ensures Base64.Decode(Base64.Encode(b)) == Some(b) {
      Base64.DecodeEncode(b);
    }
  }

  /** `raw` with every piece of generation `id`, holding `v`, written over it. */
  function Staged(c: Codec, raw: Raw, id: WriteId, v: Bytes, n: nat): (after: Raw)
    requires n <= ChunkCount(|v|)
    ensures forall i: nat | i < n :: ChunkKey(id, i) in after && after[ChunkKey(id, i)] == c.encode64(ChunkAt(v, i))
    ensures forall k: Part | !(k.ChunkKey? && k.id == id && k.index < n) ::
              k in after <==> k in raw || k == ManifestKey(id)
    ensures ManifestKey(id) in after
    ensures var m := c.encodeManifest(ManifestOf(c, id, v)); m.Some? ==> after[ManifestKey(id)] == m.value
  {
    if n == 0 then
      var m := c.encodeManifest(ManifestOf(c, id, v));
      raw[ManifestKey(id) := if m.Some? then m.value else []]
    else Staged(c, raw, id, v, n - 1)[ChunkKey(id, n - 1) := c.encode64(ChunkAt(v, n - 1))]
  }

  /** Writing a generation over any raw state and reading it back is the identity. */
  lemma StagedReads(c: Codec, raw: Raw, id: WriteId, v: Bytes)
    requires Lawful(c) && Storable(c, id, v)
    ensures ReadGeneration(c, Staged(c, raw, id, v, ChunkCount(|v|)), RefOf(id, v)) == Ok(v)
  {
    ManifestOfValid(c, id, v);
    var after := Staged(c, raw, id, v, ChunkCount(|v|));
    var fetched := ChunkReads(after, id, ChunkCount(|v|));
    forall i | 0 <= i < ChunkCount(|v|) ensures fetched[i] == Ok(Some(c.encode64(ChunkAt(v, i)))) {
      AppendChunk(c, id, v, i);
      assert ChunkKey(id, i) in after;
    }
    CollectWhole(c, id, v, fetched);
  }

  /** So it is through the real manifest, chunk and base64url encodings. */
  lemma StagedReadsBack(digest: Bytes -> Bytes, utf8: Bytes -> bool, raw: Raw, id: WriteId, v: Bytes)
    requires forall b: Bytes :: |digest(b)| == 32
    requires id != ZERO_ID && |v| <= MAX_LOGICAL_CREDENTIAL_BYTES && utf8(v)
    ensures var c := RealCodec(digest, utf8);
            ReadGeneration(c, Staged(c, raw, id, v, ChunkCount(|v|)), RefOf(id, v)) == Ok(v)
    ensures forall i: nat | i < ChunkCount(|v|) :: 0 < |Base64.Encode(ChunkAt(v, i))| <= 96
  {
    hide Lawful, ReadGeneration, Staged;
    var c := RealCodec(digest, utf8);
    RealCodecLawful(digest, utf8);
    StagedReads(c, raw, id, v);
    forall i: nat | i < ChunkCount(|v|) ensures 0 < |Base64.Encode(ChunkAt(v, i))| <= 96 {
      AppendChunk(c, id, v, i);
    }
  }

  /** Chunk `i` of `v` as it is stored: 72 bytes, or what is left, in base64url. */
  function StoredChunk(v: Bytes, i: nat): Bytes
    requires 72 * i <= |v|
  {
    Base64.Encode(v[72 * i..if 72 * i + 72 < |v| then 72 * i + 72 else |v|])
  }

  /** A credential as version 1 has left it: the root is a manifest under the version 1
      prefix, and every chunk lies under the identity it names. */
  ghost predicate LegacyItem(digest: Bytes -> Bytes, raw: Raw, id: WriteId, v: Bytes) {
    && (forall k :: k in raw <==> k == RootKey || (k.LegacyChunkKey? && k.id == id && 72 * k.index < |v|))
    && raw[RootKey] == Ascii("cfctl:keyring:v1:") +
         Base64.Encode([1] + id + ToBe((|v| + 71) / 72, 8) + ToBe(|v|, 8) + digest(v))
    && forall i: nat | 72 * i < |v| :: raw[LegacyChunkKey(id, i)] == StoredChunk(v, i)
  }

  /** What an interruption may have taken of its chunks. */
  ghost predicate LegacyRemains(whole: Raw, raw: Raw) {
    && raw.Keys <= whole.Keys && RootKey in raw && (forall k | k in raw :: raw[k] == whole[k])
  }

  /** A version 1 credential reads as its value, and its chunks belong to its root. */
  lemma LegacyItemReads(digest: Bytes -> Bytes, utf8: Bytes -> bool, raw: Raw, id: WriteId, v: Bytes)
    requires forall b: Bytes :: |digest(b)| == 32
    requires 0 < |v| <= 16384 && utf8(v) && (exists i | 0 <= i < 16 :: id[i] != 0) && LegacyItem(digest, raw, id, v)
    ensures var c := RealCodec(digest, utf8);
            && Untouched(c, raw) && Get(c, raw) == Ok(Some(v))
            && Classify(c, raw) == Ok(Confirmed(Manifest(id, (|v| + 71) / 72, |v|, digest(v))))
  {
    hide Lawful, Base64.Encode, Base64.Decode, ParseLegacy, LegacyReads, ToBe, Collect;
    var c, n := RealCodec(digest, utf8), (|v| + 71) / 72;
    var m := Manifest(id, n, |v|, digest(v));
    LegacyRootParses(digest, raw[RootKey], id, v);
    var fetched := LegacyReads(raw, id, n);
    LegacyFaithful(digest, utf8, raw, id, v);
    RealCodecLawful(digest, utf8);
    CollectWhole(c, id, v, fetched);
    assert fetched[0].value.Some?;
  }

  lemma LegacyRootParses(digest: Bytes -> Bytes, root: Bytes, id: WriteId, v: Bytes)
    requires |digest(v)| == 32 && 0 < |v| <= 16384 && (exists i | 0 <= i < 16 :: id[i] != 0)
    requires root == Ascii("cfctl:keyring:v1:") +
               Base64.Encode([1] + id + ToBe((|v| + 71) / 72, 8) + ToBe(|v|, 8) + digest(v))
    ensures ParseLegacy(root) == Some(Manifest(id, (|v| + 71) / 72, |v|, digest(v))) && |root| == 104
    ensures ValidManifestFields((|v| + 71) / 72, |v|) && id != ZERO_ID
  {
    hide Base64.Encode, Base64.Decode, ParseLegacy, ToBe;
    LegacyExactly(root, Manifest(id, (|v| + 71) / 72, |v|, digest(v)));
    NonzeroId(id);
  }

  lemma LegacyFaithful(digest: Bytes -> Bytes, utf8: Bytes -> bool, raw: Raw, id: WriteId, v: Bytes)
    requires 0 < |v| <= 16384 && LegacyItem(digest, raw, id, v)
    ensures var fetched := LegacyReads(raw, id, (|v| + 71) / 72);
            && Faithful(RealCodec(digest, utf8), v, fetched)
            && forall i | 0 <= i < |fetched| :: fetched[i].Ok? && fetched[i].value.Some?
  {
    var fetched := LegacyReads(raw, id, (|v| + 71) / 72);
    forall i | 0 <= i < |fetched|
      ensures fetched[i] == Ok(Some(Base64.Encode(ChunkAt(v, i))))
    {
      assert 72 * i < |v| && LegacyChunkKey(id, i) in raw;
      assert raw[LegacyChunkKey(id, i)] == StoredChunk(v, i);
    }
  }

  lemma RemainsFetched(digest: Bytes -> Bytes, whole: Raw, raw: Raw, id: WriteId, v: Bytes)
    requires 0 < |v| <= 16384 && LegacyItem(digest, whole, id, v) && LegacyRemains(whole, raw)
    ensures var fetched := LegacyReads(raw, id, (|v| + 71) / 72);
            && (forall j | 0 <= j < |fetched| :: fetched[j].Ok?)
            && (raw.Keys == {RootKey} <==> forall j | 0 <= j < |fetched| :: fetched[j].value.None?)
            && (raw.Keys == whole.Keys <==> forall j | 0 <= j < |fetched| :: fetched[j].value.Some?)
  {
    hide Base64.Encode;
    var n := (|v| + 71) / 72;
    var fetched := LegacyReads(raw, id, n);
    forall j | 0 <= j < n ensures fetched[j].Ok? && (fetched[j].value.Some? <==> LegacyChunkKey(id, j) in raw) {
      assert LegacyChunkKey(id, j) in raw ==> raw[LegacyChunkKey(id, j)] == StoredChunk(v, j);
    }
    if raw.Keys != {RootKey} {
      var k :| k in raw && k != RootKey;
      assert fetched[k.index].value.Some?;
    }
    if raw.Keys != whole.Keys {
      var k :| k in whole && k !in raw;
      assert fetched[k.index].value.None?;
    }
  }

  /** It is recognised while any of its chunks is left; with none its owner cannot be
      told, and with one missing there is no value to read. */
  lemma LegacyRemainsRead(digest: Bytes -> Bytes, utf8: Bytes -> bool, whole: Raw, raw: Raw, id: WriteId, v: Bytes)
    requires forall b: Bytes :: |digest(b)| == 32
    requires 0 < |v| <= 16384 && utf8(v) && (exists i | 0 <= i < 16 :: id[i] != 0)
    requires LegacyItem(digest, whole, id, v) && LegacyRemains(whole, raw)
    ensures var c, m := RealCodec(digest, utf8), Manifest(id, (|v| + 71) / 72, |v|, digest(v));
            && Classify(c, raw) == Ok(if raw.Keys == {RootKey} then Ambiguous else Confirmed(m))
            && (raw.Keys == {RootKey} ==> Get(c, raw) == Err(AmbiguousLegacy))
            && (raw.Keys != whole.Keys ==> Get(c, raw).Err?)
  {
    hide Lawful, Base64.Encode, Base64.Decode, ParseLegacy, ToBe, Collect, AnyChunk, StoredChunk;
    var c, m := RealCodec(digest, utf8), Manifest(id, (|v| + 71) / 72, |v|, digest(v));
    var fetched := LegacyReads(raw, id, m.count);
    assert raw[RootKey] == whole[RootKey];
    LegacyRootParses(digest, raw[RootKey], id, v);
    RemainsFetched(digest, whole, raw, id, v);
    hide LegacyItem, LegacyRemains;
    AnyChunkExactly(m, fetched, 0);
    if raw.Keys != whole.Keys {
      MissingChunk(c, m, fetched);
    }
  }

  /** An item that version 2 has never touched, and whose root is no version 1
      manifest, is the root itself, if it is not too long. */
  lemma PlainItemReads(digest: Bytes -> Bytes, utf8: Bytes -> bool, raw: Raw)
    requires InventoryKey !in raw && (RootKey in raw ==> !(Ascii("cfctl:keyring:v1:") <= raw[RootKey]))
    ensures Get(RealCodec(digest, utf8), raw) ==
              if RootKey !in raw then Ok(None)
              else if |raw[RootKey]| <= 16384 then Ok(Some(raw[RootKey])) else Err(TooLong)
  {
  }

  /** What a successful put leaves, byte for byte. */
  lemma ActiveItemBytes(digest: Bytes -> Bytes, utf8: Bytes -> bool, raw: Raw, content: Content, id: WriteId, v: Bytes)
    requires forall b: Bytes :: |digest(b)| == 32
    requires var c := RealCodec(digest, utf8);
             Inv(c, raw, content) && OneGeneration(c, raw, id, v) && id in content && content[id] == v
    ensures forall k :: k in raw <==> k in {RootKey, InventoryKey, ManifestKey(id)} ||
                                      (k.ChunkKey? && k.id == id && 72 * k.index < |v|)
    ensures raw[RootKey] == Ascii("cfctl:keyring:managed:v2")
    ensures raw[InventoryKey] == Ascii("cfctl:keyring:inventory:v2:") +
              Base64.Encode([2, 2] + id + ToBe((|v| + 71) / 72, 2) +
                            [0, 0, 0, 0, 0, 0, 0, 0, 0, 0, 0, 0, 0, 0, 0, 0] + ToBe(0, 2))
    ensures raw[ManifestKey(id)] == Ascii("cfctl:keyring:manifest:v2:") +
              Base64.Encode([2] + id + ToBe((|v| + 71) / 72, 8) + ToBe(|v|, 8) + digest(v))
    ensures forall i: nat | 72 * i < |v| :: raw[ChunkKey(id, i)] == StoredChunk(v, i)
  {
    hide Base64.Encode, Lawful, Get, ReadInventory, ToBe, ParseInventory, EncodeManifest, StoredChunk;
    ActiveInventory(raw, GenerationRef(id, ChunkCount(|v|)), RealCodec(digest, utf8));
    ActivePieces(digest, utf8, raw, content, id, v);
  }

  lemma ActiveInventory(raw: Raw, g: GenerationRef, c: Codec)
    requires c.parseInventory == ParseInventory && ReadInventory(c, raw) == Ok(Some(Inventory(Active, g, None)))
    ensures InventoryKey in raw
    ensures raw[InventoryKey] == Ascii("cfctl:keyring:inventory:v2:") +
              Base64.Encode([2, 2] + g.id + ToBe(g.count, 2) +
                            [0, 0, 0, 0, 0, 0, 0, 0, 0, 0, 0, 0, 0, 0, 0, 0] + ToBe(0, 2))
  {
    hide Base64.Encode, Base64.Decode, ParseInventory, ToBe;
    InventoryExactly(raw[InventoryKey], Inventory(Active, g, None));
  }

  lemma ActivePieces(digest: Bytes -> Bytes, utf8: Bytes -> bool, raw: Raw, content: Content, id: WriteId, v: Bytes)
    requires forall b: Bytes :: |digest(b)| == 32
    requires var c := RealCodec(digest, utf8);
             && Pieces(c, raw, content) && ContentOk(c, content)
             && id in content && content[id] == v && Complete(raw, id, v)
    ensures raw[ManifestKey(id)] == Ascii("cfctl:keyring:manifest:v2:") +
              Base64.Encode([2] + id + ToBe((|v| + 71) / 72, 8) + ToBe(|v|, 8) + digest(v))
    ensures forall i: nat | 72 * i < |v| :: ChunkKey(id, i) in raw && raw[ChunkKey(id, i)] == StoredChunk(v, i)
  {
    hide Base64.Encode, Base64.Decode, EncodeManifest, ParseManifest, ToBe;
    var m := Manifest(id, (|v| + 71) / 72, |v|, digest(v));
    ManifestRoundTrip(m);
    ManifestExactly(raw[ManifestKey(id)], m);
    forall j: nat | 72 * j < |v| ensures ChunkKey(id, j) in raw && raw[ChunkKey(id, j)] == StoredChunk(v, j) {
      assert j < ChunkCount(|v|);
    }
  }

  /** For a manifest that parses, the read loop's subtraction and products stay in range. */
  lemma ReadLoopArithmetic(s: Bytes, i: nat)
    requires ParseManifest(s).Some? && i < ParseManifest(s).value.count
    ensures i * CHUNK_SOURCE_BYTES < ParseManifest(s).value.length
    ensures i * CHUNK_SOURCE_BYTES + CHUNK_SOURCE_BYTES <= MAX_LOGICAL_CREDENTIAL_BYTES + CHUNK_SOURCE_BYTES < 0x1_0000
  {
    ManifestCanonical(s);
  }
}
