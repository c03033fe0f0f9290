/** One lemma for each raw write a keyring mutation makes: the invariant holds
    after it, and what `get` answers is told. */
module KeyringSteps {
  import opened Bytes
  import opened KeyringCodec
  import opened KeyringModel

  /** Taking the root from under an active inventory leaves an item that no longer answers. */
  lemma UprootStep(c: Codec, raw: Raw, content: Content, i: Inventory)
    requires Lawful(c) && Inv(c, raw, content) && ReadInventory(c, raw) == Ok(Some(i))
    requires !i.state.PreparingLegacy?
    ensures var after := raw - {RootKey};
            && Inv(c, after, content) && ReadInventory(c, after) == Ok(Some(i))
            && Get(c, after) == if Published(i) || Removing(c, raw) then Get(c, raw) else Err(MarkerMissing)
  {
    hide Get, Lawful, Unmanaged;
    var after := raw - {RootKey};
    assert ReadInventory(c, after) == Ok(Some(i));
    GetIsMeaning(c, raw, content);
    GetIsMeaning(c, after, content);
  }

  ghost predicate Untouched(c: Codec, raw: Raw) {
    InventoryKey !in raw && OnlyIds(raw, {}) && LegacyOwnedByRoot(c, raw)
  }

  lemma UntouchedIsReachable(c: Codec, raw: Raw)
    requires Untouched(c, raw)
    ensures Inv(c, raw, map[]) && ReadInventory(c, raw) == Ok(None)
  {
  }

  /** What `get` answers once inventory `i` is in place over `raw`. */
  ghost function Answer(c: Codec, raw: Raw, content: Content, i: Inventory): Read
    requires Shape(c, raw, content, i)
  {
    match i.state
    case PreparingLegacy => Unmanaged(c, raw)
    case Deleting => Err(DeletionIncomplete)
    case DeletingLegacyV1 => Err(DeletionIncomplete)
    case _ => if Published(i) || HasMarker(c, raw) then Ok(Some(content[i.primary.id])) else Err(MarkerMissing)
  }

  /** Writing an inventory whose shape the state already has. */
  lemma WriteInventoryStep(c: Codec, raw: Raw, content: Content, i: Inventory)
    requires Lawful(c) && ContentOk(c, content) && Pieces(c, raw, content)
    requires Shape(c, raw, content, i)
    ensures c.encodeInventory(i).Some?
    ensures var after := raw[InventoryKey := c.encodeInventory(i).value];
            && Inv(c, after, content) && ReadInventory(c, after) == Ok(Some(i))
            && Get(c, after) == Answer(c, raw, content, i)
  {
    hide Get, Unmanaged;
    var after := raw[InventoryKey := c.encodeInventory(i).value];
    assert ReadInventory(c, after) == Ok(Some(i));
    UnmanagedFrame(c, raw, after);
    GetIsMeaning(c, after, content);
  }

  lemma WriteInventorySucceeds(c: Codec, raw: Raw, content: Content, i: Inventory)
    requires Lawful(c) && Shape(c, raw, content, i)
    requires i.state.PreparingLegacy? ==> Quiescent(c, raw)
    ensures c.encodeInventory(i).Some?
    ensures Succeeds(c, raw, raw[InventoryKey := c.encodeInventory(i).value])
  {
    assert ReadInventory(c, raw[InventoryKey := c.encodeInventory(i).value]) == Ok(Some(i));
  }

  lemma DeleteInventorySucceeds(c: Codec, raw: Raw)
    requires Quiescent(c, raw) || (Removing(c, raw) && RootKey !in raw)
    ensures Succeeds(c, raw, raw - {InventoryKey})
  {
  }

  /** Writing a piece, or removing anything but the inventory. */
  lemma PieceSucceeds(c: Codec, raw: Raw, after: Raw, k: Part)
    requires !k.InventoryKey?
    requires after == raw - {k} ||
             ((k.ManifestKey? || k.ChunkKey?) && k in after && after == raw[k := after[k]])
    ensures Succeeds(c, raw, after)
  {
    assert Lookup(after, InventoryKey) == Lookup(raw, InventoryKey);
  }

  lemma ScrubSucceeds(c: Codec, raw: Raw)
    requires !Quiescent(c, raw)
    ensures Succeeds(c, raw, raw[RootKey := c.marker])
  {
    assert Lookup(raw[RootKey := c.marker], InventoryKey) == Lookup(raw, InventoryKey);
  }

  /** Removing the inventory once no generation is left. */
  lemma DeleteInventoryStep(c: Codec, raw: Raw, content: Content)
    requires Lawful(c) && ContentOk(c, content) && Pieces(c, raw, content)
    requires OnlyIds(raw, {}) && LegacyOwnedByRoot(c, raw)
    ensures var after := raw - {InventoryKey};
            && Inv(c, after, content) && ReadInventory(c, after) == Ok(None)
            && Get(c, after) == Unmanaged(c, raw)
  {
    UnmanagedFrame(c, raw, raw - {InventoryKey});
  }

  /** The generation being staged: written but not yet answered from. */
  predicate Staging(i: Inventory, g: GenerationRef) {
    (i.state.PreparingLegacy? && g == i.primary) || (i.state.ActiveWithPending? && i.secondary == Some(g))
  }

  /** The generation being removed. */
  predicate Dropping(i: Inventory, g: GenerationRef) {
    || ((i.state.PreparingLegacy? || i.state.Deleting?) && g == i.primary)
    || ((i.state.ActiveWithPending? || i.state.ActiveWithRetiring?) && i.secondary == Some(g))
  }

  predicate PieceOf(k: Part, g: GenerationRef) {
    k == ManifestKey(g.id) || (k.ChunkKey? && k.id == g.id && k.index < g.count)
  }

  /** The bytes piece `k` of the generation `id`, holding `v`, must have. */
  function PieceBytes(c: Codec, k: Part, v: Bytes): Option<Bytes>
    requires k.ManifestKey? || (k.ChunkKey? && k.index < ChunkCount(|v|))
  {
    if k.ManifestKey? then c.encodeManifest(ManifestOf(c, k.id, v)) else Some(c.encode64(ChunkAt(v, k.index)))
  }

  lemma StageShape(raw: Raw, content: Content, c: Codec, i: Inventory, g: GenerationRef, k: Part, bytes: Bytes)
    requires Shape(c, raw, content, i) && Staging(i, g) && PieceOf(k, g)
    ensures Shape(c, raw[k := bytes], content, i)
  {
    var after := raw[k := bytes];
    assert forall p: Part :: p in after <==> p in raw || p == k;
    assert RootKey in raw ==> after[RootKey] == raw[RootKey];
    if i.state.ActiveWithPending? {
      assert Whole(after, content, i.primary);
    }
  }

  lemma StagePieces(c: Codec, raw: Raw, content: Content, g: GenerationRef, k: Part)
    requires Lawful(c) && ContentOk(c, content) && Pieces(c, raw, content) && Allotted(content, g) && PieceOf(k, g)
    ensures PieceBytes(c, k, content[g.id]).Some?
    ensures Pieces(c, raw[k := PieceBytes(c, k, content[g.id]).value], content)
  {
    ManifestOfValid(c, g.id, content[g.id]);
  }

  lemma StageStep(c: Codec, raw: Raw, content: Content, i: Inventory, g: GenerationRef, k: Part)
    requires Lawful(c) && Inv(c, raw, content) && ReadInventory(c, raw) == Ok(Some(i))
    requires Staging(i, g) && PieceOf(k, g)
    ensures Allotted(content, g)
    ensures PieceBytes(c, k, content[g.id]).Some?
    ensures var after := raw[k := PieceBytes(c, k, content[g.id]).value];
            && Inv(c, after, content) && ReadInventory(c, after) == Ok(Some(i))
            && Get(c, after) == Get(c, raw)
  {
    hide Get, Unmanaged, Lawful, Pieces, PieceBytes;
    StagePieces(c, raw, content, g, k);
    var bytes := PieceBytes(c, k, content[g.id]).value;
    var after := raw[k := bytes];
    assert ReadInventory(c, after) == Ok(Some(i));
    StageShape(raw, content, c, i, g, k, bytes);
    UnmanagedFrame(c, raw, after);
    GetIsMeaning(c, raw, content);
    GetIsMeaning(c, after, content);
  }

  lemma DropShape(c: Codec, raw: Raw, content: Content, i: Inventory, g: GenerationRef, k: Part)
    requires Shape(c, raw, content, i) && Dropping(i, g) && PieceOf(k, g)
    ensures Shape(c, raw - {k}, content, i)
  {
    var after := raw - {k};
    assert forall p: Part :: p in after <==> p in raw && p != k;
    assert RootKey in raw ==> after[RootKey] == raw[RootKey];
    if i.state.ActiveWithPending? || i.state.ActiveWithRetiring? {
      assert Whole(after, content, i.primary);
    }
  }

  lemma DropStep(c: Codec, raw: Raw, content: Content, i: Inventory, g: GenerationRef, k: Part)
    requires Lawful(c) && Inv(c, raw, content) && ReadInventory(c, raw) == Ok(Some(i))
    requires Dropping(i, g) && PieceOf(k, g)
    ensures var after := raw - {k};
            && Inv(c, after, content) && ReadInventory(c, after) == Ok(Some(i))
            && Get(c, after) == Get(c, raw)
  {
    hide Get, Lawful, Unmanaged;
    var after := raw - {k};
    assert ReadInventory(c, after) == Ok(Some(i));
    DropShape(c, raw, content, i, g, k);
    assert Pieces(c, after, content);
    assert Inv(c, after, content);
    UnmanagedFrame(c, raw, after);
    GetIsMeaning(c, raw, content);
    GetIsMeaning(c, after, content);
  }

  /** Removing a retired legacy chunk, or the root, while the inventory no
      longer answers from either. */
  lemma DropLegacyStep(c: Codec, raw: Raw, content: Content, i: Inventory, k: Part)
    requires Lawful(c) && Inv(c, raw, content) && ReadInventory(c, raw) == Ok(Some(i))
    requires || (i.state.PublishedLegacyV1NeedsRootScrub? && k.LegacyChunkKey?)
             || (i.state.DeletingLegacyV1? && (k.LegacyChunkKey? || k.RootKey?))
             || (i.state.Deleting? && k.RootKey?)
    ensures var after := raw - {k};
            && Inv(c, after, content) && ReadInventory(c, after) == Ok(Some(i))
            && Get(c, after) == Get(c, raw)
  {
    hide Get, Lawful, Unmanaged;
    var after := raw - {k};
    assert ReadInventory(c, after) == Ok(Some(i));
    GetIsMeaning(c, raw, content);
    GetIsMeaning(c, after, content);
  }

  /** Scrubbing the root to the marker after publication. */
  lemma ScrubRootStep(c: Codec, raw: Raw, content: Content, i: Inventory)
    requires Lawful(c) && Inv(c, raw, content) && ReadInventory(c, raw) == Ok(Some(i))
    requires i.state.PublishedNeedsRootScrub? || i.state.PublishedLegacyV1NeedsRootScrub?
    ensures var after := raw[RootKey := c.marker];
            && Inv(c, after, content) && ReadInventory(c, after) == Ok(Some(i))
            && Get(c, after) == Get(c, raw)
  {
    hide Get, Unmanaged;
    var after := raw[RootKey := c.marker];
    assert ReadInventory(c, after) == Ok(Some(i));
    GetIsMeaning(c, raw, content);
    GetIsMeaning(c, after, content);
  }

  /** Deleting a root nothing manages. */
  lemma DeleteRootStep(c: Codec, raw: Raw, content: Content)
    requires Lawful(c) && Inv(c, raw, content) && ReadInventory(c, raw) == Ok(None)
    requires Classify(c, raw) == Ok(NotLegacy)
    ensures var after := raw - {RootKey};
            Inv(c, after, content) && after == map[] && Get(c, after) == Ok(None)
  {
    NotLegacyMeansNoChunks(c, raw);
    var after := raw - {RootKey};
    assert ReadInventory(c, after) == Ok(None);
    forall k | k in after ensures false {
      match k
      case RootKey =>
      case InventoryKey => InventoryKeyAbsent(c, raw);
      case ManifestKey(_) =>
      case ChunkKey(_, _) =>
      case LegacyChunkKey(_, _) =>
    }
    assert after == map[];
  }

  lemma InventoryKeyAbsent(c: Codec, raw: Raw)
    requires ReadInventory(c, raw) == Ok(None)
    ensures InventoryKey !in raw
  {
  }

  lemma NotLegacyMeansNoChunks(c: Codec, raw: Raw)
    requires LegacyOwnedByRoot(c, raw) && Classify(c, raw) == Ok(NotLegacy)
    ensures NoLegacy(raw)
  {
    if RootKey in raw && c.parseLegacy(raw[RootKey]).Some? {
      var m := c.parseLegacy(raw[RootKey]).value;
      AnyChunkResult(m, LegacyReads(raw, m.id, m.count), 0);
    }
  }

  lemma ConfirmedOwnsChunks(c: Codec, raw: Raw, m: Manifest)
    requires LegacyOwnedByRoot(c, raw) && Classify(c, raw) == Ok(Confirmed(m))
    ensures ValidRef(GenerationRef(m.id, m.count)) && ValidManifestFields(m.count, m.length)
    ensures OnlyLegacy(raw, GenerationRef(m.id, m.count))
  {
    var root := c.parseLegacy(raw[RootKey]).value;
    AnyChunkResult(root, LegacyReads(raw, root.id, root.count), 0);
  }

  /** A fresh allotment changes nothing already there. */
  lemma AllotStep(c: Codec, raw: Raw, content: Content, id: WriteId, v: Bytes)
    requires Lawful(c) && Storable(c, id, v) && id !in content
    ensures ContentOk(c, content) ==> ContentOk(c, content[id := v])
    ensures Pieces(c, raw, content) ==> Pieces(c, raw, content[id := v])
    ensures Inv(c, raw, content) ==> Inv(c, raw, content[id := v])
  {
    var more := content[id := v];
    assert forall g: GenerationRef :: Allotted(content, g) ==> Allotted(more, g);
  }

  /** Once active, the item is exactly the marker, the inventory and one generation. */
  ghost predicate OneGeneration(c: Codec, raw: Raw, id: WriteId, v: Bytes) {
    && raw.Keys == {RootKey, InventoryKey, ManifestKey(id)} + (set j: nat | j < ChunkCount(|v|) :: ChunkKey(id, j))
    && raw[RootKey] == c.marker
    && ReadInventory(c, raw) == Ok(Some(Inventory(Active, RefOf(id, v), None)))
  }

  lemma ActiveIsOneGeneration(c: Codec, raw: Raw, content: Content, g: GenerationRef)
    requires Lawful(c) && Inv(c, raw, content)
    requires ReadInventory(c, raw) == Ok(Some(Inventory(Active, g, None))) && HasMarker(c, raw)
    ensures OneGeneration(c, raw, g.id, content[g.id])
  {
    var v := content[g.id];
    assert ChunkCount(|v|) == g.count;
    var chunks := set j: nat | j < ChunkCount(|v|) :: ChunkKey(g.id, j);
    forall k: Part
      ensures k in raw <==> k in {RootKey, InventoryKey, ManifestKey(g.id)} + chunks
    {
      match k
      case RootKey =>
      case InventoryKey =>
      case ManifestKey(id) =>
      case ChunkKey(id, j) =>
      case LegacyChunkKey(id, j) =>
    }
  }
}
