/** One logical keyring item under mutation: the source's put, get, delete and
    reconcile over a raw store whose every operation may stop the caller. */
module KeyringSlot {
  import opened Bytes
  import opened KeyringCodec
  import opened KeyringModel
  import opened KeyringSteps

  type Outcome = Result<(), Error>

  /** Between histories `h0` and `h1` every raw state answers `a`. */
  ghost predicate Reads(c: Codec, h0: seq<Raw>, h1: seq<Raw>, a: Read) {
    && h0 <= h1
    && (forall i | |h0| <= i < |h1| :: Get(c, h1[i]) == a)
  }

  /** Between `h0` and `h1` the answer is `a` up to one point and `b` from there on. */
  ghost predicate Switches(c: Codec, h0: seq<Raw>, h1: seq<Raw>, a: Read, b: Read) {
    && h0 <= h1
    && (exists k {:trigger SwitchesAt(c, h0, h1, a, b, k)} :: SwitchesAt(c, h0, h1, a, b, k))
  }

  ghost predicate SwitchesAt(c: Codec, h0: seq<Raw>, h1: seq<Raw>, a: Read, b: Read, k: int) {
    && |h0| <= k <= |h1|
    && (forall i | |h0| <= i < k :: Get(c, h1[i]) == a)
    && (forall i | k <= i < |h1| :: Get(c, h1[i]) == b)
  }

  lemma ReadsNone(c: Codec, h: seq<Raw>, a: Read)
    ensures Reads(c, h, h, a)
  {
  }

  lemma ReadsJoin(c: Codec, h0: seq<Raw>, h1: seq<Raw>, h2: seq<Raw>, a: Read)
    requires Reads(c, h0, h1, a) && Reads(c, h1, h2, a)
    ensures Reads(c, h0, h2, a)
  {
    forall i | |h0| <= i < |h2| ensures Get(c, h2[i]) == a {
      if i < |h1| {
        assert h2[i] == h1[i];
      }
    }
  }

  lemma ReadsThenSwitches(c: Codec, h0: seq<Raw>, h1: seq<Raw>, h2: seq<Raw>, a: Read, b: Read)
    requires Reads(c, h0, h1, a) && Switches(c, h1, h2, a, b)
    ensures Switches(c, h0, h2, a, b)
  {
    var k :| SwitchesAt(c, h1, h2, a, b, k);
    forall i | |h0| <= i < k ensures Get(c, h2[i]) == a {
      if i < |h1| {
        assert h2[i] == h1[i];
      }
    }
    assert SwitchesAt(c, h0, h2, a, b, k);
  }

  lemma SwitchesThenReads(c: Codec, h0: seq<Raw>, h1: seq<Raw>, h2: seq<Raw>, a: Read, b: Read)
    requires Switches(c, h0, h1, a, b) && Reads(c, h1, h2, b)
    ensures Switches(c, h0, h2, a, b)
  {
    var k :| SwitchesAt(c, h0, h1, a, b, k);
    forall i | |h0| <= i < |h2| ensures Get(c, h2[i]) == if i < k then a else b {
      if i < |h1| {
        assert h2[i] == h1[i];
      }
    }
    assert SwitchesAt(c, h0, h2, a, b, k);
  }

  lemma ReadsIsSwitches(c: Codec, h0: seq<Raw>, h1: seq<Raw>, a: Read, b: Read)
    requires Reads(c, h0, h1, a)
    ensures Switches(c, h0, h1, a, b)
  {
    assert SwitchesAt(c, h0, h1, a, b, |h1|);
  }

  lemma OneSwitches(c: Codec, h0: seq<Raw>, raw: Raw, a: Read, b: Read)
    requires Get(c, raw) == a || Get(c, raw) == b
    ensures Switches(c, h0, h0 + [raw], a, b)
  {
    assert SwitchesAt(c, h0, h0 + [raw], a, b, if Get(c, raw) == a then |h0| + 1 else |h0|);
  }

  /** The states agree on everything but the pieces of `g`. */
  ghost predicate SameExcept(a: Raw, b: Raw, g: GenerationRef) {
    forall k: Part | !PieceOf(k, g) :: (k in a <==> k in b) && (k in a ==> a[k] == b[k])
  }

  lemma SameExceptDrop(a: Raw, b: Raw, d: Raw, g: GenerationRef, k: Part)
    requires SameExcept(a, b, g) && PieceOf(k, g) && (d == b || d == b - {k})
    ensures SameExcept(a, d, g)
  {
  }

  lemma SameClass(c: Codec, a: Raw, b: Raw, g: GenerationRef)
    requires SameExcept(a, b, g)
    ensures Classify(c, a) == Classify(c, b)
  {
    UnmanagedFrame(c, a, b);
  }

  /** Of the legacy generation `g` only chunks from `index` on are left. */
  ghost predicate LegacyLeft(raw: Raw, g: GenerationRef, index: nat) {
    forall id: WriteId, j: nat | LegacyChunkKey(id, j) in raw :: id == g.id && index <= j < g.count
  }

  /** Whether a stored item can be replaced: `get` answers, or only an unfinished
      deletion stops it. */
  predicate Usable(c: Codec, raw: Raw) {
    Get(c, raw).Ok? || Removing(c, raw)
  }

  /** Whether it can be deleted: also when it is managed and has lost its root. */
  predicate Deletable(c: Codec, raw: Raw) {
    Usable(c, raw) || Managed(c, raw)
  }

  lemma OnlyInventoryLeft(raw: Raw)
    requires OnlyIds(raw, {}) && NoLegacy(raw) && RootKey !in raw
    ensures raw.Keys <= {InventoryKey}
  {
    forall k | k in raw ensures k == InventoryKey {
      match k
      case InventoryKey =>
      case RootKey =>
      case ManifestKey(_) =>
      case ChunkKey(_, _) =>
      case LegacyChunkKey(_, _) =>
    }
  }

  /** The inventory that publishes a first put. */
  function PublishedInventory(g: GenerationRef, legacy: Legacy): Inventory {
    if legacy.Confirmed?
    then Inventory(PublishedLegacyV1NeedsRootScrub, g,
                   Some(GenerationRef(legacy.manifest.id, legacy.manifest.count)))
    else Inventory(PublishedNeedsRootScrub, g, None)
  }

  lemma ConfirmedIsRoot(c: Codec, raw: Raw)
    ensures match Classify(c, raw)
            case Ok(Confirmed(m)) => RootKey in raw && c.parseLegacy(raw[RootKey]) == Some(m)
            case _ => true
  {
    if RootKey in raw && c.parseLegacy(raw[RootKey]).Some? {
      var m := c.parseLegacy(raw[RootKey]).value;
      AnyChunkResult(m, LegacyReads(raw, m.id, m.count), 0);
    }
  }

  /** A put over an unfinished deletion: the deletion, absence, or the new value. */
  ghost predicate Recovers(c: Codec, h0: seq<Raw>, h1: seq<Raw>, v: Bytes) {
    && h0 <= h1
    && (forall i | |h0| <= i < |h1| ::
          Get(c, h1[i]) in {Err(DeletionIncomplete), Ok(None), Ok(Some(v))})
  }

  lemma NothingHappened(c: Codec, h: seq<Raw>, a: Read, v: Bytes)
    ensures Switches(c, h, h, a, Ok(Some(v))) && Recovers(c, h, h, v)
  {
    ReadsIsSwitches(c, h, h, a, Ok(Some(v)));
  }

  lemma SwitchesGrows(c: Codec, h0: seq<Raw>, h1: seq<Raw>)
    ensures forall a, b :: Switches(c, h0, h1, a, b) ==> h0 <= h1
    ensures forall a :: Reads(c, h0, h1, a) ==> h0 <= h1
  {
  }

  lemma RemovedOnly(c: Codec, h0: seq<Raw>, h1: seq<Raw>, v: Bytes)
    requires Switches(c, h0, h1, Err(DeletionIncomplete), Ok(None))
    ensures Recovers(c, h0, h1, v)
  {
    var k :| SwitchesAt(c, h0, h1, Err(DeletionIncomplete), Ok(None), k);
    forall i | |h0| <= i < |h1|
      ensures Get(c, h1[i]) in {Err(DeletionIncomplete), Ok(None), Ok(Some(v))}
    {
      assert i < k || k <= i;
    }
  }

  lemma RemovedThenPut(c: Codec, h0: seq<Raw>, h1: seq<Raw>, h2: seq<Raw>, v: Bytes)
    requires Recovers(c, h0, h1, v) && Switches(c, h1, h2, Ok(None), Ok(Some(v)))
    ensures Recovers(c, h0, h2, v)
  {
    var k :| SwitchesAt(c, h1, h2, Ok(None), Ok(Some(v)), k);
    forall i | |h0| <= i < |h2|
      ensures Get(c, h2[i]) in {Err(DeletionIncomplete), Ok(None), Ok(Some(v))}
    {
      if i < |h1| {
        assert h2[i] == h1[i];
      } else {
        assert i < k || k <= i;
      }
    }
  }

  /** While deleting, a reader sees the old answer, an unfinished deletion, or absence. */
  ghost predicate Deletes(c: Codec, h0: seq<Raw>, h1: seq<Raw>, a: Read) {
    && h0 <= h1
    && (forall i | |h0| <= i < |h1| :: Get(c, h1[i]) in {a, Err(DeletionIncomplete), Ok(None)})
  }

  lemma DeletesJoin(c: Codec, h0: seq<Raw>, h1: seq<Raw>, h2: seq<Raw>, a: Read)
    requires Deletes(c, h0, h1, a) && Switches(c, h1, h2, Err(DeletionIncomplete), Ok(None))
    ensures Deletes(c, h0, h2, a)
  {
    var k :| SwitchesAt(c, h1, h2, Err(DeletionIncomplete), Ok(None), k);
    forall i | |h0| <= i < |h2| ensures Get(c, h2[i]) in {a, Err(DeletionIncomplete), Ok(None)} {
      if i < |h1| {
        assert h2[i] == h1[i];
      } else {
        assert i < k || k <= i;
      }
    }
  }

  lemma ReconciledDeletes(c: Codec, h0: seq<Raw>, h1: seq<Raw>, a: Read)
    requires Reads(c, h0, h1, a) || Switches(c, h0, h1, Err(DeletionIncomplete), Ok(None))
    ensures Deletes(c, h0, h1, a) && h0 <= h1
  {
    if !Reads(c, h0, h1, a) {
      DeletesJoin(c, h0, h0, h1, a);
    }
  }

  lemma DeletesTwice(c: Codec, h0: seq<Raw>, h1: seq<Raw>, h2: seq<Raw>, a: Read, b: Read)
    requires Reads(c, h0, h1, a) || Switches(c, h0, h1, Err(DeletionIncomplete), Ok(None))
    requires b in {a, Err(DeletionIncomplete), Ok(None)} && Deletes(c, h1, h2, b)
    ensures Deletes(c, h0, h2, a) && h0 <= h2
  {
    ReconciledDeletes(c, h0, h1, a);
    forall i | |h0| <= i < |h2| ensures Get(c, h2[i]) in {a, Err(DeletionIncomplete), Ok(None)} {
      if i < |h1| {
        assert h2[i] == h1[i];
      }
    }
  }

  predicate HasLineBreak(v: Bytes) {
    exists i | 0 <= i < |v| :: v[i] == 10 || v[i] == 13
  }

  predicate Writable(v: Bytes) {
    !HasLineBreak(v) && |v| <= MAX_LOGICAL_CREDENTIAL_BYTES
  }

  lemma WritableExactly(v: Bytes)
    ensures Writable(v) <==> |v| <= 16384 && '\n' as int !in v && '\r' as int !in v
  {
  }

  class Slot {
    const c: Codec
    var raw: Raw
    /** While set, raw operations neither fail nor stop. */
    var reliable: bool
    /** While set, raw reads do not fail, whatever becomes of writes. */
    var steady: bool
    ghost var content: Content
    /** Every raw state the item has been in. */
    ghost var history: seq<Raw>

    ghost predicate Valid()
      reads this
    {
      && Lawful(c)
      && Inv(c, raw, content)
      && |history| > 0 && history[|history| - 1] == raw
      && (forall i | 0 <= i < |history| :: Inv(c, history[i], content))
      && Lineage(c, history)
    }

    /** An item no v2 put has touched: any root, and only the legacy chunks it names. */
    constructor (c: Codec, raw: Raw)
      requires Lawful(c) && Untouched(c, raw)
      ensures Valid() && this.c == c && this.raw == raw && content == map[] && history == [raw] && !reliable
    {
      this.c := c;
      this.raw := raw;
      this.reliable, this.steady := false, false;
      this.content := map[];
      this.history := [raw];
      new;
      UntouchedIsReachable(c, raw);
    }

    /** An item found in a state an earlier run has left. */
    constructor Resume(c: Codec, raw: Raw, reliable: bool, steady: bool, ghost content: Content)
      requires Lawful(c) && Inv(c, raw, content)
      ensures Valid() && this.c == c && this.raw == raw && this.content == content && history == [raw]
      ensures this.reliable == reliable && this.steady == steady
    {
      this.c := c;
      this.raw := raw;
      this.reliable, this.steady := reliable, steady;
      this.content := content;
      this.history := [raw];
    }

    /** Since `h0` and `raw0` nothing a reader sees has changed: every raw state
        answers as `raw0` did, under inventory `i`. */
    ghost predicate Quiet(i: Inventory, h0: seq<Raw>, raw0: Raw)
      reads this
    {
      && Valid() && ReadInventory(c, raw) == Ok(Some(i))
      && Reads(c, h0, history, Get(c, raw0)) && Get(c, raw) == Get(c, raw0)
    }

    lemma QuietReads(i: Inventory, h0: seq<Raw>, raw0: Raw)
      requires Quiet(i, h0, raw0)
      ensures Valid() && ReadInventory(c, raw) == Ok(Some(i))
      ensures Reads(c, h0, history, Get(c, raw0)) && Get(c, raw) == Get(c, raw0)
    {
    }

    lemma QuietJoin(i: Inventory, h0: seq<Raw>, raw0: Raw, h1: seq<Raw>, raw1: Raw)
      requires Quiet(i, h1, raw1) && Reads(c, h0, h1, Get(c, raw0)) && Get(c, raw1) == Get(c, raw0)
      ensures Quiet(i, h0, raw0)
    {
      ReadsJoin(c, h0, h1, history, Get(c, raw0));
    }

    // ------------------------------------------------------------ raw operations

    /** A raw write takes effect or not, and reports either way. */
    method RawPut(k: Part, v: Bytes) returns (reported: bool)
      modifies this`raw, this`history
      ensures raw == old(raw) || raw == old(raw)[k := v]
      ensures history == old(history) + [raw]
      ensures reliable ==> reported && raw == old(raw)[k := v]
    {
      var effect: bool := *;
      reported := *;
      if reliable {
        effect, reported := true, true;
      }
      if effect {
        raw := raw[k := v];
      }
      history := history + [raw];
    }

    method RawDelete(k: Part) returns (reported: bool)
      modifies this`raw, this`history
      ensures raw == old(raw) || raw == old(raw) - {k}
      ensures history == old(history) + [raw]
      ensures reliable ==> reported && raw == old(raw) - {k}
    {
      var effect: bool := *;
      reported := *;
      if reliable {
        effect, reported := true, true;
      }
      if effect {
        raw := raw - {k};
      }
      history := history + [raw];
    }

    /** A bounded raw read, or a fault. */
    method RawGet(k: Part) returns (r: Read)
      ensures r == Lookup(raw, k) || r == Err(Fault)
      ensures reliable || steady ==> r == Lookup(raw, k)
    {
      var fault: bool := *;
      if fault && !reliable && !steady {
        return Err(Fault);
      }
      r := Lookup(raw, k);
    }

    /** A point where the caller may stop. */
    method Checkpoint() returns (r: Outcome)
      ensures reliable ==> r.Ok?
    {
      var stop: bool := *;
      r := if stop && !reliable then Err(Fault) else Ok(());
    }

    method PutExact(k: Part, v: Bytes) returns (r: Outcome)
      requires Valid() && Inv(c, raw[k := v], content) && |v| <= MAX_LOGICAL_CREDENTIAL_BYTES
      requires Succeeds(c, raw, raw[k := v])
      modifies this`raw, this`history
      ensures Valid() && history == old(history) + [raw]
      ensures raw == old(raw) || raw == old(raw)[k := v]
      ensures r.Ok? ==> raw == old(raw)[k := v]
      ensures steady ==> (r.Ok? <==> raw == old(raw)[k := v])
      ensures reliable ==> r.Ok?
    {
      hide Succeeds, Lineage;
      ghost var h := history;
      var reported := RawPut(k, v);
      LineageGrows(c, h, raw);
      var readback := RawGet(k);
      if readback == Ok(Some(v)) {
        assert raw == old(raw)[k := v];
        return Ok(());
      }
      if readback.Err? {
        return Err(Fault);
      }
      r := if reported then Err(NotExact) else Err(Fault);
    }

    method DeleteExact(k: Part) returns (r: Outcome)
      requires Valid() && Inv(c, raw - {k}, content)
      requires Succeeds(c, raw, raw - {k})
      modifies this`raw, this`history
      ensures Valid() && history == old(history) + [raw]
      ensures raw == old(raw) || raw == old(raw) - {k}
      ensures r.Ok? ==> raw == old(raw) - {k}
      ensures steady ==> (r.Ok? <==> raw == old(raw) - {k})
      ensures reliable ==> r.Ok?
    {
      hide Succeeds, Lineage;
      ghost var h := history;
      r := DeleteRaw(k);
      LineageGrows(c, h, raw);
    }

    /** The source's `delete_raw_exact`, whatever the state. */
    method DeleteRaw(k: Part) returns (r: Outcome)
      modifies this`raw, this`history
      ensures history == old(history) + [raw]
      ensures raw == old(raw) || raw == old(raw) - {k}
      ensures r.Ok? ==> raw == old(raw) - {k}
      ensures steady ==> (r.Ok? <==> raw == old(raw) - {k})
      ensures reliable ==> r.Ok?
    {
      var reported := RawDelete(k);
      var readback := RawGet(k);
      if readback == Ok(None) {
        assert raw == old(raw) - {k};
        return Ok(());
      }
      if readback.Err? {
        return Err(Fault);
      }
      r := if reported then Err(NotExact) else Err(Fault);
    }

    // ------------------------------------------------------------------ reading

    method FetchInventory() returns (r: Result<Option<Inventory>, Error>)
      ensures r == ReadInventory(c, raw) || r == Err(Fault)
      ensures reliable || steady ==> r == ReadInventory(c, raw)
    {
      var s := RawGet(InventoryKey);
      match s {
        case Err(e) => r := Err(e);
        case Ok(None) => r := Ok(None);
        case Ok(Some(bytes)) =>
          r := if c.parseInventory(bytes).None? then Err(InvalidInventory) else Ok(c.parseInventory(bytes));
      }
    }

    method FetchChunks(m: Manifest, legacy: bool) returns (r: Result<Bytes, Error>)
      ensures var fetched := if legacy then LegacyReads(raw, m.id, m.count) else ChunkReads(raw, m.id, m.count);
              && (r == Collect(c, m, fetched, 0, []) || r == Err(Fault))
              && (reliable || steady ==> r == Collect(c, m, fetched, 0, []))
    {
      ghost var fetched := if legacy then LegacyReads(raw, m.id, m.count) else ChunkReads(raw, m.id, m.count);
      var decoded: Bytes := [];
      var i := 0;
      while i < m.count
        invariant i <= m.count
        invariant Collect(c, m, fetched, i, decoded) == Collect(c, m, fetched, 0, [])
      {
        var encoded := RawGet(if legacy then LegacyChunkKey(m.id, i) else ChunkKey(m.id, i));
        if encoded.Err? {
          return Err(encoded.error);
        }
        if encoded.value.None? {
          return Err(ChunkMissing);
        }
        var next := Append(c, m, i, decoded, encoded.value.value);
        if next.Err? {
          return Err(next.error);
        }
        decoded := next.value;
        i := i + 1;
      }
      if |decoded| != m.length || c.digest(decoded) != m.digest {
        return Err(DigestMismatch);
      }
      if !c.utf8(decoded) {
        return Err(NotUtf8);
      }
      r := Ok(decoded);
    }

    method FetchGeneration(g: GenerationRef) returns (r: Result<Bytes, Error>)
      ensures r == ReadGeneration(c, raw, g) || r == Err(Fault)
      ensures reliable || steady ==> r == ReadGeneration(c, raw, g)
    {
      var encoded := RawGet(ManifestKey(g.id));
      if encoded.Err? {
        return Err(encoded.error);
      }
      if encoded.value.None? {
        return Err(ManifestMissing);
      }
      var m := c.parseManifest(encoded.value.value);
      if m.None? || m.value.id != g.id || m.value.count != g.count {
        return Err(InvalidManifest);
      }
      r := FetchChunks(m.value, false);
    }

    method FetchLegacyState() returns (r: Result<Legacy, Error>)
      ensures r == Classify(c, raw) || r == Err(Fault)
      ensures reliable || steady ==> r == Classify(c, raw)
    {
      var root := RawGet(RootKey);
      if root.Err? {
        return Err(root.error);
      }
      if root.value.None? || c.parseLegacy(root.value.value).None? {
        return Ok(NotLegacy);
      }
      var m := c.parseLegacy(root.value.value).value;
      if !ValidManifestFields(m.count, m.length) || m.id == ZERO_ID {
        return Err(InvalidManifest);
      }
      ghost var fetched := LegacyReads(raw, m.id, m.count);
      var i := 0;
      while i < m.count
        invariant i <= m.count
        invariant AnyChunk(m, fetched, i) == AnyChunk(m, fetched, 0)
      {
        var chunk := RawGet(LegacyChunkKey(m.id, i));
        if chunk.Err? {
          return Err(chunk.error);
        }
        if chunk.value.Some? {
          return Ok(Confirmed(m));
        }
        i := i + 1;
      }
      r := Ok(Ambiguous);
    }

    method FetchUnmanaged() returns (r: Read)
      ensures r == Unmanaged(c, raw) || r == Err(Fault)
      ensures reliable || steady ==> r == Unmanaged(c, raw)
    {
      var legacy := FetchLegacyState();
      match legacy {
        case Err(e) => r := Err(e);
        case Ok(Ambiguous) => r := Err(AmbiguousLegacy);
        case Ok(NotLegacy) => r := RawGet(RootKey);
        case Ok(Confirmed(m)) =>
          var v := FetchChunks(m, true);
          r := Present(v);
      }
    }

    method RequireMarker() returns (r: Outcome)
      ensures r == RootIsMarker(c, Lookup(raw, RootKey)) || r == Err(Fault)
      ensures reliable || steady ==> r == RootIsMarker(c, Lookup(raw, RootKey))
    {
      var root := RawGet(RootKey);
      r := RootIsMarker(c, root);
    }

    /** The source's `get_with`. */
    method Fetch() returns (r: Read)
      ensures r == Get(c, raw) || r == Err(Fault)
      ensures reliable || steady ==> r == Get(c, raw)
    {
      var inventory := FetchInventory();
      if inventory.Err? {
        return Err(inventory.error);
      }
      if inventory.value.None? {
        r := FetchUnmanaged();
        return;
      }
      var i := inventory.value.value;
      if i.state.PreparingLegacy? {
        r := FetchUnmanaged();
        return;
      }
      if i.state.Deleting? || i.state.DeletingLegacyV1? {
        return Err(DeletionIncomplete);
      }
      if !i.state.PublishedNeedsRootScrub? && !i.state.PublishedLegacyV1NeedsRootScrub? {
        var root := RequireMarker();
        if root.Err? {
          return Err(root.error);
        }
      }
      var v := FetchGeneration(i.primary);
      r := Present(v);
    }

    // ---------------------------------------------------------- mutation pieces

    method WriteInventory(i: Inventory) returns (r: Outcome)
      requires Valid() && Shape(c, raw, content, i)
      requires i.state.PreparingLegacy? ==> Quiescent(c, raw)
      modifies this`raw, this`history
      ensures Valid() && history == old(history) + [raw]
      ensures c.encodeInventory(i).Some?
      ensures raw == old(raw) || raw == old(raw)[InventoryKey := c.encodeInventory(i).value]
      ensures Get(c, raw) == old(Get(c, raw)) || Get(c, raw) == old(Answer(c, raw, content, i))
      ensures r.Ok? ==> raw == old(raw)[InventoryKey := c.encodeInventory(i).value]
      ensures r.Ok? ==> ReadInventory(c, raw) == Ok(Some(i)) && Get(c, raw) == old(Answer(c, raw, content, i))
      ensures reliable ==> r.Ok?
    {
      WriteInventoryStep(c, raw, content, i);
      WriteInventorySucceeds(c, raw, content, i);
      hide Succeeds, Lineage, Lawful;
      var encoded := c.encodeInventory(i);
      if encoded.None? {
        return Err(InvalidInventory);
      }
      r := PutExact(InventoryKey, encoded.value);
      if r.Ok? {
        r := Checkpoint();
      }
    }

    method DeleteInventory() returns (r: Outcome)
      requires Valid() && OnlyIds(raw, {}) && LegacyOwnedByRoot(c, raw)
      requires Quiescent(c, raw) || (Removing(c, raw) && RootKey !in raw)
      modifies this`raw, this`history
      ensures Valid() && history == old(history) + [raw]
      ensures raw == old(raw) || raw == old(raw) - {InventoryKey}
      ensures Get(c, raw) == old(Get(c, raw)) || Get(c, raw) == old(Unmanaged(c, raw))
      ensures r.Ok? ==> raw == old(raw) - {InventoryKey} && ReadInventory(c, raw) == Ok(None)
      ensures r.Ok? ==> Get(c, raw) == old(Unmanaged(c, raw))
      ensures reliable ==> r.Ok?
    {
      DeleteInventoryStep(c, raw, content);
      DeleteInventorySucceeds(c, raw);
      hide Succeeds, Lineage;
      r := DeleteExact(InventoryKey);
      if r.Ok? {
        r := Checkpoint();
      }
    }

    method DropPiece(ghost i: Inventory, g: GenerationRef, k: Part) returns (r: Outcome)
      requires Valid() && ReadInventory(c, raw) == Ok(Some(i)) && Dropping(i, g) && PieceOf(k, g)
      modifies this`raw, this`history
      ensures Quiet(i, old(history), old(raw))
      ensures raw == old(raw) || raw == old(raw) - {k}
      ensures r.Ok? ==> k !in raw
      ensures reliable ==> r.Ok?
    {
      DropStep(c, raw, content, i, g, k);
      PieceSucceeds(c, raw, raw - {k}, k);
      hide Succeeds, Lineage;
      r := DeleteExact(k);
      if r.Ok? {
        r := Checkpoint();
      }
    }

    /** The stored manifest of a generation about to be removed must match it. */
    method CheckManifest(g: GenerationRef) returns (r: Outcome)
      requires Valid() && Allotted(content, g)
      ensures reliable ==> r.Ok?
    {
      ManifestOfValid(c, g.id, content[g.id]);
      var encoded := RawGet(ManifestKey(g.id));
      if encoded.Err? {
        return Err(encoded.error);
      }
      if encoded.value.Some? {
        var m := c.parseManifest(encoded.value.value);
        if m.None? || m.value.id != g.id || m.value.count != g.count {
          return Err(InvalidManifest);
        }
      }
      r := Ok(());
    }

    method DropChunks(ghost i: Inventory, g: GenerationRef) returns (r: Outcome)
      requires Valid() && ReadInventory(c, raw) == Ok(Some(i)) && Dropping(i, g)
      modifies this`raw, this`history
      ensures Quiet(i, old(history), old(raw)) && SameExcept(old(raw), raw, g)
      ensures r.Ok? ==> forall j: nat | j < g.count :: ChunkKey(g.id, j) !in raw
      ensures reliable ==> r.Ok?
    {
      hide Valid, Get, ReadInventory, Dropping;
      var index := 0;
      r := Ok(());
      while index < g.count
        invariant index <= g.count && (reliable ==> r.Ok?)
        invariant Quiet(i, old(history), old(raw)) && SameExcept(old(raw), raw, g)
        invariant forall j: nat | j < index :: ChunkKey(g.id, j) !in raw
      {
        ghost var h, before := history, raw;
        r := DropPiece(i, g, ChunkKey(g.id, index));
        QuietJoin(i, old(history), old(raw), h, before);
        if r.Err? {
          return;
        }
        index := index + 1;
      }
    }

    lemma DroppingIsAllotted(i: Inventory, g: GenerationRef)
      requires Valid() && ReadInventory(c, raw) == Ok(Some(i)) && Dropping(i, g)
      ensures Allotted(content, g)
    {
    }

    /** The source's `cleanup_generation`. */
    method CleanupGeneration(ghost i: Inventory, g: GenerationRef) returns (r: Outcome)
      requires Valid() && ReadInventory(c, raw) == Ok(Some(i)) && Dropping(i, g)
      modifies this`raw, this`history
      ensures Quiet(i, old(history), old(raw)) && SameExcept(old(raw), raw, g)
      ensures r.Ok? ==> forall k: Part | k in raw :: !PieceOf(k, g)
      ensures reliable ==> r.Ok?
    {
      DroppingIsAllotted(i, g);
      hide Valid, Get, ReadInventory, Dropping, Allotted;
      r := CheckManifest(g);
      if r.Err? {
        return;
      }
      r := DropChunks(i, g);
      if r.Err? {
        return;
      }
      ghost var h, before := history, raw;
      r := DropPiece(i, g, ManifestKey(g.id));
      QuietJoin(i, old(history), old(raw), h, before);
      SameExceptDrop(old(raw), before, raw, g, ManifestKey(g.id));
      hide SameExcept;
    }

    method DropLegacyItem(ghost i: Inventory, k: Part) returns (r: Outcome)
      requires Valid() && ReadInventory(c, raw) == Ok(Some(i))
      requires || (i.state.PublishedLegacyV1NeedsRootScrub? && k.LegacyChunkKey?)
               || (i.state.DeletingLegacyV1? && (k.LegacyChunkKey? || k.RootKey?))
               || (i.state.Deleting? && k.RootKey?)
      modifies this`raw, this`history
      ensures Quiet(i, old(history), old(raw))
      ensures raw == old(raw) || raw == old(raw) - {k}
      ensures r.Ok? ==> k !in raw
      ensures reliable ==> r.Ok?
    {
      DropLegacyStep(c, raw, content, i, k);
      PieceSucceeds(c, raw, raw - {k}, k);
      hide Succeeds, Lineage;
      r := DeleteExact(k);
      if r.Ok? {
        r := Checkpoint();
      }
    }

    predicate RetiringLegacy(i: Inventory, g: GenerationRef) {
      || (i.state.PublishedLegacyV1NeedsRootScrub? && i.secondary == Some(g))
      || (i.state.DeletingLegacyV1? && i.primary == g)
    }

    lemma RetiringOwnsChunks(i: Inventory, g: GenerationRef)
      requires Valid() && ReadInventory(c, raw) == Ok(Some(i)) && RetiringLegacy(i, g)
      ensures LegacyLeft(raw, g, 0)
    {
    }

    method DropLegacyChunk(ghost i: Inventory, g: GenerationRef, index: nat) returns (r: Outcome)
      requires Valid() && ReadInventory(c, raw) == Ok(Some(i)) && RetiringLegacy(i, g)
      requires index < g.count && LegacyLeft(raw, g, index)
      modifies this`raw, this`history
      ensures Quiet(i, old(history), old(raw))
      ensures r.Ok? ==> LegacyLeft(raw, g, index + 1)
      ensures reliable ==> r.Ok?
    {
      r := DropLegacyItem(i, LegacyChunkKey(g.id, index));
    }

    /** The source's `cleanup_legacy_v1_generation`. */
    method CleanupLegacy(ghost i: Inventory, g: GenerationRef) returns (r: Outcome)
      requires Valid() && ReadInventory(c, raw) == Ok(Some(i)) && RetiringLegacy(i, g)
      modifies this`raw, this`history
      ensures Quiet(i, old(history), old(raw))
      ensures r.Ok? ==> NoLegacy(raw)
      ensures reliable ==> r.Ok?
    {
      RetiringOwnsChunks(i, g);
      hide Valid, Get, ReadInventory, RetiringLegacy;
      var index := 0;
      r := Ok(());
      while index < g.count
        invariant index <= g.count && (reliable ==> r.Ok?)
        invariant Quiet(i, old(history), old(raw)) && LegacyLeft(raw, g, index)
      {
        ghost var h, before := history, raw;
        r := DropLegacyChunk(i, g, index);
        QuietJoin(i, old(history), old(raw), h, before);
        if r.Err? {
          return;
        }
        index := index + 1;
      }
    }

    method StagePiece(ghost i: Inventory, g: GenerationRef, k: Part, bytes: Bytes) returns (r: Outcome)
      requires Valid() && ReadInventory(c, raw) == Ok(Some(i)) && Staging(i, g) && PieceOf(k, g)
      requires Allotted(content, g) && PieceBytes(c, k, content[g.id]) == Some(bytes)
      requires |bytes| <= MAX_LOGICAL_CREDENTIAL_BYTES
      modifies this`raw, this`history
      ensures Quiet(i, old(history), old(raw))
      ensures raw == old(raw) || raw == old(raw)[k := bytes]
      ensures r.Ok? ==> k in raw
      ensures reliable ==> r.Ok?
    {
      StageStep(c, raw, content, i, g, k);
      PieceSucceeds(c, raw, raw[k := bytes], k);
      hide Succeeds, Lineage;
      r := PutExact(k, bytes);
      if r.Ok? {
        r := Checkpoint();
      }
    }

    method StageChunk(ghost i: Inventory, g: GenerationRef, value: Bytes, index: nat) returns (r: Outcome)
      requires Valid() && ReadInventory(c, raw) == Ok(Some(i)) && Staging(i, g) && index < g.count
      requires Allotted(content, g) && content[g.id] == value && Storable(c, g.id, value)
      modifies this`raw, this`history
      ensures Quiet(i, old(history), old(raw)) && SameExcept(old(raw), raw, g)
      ensures raw.Keys >= old(raw.Keys)
      ensures r.Ok? ==> ChunkKey(g.id, index) in raw
      ensures reliable ==> r.Ok?
    {
      AppendChunk(c, g.id, value, index);
      var encoded := c.encode64(ChunkAt(value, index));
      ReadsNone(c, history, Get(c, raw));
      if |encoded| > 96 {
        return Err(InvalidManifest);
      }
      r := StagePiece(i, g, ChunkKey(g.id, index), encoded);
    }

    method StageChunks(ghost i: Inventory, g: GenerationRef, value: Bytes) returns (r: Outcome)
      requires Valid() && ReadInventory(c, raw) == Ok(Some(i)) && Staging(i, g)
      requires Allotted(content, g) && content[g.id] == value && Storable(c, g.id, value)
      modifies this`raw, this`history
      ensures Quiet(i, old(history), old(raw)) && SameExcept(old(raw), raw, g)
      ensures raw.Keys >= old(raw.Keys)
      ensures r.Ok? ==> forall j: nat | j < g.count :: ChunkKey(g.id, j) in raw
      ensures reliable ==> r.Ok?
    {
      hide Valid, Get, ReadInventory, Staging, Storable, Allotted;
      var index := 0;
      r := Ok(());
      while index < g.count
        invariant index <= g.count && (reliable ==> r.Ok?)
        invariant Quiet(i, old(history), old(raw)) && SameExcept(old(raw), raw, g)
        invariant raw.Keys >= old(raw.Keys)
        invariant forall j: nat | j < index :: ChunkKey(g.id, j) in raw
      {
        ghost var h, before := history, raw;
        r := StageChunk(i, g, value, index);
        QuietJoin(i, old(history), old(raw), h, before);
        if r.Err? {
          return;
        }
        index := index + 1;
      }
    }

    /** The source's `stage_generation`. */
    method StageGeneration(ghost i: Inventory, g: GenerationRef, value: Bytes) returns (r: Outcome)
      requires Valid() && ReadInventory(c, raw) == Ok(Some(i)) && Staging(i, g)
      requires g.id in content && content[g.id] == value
      modifies this`raw, this`history
      ensures Quiet(i, old(history), old(raw)) && SameExcept(old(raw), raw, g)
      ensures r.Ok? ==> Whole(raw, content, g)
      ensures reliable ==> r.Ok?
    {
      assert Allotted(content, g);
      ManifestOfValid(c, g.id, value);
      if |value| > MAX_LOGICAL_CREDENTIAL_BYTES || g.count != ChunkCount(|value|) {
        return Err(InvalidManifest);
      }
      var manifest := c.encodeManifest(ManifestOf(c, g.id, value));
      if manifest.None? {
        return Err(InvalidManifest);
      }
      r := StagePiece(i, g, ManifestKey(g.id), manifest.value);
      if r.Err? {
        return;
      }
      ghost var h, before := history, raw;
      r := StageChunks(i, g, value);
      QuietJoin(i, old(history), old(raw), h, before);
      if r.Err? {
        return;
      }
      ReadWhole(c, raw, content, g);
      var readback := FetchGeneration(g);
      if readback.Err? {
        return Err(readback.error);
      }
      r := if readback.value == value then Ok(()) else Err(ReadbackMismatch);
    }

    // ---------------------------------------------------------------- reconcile

    lemma DroppedIsGone(i: Inventory, g: GenerationRef)
      requires Valid() && ReadInventory(c, raw) == Ok(Some(i)) && Dropping(i, g)
      requires forall k: Part | k in raw :: !PieceOf(k, g)
      ensures OnlyIds(raw, if i.primary == g then {} else {i.primary.id})
    {
      DroppingIsAllotted(i, g);
      assert ManifestKey(g.id) !in raw;
      forall j: nat | ChunkKey(g.id, j) in raw ensures false {
        assert j < g.count;
        assert PieceOf(ChunkKey(g.id, j), g);
      }
    }

    /** Everything but the primary generation is gone: record it as active. */
    method Activate(ghost i: Inventory, g: GenerationRef) returns (r: Outcome)
      requires Valid() && ReadInventory(c, raw) == Ok(Some(i)) && g == i.primary
      requires OnlyIds(raw, {g.id}) && NoLegacy(raw) && Scrubbed(c, raw) && Whole(raw, content, g)
      requires Published(i) ==> HasMarker(c, raw)
      requires !i.state.PreparingLegacy? && !Removing(c, raw)
      modifies this`raw, this`history
      ensures Valid() && Reads(c, old(history), history, old(Get(c, raw))) && Get(c, raw) == old(Get(c, raw))
      ensures r.Ok? ==> ReadInventory(c, raw) == Ok(Some(Inventory(Active, g, None)))
      ensures reliable ==> r.Ok?
    {
      GetIsMeaning(c, raw, content);
      r := WriteInventory(Inventory(Active, g, None));
    }

    method ScrubRoot(ghost i: Inventory) returns (r: Outcome)
      requires Valid() && ReadInventory(c, raw) == Ok(Some(i)) && Published(i)
      modifies this`raw, this`history
      ensures Quiet(i, old(history), old(raw))
      ensures raw == old(raw) || raw == old(raw)[RootKey := c.marker]
      ensures r.Ok? ==> HasMarker(c, raw)
      ensures reliable ==> r.Ok?
    {
      ScrubRootStep(c, raw, content, i);
      ScrubSucceeds(c, raw);
      hide Succeeds, Lineage;
      r := PutExact(RootKey, c.marker);
      if r.Ok? {
        r := Checkpoint();
      }
    }

    /** After publication: retire the legacy chunks, scrub the root, activate. */
    method FinishPublished(i: Inventory) returns (r: Outcome)
      requires Valid() && ReadInventory(c, raw) == Ok(Some(i)) && Published(i)
      modifies this`raw, this`history
      ensures Valid() && Reads(c, old(history), history, old(Get(c, raw))) && Get(c, raw) == old(Get(c, raw))
      ensures r.Ok? ==> ReadInventory(c, raw) == Ok(Some(Inventory(Active, i.primary, None)))
      ensures reliable ==> r.Ok?
    {
      r := Ok(());
      ReadsNone(c, history, Get(c, raw));
      if i.secondary.Some? {
        r := CleanupLegacy(i, i.secondary.value);
        if r.Err? {
          return;
        }
      }
      assert NoLegacy(raw);
      ghost var h, before := history, raw;
      r := ScrubRoot(i);
      QuietJoin(i, old(history), old(raw), h, before);
      if r.Err? {
        return;
      }
      ghost var h1 := history;
      r := Activate(i, i.primary);
      ReadsJoin(c, old(history), h1, history, old(Get(c, raw)));
    }

    /** Both of the source's finishers of a recorded deletion. */
    method FinishDelete(i: Inventory) returns (r: Outcome)
      requires Valid() && ReadInventory(c, raw) == Ok(Some(i)) && Removing(c, raw)
      modifies this`raw, this`history
      ensures Valid() && Switches(c, old(history), history, Err(DeletionIncomplete), Ok(None))
      ensures r.Ok? ==> raw == map[]
      ensures reliable ==> r.Ok?
    {
      r := DropEverything(i);
      ghost var h := history;
      ReadsIsSwitches(c, old(history), history, Err(DeletionIncomplete), Ok(None));
      if r.Err? {
        return;
      }
      assert Unmanaged(c, raw) == Ok(None);
      r := DeleteInventory();
      OneSwitches(c, h, raw, Err(DeletionIncomplete), Ok(None));
      ReadsThenSwitches(c, old(history), h, history, Err(DeletionIncomplete), Ok(None));
    }

    /** The part of a recorded deletion before the inventory itself goes. */
    method DropEverything(i: Inventory) returns (r: Outcome)
      requires Valid() && ReadInventory(c, raw) == Ok(Some(i)) && Removing(c, raw)
      modifies this`raw, this`history
      ensures Quiet(i, old(history), old(raw)) && Get(c, old(raw)) == Err(DeletionIncomplete)
      ensures r.Ok? ==> raw.Keys <= {InventoryKey}
      ensures reliable ==> r.Ok?
    {
      if i.state.Deleting? {
        r := CleanupGeneration(i, i.primary);
        if r.Ok? {
          DroppedIsGone(i, i.primary);
        }
      } else {
        r := CleanupLegacy(i, i.primary);
      }
      if r.Err? {
        return;
      }
      assert OnlyIds(raw, {}) && NoLegacy(raw);
      ghost var h, before := history, raw;
      r := DropLegacyItem(i, RootKey);
      QuietJoin(i, old(history), old(raw), h, before);
      if r.Ok? {
        OnlyInventoryLeft(raw);
      }
    }

    /** Only the primary generation of an interrupted replacement is left. */
    method ActivateLeft(i: Inventory) returns (r: Outcome)
      requires Valid() && ReadInventory(c, raw) == Ok(Some(i))
      requires i.state.ActiveWithPending? || i.state.ActiveWithRetiring?
      requires OnlyIds(raw, {i.primary.id})
      modifies this`raw, this`history
      ensures Valid() && Reads(c, old(history), history, old(Get(c, raw))) && Get(c, raw) == old(Get(c, raw))
      ensures r.Ok? ==> ReadInventory(c, raw) == Ok(Some(Inventory(Active, i.primary, None)))
      ensures reliable ==> r.Ok?
    {
      r := Activate(i, i.primary);
    }

    /** Reconcile after an interrupted replacement: drop the generation the
        inventory does not answer from. */
    method FinishReplacement(i: Inventory) returns (r: Outcome)
      requires Valid() && ReadInventory(c, raw) == Ok(Some(i))
      requires i.state.ActiveWithPending? || i.state.ActiveWithRetiring?
      modifies this`raw, this`history
      ensures Valid() && Reads(c, old(history), history, old(Get(c, raw))) && Get(c, raw) == old(Get(c, raw))
      ensures r.Ok? ==> ReadInventory(c, raw) == Ok(Some(Inventory(Active, i.primary, None)))
      ensures reliable ==> r.Ok?
    {
      hide Valid, Get, ReadInventory, Reads, Dropping, OnlyIds;
      ReplacementDrops(i);
      ghost var before := raw;
      r := CleanupGeneration(i, i.secondary.value);
      QuietReads(i, old(history), before);
      if r.Err? {
        return;
      }
      DroppedIsGone(i, i.secondary.value);
      ghost var h := history;
      r := ActivateLeft(i);
      ReadsJoin(c, old(history), h, history, old(Get(c, raw)));
    }

    lemma ReplacementDrops(i: Inventory)
      requires Valid() && ReadInventory(c, raw) == Ok(Some(i))
      requires i.state.ActiveWithPending? || i.state.ActiveWithRetiring?
      ensures i.secondary.Some? && Dropping(i, i.secondary.value) && i.primary != i.secondary.value
    {
    }

    /** Reconcile after an interrupted first put: drop what was staged. */
    method FinishPreparing(i: Inventory) returns (r: Outcome)
      requires Valid() && ReadInventory(c, raw) == Ok(Some(i)) && i.state.PreparingLegacy?
      modifies this`raw, this`history
      ensures Valid() && Reads(c, old(history), history, old(Get(c, raw))) && Get(c, raw) == old(Get(c, raw))
      ensures r.Ok? ==> ReadInventory(c, raw) == Ok(None)
      ensures RootKey in raw ==> RootKey in old(raw) && raw[RootKey] == old(raw[RootKey])
      ensures reliable ==> r.Ok?
    {
      hide Valid, Get, ReadInventory, Reads, OnlyIds;
      ghost var before := raw;
      r := CleanupGeneration(i, i.primary);
      QuietReads(i, old(history), before);
      assert !PieceOf(RootKey, i.primary);
      if r.Err? {
        return;
      }
      DroppedIsGone(i, i.primary);
      ghost var h := history;
      r := ForgetPreparing(i);
      ReadsJoin(c, old(history), h, history, old(Get(c, raw)));
    }

    /** Nothing staged is left: the record of the attempt goes too. */
    method ForgetPreparing(ghost i: Inventory) returns (r: Outcome)
      requires Valid() && ReadInventory(c, raw) == Ok(Some(i)) && i.state.PreparingLegacy? && OnlyIds(raw, {})
      modifies this`raw, this`history
      ensures Valid() && Reads(c, old(history), history, old(Get(c, raw))) && Get(c, raw) == old(Get(c, raw))
      ensures r.Ok? ==> ReadInventory(c, raw) == Ok(None)
      ensures raw == old(raw) || raw == old(raw) - {InventoryKey}
      ensures reliable ==> r.Ok?
    {
      r := DeleteInventory();
    }

    lemma InventoryIsReadable()
      requires Valid()
      ensures ReadInventory(c, raw).Ok?
    {
    }

    /** The source's `reconcile`. */
    method Reconcile() returns (r: Result<Option<Inventory>, Error>)
      requires Valid()
      modifies this`raw, this`history
      ensures Valid()
      ensures !old(Removing(c, raw)) ==>
                Reads(c, old(history), history, old(Get(c, raw))) && Get(c, raw) == old(Get(c, raw))
      ensures old(Removing(c, raw)) ==>
                Switches(c, old(history), history, Err(DeletionIncomplete), Ok(None)) &&
                (r.Ok? ==> r.value.None? && raw == map[])
      ensures r.Ok? ==> ReadInventory(c, raw) == r && (r.value.Some? ==> r.value.value.state.Active?)
      ensures r.Ok? ==> (r.value.Some? <==> old(Managed(c, raw)))
      ensures r.Ok? && r.value.None? && RootKey in raw ==> RootKey in old(raw) && raw[RootKey] == old(raw[RootKey])
      ensures reliable ==> r.Ok?
    {
      hide Valid, Get, Reads, Switches;
      InventoryIsReadable();
      ReadsNone(c, history, Get(c, raw));
      ReadsNone(c, history, Err(DeletionIncomplete));
      ReadsIsSwitches(c, history, history, Err(DeletionIncomplete), Ok(None));
      var inventory := FetchInventory();
      if inventory.Err? || inventory.value.None? {
        return inventory;
      }
      var i := inventory.value.value;
      var done: Outcome;
      match i.state {
        case Active =>
          return inventory;
        case PreparingLegacy =>
          done := FinishPreparing(i);
          r := if done.Ok? then Ok(None) else Err(done.error);
        case Deleting =>
          done := FinishDelete(i);
          r := if done.Ok? then Ok(None) else Err(done.error);
        case DeletingLegacyV1 =>
          done := FinishDelete(i);
          r := if done.Ok? then Ok(None) else Err(done.error);
        case ActiveWithPending =>
          done := FinishReplacement(i);
          r := if done.Ok? then Ok(Some(Inventory(Active, i.primary, None))) else Err(done.error);
        case ActiveWithRetiring =>
          done := FinishReplacement(i);
          r := if done.Ok? then Ok(Some(Inventory(Active, i.primary, None))) else Err(done.error);
        case PublishedNeedsRootScrub =>
          done := ReconcilePublished(i);
          r := if done.Ok? then Ok(Some(Inventory(Active, i.primary, None))) else Err(done.error);
        case PublishedLegacyV1NeedsRootScrub =>
          done := ReconcilePublished(i);
          r := if done.Ok? then Ok(Some(Inventory(Active, i.primary, None))) else Err(done.error);
      }
    }

    method ReconcilePublished(i: Inventory) returns (r: Outcome)
      requires Valid() && ReadInventory(c, raw) == Ok(Some(i)) && Published(i)
      modifies this`raw, this`history
      ensures Valid() && Reads(c, old(history), history, old(Get(c, raw))) && Get(c, raw) == old(Get(c, raw))
      ensures r.Ok? ==> ReadInventory(c, raw) == Ok(Some(Inventory(Active, i.primary, None)))
      ensures reliable ==> r.Ok?
    {
      ReadWhole(c, raw, content, i.primary);
      ReadsNone(c, history, Get(c, raw));
      var v := FetchGeneration(i.primary);
      if v.Err? {
        return Err(v.error);
      }
      r := FinishPublished(i);
    }

    // ------------------------------------------------------------ put and delete

    /** What a new write identity must avoid: the zero identity, every earlier
        one, and the identity in a legacy root. */
    ghost predicate Fresh(id: WriteId)
      reads this
    {
      && id != ZERO_ID && id !in content
      && (RootKey in raw && c.parseLegacy(raw[RootKey]).Some? ==> c.parseLegacy(raw[RootKey]).value.id != id)
    }

    ghost method Allot(id: WriteId, value: Bytes)
      requires Valid() && id !in content && Storable(c, id, value)
      modifies this`content
      ensures Valid() && content == old(content)[id := value]
    {
      AllotStep(c, raw, content, id, value);
      forall i | 0 <= i < |history| ensures Inv(c, history[i], content[id := value]) {
        AllotStep(c, history[i], content, id, value);
      }
      content := content[id := value];
    }

    method BeginInitial(g: GenerationRef) returns (r: Outcome)
      requires Valid() && ReadInventory(c, raw) == Ok(None) && Allotted(content, g)
      modifies this`raw, this`history
      ensures Valid() && Reads(c, old(history), history, old(Get(c, raw))) && Get(c, raw) == old(Get(c, raw))
      ensures r.Ok? ==> ReadInventory(c, raw) == Ok(Some(Inventory(PreparingLegacy, g, None)))
      ensures Classify(c, raw) == old(Classify(c, raw))
      ensures reliable ==> r.Ok?
    {
      ManifestOfValid(c, g.id, content[g.id]);
      r := WriteInventory(Inventory(PreparingLegacy, g, None));
      UnmanagedFrame(c, old(raw), raw);
    }

    /** The unpublished half of a first put. */
    method PrepareInitial(g: GenerationRef, value: Bytes) returns (r: Outcome)
      requires Valid() && ReadInventory(c, raw) == Ok(None)
      requires Allotted(content, g) && content[g.id] == value
      modifies this`raw, this`history
      ensures Valid() && Reads(c, old(history), history, old(Get(c, raw))) && Get(c, raw) == old(Get(c, raw))
      ensures r.Ok? ==> ReadInventory(c, raw) == Ok(Some(Inventory(PreparingLegacy, g, None)))
      ensures r.Ok? ==> Whole(raw, content, g)
      ensures r.Ok? ==> Classify(c, raw) == old(Classify(c, raw))
      ensures reliable ==> r.Ok?
    {
      hide Valid, Get, ReadInventory, Classify, Reads, Whole;
      r := BeginInitial(g);
      if r.Err? {
        return;
      }
      ghost var h, before := history, raw;
      r := StageGeneration(Inventory(PreparingLegacy, g, None), g, value);
      SameClass(c, before, raw, g);
      QuietReads(Inventory(PreparingLegacy, g, None), h, before);
      ReadsJoin(c, old(history), h, history, old(Get(c, raw)));
    }

    /** The published inventory of a first put has the shape of the state. */
    lemma PublishInitialShape(g: GenerationRef, legacy: Legacy)
      requires Valid() && ReadInventory(c, raw) == Ok(Some(Inventory(PreparingLegacy, g, None)))
      requires Whole(raw, content, g) && Classify(c, raw) == Ok(legacy) && !legacy.Ambiguous?
      requires legacy.Confirmed? ==> legacy.manifest.id != g.id
      ensures Shape(c, raw, content, PublishedInventory(g, legacy))
    {
      if legacy.Confirmed? {
        ConfirmedOwnsChunks(c, raw, legacy.manifest);
      } else {
        NotLegacyMeansNoChunks(c, raw);
      }
    }

    /** The source's `put_initial`; `id` is the fresh write identity. */
    method PutInitial(value: Bytes, id: WriteId) returns (r: Outcome)
      requires Valid() && ReadInventory(c, raw) == Ok(None) && Fresh(id) && Storable(c, id, value)
      modifies this`raw, this`history, this`content
      ensures Valid() && Switches(c, old(history), history, old(Get(c, raw)), Ok(Some(value)))
      ensures content == old(content) || content == old(content)[id := value]
      ensures r.Ok? ==> OneGeneration(c, raw, id, value) && Get(c, raw) == Ok(Some(value))
      ensures old(Get(c, raw)).Err? ==> r.Err? && raw == old(raw) && history == old(history)
      ensures reliable ==> (r.Ok? <==> old(Get(c, raw)).Ok?)
    {
      ReadsNone(c, history, Get(c, raw));
      ReadsIsSwitches(c, history, history, Get(c, raw), Ok(Some(value)));
      var legacy := FetchLegacyState();
      if legacy.Err? {
        return Err(legacy.error);
      }
      if legacy.value.Ambiguous? {
        return Err(AmbiguousLegacy);
      }
      if legacy.value.Confirmed? {
        var old_value := FetchChunks(legacy.value.manifest, true);
        if old_value.Err? {
          return Err(old_value.error);
        }
      }
      ConfirmedIsRoot(c, raw);
      r := PutOver(value, id, legacy.value);
    }

    /** The publication of a first put is this one inventory write. */
    method PublishInitial(g: GenerationRef, value: Bytes, legacy: Legacy) returns (r: Outcome)
      requires Valid() && ReadInventory(c, raw) == Ok(Some(Inventory(PreparingLegacy, g, None)))
      requires Whole(raw, content, g) && content[g.id] == value && Classify(c, raw) == Ok(legacy) && !legacy.Ambiguous?
      requires legacy.Confirmed? ==> legacy.manifest.id != g.id
      modifies this`raw, this`history
      ensures Valid() && Switches(c, old(history), history, old(Get(c, raw)), Ok(Some(value)))
      ensures r.Ok? ==> ReadInventory(c, raw) == Ok(Some(PublishedInventory(g, legacy)))
      ensures r.Ok? ==> Get(c, raw) == Ok(Some(value))
      ensures reliable ==> r.Ok?
    {
      PublishInitialShape(g, legacy);
      r := WriteInventory(PublishedInventory(g, legacy));
      OneSwitches(c, old(history), raw, old(Get(c, raw)), Ok(Some(value)));
    }

    /** The mutating part of `put_initial`, once the root is classified. */
    method PutOver(value: Bytes, id: WriteId, legacy: Legacy) returns (r: Outcome)
      requires Valid() && ReadInventory(c, raw) == Ok(None) && Fresh(id) && Storable(c, id, value)
      requires Classify(c, raw) == Ok(legacy) && !legacy.Ambiguous?
      requires legacy.Confirmed? ==> legacy.manifest.id != id
      modifies this`raw, this`history, this`content
      ensures Valid() && Switches(c, old(history), history, old(Get(c, raw)), Ok(Some(value)))
      ensures content == old(content)[id := value]
      ensures r.Ok? ==> OneGeneration(c, raw, id, value) && Get(c, raw) == Ok(Some(value))
      ensures reliable ==> r.Ok?
    {
      hide Valid, Get, ReadInventory, Reads, Whole, Switches, Storable, OneGeneration, Classify;
      ghost var was, h0 := Get(c, raw), history;
      var g := RefOf(id, value);
      Allot(id, value);
      r := PrepareInitial(g, value);
      ReadsIsSwitches(c, h0, history, was, Ok(Some(value)));
      if r.Err? {
        return;
      }
      ghost var h1 := history;
      r := PublishInitial(g, value, legacy);
      ReadsThenSwitches(c, h0, h1, history, was, Ok(Some(value)));
      if r.Err? {
        return;
      }
      ghost var h2 := history;
      r := FinishPublished(PublishedInventory(g, legacy));
      SwitchesThenReads(c, h0, h2, history, was, Ok(Some(value)));
      if r.Ok? {
        ActiveOne(g);
      }
    }

    lemma PendingShape(i: Inventory, g: GenerationRef)
      requires Valid() && ReadInventory(c, raw) == Ok(Some(i)) && i.state.Active?
      requires Allotted(content, g) && g.id != i.primary.id && ValidRef(g)
      ensures Shape(c, raw, content, Inventory(ActiveWithPending, i.primary, Some(g)))
    {
    }

    method BeginReplacement(i: Inventory, g: GenerationRef) returns (r: Outcome)
      requires Valid() && ReadInventory(c, raw) == Ok(Some(i)) && i.state.Active?
      requires Allotted(content, g) && g.id != i.primary.id
      modifies this`raw, this`history
      ensures Valid() && Reads(c, old(history), history, old(Get(c, raw))) && Get(c, raw) == old(Get(c, raw))
      ensures r.Ok? ==> ReadInventory(c, raw) == Ok(Some(Inventory(ActiveWithPending, i.primary, Some(g))))
      ensures reliable ==> r.Ok?
    {
      ManifestOfValid(c, g.id, content[g.id]);
      GetIsMeaning(c, raw, content);
      PendingShape(i, g);
      r := WriteInventory(Inventory(ActiveWithPending, i.primary, Some(g)));
    }

    /** The unpublished half of a replacement. */
    method PrepareReplacement(i: Inventory, g: GenerationRef, value: Bytes) returns (r: Outcome)
      requires Valid() && ReadInventory(c, raw) == Ok(Some(i)) && i.state.Active?
      requires Allotted(content, g) && content[g.id] == value && g.id != i.primary.id
      modifies this`raw, this`history
      ensures Valid() && Reads(c, old(history), history, old(Get(c, raw))) && Get(c, raw) == old(Get(c, raw))
      ensures r.Ok? ==> ReadInventory(c, raw) == Ok(Some(Inventory(ActiveWithPending, i.primary, Some(g))))
      ensures r.Ok? ==> Whole(raw, content, g)
      ensures reliable ==> r.Ok?
    {
      hide Valid, Get, ReadInventory, Reads, Whole;
      r := BeginReplacement(i, g);
      if r.Err? {
        return;
      }
      ghost var h, before := history, raw;
      r := StageGeneration(Inventory(ActiveWithPending, i.primary, Some(g)), g, value);
      QuietReads(Inventory(ActiveWithPending, i.primary, Some(g)), h, before);
      ReadsJoin(c, old(history), h, history, old(Get(c, raw)));
    }

    /** The publication of a replacement is this one inventory write. */
    method PublishReplacement(i: Inventory, g: GenerationRef, value: Bytes) returns (r: Outcome)
      requires Valid() && ReadInventory(c, raw) == Ok(Some(Inventory(ActiveWithPending, i.primary, Some(g))))
      requires Whole(raw, content, g) && content[g.id] == value && Get(c, raw).Ok?
      modifies this`raw, this`history
      ensures Valid() && Switches(c, old(history), history, old(Get(c, raw)), Ok(Some(value)))
      ensures r.Ok? ==> ReadInventory(c, raw) == Ok(Some(Inventory(ActiveWithRetiring, g, Some(i.primary))))
      ensures r.Ok? ==> Get(c, raw) == Ok(Some(value))
      ensures reliable ==> r.Ok?
    {
      GetIsMeaning(c, raw, content);
      r := WriteInventory(Inventory(ActiveWithRetiring, g, Some(i.primary)));
      OneSwitches(c, old(history), raw, old(Get(c, raw)), Ok(Some(value)));
    }

    /** The source's `put_managed`. */
    method PutManaged(value: Bytes, id: WriteId, i: Inventory) returns (r: Outcome)
      requires Valid() && ReadInventory(c, raw) == Ok(Some(i)) && i.state.Active?
      requires id !in content && Storable(c, id, value)
      modifies this`raw, this`history, this`content
      ensures Valid() && Switches(c, old(history), history, old(Get(c, raw)), Ok(Some(value)))
      ensures content == old(content) || content == old(content)[id := value]
      ensures r.Ok? ==> OneGeneration(c, raw, id, value) && Get(c, raw) == Ok(Some(value))
      ensures old(Get(c, raw)).Err? ==> r.Err? && raw == old(raw) && history == old(history)
      ensures reliable ==> (r.Ok? <==> old(Get(c, raw)).Ok?)
    {
      ReadsNone(c, history, Get(c, raw));
      ReadsIsSwitches(c, history, history, Get(c, raw), Ok(Some(value)));
      GetIsMeaning(c, raw, content);
      var root := RequireMarker();
      if root.Err? {
        return Err(root.error);
      }
      assert i.primary.id in content;
      r := ReplaceActive(value, id, i);
    }

    /** The mutating part of `put_managed`. */
    method ReplaceActive(value: Bytes, id: WriteId, i: Inventory) returns (r: Outcome)
      requires Valid() && ReadInventory(c, raw) == Ok(Some(i)) && i.state.Active?
      requires id !in content && Storable(c, id, value) && i.primary.id in content && Get(c, raw).Ok?
      modifies this`raw, this`history, this`content
      ensures Valid() && Switches(c, old(history), history, old(Get(c, raw)), Ok(Some(value)))
      ensures content == old(content)[id := value]
      ensures r.Ok? ==> OneGeneration(c, raw, id, value) && Get(c, raw) == Ok(Some(value))
      ensures reliable ==> r.Ok?
    {
      ghost var was, h0 := Get(c, raw), history;
      var g := RefOf(id, value);
      hide Valid, Get, ReadInventory, Reads, Whole, Switches, Storable, OneGeneration;
      Allot(id, value);
      r := PrepareReplacement(i, g, value);
      ReadsIsSwitches(c, h0, history, was, Ok(Some(value)));
      if r.Err? {
        return;
      }
      ghost var h1 := history;
      r := PublishReplacement(i, g, value);
      ReadsThenSwitches(c, h0, h1, history, was, Ok(Some(value)));
      if r.Err? {
        return;
      }
      ghost var h2 := history;
      r := FinishReplacement(Inventory(ActiveWithRetiring, g, Some(i.primary)));
      SwitchesThenReads(c, h0, h2, history, was, Ok(Some(value)));
      if r.Ok? {
        ActiveOne(g);
      }
    }

    lemma ActiveOne(g: GenerationRef)
      requires Valid() && ReadInventory(c, raw) == Ok(Some(Inventory(Active, g, None))) && Get(c, raw).Ok?
      ensures g.id in content && OneGeneration(c, raw, g.id, content[g.id]) && Get(c, raw) == Ok(Some(content[g.id]))
    {
      GetIsMeaning(c, raw, content);
      ActiveIsOneGeneration(c, raw, content, g);
    }

    lemma EmptyAnswers()
      requires Valid()
      ensures raw == map[] ==> Get(c, raw) == Ok(None)
    {
      GetIsMeaning(c, raw, content);
    }

    /** The source's `put_unlocked`. Every raw state on the way answers the old
        value up to the publication write and the new value from it on. */
    method Put(value: Bytes, id: WriteId) returns (r: Outcome)
      requires Valid() && Fresh(id) && c.utf8(value)
      modifies this`raw, this`history, this`content
      ensures Valid() && old(history) <= history
      ensures content == old(content) || content == old(content)[id := value]
      ensures !old(Removing(c, raw)) ==>
                Switches(c, old(history), history, old(Get(c, raw)), Ok(Some(value)))
      ensures old(Removing(c, raw)) ==> Recovers(c, old(history), history, value)
      ensures !Writable(value) ==> r.Err? && raw == old(raw) && history == old(history)
      ensures r.Ok? ==> OneGeneration(c, raw, id, value) && Get(c, raw) == Ok(Some(value))
      ensures old(Get(c, raw)).Err? && !old(Removing(c, raw)) ==> r.Err? && Get(c, raw) == old(Get(c, raw))
      ensures reliable ==> (r.Ok? <==> Writable(value) && old(Usable(c, raw)))
    {
      ghost var was, h0 := Get(c, raw), history;
      NothingHappened(c, h0, was, value);
      if HasLineBreak(value) {
        return Err(LineBreak);
      }
      if |value| > MAX_LOGICAL_CREDENTIAL_BYTES {
        return Err(TooLarge);
      }
      r := ReconcileAndPut(value, id);
    }

    method ReconcileAndPut(value: Bytes, id: WriteId) returns (r: Outcome)
      requires Valid() && Fresh(id) && Storable(c, id, value)
      modifies this`raw, this`history, this`content
      ensures Valid() && old(history) <= history
      ensures content == old(content) || content == old(content)[id := value]
      ensures !old(Removing(c, raw)) ==>
                Switches(c, old(history), history, old(Get(c, raw)), Ok(Some(value)))
      ensures old(Removing(c, raw)) ==> Recovers(c, old(history), history, value)
      ensures r.Ok? ==> OneGeneration(c, raw, id, value) && Get(c, raw) == Ok(Some(value))
      ensures old(Get(c, raw)).Err? && !old(Removing(c, raw)) ==> r.Err? && Get(c, raw) == old(Get(c, raw))
      ensures reliable ==> (r.Ok? <==> old(Usable(c, raw)))
    {
      ghost var was, h0 := Get(c, raw), history;
      hide Valid, Get, ReadInventory, Reads, Switches, Storable, OneGeneration, Removing;
      var inventory := Reconcile();
      ghost var h1 := history;
      EmptyAnswers();
      if !old(Removing(c, raw)) {
        ReadsIsSwitches(c, h0, h1, was, Ok(Some(value)));
      } else {
        RemovedOnly(c, h0, h1, value);
      }
      SwitchesGrows(c, h0, h1);
      if inventory.Err? {
        return Err(inventory.error);
      }
      if inventory.value.Some? {
        r := PutManaged(value, id, inventory.value.value);
      } else {
        r := PutInitial(value, id);
      }
      SwitchesGrows(c, h1, history);
      if !old(Removing(c, raw)) {
        ReadsThenSwitches(c, h0, h1, history, was, Ok(Some(value)));
      } else {
        RemovedThenPut(c, h0, h1, history, value);
      }
    }

    /** Record the deletion of the active generation and carry it out. */
    method DeleteManaged(i: Inventory) returns (r: Outcome)
      requires Valid() && ReadInventory(c, raw) == Ok(Some(i)) && i.state.Active?
      modifies this`raw, this`history
      ensures Valid() && Deletes(c, old(history), history, old(Get(c, raw)))
      ensures r.Ok? ==> raw == map[]
      ensures reliable ==> r.Ok?
    {
      r := RecordAndDelete(Inventory(Deleting, i.primary, None));
    }

    method RecordAndDelete(deleting: Inventory) returns (r: Outcome)
      requires Valid() && Shape(c, raw, content, deleting)
      requires deleting.state.Deleting? || deleting.state.DeletingLegacyV1?
      modifies this`raw, this`history
      ensures Valid() && Deletes(c, old(history), history, old(Get(c, raw)))
      ensures r.Ok? ==> raw == map[]
      ensures reliable ==> r.Ok?
    {
      r := WriteInventory(deleting);
      if r.Err? {
        return;
      }
      ghost var h := history;
      r := FinishDelete(deleting);
      DeletesJoin(c, old(history), h, history, old(Get(c, raw)));
    }

    /** The unmanaged branch of `delete_unlocked`. */
    method DeleteUnmanaged() returns (r: Outcome)
      requires Valid() && ReadInventory(c, raw) == Ok(None)
      modifies this`raw, this`history
      ensures Valid() && Deletes(c, old(history), history, old(Get(c, raw)))
      ensures r.Ok? ==> raw == map[]
      ensures reliable ==> (r.Ok? <==> old(Get(c, raw)).Ok?)
    {
      var legacy := FetchLegacyState();
      if legacy.Err? {
        return Err(legacy.error);
      }
      match legacy.value {
        case Ambiguous =>
          return Err(AmbiguousLegacy);
        case Confirmed(m) =>
          var old_value := FetchChunks(m, true);
          if old_value.Err? {
            return Err(old_value.error);
          }
          ConfirmedOwnsChunks(c, raw, m);
          r := RecordAndDelete(Inventory(DeletingLegacyV1, GenerationRef(m.id, m.count), None));
        case NotLegacy =>
          DeleteRootStep(c, raw, content);
          PieceSucceeds(c, raw, raw - {RootKey}, RootKey);
          r := DeleteExact(RootKey);
          if r.Ok? {
            r := Checkpoint();
          }
      }
    }

    lemma RemovingAnswers()
      requires Valid()
      ensures Removing(c, raw) ==> Get(c, raw) == Err(DeletionIncomplete)
    {
      GetIsMeaning(c, raw, content);
    }

    /** The source's `delete_unlocked`. */
    method Delete() returns (r: Outcome)
      requires Valid()
      modifies this`raw, this`history
      ensures Valid() && Deletes(c, old(history), history, old(Get(c, raw)))
      ensures old(history) <= history
      ensures r.Ok? ==> raw == map[]
      ensures reliable ==> (r.Ok? <==> old(Deletable(c, raw)))
    {
      RemovingAnswers();
      hide Valid, Get, ReadInventory, Reads, Switches, Removing, Deletes;
      var inventory := Reconcile();
      ghost var h, now := history, Get(c, raw);
      EmptyAnswers();
      if inventory.Err? {
        ReconciledDeletes(c, old(history), h, old(Get(c, raw)));
        return Err(inventory.error);
      }
      if inventory.value.Some? {
        r := DeleteManaged(inventory.value.value);
      } else {
        r := DeleteUnmanaged();
      }
      DeletesTwice(c, old(history), h, history, old(Get(c, raw)), now);
    }
  }
}
