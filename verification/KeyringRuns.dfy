/** What holds over whole histories of a keyring item: no orphans, runs of
    crashing puts and deletes, and readers that take no lock. */
module KeyringRuns {
  import opened Bytes
  import opened KeyringCodec
  import opened KeyringModel
  import opened KeyringSteps
  import opened KeyringSlot

  // ------------------------------------------------------------------ ownership

  predicate Names(i: Inventory, id: WriteId, index: nat) {
    || (!i.state.DeletingLegacyV1? && i.primary.id == id && index < i.primary.count)
    || (!i.state.PublishedLegacyV1NeedsRootScrub? && i.secondary.Some? && i.secondary.value.id == id &&
        index < i.secondary.value.count)
  }

  predicate NamesLegacy(i: Inventory, id: WriteId, index: nat) {
    || (i.state.DeletingLegacyV1? && i.primary.id == id && index < i.primary.count)
    || (i.state.PublishedLegacyV1NeedsRootScrub? && i.secondary.Some? && i.secondary.value.id == id &&
        index < i.secondary.value.count)
  }

  predicate ManifestOwned(c: Codec, raw: Raw, id: WriteId) {
    match ReadInventory(c, raw)
    case Ok(Some(i)) => i.primary.id == id || (i.secondary.Some? && i.secondary.value.id == id)
    case _ => false
  }

  predicate ChunkOwned(c: Codec, raw: Raw, id: WriteId, index: nat) {
    match ReadInventory(c, raw)
    case Ok(Some(i)) => Names(i, id, index)
    case _ => false
  }

  predicate LegacyOwned(c: Codec, raw: Raw, id: WriteId, index: nat) {
    || (RootKey in raw && c.parseLegacy(raw[RootKey]).Some? &&
        c.parseLegacy(raw[RootKey]).value.id == id && index < c.parseLegacy(raw[RootKey]).value.count)
    || match ReadInventory(c, raw)
       case Ok(Some(i)) => NamesLegacy(i, id, index)
       case _ => false
  }

  /** No orphans: every item of every reachable state has an owner on record. */
  lemma NoOrphans(c: Codec, raw: Raw, content: Content)
    requires Inv(c, raw, content)
    ensures forall id: WriteId | ManifestKey(id) in raw :: ManifestOwned(c, raw, id)
    ensures forall id: WriteId, j: nat | ChunkKey(id, j) in raw :: ChunkOwned(c, raw, id, j)
    ensures forall id: WriteId, j: nat | LegacyChunkKey(id, j) in raw :: LegacyOwned(c, raw, id, j)
  {
    match ReadInventory(c, raw)
    case Err(_) =>
    case Ok(None) =>
    case Ok(Some(i)) =>
      if !i.state.DeletingLegacyV1? {
        assert Allotted(content, i.primary);
      }
  }

  // ----------------------------------------------------------------------- runs

  datatype Call = PutCall(value: Bytes) | DeleteCall

  /** One call, stopped wherever it stopped. */
  datatype Event = Event(before: Raw, call: Call, ok: bool, after: Raw)

  /** The item is exactly the marker, the inventory and one generation holding `v`. */
  ghost predicate HoldsOne(c: Codec, raw: Raw, v: Bytes) {
    exists id :: OneGeneration(c, raw, id, v)
  }

  ghost predicate Honoured(c: Codec, e: Event) {
    match e.call
    case PutCall(v) =>
      && (|| Get(c, e.after) in {Get(c, e.before), Ok(Some(v))}
          || (Get(c, e.before) == Err(DeletionIncomplete) && Get(c, e.after) == Ok(None)))
      && (e.ok ==> Get(c, e.after) == Ok(Some(v)) && HoldsOne(c, e.after, v))
    case DeleteCall =>
      && Get(c, e.after) in {Get(c, e.before), Err(DeletionIncomplete), Ok(None)}
      && (e.ok ==> e.after == map[])
  }

  /** Any call, stopped anywhere, is honoured. */
  method Perform(slot: Slot, call: Call, id: WriteId) returns (r: Outcome)
    requires slot.Valid() && slot.Fresh(id) && (call.PutCall? ==> slot.c.utf8(call.value))
    modifies slot`raw, slot`history, slot`content
    ensures slot.Valid()
    ensures Honoured(slot.c, Event(old(slot.raw), call, r.Ok?, slot.raw))
  {
    slot.RemovingAnswers();
    ghost var h0 := slot.history;
    match call {
      case PutCall(v) =>
        r := slot.Put(v, id);
        if !old(Removing(slot.c, slot.raw)) {
          SwitchesLast(slot.c, h0, slot.history, old(Get(slot.c, slot.raw)), Ok(Some(v)));
        }
      case DeleteCall =>
        r := slot.Delete();
    }
  }

  lemma SwitchesLast(c: Codec, h0: seq<Raw>, h1: seq<Raw>, a: Read, b: Read)
    requires |h0| > 0 && Switches(c, h0, h1, a, b) && Get(c, h0[|h0| - 1]) == a
    ensures Get(c, h1[|h1| - 1]) in {a, b}
  {
    var k :| SwitchesAt(c, h0, h1, a, b, k);
    if |h1| == |h0| {
      assert h1 == h0;
    }
  }

  ghost predicate IsRun(c: Codec, run: seq<Event>) {
    && (forall n | 0 <= n < |run| :: Honoured(c, run[n]))
    && (forall n | 0 < n < |run| :: run[n].before == run[n - 1].after)
  }

  /** The values a run tried to put. */
  function Offered(run: seq<Event>): set<Bytes> {
    if run == [] then {}
    else Offered(run[..|run| - 1]) + if run[|run| - 1].call.PutCall? then {run[|run| - 1].call.value} else {}
  }

  /** After any run of crashing puts and deletes the item answers what it first
      answered, a value some put offered, absence, or an unfinished deletion. */
  lemma {:induction false} RunAnswers(c: Codec, run: seq<Event>)
    requires run != [] && IsRun(c, run)
    ensures var now := Get(c, run[|run| - 1].after);
            || now in {Get(c, run[0].before), Err(DeletionIncomplete), Ok(None)}
            || exists v :: v in Offered(run) && now == Ok(Some(v))
  {
    var last := run[|run| - 1];
    if last.call.PutCall? && Get(c, last.after) == Ok(Some(last.call.value)) {
      assert last.call.value in Offered(run);
    } else if |run| > 1 {
      var front := run[..|run| - 1];
      RunAnswers(c, front);
      assert front[|front| - 1].after == last.before;
    }
  }

  predicate PutsOnly(run: seq<Event>) {
    forall n | 0 <= n < |run| :: run[n].call.PutCall?
  }

  /** While nothing deletes, nothing is lost: from an item with no unfinished
      deletion, any run of crashing puts leaves the first answer or an offered value. */
  lemma {:induction false} PutsNeverLose(c: Codec, run: seq<Event>)
    requires run != [] && IsRun(c, run) && PutsOnly(run)
    requires Get(c, run[0].before) != Err(DeletionIncomplete)
    ensures var now := Get(c, run[|run| - 1].after);
            && now != Err(DeletionIncomplete)
            && (now == Get(c, run[0].before) || exists v :: v in Offered(run) && now == Ok(Some(v)))
  {
    var last := run[|run| - 1];
    if |run| > 1 {
      var front := run[..|run| - 1];
      PutsNeverLose(c, front);
      assert front[|front| - 1].after == last.before;
    }
    if Get(c, last.after) == Ok(Some(last.call.value)) {
      assert last.call.value in Offered(run);
    }
  }

  lemma {:induction false} OneOffered(run: seq<Event>, v: Bytes)
    requires forall n | 0 <= n < |run| :: run[n].call == PutCall(v)
    ensures Offered(run) <= {v}
  {
    if run != [] {
      OneOffered(run[..|run| - 1], v);
    }
  }

  /** A put retried through any number of crashes answers the old value or the
      new one, and once a retry succeeds the new one, held by one generation. */
  lemma RetriedPut(c: Codec, run: seq<Event>, v: Bytes)
    requires run != [] && IsRun(c, run) && (forall n | 0 <= n < |run| :: run[n].call == PutCall(v))
    requires Get(c, run[0].before) != Err(DeletionIncomplete)
    ensures Get(c, run[|run| - 1].after) in {Get(c, run[0].before), Ok(Some(v))}
    ensures run[|run| - 1].ok ==> HoldsOne(c, run[|run| - 1].after, v)
  {
    PutsNeverLose(c, run);
    OneOffered(run, v);
    assert Honoured(c, run[|run| - 1]);
  }

  // ---------------------------------------------------------- lock-free readers

  function ChunkReadsAcross(states: seq<Raw>, id: WriteId): (s: seq<Read>)
    ensures |s| == |states|
    ensures forall i | 0 <= i < |s| :: s[i] == Lookup(states[i], ChunkKey(id, i))
  {
    seq(|states|, i requires 0 <= i < |states| => Lookup(states[i], ChunkKey(id, i)))
  }

  /** The managed branch of `get_with` when each raw read meets a different
      state: `snapshot` for the inventory, then `root`, `manifest`, and one state
      for each chunk. */
  function GetAcross(c: Codec, i: Inventory, root: Raw, manifest: Raw, chunks: seq<Raw>): Read
    requires |chunks| == i.primary.count
  {
    var marker := RootIsMarker(c, Lookup(root, RootKey));
    if !Published(i) && marker.Err? then Err(marker.error)
    else Present(GenerationFrom(c, i.primary, Lookup(manifest, ManifestKey(i.primary.id)),
                                ChunkReadsAcross(chunks, i.primary.id)))
  }

  predicate Answering(i: Inventory) {
    !i.state.PreparingLegacy? && !i.state.Deleting? && !i.state.DeletingLegacyV1?
  }

  lemma SnapshotAnswers(c: Codec, content: Content, snapshot: Raw, i: Inventory)
    requires Lawful(c) && Inv(c, snapshot, content)
    requires ReadInventory(c, snapshot) == Ok(Some(i)) && Answering(i)
    ensures Allotted(content, i.primary) && Storable(c, i.primary.id, content[i.primary.id])
    ensures Get(c, snapshot) in {Ok(Some(content[i.primary.id])), Err(MarkerMissing)}
  {
    GetIsMeaning(c, snapshot, content);
  }

  /** A read without the lock whose inventory snapshot names a published
      generation returns that generation's value, or an error: never a mixture. */
  lemma LockFreeGetIsExact(c: Codec, content: Content, snapshot: Raw, i: Inventory,
                           root: Raw, manifest: Raw, chunks: seq<Raw>)
    requires Lawful(c) && Inv(c, snapshot, content)
    requires ReadInventory(c, snapshot) == Ok(Some(i)) && Answering(i) && |chunks| == i.primary.count
    requires Pieces(c, manifest, content) && (forall n | 0 <= n < |chunks| :: Pieces(c, chunks[n], content))
    ensures i.primary.id in content
    ensures Get(c, snapshot) in {Ok(Some(content[i.primary.id])), Err(MarkerMissing)}
    ensures var r := GetAcross(c, i, root, manifest, chunks);
            r == Ok(Some(content[i.primary.id])) || r.Err?
  {
    hide Inv, Get;
    SnapshotAnswers(c, content, snapshot, i);
    var id, v := i.primary.id, content[i.primary.id];
    ManifestOfValid(c, id, v);
    var fetched := ChunkReadsAcross(chunks, id);
    forall n | 0 <= n < |fetched|
      ensures fetched[n].Err? || fetched[n].value == None || fetched[n].value == Some(c.encode64(ChunkAt(v, n)))
    {
      assert Pieces(c, chunks[n], content);
    }
    CollectWhole(c, id, v, fetched);
  }

  /** The same for the states a slot has been in: whatever puts and deletes ran
      between the reads. */
  lemma LockFreeGetOverHistory(slot: Slot, snapshot: Raw, i: Inventory, root: Raw, manifest: Raw, chunks: seq<Raw>)
    requires slot.Valid()
    requires snapshot in slot.history && root in slot.history && manifest in slot.history
    requires forall s | s in chunks :: s in slot.history
    requires ReadInventory(slot.c, snapshot) == Ok(Some(i)) && Answering(i) && |chunks| == i.primary.count
    ensures i.primary.id in slot.content
    ensures Get(slot.c, snapshot).Ok? ==> Get(slot.c, snapshot) == Ok(Some(slot.content[i.primary.id]))
    ensures var r := GetAcross(slot.c, i, root, manifest, chunks);
            r == Ok(Some(slot.content[i.primary.id])) || r.Err?
  {
    forall s | s in slot.history ensures Inv(slot.c, s, slot.content) {
      var n :| 0 <= n < |slot.history| && slot.history[n] == s;
    }
    forall n | 0 <= n < |chunks| ensures Pieces(slot.c, chunks[n], slot.content) {
      assert chunks[n] in chunks;
    }
    hide Get, GetAcross;
    LockFreeGetIsExact(slot.c, slot.content, snapshot, i, root, manifest, chunks);
  }

  // ------------------------------------------- lock-free readers, unmanaged branch

  function LegacyReadsAcross(states: seq<Raw>, id: WriteId): (s: seq<Read>)
    ensures |s| == |states|
    ensures forall i | 0 <= i < |s| :: s[i] == Lookup(states[i], LegacyChunkKey(id, i))
  {
    seq(|states|, i requires 0 <= i < |states| => Lookup(states[i], LegacyChunkKey(id, i)))
  }

  /** The legacy manifest a root holds, if it holds one. */
  function LegacyRoot(c: Codec, raw: Raw): Option<Manifest> {
    match Lookup(raw, RootKey)
    case Ok(Some(root)) => c.parseLegacy(root)
    case _ => None
  }

  /** The unmanaged branch of `get_with` when each raw read meets a different state:
      `first` for the root that is classified, one of `probes` for each chunk probed,
      then one of `chunks` for each chunk read, or `last` for the root itself. */
  function UnmanagedAcross(c: Codec, first: Raw, probes: seq<Raw>, chunks: seq<Raw>, last: Raw): Read
    requires LegacyRoot(c, first).Some? ==> |probes| == |chunks| == LegacyRoot(c, first).value.count
  {
    if Lookup(first, RootKey).Err? then Err(Lookup(first, RootKey).error)
    else if LegacyRoot(c, first).None? then Lookup(last, RootKey)
    else
      var m := LegacyRoot(c, first).value;
      if !ValidManifestFields(m.count, m.length) || m.id == ZERO_ID then Err(InvalidManifest)
      else
        match AnyChunk(m, LegacyReadsAcross(probes, m.id), 0)
        case Err(e) => Err(e)
        case Ok(Confirmed(_)) => Present(Collect(c, m, LegacyReadsAcross(chunks, m.id), 0, []))
        case Ok(_) => Err(AmbiguousLegacy)
  }

  lemma {:induction false} LegacyOnlyShrinks(c: Codec, h: seq<Raw>, i: nat, j: nat, id: WriteId, index: nat)
    requires Lineage(c, h) && i <= j < |h| && LegacyChunkKey(id, index) in h[j]
    ensures LegacyChunkKey(id, index) in h[i]
    ensures h[i][LegacyChunkKey(id, index)] == h[j][LegacyChunkKey(id, index)]
    decreases j
  {
    if i < j {
      assert Link(c, h, j);
      LegacyOnlyShrinks(c, h, i, j - 1, id, index);
    }
  }

  /** A root other than the marker has been there from the start. */
  lemma {:induction false} RootsOnlyGo(c: Codec, h: seq<Raw>, i: nat, j: nat)
    requires Lineage(c, h) && i <= j < |h| && RootKey in h[j] && h[j][RootKey] != c.marker
    ensures RootKey in h[i] && h[i][RootKey] == h[j][RootKey]
    decreases j
  {
    if i < j {
      assert Link(c, h, j);
      RootsOnlyGo(c, h, i, j - 1);
    }
  }

  /** While no generation is published the root is the one the item began with, or gone. */
  lemma {:induction false} QuiescentRoot(c: Codec, h: seq<Raw>, j: nat)
    requires Lineage(c, h) && j < |h| && Quiescent(c, h[0]) && Quiescent(c, h[j])
    ensures RootKey in h[j] ==> RootKey in h[0] && h[0][RootKey] == h[j][RootKey]
    decreases j
  {
    if j > 0 {
      assert Link(c, h, j);
      if RootKey in h[j] {
        QuiescentRoot(c, h, j - 1);
      }
    }
  }

  /** An item the protocol has taken over from the start, whose root was no marker. */
  ghost predicate Ordinary(c: Codec, h: seq<Raw>) {
    |h| > 0 && Lineage(c, h) && Quiescent(c, h[0]) && !HasMarker(c, h[0])
  }

  /** The marker is at the root only under a published generation or its recorded deletion. */
  lemma MarkerMeansPublished(c: Codec, h: seq<Raw>, j: nat)
    requires Ordinary(c, h) && j < |h| && HasMarker(c, h[j])
    ensures !Quiescent(c, h[j])
  {
    if Quiescent(c, h[j]) {
      QuiescentRoot(c, h, j);
    }
  }

  lemma {:induction false} CollectNeedsAll(c: Codec, m: Manifest, fetched: seq<Read>, i: nat, decoded: Bytes)
    requires |fetched| == m.count && i <= m.count && Collect(c, m, fetched, i, decoded).Ok?
    ensures forall j | i <= j < m.count :: fetched[j].Ok? && fetched[j].value.Some?
    decreases m.count - i
  {
    if i < m.count {
      CollectNeedsAll(c, m, fetched, i + 1, Append(c, m, i, decoded, fetched[i].value.value).value);
    }
  }

  /** A legacy value read across any states of the item is the one it began with. */
  lemma LegacyAcross(c: Codec, h: seq<Raw>, f: nat, chunks: seq<Raw>, m: Manifest)
    requires Lawful(c) && Ordinary(c, h) && f < |h| && LegacyRoot(c, h[f]) == Some(m)
    requires |chunks| == m.count && (forall s | s in chunks :: s in h)
    requires ValidManifestFields(m.count, m.length) && m.id != ZERO_ID && m.count > 0
    requires Collect(c, m, LegacyReadsAcross(chunks, m.id), 0, []).Ok?
    ensures Present(Collect(c, m, LegacyReadsAcross(chunks, m.id), 0, [])) == Unmanaged(c, h[0])
  {
    hide Lawful, Ordinary, Succeeds;
    var fetched, began := LegacyReadsAcross(chunks, m.id), LegacyReads(h[0], m.id, m.count);
    CollectNeedsAll(c, m, fetched, 0, []);
    LegacyBegan(c, h, f, m);
    forall j | 0 <= j < m.count ensures began[j] == fetched[j] {
      assert chunks[j] in chunks;
      var k :| 0 <= k < |h| && h[k] == chunks[j];
      ChunkBegan(c, h, k, m.id, j);
    }
    assert began == fetched;
    assert AnyChunk(m, began, 0) == Ok(Confirmed(m));
  }

  lemma LegacyBegan(c: Codec, h: seq<Raw>, f: nat, m: Manifest)
    requires Lawful(c) && Ordinary(c, h) && f < |h| && LegacyRoot(c, h[f]) == Some(m)
    ensures Lookup(h[0], RootKey) == Lookup(h[f], RootKey) && LegacyRoot(c, h[0]) == Some(m)
  {
    RootsOnlyGo(c, h, 0, f);
  }

  lemma ChunkBegan(c: Codec, h: seq<Raw>, k: nat, id: WriteId, j: nat)
    requires Ordinary(c, h) && k < |h|
    requires Lookup(h[k], LegacyChunkKey(id, j)).Ok? && Lookup(h[k], LegacyChunkKey(id, j)).value.Some?
    ensures Lookup(h[0], LegacyChunkKey(id, j)) == Lookup(h[k], LegacyChunkKey(id, j))
  {
    LegacyOnlyShrinks(c, h, 0, k, id, j);
  }

  /** What a reader in the unmanaged branch can return while puts and deletes run:
      what the item held before any of them, absence, an error, or the marker. */
  lemma UnmanagedAcrossHistory(c: Codec, h: seq<Raw>, f: nat, probes: seq<Raw>, chunks: seq<Raw>, l: nat)
    requires Lawful(c) && Ordinary(c, h) && f <= l < |h|
    requires LegacyRoot(c, h[f]).Some? ==> |probes| == |chunks| == LegacyRoot(c, h[f]).value.count
    requires forall s | s in chunks :: s in h
    ensures var r := UnmanagedAcross(c, h[f], probes, chunks, h[l]);
            r.Err? || r in {Ok(None), Ok(Some(c.marker)), Unmanaged(c, h[0])}
  {
    if LegacyRoot(c, h[f]).Some? {
      var m := LegacyRoot(c, h[f]).value;
      AnyChunkResult(m, LegacyReadsAcross(probes, m.id), 0);
      if ValidManifestFields(m.count, m.length) && m.id != ZERO_ID && m.count > 0 &&
         Collect(c, m, LegacyReadsAcross(chunks, m.id), 0, []).Ok? {
        LegacyAcross(c, h, f, chunks, m);
      }
    } else if RootKey in h[l] && h[l][RootKey] != c.marker {
      RootsOnlyGo(c, h, f, l);
      RootsOnlyGo(c, h, 0, l);
    }
  }

  /** It returns the marker exactly when the root it classified was no legacy
      manifest and the root it then read was the marker. What this says is that the
      legacy branch never does; in the other one the last root read is the result,
      and the inventory of that moment, which then records a published generation or
      its deletion, follows from it. What a reader can act on is `RereadCatchesMarker`. */
  lemma MarkerReturnedExactly(c: Codec, h: seq<Raw>, f: nat, probes: seq<Raw>, chunks: seq<Raw>, l: nat)
    requires Lawful(c) && Ordinary(c, h) && f <= l < |h| && Unmanaged(c, h[0]) != Ok(Some(c.marker))
    requires LegacyRoot(c, h[f]).Some? ==> |probes| == |chunks| == LegacyRoot(c, h[f]).value.count
    requires forall s | s in chunks :: s in h
    ensures UnmanagedAcross(c, h[f], probes, chunks, h[l]) == Ok(Some(c.marker))
            <==> Lookup(h[f], RootKey).Ok? && LegacyRoot(c, h[f]).None? && !Quiescent(c, h[l]) && HasMarker(c, h[l])
  {
    if HasMarker(c, h[l]) {
      MarkerMeansPublished(c, h, l);
    }
    if LegacyRoot(c, h[f]).Some? {
      var m := LegacyRoot(c, h[f]).value;
      AnyChunkResult(m, LegacyReadsAcross(probes, m.id), 0);
      if ValidManifestFields(m.count, m.length) && m.id != ZERO_ID && m.count > 0 &&
         Collect(c, m, LegacyReadsAcross(chunks, m.id), 0, []).Ok? {
        LegacyAcross(c, h, f, chunks, m);
      }
    }
  }

  /** From a published state to one with none on record there is a recorded deletion
      whose inventory goes. */
  ghost predicate DeletionEnds(c: Codec, h: seq<Raw>, l: nat, e: nat)
    requires l <= e < |h|
  {
    exists k :: l <= k < e && Removing(c, h[k]) && Quiescent(c, h[k + 1])
  }

  lemma {:induction false} DeletionBetween(c: Codec, h: seq<Raw>, l: nat, e: nat)
    requires Lineage(c, h) && l <= e < |h| && !Quiescent(c, h[l]) && Quiescent(c, h[e])
    ensures DeletionEnds(c, h, l, e)
    decreases e
  {
    assert Link(c, h, e);
    if Quiescent(c, h[e - 1]) {
      DeletionBetween(c, h, l, e - 1);
      var k :| l <= k < e - 1 && Removing(c, h[k]) && Quiescent(c, h[k + 1]);
      assert DeletionEnds(c, h, l, e);
    } else {
      assert Removing(c, h[e - 1]) && Quiescent(c, h[e - 1 + 1]);
    }
  }

  /** A reader that reads the inventory again after the root, and accepts only while
      it still records no published generation, can accept the marker by the moment
      `z` exactly when a deletion has ended since it read the root. */
  lemma RereadCatchesMarker(c: Codec, h: seq<Raw>, l: nat, z: nat)
    requires Ordinary(c, h) && l <= z < |h| && HasMarker(c, h[l])
    ensures (exists e :: l <= e <= z && Quiescent(c, h[e])) <==> DeletionEnds(c, h, l, z)
  {
    MarkerMeansPublished(c, h, l);
    if e :| l <= e <= z && Quiescent(c, h[e]) {
      DeletionBetween(c, h, l, e);
      var k :| l <= k < e && Removing(c, h[k]) && Quiescent(c, h[k + 1]);
    }
    if DeletionEnds(c, h, l, z) {
      var k :| l <= k < z && Removing(c, h[k]) && Quiescent(c, h[k + 1]);
      assert Quiescent(c, h[k + 1]);
    }
  }

  lemma AbsentItem(c: Codec)
    ensures Untouched(c, map[]) && Usable(c, map[]) && Writable([]) && !Removing(c, map[])
    ensures ReadInventory(c, map[]) == Ok(None)
  {
  }

  lemma MarkerAcross(c: Codec, id: WriteId, raw: Raw)
    requires Lawful(c) && OneGeneration(c, raw, id, [])
    ensures UnmanagedAcross(c, map[], [], [], raw) == Ok(Some(c.marker))
  {
  }

  /** A put and a delete of an item that was absent, with the moment in between at
      which a reader that began before them returns the marker; and once the deletion
      has ended, a second look at the inventory tells it nothing. */
  method MarkerLeak(c: Codec, id: WriteId) returns (slot: Slot, ghost leaked: Raw)
    requires Lawful(c) && id != ZERO_ID && c.utf8([])
    ensures slot.Valid() && slot.c == c && fresh(slot)
    ensures slot.history[0] == map[] && ReadInventory(c, slot.history[0]) == Ok(None)
    ensures leaked in slot.history && Get(c, leaked) == Ok(Some([]))
    ensures UnmanagedAcross(c, slot.history[0], [], [], leaked) == Ok(Some(c.marker))
    ensures ReadInventory(c, slot.raw) == Ok(None)
  {
    hide Inv, Lineage, Lawful, Switches, Reads, Deletes, UnmanagedAcross, OneGeneration;
    AbsentItem(c);
    slot := new Slot(c, map[]);
    slot.reliable := true;
    var put := slot.Put([], id);
    leaked := slot.raw;
    MarkerAcross(c, id, leaked);
    ghost var h := slot.history;
    var deleted := slot.Delete();
    assert slot.history[|h| - 1] == leaked;
  }
}
