/** Replacing one malformed keyring value only after its exact bytes are safe in
    quarantine, over two keyring items whose nested puts may stop anywhere. */
module MalformedRecovery {
  import opened Bytes
  import opened KeyringCodec
  import opened KeyringModel
  import opened KeyringSteps
  import opened KeyringSlot
  import opened KeyringRuns

  /** The original bytes are readable at one of the two identities. */
  ghost predicate Conserved(c: Codec, source: Raw, quarantine: Raw, expected: Bytes) {
    Get(c, source) == Ok(Some(expected)) || Get(c, quarantine) == Ok(Some(expected))
  }

  /** Nothing but the root holds the value: no generation, no legacy chunks. */
  predicate Plain(c: Codec, raw: Raw) {
    && Classify(c, raw) == Ok(NotLegacy)
    && (ReadInventory(c, raw) == Ok(None) ||
        (ReadInventory(c, raw).Ok? && ReadInventory(c, raw).value.Some? &&
         ReadInventory(c, raw).value.value.state.PreparingLegacy?))
  }

  /** The source a recovery may take into quarantine: a bare root with the expected value. */
  predicate Bare(c: Codec, raw: Raw, expected: Bytes) {
    ReadInventory(c, raw) == Ok(None) && Classify(c, raw) == Ok(NotLegacy) && Get(c, raw) == Ok(Some(expected))
  }

  /** An active managed item: without its root it no longer answers. */
  predicate Running(c: Codec, raw: Raw) {
    Managed(c, raw) && !Published(ReadInventory(c, raw).value.value)
  }

  /** A confirmed legacy root: without it its chunks belong to nothing. */
  predicate Stranding(c: Codec, raw: Raw) {
    Quiescent(c, raw) && Classify(c, raw) != Ok(NotLegacy)
  }

  /** The source answers, with the value a recovery deletes from under it. */
  predicate Doomed(c: Codec, source: Raw, expected: Bytes, replacement: Bytes) {
    Get(c, source) == Ok(Some(expected)) && expected != replacement
  }

  /** The pairs of states from which an undisturbed recovery ends well. */
  predicate Completes(c: Codec, source: Raw, quarantine: Raw, expected: Bytes, replacement: Bytes) {
    || (Get(c, quarantine) == Ok(Some(expected)) && Replaces(c, source, expected, replacement))
    || (Get(c, quarantine) == Ok(None) && Bare(c, source, expected) && Writable(expected) &&
        (expected == replacement || Writable(replacement)))
  }

  /** The source states an undisturbed second half replaces. */
  predicate Replaces(c: Codec, source: Raw, expected: Bytes, replacement: Bytes) {
    var s := Get(c, source);
    || s == Ok(Some(replacement))
    || (s in {Ok(Some(expected)), Ok(None)} && Writable(replacement) &&
        !(Doomed(c, source, expected, replacement) && Running(c, source)))
  }

  /** The pairs a recovery must leave exactly as they are: a foreign quarantine, a
      third value at the source, or a source that is not the bare expected value. */
  predicate Refuses(c: Codec, source: Raw, quarantine: Raw, expected: Bytes, replacement: Bytes) {
    var s, q := Get(c, source), Get(c, quarantine);
    || q.Err? || s.Err?
    || (q.value.Some? && q.value.value != expected)
    || (q.value.Some? && s.value.Some? && s.value.value != expected && s.value.value != replacement)
    || (q.value.None? && !Bare(c, source, expected))
  }

  /** Deleting the raw root of an item that answers leaves a reachable item
      answering nothing exactly when the item is plain. */
  lemma RootDeletionIsSafe(c: Codec, raw: Raw, content: Content)
    requires Lawful(c) && Inv(c, raw, content) && Get(c, raw).Ok? && Get(c, raw).value.Some?
    ensures Plain(c, raw) <==> Inv(c, raw - {RootKey}, content) && Get(c, raw - {RootKey}) == Ok(None)
  {
    if Plain(c, raw) {
      PlainRootDeletion(c, raw, content);
    } else {
      GetIsMeaning(c, raw, content);
      assert Lookup(raw - {RootKey}, InventoryKey) == Lookup(raw, InventoryKey);
      if Inv(c, raw - {RootKey}, content) {
        GetIsMeaning(c, raw - {RootKey}, content);
        LegacyRootKeepsChunk(c, raw);
      }
    }
  }

  lemma PlainRootDeletion(c: Codec, raw: Raw, content: Content)
    requires Lawful(c) && Inv(c, raw, content) && Plain(c, raw)
    ensures Inv(c, raw - {RootKey}, content) && Get(c, raw - {RootKey}) == Ok(None)
  {
    NotLegacyMeansNoChunks(c, raw);
    assert Lookup(raw - {RootKey}, InventoryKey) == Lookup(raw, InventoryKey);
  }

  /** A confirmed legacy root has a chunk of its own, which its deletion orphans. */
  lemma LegacyRootKeepsChunk(c: Codec, raw: Raw)
    ensures match Classify(c, raw)
            case Ok(Confirmed(m)) => exists i: nat :: LegacyChunkKey(m.id, i) in raw
            case _ => true
  {
    match Lookup(raw, RootKey)
    case Err(_) =>
    case Ok(None) =>
    case Ok(Some(root)) =>
      if c.parseLegacy(root).Some? {
        var m := c.parseLegacy(root).value;
        ChunkFound(m, raw, LegacyReads(raw, m.id, m.count), 0);
      }
  }

  lemma {:induction false} ChunkFound(m: Manifest, raw: Raw, fetched: seq<Read>, i: nat)
    requires i <= |fetched| && fetched == LegacyReads(raw, m.id, m.count)
    ensures var r := AnyChunk(m, fetched, i);
            r.Err? || r == Ok(Ambiguous) || (r == Ok(Confirmed(m)) && exists j: nat :: LegacyChunkKey(m.id, j) in raw)
    decreases |fetched| - i
  {
    if i < |fetched| {
      if fetched[i].Ok? && fetched[i].value.Some? {
        assert LegacyChunkKey(m.id, i) in raw;
      } else {
        ChunkFound(m, raw, fetched, i + 1);
      }
    }
  }

  // ------------------------------------------------------------------ the protocol

  lemma LastAnswer(slot: Slot, h: seq<Raw>, a: Read, b: Read)
    requires slot.Valid() && |h| > 0 && Switches(slot.c, h, slot.history, a, b) && Get(slot.c, h[|h| - 1]) == a
    ensures Get(slot.c, slot.raw) in {a, b}
  {
    var k :| SwitchesAt(slot.c, h, slot.history, a, b, k);
    if |slot.history| == |h| {
      assert slot.history == h;
    }
  }

  /** Put a value over another answer and believe only what reads back. */
  method PutAndCheck(slot: Slot, value: Bytes, id: WriteId) returns (r: Outcome)
    requires slot.Valid() && slot.Fresh(id) && slot.c.utf8(value)
    requires !Removing(slot.c, slot.raw) && Get(slot.c, slot.raw) != Ok(Some(value))
    modifies slot`raw, slot`history, slot`content
    ensures slot.Valid() && old(slot.history) <= slot.history
    ensures Get(slot.c, slot.raw) in {old(Get(slot.c, slot.raw)), Ok(Some(value))}
    ensures r.Ok? ==> Get(slot.c, slot.raw) == Ok(Some(value))
    ensures old(Get(slot.c, slot.raw)).Err? ==> r.Err? && Get(slot.c, slot.raw) == old(Get(slot.c, slot.raw))
    ensures slot.steady ==> (r.Ok? <==> Get(slot.c, slot.raw) == Ok(Some(value)))
    ensures slot.reliable ==> (r.Ok? <==> Writable(value) && old(Get(slot.c, slot.raw)).Ok?)
  {
    hide Get, Inv, Removing, OneGeneration, Lineage, Lawful, Writable;
    ghost var h, was := slot.history, Get(slot.c, slot.raw);
    assert h[|h| - 1] == slot.raw;
    var put := slot.Put(value, id);
    LastAnswer(slot, h, was, Ok(Some(value)));
    var readback := slot.Fetch();
    if readback == Ok(Some(value)) {
      return Ok(());
    }
    r := if put.Err? then put else Err(NotExact);
  }

  /** The checks before a source is taken into quarantine. */
  method CheckBare(source: Slot, expected: Bytes) returns (r: Outcome)
    ensures r.Ok? ==> Bare(source.c, source.raw, expected)
    ensures source.reliable && Bare(source.c, source.raw, expected) ==> r.Ok?
  {
    var inventory := source.FetchInventory();
    if inventory.Err? {
      return Err(inventory.error);
    }
    var legacy := source.FetchLegacyState();
    if legacy.Err? {
      return Err(legacy.error);
    }
    var current := source.FetchUnmanaged();
    if current.Err? {
      return Err(current.error);
    }
    r := if inventory.value.None? && legacy.value == NotLegacy && current.value == Some(expected)
      then Ok(()) else Err(NotExact);
  }

  /** Everything of one identity's state a recovery step may rely on. */
  ghost predicate Usual(slot: Slot, c: Codec, id: WriteId)
    reads slot
  {
    slot.Valid() && slot.c == c && slot.Fresh(id)
  }

  /** The first half: make sure the exact bytes are in quarantine. */
  method Quarantine(source: Slot, quarantine: Slot, expected: Bytes, found: Option<Bytes>, id: WriteId)
    returns (r: Outcome)
    requires source != quarantine && source.Valid() && Usual(quarantine, source.c, id) && source.c.utf8(expected)
    requires Get(source.c, quarantine.raw) == Ok(found) && (found.Some? ==> found.value == expected)
    modifies quarantine`raw, quarantine`history, quarantine`content
    ensures quarantine.Valid()
    ensures Get(source.c, quarantine.raw) in {Ok(found), Ok(Some(expected))}
    ensures r.Ok? ==> Get(source.c, quarantine.raw) == Ok(Some(expected))
    ensures found.Some? ==> quarantine.raw == old(quarantine.raw)
    ensures found.None? && !Bare(source.c, source.raw, expected) ==> r.Err? && quarantine.raw == old(quarantine.raw)
    ensures source.steady && quarantine.steady ==> (r.Ok? <==> Get(source.c, quarantine.raw) == Ok(Some(expected)))
    ensures source.reliable && quarantine.reliable ==>
              (r.Ok? <==> found.Some? || (Bare(source.c, source.raw, expected) && Writable(expected)))
  {
    if found.None? {
      r := CheckBare(source, expected);
      if r.Err? {
        return;
      }
      r := PutAndCheck(quarantine, expected, id);
      if r.Err? {
        return;
      }
    }
    var readback := quarantine.Fetch();
    if readback.Err? {
      return Err(readback.error);
    }
    r := if readback.value == Some(expected) then Ok(()) else Err(NotExact);
  }

  // --------------------------------------------------- the stranded legacy chunks

  function Strays(raw: Raw): Raw {
    map k | k in raw && k.LegacyChunkKey? :: raw[k]
  }

  /** Every legacy chunk of `a` is still in `b`. */
  ghost predicate ChunksStay(a: Raw, b: Raw) {
    forall k: Part | k.LegacyChunkKey? && k in a :: k in b && b[k] == a[k]
  }

  function Besides(raw: Raw): Raw {
    raw - Strays(raw).Keys
  }

  /** Chunks no root names are never read. */
  lemma StraysAreUnread(c: Codec, raw: Raw, strays: Raw)
    requires forall k | k in strays :: k.LegacyChunkKey?
    requires RootKey in raw ==> c.parseLegacy(raw[RootKey]).None?
    ensures Get(c, raw + strays) == Get(c, raw)
  {
    var all := raw + strays;
    assert forall k: Part | !k.LegacyChunkKey? :: Lookup(all, k) == Lookup(raw, k);
    forall g: GenerationRef ensures ReadGeneration(c, all, g) == ReadGeneration(c, raw, g) {
      assert ChunkReads(all, g.id, g.count) == ChunkReads(raw, g.id, g.count);
    }
  }

  lemma UprootedLegacy(c: Codec, raw: Raw, content: Content)
    requires Lawful(c) && Inv(c, raw, content) && Quiescent(c, raw)
    ensures var left := Besides(raw - {RootKey});
            Inv(c, left, content) && RootKey !in left && Quiescent(c, left) && Get(c, left) == Ok(None)
  {
    var left := Besides(raw - {RootKey});
    assert Lookup(left, InventoryKey) == Lookup(raw, InventoryKey);
    assert NoLegacy(left);
  }

  /** The put over an item whose legacy root has just been deleted: it runs as on the
      item without the stranded chunks, which it never reads, and leaves them there. */
  method PutBesideStrays(source: Slot, value: Bytes, id: WriteId, ghost before: Raw) returns (r: Outcome)
    requires Lawful(source.c) && Inv(source.c, before, source.content) && Quiescent(source.c, before)
    requires source.raw == before - {RootKey} && source.c.utf8(value) && id != ZERO_ID && id !in source.content
    modifies source`raw
    ensures ChunksStay(old(source.raw), source.raw)
    ensures Get(source.c, source.raw) in {Ok(None), Ok(Some(value))}
    ensures r.Ok? ==> Get(source.c, source.raw) == Ok(Some(value))
    ensures source.steady ==> (r.Ok? <==> Get(source.c, source.raw) == Ok(Some(value)))
    ensures source.reliable ==> (r.Ok? <==> Writable(value))
  {
    hide Get, Inv, Lineage, Classify, Succeeds;
    UprootedLegacy(source.c, before, source.content);
    var strays, left := Strays(source.raw), Besides(source.raw);
    var item := new Slot.Resume(source.c, left, source.reliable, source.steady, source.content);
    ghost var h := item.history;
    QuiescentIsNotRemoving(source.c, left);
    r := PutAndCheck(item, value, id);
    MarkerOrNothing(item, h);
    StraysAreUnread(source.c, item.raw, strays);
    source.raw := item.raw + strays;
  }

  lemma QuiescentIsNotRemoving(c: Codec, raw: Raw)
    requires Quiescent(c, raw)
    ensures !Removing(c, raw)
  {
  }

  /** An item that began without a root has the marker for a root, or none. */
  lemma MarkerOrNothing(slot: Slot, h: seq<Raw>)
    requires slot.Valid() && |h| > 0 && h <= slot.history && RootKey !in h[0]
    ensures RootKey in slot.raw ==> slot.c.parseLegacy(slot.raw[RootKey]).None?
  {
    var last := |slot.history| - 1;
    if RootKey in slot.raw && slot.raw[RootKey] != slot.c.marker {
      RootsOnlyGo(slot.c, slot.history, 0, last);
    }
  }

  // ---------------------------------------------------------------- the second half

  /** Deleting the root of a source that answers from it or above it. */
  method Uproot(source: Slot) returns (r: Outcome)
    requires source.Valid() && Get(source.c, source.raw).Ok? && Get(source.c, source.raw).value.Some?
    requires !Stranding(source.c, source.raw)
    modifies source`raw, source`history
    ensures source.Valid()
    ensures || (r.Err? && source.raw == old(source.raw))
            || (source.raw == old(source.raw) - {RootKey} &&
                Get(source.c, source.raw) == AfterUproot(source.c, old(source.raw)))
    ensures !Removing(source.c, source.raw)
    ensures source.reliable ==> r.Ok?
  {
    hide Get, Inv, Lineage, Succeeds, Classify, Removing, AfterUproot, Stranding;
    UprootAnswers(source);
    PieceSucceeds(source.c, source.raw, source.raw - {RootKey}, RootKey);
    r := source.DeleteExact(RootKey);
  }

  /** What is left to answer once the root is gone. */
  function AfterUproot(c: Codec, raw: Raw): Read {
    if Quiescent(c, raw) then Ok(None)
    else if Running(c, raw) then Err(MarkerMissing)
    else Get(c, raw)
  }

  lemma UprootAnswers(source: Slot)
    requires source.Valid() && Get(source.c, source.raw).Ok? && !Stranding(source.c, source.raw)
    ensures var after := source.raw - {RootKey};
            && Inv(source.c, after, source.content)
            && Get(source.c, after) == AfterUproot(source.c, source.raw)
            && !Removing(source.c, source.raw) && !Removing(source.c, after)
  {
    var c, raw := source.c, source.raw;
    assert Lookup(raw - {RootKey}, InventoryKey) == Lookup(raw, InventoryKey);
    source.RemovingAnswers();
    if Quiescent(c, raw) {
      PlainRootDeletion(c, raw, source.content);
    } else {
      UprootStep(c, raw, source.content, ReadInventory(c, raw).value.value);
    }
  }

  method PutAfterCheckpoint(source: Slot, value: Bytes, id: WriteId) returns (r: Outcome)
    requires source.Valid() && source.Fresh(id) && source.c.utf8(value)
    requires !Removing(source.c, source.raw) && Get(source.c, source.raw) != Ok(Some(value))
    modifies source`raw, source`history, source`content
    ensures source.Valid()
    ensures Get(source.c, source.raw) in {old(Get(source.c, source.raw)), Ok(Some(value))}
    ensures r.Ok? ==> Get(source.c, source.raw) == Ok(Some(value))
    ensures old(Get(source.c, source.raw)).Err? ==>
              r.Err? && Get(source.c, source.raw) == old(Get(source.c, source.raw))
    ensures source.steady ==> (r.Ok? <==> Get(source.c, source.raw) == Ok(Some(value)))
    ensures source.reliable ==> (r.Ok? <==> Writable(value) && old(Get(source.c, source.raw)).Ok?)
  {
    hide Get, Inv, Removing, Lineage, Lawful, Writable;
    r := source.Checkpoint();
    if r.Err? {
      return;
    }
    r := PutAndCheck(source, value, id);
  }

  /** The replacement of an item that keeps to the protocol without its root. */
  method ReplaceRoot(source: Slot, ghost expected: Bytes, replacement: Bytes, id: WriteId) returns (r: Outcome)
    requires source.Valid() && source.Fresh(id) && source.c.utf8(replacement) && expected != replacement
    requires Get(source.c, source.raw) == Ok(Some(expected)) && !Stranding(source.c, source.raw)
    modifies source`raw, source`history, source`content
    ensures source.Valid()
    ensures Get(source.c, source.raw) in
              {Ok(Some(expected)), AfterUproot(source.c, old(source.raw)), Ok(Some(replacement))}
    ensures r.Ok? ==> Get(source.c, source.raw) == Ok(Some(replacement))
    ensures AfterUproot(source.c, old(source.raw)) != Ok(Some(expected)) &&
            Get(source.c, source.raw) == Ok(Some(expected)) ==>
              source.raw == old(source.raw)
    ensures source.steady ==> (r.Ok? <==> Get(source.c, source.raw) == Ok(Some(replacement)))
    ensures source.reliable ==> (r.Ok? <==> Writable(replacement) && AfterUproot(source.c, old(source.raw)).Ok?)
    ensures source.reliable && AfterUproot(source.c, old(source.raw)).Err? ==>
              Get(source.c, source.raw) == AfterUproot(source.c, old(source.raw))
  {
    hide Get, Inv, Lineage, Succeeds, Classify, Removing, AfterUproot, Stranding;
    AfterUprootTells(source.c, source.raw, expected);
    r := Uproot(source);
    if r.Err? {
      return;
    }
    r := PutAfterCheckpoint(source, replacement, id);
  }

  lemma AfterUprootTells(c: Codec, raw: Raw, expected: Bytes)
    requires Get(c, raw) == Ok(Some(expected))
    ensures AfterUproot(c, raw) in {Ok(Some(expected)), Ok(None), Err(MarkerMissing)}
    ensures AfterUproot(c, raw).Err? <==> Running(c, raw)
    ensures Plain(c, raw) ==> AfterUproot(c, raw) == Ok(None) && !Stranding(c, raw)
    ensures Stranding(c, raw) ==> !Running(c, raw)
  {
  }

  /** The replacement of a confirmed legacy item: its root goes, its chunks stay. */
  method ReplaceLegacy(source: Slot, ghost expected: Bytes, replacement: Bytes, id: WriteId) returns (r: Outcome)
    requires source.Valid() && source.Fresh(id) && source.c.utf8(replacement)
    requires Get(source.c, source.raw) == Ok(Some(expected)) && Stranding(source.c, source.raw)
    modifies source`raw, source`history
    ensures ChunksStay(old(source.raw), source.raw)
    ensures Get(source.c, source.raw) in {Ok(Some(expected)), Ok(None), Ok(Some(replacement))}
    ensures r.Ok? ==> Get(source.c, source.raw) == Ok(Some(replacement))
    ensures source.steady && expected != replacement ==> (r.Ok? <==> Get(source.c, source.raw) == Ok(Some(replacement)))
    ensures source.reliable ==> (r.Ok? <==> Writable(replacement))
  {
    hide Get, Inv, Lineage, Succeeds, Classify;
    ghost var before := source.raw;
    RootlessQuiescent(source.c, before);
    r := source.DeleteRaw(RootKey);
    if r.Err? {
      return;
    }
    r := source.Checkpoint();
    if r.Err? {
      return;
    }
    r := PutBesideStrays(source, replacement, id, before);
  }

  lemma RootlessQuiescent(c: Codec, raw: Raw)
    requires Quiescent(c, raw)
    ensures Get(c, raw - {RootKey}) == Ok(None)
  {
    assert Lookup(raw - {RootKey}, InventoryKey) == Lookup(raw, InventoryKey);
  }

  /** The second half: with the bytes in quarantine, delete the source and publish.
      The source keeps to its protocol unless a confirmed legacy root was deleted; an
      active item whose root was deleted answers no more. */
  method Replace(source: Slot, expected: Bytes, replacement: Bytes, id: WriteId) returns (r: Outcome)
    requires source.Valid() && source.Fresh(id) && source.c.utf8(replacement)
    modifies source`raw, source`history, source`content
    ensures !old(Doomed(source.c, source.raw, expected, replacement) && Stranding(source.c, source.raw)) ==>
              source.Valid()
    ensures old(Doomed(source.c, source.raw, expected, replacement) && Stranding(source.c, source.raw)) ==>
              ChunksStay(old(source.raw), source.raw)
    ensures Get(source.c, source.raw) in
              {old(Get(source.c, source.raw)), Ok(None), Ok(Some(replacement)), Err(MarkerMissing)}
    ensures Get(source.c, source.raw) == Err(MarkerMissing) != old(Get(source.c, source.raw)) ==>
              old(Doomed(source.c, source.raw, expected, replacement) && Running(source.c, source.raw))
    ensures r.Ok? ==> Get(source.c, source.raw) == Ok(Some(replacement))
    ensures old(Plain(source.c, source.raw)) && expected != replacement &&
            Get(source.c, source.raw) == Ok(Some(expected)) ==>
              source.raw == old(source.raw)
    ensures old(Get(source.c, source.raw)) !in {Ok(Some(expected)), Ok(None), Ok(Some(replacement))} ==>
              r.Err? && source.raw == old(source.raw)
    ensures source.steady ==> (r.Ok? <==> Get(source.c, source.raw) == Ok(Some(replacement)))
    ensures source.reliable ==> (r.Ok? <==> old(Replaces(source.c, source.raw, expected, replacement)))
    ensures source.reliable &&
            old(Doomed(source.c, source.raw, expected, replacement) && Running(source.c, source.raw)) ==>
              Get(source.c, source.raw) == Err(MarkerMissing)
  {
    hide Get, Classify, Inv, Lineage, Lawful, Plain, Quiescent, Running, Stranding, AfterUproot, Writable, Removing;
    source.RemovingAnswers();
    if Get(source.c, source.raw) == Ok(Some(expected)) {
      AfterUprootTells(source.c, source.raw, expected);
    }
    var current := source.Fetch();
    if current.Err? {
      return Err(current.error);
    }
    if current.value == Some(replacement) {
      return Ok(());
    }
    if current.value.Some? && current.value.value != expected {
      return Err(NotExact);
    }
    if current.value.None? {
      r := PutAfterCheckpoint(source, replacement, id);
      return;
    }
    if Stranding(source.c, source.raw) {
      r := ReplaceLegacy(source, expected, replacement, id);
    } else {
      r := ReplaceRoot(source, expected, replacement, id);
    }
  }

  /** The source holds what is expected while the quarantine already does too: the
      one situation in which a root other than a bare one is deleted. */
  predicate Uproots(c: Codec, source: Raw, quarantine: Raw, expected: Bytes, replacement: Bytes) {
    Get(c, quarantine) == Ok(Some(expected)) && Doomed(c, source, expected, replacement)
  }

  predicate Strands(c: Codec, source: Raw, quarantine: Raw, expected: Bytes, replacement: Bytes) {
    Uproots(c, source, quarantine, expected, replacement) && Stranding(c, source)
  }

  /** The source's `recover_malformed_with`, under its one guard. Stopped anywhere,
      the original bytes stay readable at one of the two identities; it ends well
      with the replacement at the source and the original in quarantine; a third
      value is refused and left as it was; and run undisturbed from any state a
      stopped recovery of a plain source leaves, it ends well. A confirmed legacy
      source loses its protocol with its root, an active one its answer. */
  method Recover(source: Slot, quarantine: Slot, expected: Bytes, replacement: Bytes,
                 sourceId: WriteId, quarantineId: WriteId) returns (r: Outcome)
    requires Usual(source, source.c, sourceId) && Usual(quarantine, source.c, quarantineId)
    requires source.c.utf8(expected) && source.c.utf8(replacement)
    modifies source`raw, source`history, source`content, quarantine`raw, quarantine`history, quarantine`content
    ensures quarantine.Valid() || source == quarantine
    ensures source == quarantine ==> r.Err? && source.raw == old(source.raw) && source.Valid()
    ensures if old(Strands(source.c, source.raw, quarantine.raw, expected, replacement))
            then ChunksStay(old(source.raw), source.raw) else source.Valid()
    ensures old(Conserved(source.c, source.raw, quarantine.raw, expected)) ==>
              Conserved(source.c, source.raw, quarantine.raw, expected)
    ensures r.Ok? ==> Get(source.c, source.raw) == Ok(Some(replacement)) &&
                      Get(source.c, quarantine.raw) == Ok(Some(expected))
    ensures old(Refuses(source.c, source.raw, quarantine.raw, expected, replacement)) ==>
              r.Err? && source.raw == old(source.raw) && quarantine.raw == old(quarantine.raw)
    ensures old(Completes(source.c, source.raw, quarantine.raw, expected, replacement)) &&
            (old(Doomed(source.c, source.raw, expected, replacement)) ==> old(Plain(source.c, source.raw))) ==>
              Completes(source.c, source.raw, quarantine.raw, expected, replacement)
    ensures source.steady && quarantine.steady && source != quarantine ==>
              (r.Ok? <==> Get(source.c, source.raw) == Ok(Some(replacement)) &&
                          Get(source.c, quarantine.raw) == Ok(Some(expected)))
    ensures source.reliable && quarantine.reliable && source != quarantine ==>
              (r.Ok? <==> old(Completes(source.c, source.raw, quarantine.raw, expected, replacement)))
    ensures source.reliable && quarantine.reliable && source != quarantine &&
            old(Uproots(source.c, source.raw, quarantine.raw, expected, replacement)) &&
            old(Running(source.c, source.raw)) ==>
              Get(source.c, source.raw) == Err(MarkerMissing)
  {
    hide Get, Classify, ReadInventory, Inv, Plain, Writable, Lineage, Quiescent, Running, Stranding;
    if source == quarantine {
      return Err(NotExact);
    }
    var found := quarantine.Fetch();
    if found.Err? {
      return Err(found.error);
    }
    if found.value.Some? && found.value.value != expected {
      return Err(NotExact);
    }
    var current := source.Fetch();
    if current.Err? {
      return Err(current.error);
    }
    if current.value == Some(replacement) && found.value == Some(expected) {
      return Ok(());
    }
    BareIsPlain(source.c, source.raw, expected);
    r := Quarantine(source, quarantine, expected, found.value, quarantineId);
    if r.Err? {
      return;
    }
    r := Replace(source, expected, replacement, sourceId);
  }

  lemma BareIsPlain(c: Codec, raw: Raw, expected: Bytes)
    ensures Bare(c, raw, expected) ==> Plain(c, raw) && !Running(c, raw) && !Stranding(c, raw)
    ensures Plain(c, raw) ==> !Running(c, raw)
  {
  }

  /** A new item holding one value, with nothing failing. */
  method Stored(c: Codec, value: Bytes, id: WriteId) returns (slot: Slot)
    requires Lawful(c) && Writable(value) && c.utf8(value) && id != ZERO_ID
    ensures fresh(slot) && slot.Valid() && slot.c == c && slot.reliable
    ensures Get(c, slot.raw) == Ok(Some(value)) && Running(c, slot.raw)
    ensures slot.content.Keys <= {id} && RootKey in slot.raw && slot.raw[RootKey] == c.marker
  {
    slot := new Slot(c, map[]);
    slot.reliable := true;
    var stored := slot.Put(value, id);
  }

  /** A source written by a put, recovered after its bytes are already in quarantine:
      it loses its root, fails, and answers no more, so that every further recovery
      refuses it. */
  method ActiveSourceIsLost(c: Codec, expected: Bytes, replacement: Bytes, ids: seq<WriteId>) returns (source: Slot)
    requires Lawful(c) && Writable(expected) && c.utf8(expected) && c.utf8(replacement) && expected != replacement
    requires |ids| == 4 && ZERO_ID !in ids && forall i, j | 0 <= i < j < 4 :: ids[i] != ids[j]
    ensures source.c == c && Get(c, source.raw) == Err(MarkerMissing)
    ensures forall q: Raw :: Refuses(c, source.raw, q, expected, replacement)
  {
    hide Get, Inv, Lineage, Running, Writable;
    source := Stored(c, expected, ids[0]);
    var quarantine := Stored(c, expected, ids[1]);
    var first := Recover(source, quarantine, expected, replacement, ids[2], ids[3]);
    assert first.Err? && Get(c, source.raw) == Err(MarkerMissing);
  }
}
