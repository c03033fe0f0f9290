/** One raw keychain item: a write over an item another application owns goes
    through a journal that stands in while the item is replaced. */
module OwnershipMigration {
  import opened Bytes
  import Codec = KeyringCodec
  import KeyringSlot

  /** A stored item, and whether another application owns it. */
  datatype Item = Item(bytes: Bytes, foreign: bool)

  /** An item's own key and its migration journal, which this tool always owns. */
  datatype Entry = Entry(primary: Option<Item>, journal: Option<Bytes>)

  /** The source's `resolve_stored_value`: the journal answers for an absent primary. */
  function Reading(e: Entry): Option<Bytes> {
    if e.primary.Some? then Some(e.primary.value.bytes) else e.journal
  }

  predicate Allowed(v: Bytes) {
    !KeyringSlot.HasLineBreak(v) && |v| <= Codec.MAX_LOGICAL_CREDENTIAL_BYTES
  }

  /** The same values as the layer above allows. */
  lemma AllowedExactly(v: Bytes)
    ensures Allowed(v) <==> |v| <= 16384 && '\n' as int !in v && '\r' as int !in v
    ensures Allowed(v) <==> KeyringSlot.Writable(v)
  {
  }

  function Own(v: Bytes): Option<Item> {
    Some(Item(v, false))
  }

  /** Every state a put of `v` can stop in. */
  predicate PutStop(e: Entry, v: Bytes, e': Entry, ok: bool) {
    if !Allowed(v) then e' == e && !ok
    else if e.primary.Some? && e.primary.value.foreign then
      if ok then e' in {Entry(Own(v), Some(v)), Entry(Own(v), None)}
      else e' in {e, e.(journal := Some(v)), Entry(None, Some(v)), Entry(Own(v), Some(v))}
    else e' == e.(primary := Own(v)) || (!ok && e' == e)
  }

  predicate DeleteStop(e: Entry, e': Entry, ok: bool) {
    e' == e.(primary := None) || (!ok && e' == e)
  }

  datatype Status = Success | OwnershipConflict | Other

  class Keychain {
    var e: Entry
    const reliable: bool   // the keychain fails no operation but for ownership
    const honest: bool     // an operation that reports failure has had no effect
    const utf8: Bytes -> bool

    constructor (e: Entry, reliable: bool, honest: bool, utf8: Bytes -> bool)
      ensures this.e == e && this.reliable == reliable && this.honest == honest && this.utf8 == utf8
    {
      this.e := e;
      this.reliable, this.honest, this.utf8 := reliable, honest, utf8;
    }

    method Fails() returns (fail: bool)
      ensures reliable ==> !fail
    {
      fail := *;
      if reliable {
        fail := false;
      }
    }

    /** Setting the item: an update cannot take another application's item. */
    method SetPrimary(v: Bytes) returns (status: Status)
      modifies this
      ensures e == old(e).(primary := Own(v)) || (!status.Success? && e == old(e))
      ensures old(e).primary.Some? && old(e).primary.value.foreign ==> !status.Success? && e == old(e)
      ensures status.OwnershipConflict? ==> old(e).primary.Some? && old(e).primary.value.foreign
      ensures reliable ==> !status.Other?
      ensures honest && !status.Success? ==> e == old(e)
    {
      var effect: bool := *;
      var fail := Fails();
      if e.primary.Some? && e.primary.value.foreign {
        return if fail then Other else OwnershipConflict;
      }
      if (effect && !honest) || !fail {
        e := e.(primary := Own(v));
      }
      status := if fail then Other else Success;
    }

    method Write(target: Entry) returns (ok: bool)
      modifies this
      ensures e == target || (!ok && e == old(e))
      ensures reliable ==> ok
      ensures honest && !ok ==> e == old(e)
    {
      var effect: bool := *;
      var fail := Fails();
      if (effect && !honest) || !fail {
        e := target;
      }
      ok := !fail;
    }

    /** The source's `migrate_item_ownership`. */
    method Migrate(v: Bytes) returns (ok: bool)
      requires Allowed(v) && e.primary.Some? && e.primary.value.foreign
      modifies this
      ensures PutStop(old(e), v, e, ok)
      ensures reliable ==> ok && e == Entry(Own(v), None)
      ensures honest ==> (ok <==> e.primary == Own(v))
    {
      ok := Write(e.(journal := Some(v)));
      if !ok {
        return;
      }
      ok := Write(e.(primary := None));
      if !ok {
        return;
      }
      var published := SetPrimary(v);
      if !published.Success? {
        return false;
      }
      var retired := Write(e.(journal := None));
    }

    /** The source's `security_command_put`. */
    method Put(v: Bytes) returns (ok: bool)
      modifies this
      ensures PutStop(old(e), v, e, ok)
      ensures reliable ==>
                (ok <==> Allowed(v)) &&
                (ok ==> e == if old(e).primary.Some? && old(e).primary.value.foreign then Entry(Own(v), None)
                             else old(e).(primary := Own(v)))
    {
      if KeyringSlot.HasLineBreak(v) || |v| > Codec.MAX_LOGICAL_CREDENTIAL_BYTES {
        return false;
      }
      var status := SetPrimary(v);
      if status.OwnershipConflict? {
        ok := Migrate(v);
      } else {
        ok := status.Success?;
      }
    }

    /** The source's `security_command_get`. */
    method Get() returns (r: Result<Option<Bytes>, ()>)
      ensures r.Ok? ==> r.value == Reading(e)
      ensures Reading(e).Some? && !(Allowed(Reading(e).value) && utf8(Reading(e).value)) ==> r.Err?
      ensures reliable ==> (r.Err? <==> Reading(e).Some? && !(Allowed(Reading(e).value) && utf8(Reading(e).value)))
    {
      var fail := Fails();
      if fail {
        return Err(());
      }
      var found := if e.primary.Some? then Some(e.primary.value.bytes) else e.journal;
      r := if found.Some? && !(Allowed(found.value) && utf8(found.value)) then Err(()) else Ok(found);
    }

    /** The source's `security_command_delete`: it does not look at the journal. */
    method Delete() returns (ok: bool)
      modifies this
      ensures DeleteStop(old(e), e, ok)
      ensures reliable ==> ok
    {
      ok := Write(e.(primary := None));
    }
  }

  // -------------------------------------------------------------------- properties

  /** Wherever a put stops, the old value or the new one is read, and the new one
      once it has succeeded: what was readable never goes missing. */
  lemma PutReadsOldOrNew(e: Entry, v: Bytes, e': Entry, ok: bool)
    requires PutStop(e, v, e', ok)
    ensures Reading(e') in {Reading(e), Some(v)}
    ensures ok ==> Reading(e') == Some(v)
  {
  }

  predicate Tried(e: Entry, v: Bytes, e': Entry) {
    PutStop(e, v, e', true) || PutStop(e, v, e', false)
  }

  predicate Retried(states: seq<Entry>, values: seq<Bytes>) {
    && |states| == |values| + 1
    && forall t | 0 <= t < |values| :: Tried(states[t], values[t], states[t + 1])
  }

  /** Any number of puts, each stopped anywhere: the item reads as it first did or
      as one of the values written, and never as absent. */
  lemma {:induction false} NeverAbsent(states: seq<Entry>, values: seq<Bytes>, t: nat)
    requires Retried(states, values) && t <= |values|
    ensures Reading(states[t]) == Reading(states[0]) ||
            exists s :: 0 <= s < t && Reading(states[t]) == Some(values[s])
    ensures Reading(states[0]).Some? ==> Reading(states[t]).Some?
  {
    if t > 0 {
      NeverAbsent(states, values, t - 1);
      assert Tried(states[t - 1], values[t - 1], states[t]);
      var ok := PutStop(states[t - 1], values[t - 1], states[t], true);
      PutReadsOldOrNew(states[t - 1], values[t - 1], states[t], ok);
    }
  }

  /** A successful delete leaves nothing to read exactly when no journal is left. */
  lemma DeleteUncoversJournal(e: Entry)
    ensures (forall e' :: DeleteStop(e, e', true) ==> Reading(e') == None) <==> e.journal.None?
  {
    assert DeleteStop(e, e.(primary := None), true);
  }

  /** Such a journal can be stale: a first write stops after deleting the foreign
      item, a second one succeeds, and deleting it brings the first value back. */
  lemma StaleJournalReappears(found: Bytes, first: Bytes, second: Bytes) returns (states: seq<Entry>)
    requires Allowed(first) && Allowed(second)
    ensures |states| == 4 && states[0] == Entry(Some(Item(found, true)), None)
    ensures PutStop(states[0], first, states[1], false) && PutStop(states[1], second, states[2], true)
    ensures Reading(states[2]) == Some(second)
    ensures DeleteStop(states[2], states[3], true) && Reading(states[3]) == Some(first)
  {
    states := [Entry(Some(Item(found, true)), None), Entry(None, Some(first)),
               Entry(Own(second), Some(first)), Entry(None, Some(first))];
  }

  /** No journal, and nobody else's item: what the layers above start from. */
  predicate Clean(e: Entry) {
    e.journal.None? && (e.primary.Some? ==> !e.primary.value.foreign)
  }

  function Cell(v: Option<Bytes>): Entry {
    Entry(if v.Some? then Own(v.value) else None, None)
  }

  /** A clean item is a plain cell: every put and delete of it is a write of the
      cell that takes effect whole or not at all, and it stays clean. */
  lemma CleanIsPlain(e: Entry, v: Bytes, e': Entry, ok: bool)
    requires Clean(e)
    ensures e == Cell(Reading(e))
    ensures PutStop(e, v, e', ok) <==>
              if Allowed(v) then e' == Cell(Some(v)) || (!ok && e' == e) else !ok && e' == e
    ensures DeleteStop(e, e', ok) <==> e' == Cell(None) || (!ok && e' == e)
  {
  }
}
