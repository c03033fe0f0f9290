/** The store that prefers the platform keyring and sticks to the file fallback
    from the first file on. */
module PlatformStore {
  import opened Bytes
  import FileStore
  import Chained = ChainedCredential

  /** What a fallback file is for: a credential, or its reserved journal. */
  datatype Entry = Value(key: Bytes) | Journal(key: Bytes)

  datatype Backends = Backends(keyring: map<Bytes, Bytes>, fallback: map<Entry, Bytes>)

  function Find<K>(m: map<K, Bytes>, k: K): Option<Bytes> {
    if k in m then Some(m[k]) else None
  }

  /** The fallback holds at least one secret. */
  predicate Sticky(b: Backends) {
    |b.fallback| > 0
  }

  function FallbackReading(b: Backends, key: Bytes): Option<Bytes> {
    if Journal(key) in b.fallback then Some(b.fallback[Journal(key)]) else Find(b.fallback, Value(key))
  }

  /** The value a credential has. */
  function Reading(b: Backends, key: Bytes): Option<Bytes> {
    if Sticky(b) then FallbackReading(b, key) else Find(b.keyring, key)
  }

  function View(b: Backends, key: Bytes): Chained.Cells {
    Chained.Cells(Find(b.keyring, key), Find(b.fallback, Value(key)), Find(b.fallback, Journal(key)))
  }

  function Set<K>(m: map<K, Bytes>, k: K, v: Option<Bytes>): map<K, Bytes> {
    if v.Some? then m[k := v.value] else m - {k}
  }

  function WithView(b: Backends, key: Bytes, c: Chained.Cells): Backends {
    Backends(Set(b.keyring, key, c.primary),
             Set(Set(b.fallback, Value(key), c.fallback), Journal(key), c.journal))
  }

  // ------------------------------------------------------- what an operation may do

  /** Every state a put can stop in; `ok` is its report. */
  ghost predicate PutStop(b: Backends, key: Bytes, v: Bytes, b': Backends, ok: bool) {
    if Sticky(b) then
      b'.keyring == b.keyring && FileStore.Puts(b.fallback, Journal(key), v, b'.fallback, ok)
    else
      && b'.keyring in {b.keyring, b.keyring[key := v]}
      && b'.fallback in {map[], map[Journal(key) := v]}
      && (ok && b'.fallback == map[] ==> b'.keyring == b.keyring[key := v])
  }

  ghost predicate DeleteStop(b: Backends, key: Bytes, b': Backends, ok: bool) {
    if Sticky(b) then
      && b'.keyring == b.keyring
      && b'.fallback in {b.fallback, b.fallback - {Value(key)}, b.fallback - {Value(key), Journal(key)}}
      && (ok ==> b'.fallback == b.fallback - {Value(key), Journal(key)})
    else
      b'.fallback == map[] && FileStore.Removes(b.keyring, key, b'.keyring, ok)
  }

  /** A two-store write that stopped at `c`, seen from the whole stores. */
  lemma ChainedFits(b: Backends, key: Bytes, v: Bytes, c: Chained.Cells, ok: bool)
    requires !Sticky(b) && Chained.Within(View(b, key), v, c)
    requires ok ==> Chained.Resolve(c) == Chained.Holds(v)
    ensures PutStop(b, key, v, WithView(b, key, c), ok)
    ensures c == Chained.Cells(Some(v), None, None) ==> WithView(b, key, c) == Backends(b.keyring[key := v], map[])
  {
    var b' := WithView(b, key, c);
    assert b.fallback == map[];
    assert c.fallback == None && c.journal in {None, Some(v)};
    assert Set(b.fallback, Value(key), None) == map[];
    assert b'.fallback == Set(map[], Journal(key), c.journal);
    SetFound(b.keyring, key);
  }

  lemma SetFound<K>(m: map<K, Bytes>, k: K)
    ensures Set(m, k, Find(m, k)) == m
  {
  }

  class Platform {
    var b: Backends
    const keyringWorks: bool
    const filesWork: bool

    constructor (b: Backends, keyringWorks: bool, filesWork: bool)
      ensures this.b == b && this.keyringWorks == keyringWorks && this.filesWork == filesWork
    {
      this.b, this.keyringWorks, this.filesWork := b, keyringWorks, filesWork;
    }

    method Fails(works: bool) returns (fail: bool)
      ensures works ==> !fail
    {
      fail := *;
      if works {
        fail := false;
      }
    }

    method Put(key: Bytes, v: Bytes) returns (ok: bool)
      modifies this
      ensures PutStop(old(b), key, v, b, ok)
      ensures filesWork ==> ok
      ensures filesWork && keyringWorks && !Sticky(old(b)) ==> b == Backends(old(b).keyring[key := v], map[])
    {
      var fail := Fails(filesWork);
      if fail {
        return false;
      }
      if |b.fallback| > 0 {
        ok := WriteFile(Journal(key), v);
      } else {
        ok := ChainedPut(key, v);
      }
    }

    method WriteFile(entry: Entry, v: Bytes) returns (ok: bool)
      modifies this
      ensures b.keyring == old(b.keyring)
      ensures FileStore.Puts(old(b.fallback), entry, v, b.fallback, ok)
      ensures filesWork ==> ok
    {
      var effect: bool := *;
      var fail := Fails(filesWork);
      ok := !fail;
      if ok || effect {
        b := b.(fallback := b.fallback[entry := v]);
      }
    }

    method RemoveFile(entry: Entry) returns (ok: bool)
      modifies this
      ensures b.keyring == old(b.keyring)
      ensures FileStore.Removes(old(b.fallback), entry, b.fallback, ok)
      ensures filesWork ==> ok
    {
      var effect: bool := *;
      var fail := Fails(filesWork);
      ok := !fail;
      if ok || effect {
        b := b.(fallback := b.fallback - {entry});
      }
    }

    /** The two-store write of one credential over an empty fallback. */
    method ChainedPut(key: Bytes, v: Bytes) returns (ok: bool)
      requires !Sticky(b)
      modifies this
      ensures PutStop(old(b), key, v, b, ok)
      ensures filesWork ==> ok
      ensures filesWork && keyringWorks ==> b == Backends(old(b).keyring[key := v], map[])
    {
      hide PutStop, Chained.Path, WithView;
      var stores := new Chained.Stores(View(b, key), false, keyringWorks, filesWork);
      ok := stores.Put(v);
      ChainedFits(b, key, v, stores.cells, ok);
      b := WithView(b, key, stores.cells);
    }

    method ChainedDelete(key: Bytes) returns (ok: bool)
      requires !Sticky(b)
      modifies this
      ensures DeleteStop(old(b), key, b, ok)
      ensures filesWork && keyringWorks ==> ok
    {
      var stores := new Chained.Stores(View(b, key), false, keyringWorks, filesWork);
      ok := stores.Delete();
      b := WithView(b, key, stores.cells);
    }

    method Delete(key: Bytes) returns (ok: bool)
      modifies this
      ensures DeleteStop(old(b), key, b, ok)
      ensures filesWork && (Sticky(old(b)) || keyringWorks) ==> ok
    {
      var fail := Fails(filesWork);
      if fail {
        return false;
      }
      if |b.fallback| > 0 {
        ok := RemoveFile(Value(key));
        if ok {
          assert b.fallback - {Journal(key)} == old(b.fallback) - {Value(key), Journal(key)};
          ok := RemoveFile(Journal(key));
        }
      } else {
        ok := ChainedDelete(key);
      }
    }

    method Get(key: Bytes) returns (r: Result<Option<Bytes>, ()>)
      ensures r.Ok? ==> r.value == Reading(b, key)
      ensures r.Ok? && Sticky(b) ==> r.value == FallbackReading(b, key)
      ensures filesWork && (Sticky(b) || keyringWorks) ==> r.Ok?
    {
      var fail := Fails(filesWork && (|b.fallback| > 0 || keyringWorks));
      if fail {
        return Err(());
      }
      if |b.fallback| > 0 {
        if Journal(key) in b.fallback {
          return Ok(Some(b.fallback[Journal(key)]));
        }
        return Ok(Find(b.fallback, Value(key)));
      }
      r := Ok(Find(b.keyring, key));
    }

    /** Where a credential is: `Some(true)` in the keyring, `Some(false)` in a file. */
    method Locate(key: Bytes) returns (r: Result<Option<bool>, ()>)
      ensures r.Ok? ==> (r.value.Some? <==> Reading(b, key).Some?)
      ensures r.Ok? && Sticky(b) ==> r.value == if FallbackReading(b, key).Some? then Some(false) else None
      ensures r.Ok? && r.value == Some(true) ==> !Sticky(b) && key in b.keyring
      ensures r.Ok? && r.value == Some(false) ==> Journal(key) in b.fallback || Value(key) in b.fallback
      ensures filesWork && (Sticky(b) || keyringWorks) ==> r.Ok?
    {
      var value := Get(key);
      if value.Err? {
        return Err(());
      }
      r := Ok(if value.value.None? then None else Some(|b.fallback| == 0));
    }
  }

  // -------------------------------------------------------------------- single steps

  /** In every mode a confirmed write is read back, and an unconfirmed one leaves
      the old value or the new. */
  lemma ReadsItsWrite(b: Backends, key: Bytes, v: Bytes, b': Backends, ok: bool)
    requires PutStop(b, key, v, b', ok)
    ensures ok ==> Reading(b', key) == Some(v)
    ensures Reading(b', key) in {Reading(b, key), Some(v)}
  {
    if Journal(key) in b'.fallback {
      assert Sticky(b');
    }
  }

  /** While the fallback holds anything, put and delete leave the keyring alone, and
      what get and locate report does not depend on it. */
  lemma StickyLeavesKeyring(b: Backends, op: Op, b': Backends, key: Bytes, keyring: map<Bytes, Bytes>)
    requires Sticky(b) && Did(b, op, b')
    ensures b'.keyring == b.keyring
    ensures Reading(b.(keyring := keyring), key) == Reading(b, key) == FallbackReading(b, key)
  {
  }

  /** Another credential keeps the fallback in use, or the keyring has no older value. */
  predicate Forgets(b: Backends, key: Bytes) {
    !Sticky(b) || key !in b.keyring || exists e :: e in b.fallback && e.key != key
  }

  /** A confirmed delete leaves nothing to read exactly when emptying the fallback
      does not uncover a keyring value. */
  lemma DeleteThenGet(b: Backends, key: Bytes)
    ensures (forall b' :: DeleteStop(b, key, b', true) ==> Reading(b', key) == None) <==> Forgets(b, key)
  {
    if Sticky(b) {
      var done := b.(fallback := b.fallback - {Value(key), Journal(key)});
      assert DeleteStop(b, key, done, true);
      if e :| e in b.fallback && e.key != key {
        assert e in done.fallback;
      } else {
        assert done.fallback == map[];
      }
    }
  }

  /** A put that ends up in the fallback hides every other credential the keyring
      held: no put over an empty fallback disturbs `other` exactly when the
      keyring does not hold it. */
  lemma RejectedPutHides(b: Backends, key: Bytes, v: Bytes, other: Bytes)
    requires !Sticky(b) && other != key
    ensures (forall b', ok :: PutStop(b, key, v, b', ok) ==> Reading(b', other) == Reading(b, other))
            <==> other !in b.keyring
  {
    var rejected := b.(fallback := map[Journal(key) := v]);
    assert PutStop(b, key, v, rejected, true);
    assert Journal(key) in rejected.fallback;
  }

  /** While the fallback holds anything a credential is what its journal says, or
      without a journal its own file, whatever the keyring holds; otherwise it is what
      the keyring holds. */
  lemma ReadingExactly(b: Backends, key: Bytes, v: Bytes)
    ensures Reading(b, key) == Some(v) <==>
              if b.fallback != map[]
              then (Journal(key), v) in b.fallback.Items ||
                   (Journal(key) !in b.fallback && (Value(key), v) in b.fallback.Items)
              else (key, v) in b.keyring.Items
  {
    assert b.fallback != map[] ==> |b.fallback| > 0;
  }

  // -------------------------------------------------------------------------- runs

  datatype Op = Put(key: Bytes, value: Bytes, ok: bool) | Delete(key: Bytes, ok: bool)

  ghost predicate Did(b: Backends, op: Op, b': Backends) {
    match op
    case Put(key, v, ok) => PutStop(b, key, v, b', ok)
    case Delete(key, ok) => DeleteStop(b, key, b', ok)
  }

  ghost predicate Ran(states: seq<Backends>, ops: seq<Op>) {
    && |states| == |ops| + 1
    && (forall t | 0 <= t < |ops| :: Did(states[t], ops[t], states[t + 1]))
  }

  lemma PutKeepsFile(b: Backends, key: Bytes, v: Bytes, b': Backends, ok: bool, e: Entry)
    requires PutStop(b, key, v, b', ok) && e != Journal(key)
    ensures Find(b'.fallback, e) == Find(b.fallback, e)
  {
    if !Sticky(b) {
      assert b.fallback == map[];
    }
  }

  /** An operation on one credential leaves every other one's cells alone. */
  lemma OthersKept(b: Backends, op: Op, b': Backends, mine: Bytes)
    requires Did(b, op, b') && op.key != mine
    ensures View(b', mine) == View(b, mine)
  {
    var key := op.key;
    assert Find(b'.keyring, mine) == Find(b.keyring, mine);
    forall e | e in {Value(mine), Journal(mine)} ensures Find(b'.fallback, e) == Find(b.fallback, e) {
      assert e != Value(key) && e != Journal(key);
      if op.Put? {
        PutKeepsFile(b, key, op.value, b', op.ok, e);
      }
    }
  }

  lemma {:induction false} CellsKept(states: seq<Backends>, ops: seq<Op>, mine: Bytes, n: nat, t: nat)
    requires Ran(states, ops) && n <= t <= |ops|
    requires forall u | n <= u < t :: ops[u].key != mine
    ensures View(states[t], mine) == View(states[n], mine)
  {
    if n < t {
      CellsKept(states, ops, mine, n, t - 1);
      OthersKept(states[t - 1], ops[t - 1], states[t], mine);
    }
  }

  /** A credential kept in its own file stays readable through any run of operations
      on other credentials. */
  lemma KeptFileIsRead(states: seq<Backends>, ops: seq<Op>, key: Bytes, v: Bytes, t: nat)
    requires Ran(states, ops) && t <= |ops| && forall u | 0 <= u < t :: ops[u].key != key
    requires Value(key) in states[0].fallback && states[0].fallback[Value(key)] == v
    requires Journal(key) !in states[0].fallback
    ensures Reading(states[t], key) == Some(v)
  {
    CellsKept(states, ops, key, 0, t);
    var c := View(states[t], key);
    assert c == View(states[0], key);
    assert Find(states[t].fallback, Value(key)) == Some(v) && Find(states[t].fallback, Journal(key)) == None;
    assert Value(key) in states[t].fallback;
  }

  /** After any run of operations on other credentials, a confirmed write is still
      what is read exactly when the run has not moved the store from the keyring
      to the fallback; and a write into the fallback is never lost. */
  lemma LastWriteIsRead(states: seq<Backends>, ops: seq<Op>, n: nat, t: nat)
    requires Ran(states, ops) && n < t <= |ops|
    requires ops[n].Put? && ops[n].ok
    requires forall u | n < u < t :: ops[u].key != ops[n].key
    ensures Reading(states[t], ops[n].key) == Some(ops[n].value) <==> Sticky(states[t]) == Sticky(states[n + 1])
    ensures Sticky(states[n]) ==> Reading(states[t], ops[n].key) == Some(ops[n].value)
  {
    var mine, v := ops[n].key, ops[n].value;
    assert Did(states[n], ops[n], states[n + 1]);
    ReadsItsWrite(states[n], mine, v, states[n + 1], true);
    CellsKept(states, ops, mine, n + 1, t);
    assert View(states[t], mine) == View(states[n + 1], mine);
    if Sticky(states[n + 1]) {
      assert Journal(mine) in states[n + 1].fallback;
      assert Journal(mine) in states[t].fallback;
    }
  }
}
