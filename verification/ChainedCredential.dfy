/** One credential kept in a primary store with a legacy fallback and a
    write-ahead journal: any number of crash-prone writers, one writer with
    failing stores, and deletion. */
module ChainedCredential {
  import opened Bytes

  datatype Cells = Cells(primary: Option<Bytes>, fallback: Option<Bytes>, journal: Option<Bytes>)

  datatype Answer = Holds(value: Bytes) | Missing | Ambiguous

  /** The source's `resolve_chained_credential` on readable stores. */
  function Resolve(c: Cells): Answer {
    if c.journal.Some? then Holds(c.journal.value)
    else if c.fallback.Some? && c.primary.Some? then
      if c.primary == c.fallback then Holds(c.fallback.value) else Ambiguous
    else if c.fallback.Some? then Holds(c.fallback.value)
    else if c.primary.Some? then Holds(c.primary.value)
    else Missing
  }

  /** Both stores hold nothing but `v`, and one of them holds it. */
  predicate Agrees(c: Cells, v: Bytes) {
    (c.primary.Some? || c.fallback.Some?) && c.primary in {None, Some(v)} && c.fallback in {None, Some(v)}
  }

  /** The credential is `v` exactly when the journal says so, or there is no journal
      and the stores agree on it; it is missing exactly when there is nothing
      anywhere; and it is ambiguous otherwise. */
  lemma ResolveExactly(c: Cells, v: Bytes)
    ensures Resolve(c) == Holds(v) <==> c.journal == Some(v) || (c.journal.None? && Agrees(c, v))
    ensures Resolve(c) == Missing <==> c == Cells(None, None, None)
    ensures Resolve(c) == Ambiguous <==>
              c.journal.None? && c.primary.Some? && c.fallback.Some? && c.primary.value != c.fallback.value
  {
  }

  // ------------------------------------------------------------- one writer's steps

  /** The store operation a writer performs next. */
  datatype Pc =
    | InspectFallback | InspectJournal
    | WriteJournal                   // fallback state exists: stage the value first
    | WritePrimary(staged: bool)
    | ClearFallback | RequireJournal // staged, and the primary took the value
    | ConfirmJournal | RepairJournal // staged, and the primary refused
    | CheckJournal | LateJournal     // not staged, and the primary took the value
    | FallBack                       // not staged, and the primary refused
    | ClearJournal | RecoverJournal
    | Done | Failed

  /** A store write that succeeds has happened; one that fails may have. */
  predicate Writes(before: Cells, target: Cells, after: Cells, ok: bool) {
    after == target || (!ok && after == before)
  }

  /** One store operation of a writer of `v`, with every outcome it may have. */
  predicate Step(c: Cells, pc: Pc, v: Bytes, c': Cells, pc': Pc) {
    var staged := c.(journal := Some(v));
    match pc
    case InspectFallback =>
      c' == c && (pc' == Failed || pc' == if c.fallback.Some? then WriteJournal else InspectJournal)
    case InspectJournal =>
      c' == c && (pc' == Failed || pc' == if c.journal.Some? then WriteJournal else WritePrimary(false))
    case WriteJournal =>
      (pc' == WritePrimary(true) && Writes(c, staged, c', true)) || (pc' == Failed && Writes(c, staged, c', false))
    case WritePrimary(was_staged) =>
      || (pc' == (if was_staged then ClearFallback else CheckJournal) && Writes(c, c.(primary := Some(v)), c', true))
      || (pc' == (if was_staged then ConfirmJournal else FallBack) && Writes(c, c.(primary := Some(v)), c', false))
    case ClearFallback =>
      || (pc' == ClearJournal && Writes(c, c.(fallback := None), c', true))
      || (pc' == RequireJournal && Writes(c, c.(fallback := None), c', false))
    case RequireJournal =>
      c' == c && (pc' == Failed || (pc' == Done && c.journal == Some(v)))
    case ConfirmJournal =>
      c' == c && (pc' == Failed || pc' == if c.journal == Some(v) then Done else RepairJournal)
    case RepairJournal =>
      (pc' == Done && Writes(c, staged, c', true)) || (pc' == Failed && Writes(c, staged, c', false))
    case CheckJournal =>
      c' == c && (pc' == Failed || pc' == if c.journal.None? then Done else LateJournal)
    case LateJournal =>
      (pc' == ClearJournal && Writes(c, staged, c', true)) || (pc' == Failed && Writes(c, staged, c', false))
    case FallBack =>
      (pc' == Done && Writes(c, staged, c', true)) || (pc' == Failed && Writes(c, staged, c', false))
    case ClearJournal =>
      || (pc' == Done && Writes(c, c.(journal := None), c', true))
      || (pc' == RecoverJournal && Writes(c, c.(journal := None), c', false))
    case RecoverJournal =>
      c' == c && (pc' == Failed || (pc' == Done && c.journal in {Some(v), None}))
    case Done => false
    case Failed => false
  }

  /** A writer that reports success has just seen its value in the journal, or put it
      there; or, its value in the primary, has seen no other value in the journal. */
  lemma DoneMeans(c: Cells, pc: Pc, v: Bytes, c': Cells)
    requires Step(c, pc, v, c', Done)
    ensures c'.journal == Some(v) || (c'.journal.None? && pc in {CheckJournal, ClearJournal, RecoverJournal})
  {
  }

  /** It gets to those three only by a primary write that took its value. */
  lemma PrimaryTaken(c: Cells, pc: Pc, v: Bytes, c': Cells, pc': Pc)
    requires Step(c, pc, v, c', pc') && (pc'.CheckJournal? || pc'.ClearFallback?)
    ensures pc.WritePrimary? && c' == c.(primary := Some(v))
  {
  }

  // ------------------------------------------------------------------ many writers

  datatype Writer = Writer(value: Bytes, pc: Pc)

  datatype World = World(cells: Cells, writers: seq<Writer>)

  /** A new writer arrives, or one writer performs one store operation; a writer
      that crashed is one that never moves again. */
  ghost predicate Next(w: World, w': World) {
    || (exists v {:trigger Writer(v, InspectFallback)} ::
          w' == w.(writers := w.writers + [Writer(v, InspectFallback)]))
    || (exists n, pc' {:trigger Moves(w, n, w', pc')} :: Moves(w, n, w', pc'))
  }

  ghost predicate Moves(w: World, n: int, w': World, pc': Pc) {
    && 0 <= n < |w.writers|
    && Step(w.cells, w.writers[n].pc, w.writers[n].value, w'.cells, pc')
    && w'.writers == w.writers[n := w.writers[n].(pc := pc')]
  }

  ghost predicate Offered(w: World, v: Option<Bytes>) {
    v.Some? && exists n :: 0 <= n < |w.writers| && w.writers[n].value == v.value
  }

  /** The primary holds some writer's value and the legacy fallback is gone. */
  ghost predicate Settled(w: World) {
    w.cells.fallback.None? && Offered(w, w.cells.primary)
  }

  /** What a writer's position says about the stores, whatever others do. */
  ghost predicate Position(w: World, pc: Pc) {
    match pc
    case WritePrimary(true) => w.cells.journal.Some? || Settled(w)
    case ClearFallback => (w.cells.journal.Some? || Settled(w)) && Offered(w, w.cells.primary)
    case RequireJournal => Offered(w, w.cells.primary)
    case ClearJournal => Settled(w)
    case CheckJournal => Settled(w)
    case LateJournal => Settled(w)
    case RecoverJournal => Settled(w)
    case InspectJournal => w.cells.fallback.None?
    case WritePrimary(false) => w.cells.fallback.None?
    case FallBack => w.cells.fallback.None?
    case _ => true
  }

  /** The invariant: with no journal, either nothing has been touched, or the
      fallback is gone and the primary holds a writer's value. */
  ghost predicate WorldInv(start: Cells, w: World) {
    && (w.cells.journal.Some? ==> w.cells.journal == start.journal || Offered(w, w.cells.journal))
    && (w.cells.journal.None? ==> w.cells == start || Settled(w))
    && (forall n | 0 <= n < |w.writers| :: Position(w, w.writers[n].pc))
  }

  lemma InvImpliesAnswer(start: Cells, w: World)
    requires WorldInv(start, w)
    ensures Resolve(w.cells) == Resolve(start) ||
            exists n :: 0 <= n < |w.writers| && Resolve(w.cells) == Holds(w.writers[n].value)
  {
    if w.cells.journal.Some? && w.cells.journal != start.journal {
      var n :| 0 <= n < |w.writers| && w.writers[n].value == w.cells.journal.value;
    } else if w.cells.journal.None? && w.cells != start {
      var n :| 0 <= n < |w.writers| && w.writers[n].value == w.cells.primary.value;
    }
  }

  lemma OfferedKept(w: World, w': World, v: Option<Bytes>)
    requires |w.writers| <= |w'.writers|
    requires forall n | 0 <= n < |w.writers| :: w'.writers[n].value == w.writers[n].value
    requires Offered(w, v)
    ensures Offered(w', v)
  {
    var n :| 0 <= n < |w.writers| && w.writers[n].value == v.value;
    assert w'.writers[n].value == v.value;
  }

  /** What a step of writer `n` leaves standing for everybody. */
  lemma MoveKeepsStores(start: Cells, w: World, n: int, w': World, pc': Pc)
    requires WorldInv(start, w) && Moves(w, n, w', pc')
    ensures Settled(w) ==> Settled(w')
    ensures Offered(w, w.cells.primary) ==> Offered(w', w'.cells.primary)
    ensures w.cells.fallback.None? ==> w'.cells.fallback.None?
  {
    assert w'.writers[n].value == w.writers[n].value;
    if Offered(w, w.cells.primary) {
      OfferedKept(w, w', w.cells.primary);
    }
  }

  lemma MoveKeepsJournal(start: Cells, w: World, n: int, w': World, pc': Pc)
    requires WorldInv(start, w) && Moves(w, n, w', pc')
    ensures w'.cells.journal.Some? ==> w'.cells.journal == start.journal || Offered(w', w'.cells.journal)
    ensures w'.cells.journal.None? ==> w'.cells == start || Settled(w')
  {
    MoveKeepsStores(start, w, n, w', pc');
    assert w'.writers[n].value == w.writers[n].value;
    assert Position(w, w.writers[n].pc);
    if Offered(w, w.cells.journal) {
      OfferedKept(w, w', w.cells.journal);
    }
  }

  lemma MoverKnows(start: Cells, w: World, n: int, w': World, pc': Pc)
    requires WorldInv(start, w) && Moves(w, n, w', pc')
    ensures Position(w', pc')
  {
    MoveKeepsStores(start, w, n, w', pc');
    MoveKeepsJournal(start, w, n, w', pc');
    assert w'.writers[n].value == w.writers[n].value;
    assert Position(w, w.writers[n].pc);
  }

  /** A step of writer `n` keeps the invariant and every other writer's position. */
  lemma MoveKeepsInv(start: Cells, w: World, n: int, w': World, pc': Pc)
    requires WorldInv(start, w) && Moves(w, n, w', pc')
    ensures WorldInv(start, w')
  {
    MoveKeepsStores(start, w, n, w', pc');
    MoveKeepsJournal(start, w, n, w', pc');
    MoverKnows(start, w, n, w', pc');
    assert w.cells.journal.Some? || Settled(w) ==> w'.cells.journal.Some? || Settled(w') by {
      assert Position(w, w.writers[n].pc);
    }
    forall m | 0 <= m < |w'.writers| ensures Position(w', w'.writers[m].pc) {
      if m != n {
        hide Step, Settled, Offered;
        assert Position(w, w.writers[m].pc);
      }
    }
  }

  lemma NextKeepsInv(start: Cells, w: World, w': World)
    requires WorldInv(start, w) && Next(w, w')
    ensures WorldInv(start, w')
  {
    if exists n, pc' :: Moves(w, n, w', pc') {
      var n, pc' :| Moves(w, n, w', pc');
      MoveKeepsInv(start, w, n, w', pc');
    } else {
      if Offered(w, w.cells.primary) {
        OfferedKept(w, w', w.cells.primary);
      }
      if Offered(w, w.cells.journal) {
        OfferedKept(w, w', w.cells.journal);
      }
      forall m | 0 <= m < |w'.writers| ensures Position(w', w'.writers[m].pc) {
        if m < |w.writers| {
          assert Position(w, w.writers[m].pc);
        }
      }
    }
  }

  ghost predicate Behaviour(start: Cells, run: seq<World>) {
    && |run| > 0 && run[0] == World(start, [])
    && (forall t | 0 < t < |run| :: Next(run[t - 1], run[t]))
  }

  lemma {:induction false} BehaviourInv(start: Cells, run: seq<World>, t: nat)
    requires Behaviour(start, run) && t < |run|
    ensures WorldInv(start, run[t])
  {
    if t > 0 {
      BehaviourInv(start, run, t - 1);
      NextKeepsInv(start, run[t - 1], run[t]);
    }
  }

  /** At every moment of every interleaving of any number of writers, each of
      which may crash or meet a failing store anywhere, the credential resolves
      to what it first resolved to or to some writer's value. */
  lemma WritersNeverLose(start: Cells, run: seq<World>, t: nat)
    requires Behaviour(start, run) && t < |run|
    ensures Resolve(run[t].cells) == Resolve(start) ||
            exists n :: 0 <= n < |run[t].writers| && Resolve(run[t].cells) == Holds(run[t].writers[n].value)
  {
    BehaviourInv(start, run, t);
    InvImpliesAnswer(start, run[t]);
  }

  /** So an unambiguous credential never becomes ambiguous, and a present one
      never goes missing. */
  lemma NeverAmbiguousNeverMissing(start: Cells, run: seq<World>, t: nat)
    requires Behaviour(start, run) && t < |run|
    ensures Resolve(start) != Ambiguous ==> Resolve(run[t].cells) != Ambiguous
    ensures Resolve(start).Holds? ==> Resolve(run[t].cells).Holds?
  {
    WritersNeverLose(start, run, t);
  }

  // ------------------------------------------------------ a reader among the writers

  /** What a reader sees that looks at the journal, the fallback and the primary at
      three moments of a run. */
  function ReadAcross(run: seq<World>, i: nat, j: nat, k: nat): Answer
    requires i < |run| && j < |run| && k < |run|
  {
    Resolve(Cells(run[k].cells.primary, run[j].cells.fallback, run[i].cells.journal))
  }

  /** Some writer's value. */
  ghost predicate IsOffered(w: World, r: Answer) {
    r.Holds? && Offered(w, Some(r.value))
  }

  /** The primary and the fallback are as they were, or a writer's value is there and
      the fallback gone. */
  ghost predicate Touched(start: Cells, w: World) {
    && (w.cells.primary == start.primary || Offered(w, w.cells.primary))
    && (w.cells.fallback == start.fallback || (w.cells.fallback.None? && Offered(w, w.cells.primary)))
  }

  lemma MoveTouches(start: Cells, w: World, n: int, w': World, pc': Pc)
    requires WorldInv(start, w) && Touched(start, w) && Moves(w, n, w', pc')
    ensures Touched(start, w')
  {
    MoveKeepsStores(start, w, n, w', pc');
    assert w'.writers[n].value == w.writers[n].value;
    assert Position(w, w.writers[n].pc);
  }

  /** What stays once it is so: a writer's value offered or in the primary, a fallback
      gone, and a journal or a settled credential. */
  ghost predicate Carries(w: World, w': World) {
    && (forall v | Offered(w, v) :: Offered(w', v))
    && (Offered(w, w.cells.primary) ==> Offered(w', w'.cells.primary))
    && (w.cells.fallback.None? ==> w'.cells.fallback.None?)
    && (w.cells.journal.Some? || Settled(w) ==> w'.cells.journal.Some? || Settled(w'))
  }

  lemma MoveCarries(start: Cells, w: World, n: int, w': World, pc': Pc)
    requires WorldInv(start, w) && Moves(w, n, w', pc')
    ensures Carries(w, w')
  {
    MoveKeepsStores(start, w, n, w', pc');
    assert Position(w, w.writers[n].pc);
    assert w'.writers[n].value == w.writers[n].value;
    forall v | Offered(w, v) ensures Offered(w', v) {
      OfferedKept(w, w', v);
    }
  }

  lemma NextCarries(start: Cells, w: World, w': World)
    requires WorldInv(start, w) && Touched(start, w) && Next(w, w')
    ensures Carries(w, w') && Touched(start, w')
  {
    if exists n, pc' :: Moves(w, n, w', pc') {
      var n, pc' :| Moves(w, n, w', pc');
      MoveCarries(start, w, n, w', pc');
      MoveTouches(start, w, n, w', pc');
    } else {
      forall v | Offered(w, v) ensures Offered(w', v) {
        OfferedKept(w, w', v);
      }
    }
  }

  lemma {:induction false} BehaviourTouched(start: Cells, run: seq<World>, t: nat)
    requires Behaviour(start, run) && t < |run|
    ensures Touched(start, run[t])
  {
    hide Next, WorldInv, Carries;
    if t > 0 {
      BehaviourTouched(start, run, t - 1);
      BehaviourInv(start, run, t - 1);
      NextCarries(start, run[t - 1], run[t]);
    }
  }

  lemma {:induction false} BehaviourCarries(start: Cells, run: seq<World>, i: nat, k: nat)
    requires Behaviour(start, run) && i <= k < |run|
    ensures Carries(run[i], run[k])
    decreases k
  {
    hide Next, WorldInv, Touched;
    if i < k {
      BehaviourCarries(start, run, i, k - 1);
      BehaviourInv(start, run, k - 1);
      BehaviourTouched(start, run, k - 1);
      NextCarries(start, run[k - 1], run[k]);
    }
  }

  /** A reader whose three reads fall anywhere among any number of writers sees what
      the credential first resolved to or a writer's value. It reports an ambiguity
      that no writer found only when nothing had been touched when it read the
      journal, the fallback it read is the first one, and the primary had meanwhile
      taken a writer's value. If it cannot read the primary, the fallback that then
      answers is what the credential first resolved to. */
  lemma ReaderAmongWriters(start: Cells, run: seq<World>, i: nat, j: nat, k: nat)
    requires Behaviour(start, run) && i <= j <= k < |run|
    ensures var r := ReadAcross(run, i, j, k);
            || r == Resolve(start) || IsOffered(run[k], r)
            || (r == Ambiguous && run[i].cells == start && run[j].cells.fallback == start.fallback &&
                Offered(run[k], run[k].cells.primary))
    ensures Resolve(start).Holds? ==> ReadAcross(run, i, j, k) != Missing
    ensures Resolve(start) != Ambiguous && run[i].cells.journal.None? && run[j].cells.fallback.Some? ==>
              Resolve(start) == Holds(run[j].cells.fallback.value)
  {
    hide Behaviour, Position, Step;
    BehaviourInv(start, run, i);
    BehaviourTouched(start, run, j);
    BehaviourTouched(start, run, k);
    BehaviourCarries(start, run, i, j);
    BehaviourCarries(start, run, j, k);
    BehaviourCarries(start, run, i, k);
  }

  /** Looking again is enough: once a reader of an unambiguous credential has met an
      ambiguity, every read that begins after its last one yields a writer's value. */
  lemma SecondLookResolves(start: Cells, run: seq<World>, i: nat, j: nat, k: nat, l: nat, m: nat, n: nat)
    requires Behaviour(start, run) && i <= j <= k <= l <= m <= n < |run|
    requires Resolve(start) != Ambiguous && ReadAcross(run, i, j, k) == Ambiguous
    ensures IsOffered(run[n], ReadAcross(run, l, m, n))
  {
    hide Behaviour, Position, Step;
    ReaderAmongWriters(start, run, i, j, k);
    BehaviourInv(start, run, k);
    BehaviourInv(start, run, l);
    BehaviourCarries(start, run, k, l);
    BehaviourCarries(start, run, l, m);
    BehaviourCarries(start, run, l, n);
  }

  /** One writer over a legacy fallback is enough for such a reader: it reads the
      journal and the fallback before the writer stages its value, and the primary
      after the primary has taken it. */
  lemma ReaderMeetsWriter(legacy: Bytes, v: Bytes) returns (run: seq<World>)
    requires legacy != v
    ensures var start := Cells(None, Some(legacy), None);
            && Behaviour(start, run) && |run| == 5 && Resolve(start) == Holds(legacy)
            && ReadAcross(run, 0, 0, 4) == Ambiguous
            && forall t | 0 <= t < |run| :: Resolve(run[t].cells) in {Holds(legacy), Holds(v)}
  {
    var start := Cells(None, Some(legacy), None);
    var staged := start.(journal := Some(v));
    run := [World(start, []),
            World(start, [Writer(v, InspectFallback)]),
            World(start, [Writer(v, WriteJournal)]),
            World(staged, [Writer(v, WritePrimary(true))]),
            World(staged.(primary := Some(v)), [Writer(v, ClearFallback)])];
    assert Moves(run[1], 0, run[2], WriteJournal) && Moves(run[2], 0, run[3], WritePrimary(true));
    assert Moves(run[3], 0, run[4], ClearFallback);
    assert run[1] == run[0].(writers := run[0].writers + [Writer(v, InspectFallback)]);
  }

  // -------------------------------------------------------------------- one writer

  /** One store operation of a writer: the stores and its position around it. */
  datatype Move = Move(before: Cells, from: Pc, after: Cells, to: Pc)

  /** A writer's own operations, whatever others do in between. */
  ghost predicate Path(v: Bytes, run: seq<Move>) {
    forall t | 0 <= t < |run| ::
      && Step(run[t].before, run[t].from, v, run[t].after, run[t].to)
      && run[t].from == At(run[..t])
  }

  function At(run: seq<Move>): Pc {
    if run == [] then InspectFallback else run[|run| - 1].to
  }

  function Reached(start: Cells, run: seq<Move>): Cells {
    if run == [] then start else run[|run| - 1].after
  }

  /** Nobody else touches the stores during the run. */
  ghost predicate Undisturbed(start: Cells, run: seq<Move>) {
    forall t | 0 <= t < |run| :: run[t].before == Reached(start, run[..t])
  }

  /** What one undisturbed writer of `v` knows at each position. */
  ghost predicate Solo(start: Cells, v: Bytes, c: Cells, pc: Pc) {
    match pc
    case InspectFallback => c == start
    case InspectJournal => c == start && c.fallback.None?
    case WriteJournal => c == start
    case WritePrimary(staged) =>
      if staged then c.journal == Some(v) else c == start && c.fallback.None? && c.journal.None?
    case ClearFallback => c.journal == Some(v) && c.primary == Some(v)
    case RequireJournal => c.journal == Some(v)
    case ConfirmJournal => c.journal == Some(v)
    case RepairJournal => false
    case CheckJournal => c.fallback.None? && c.journal.None? && c.primary == Some(v)
    case LateJournal => false
    case FallBack =>
      c.fallback.None? && c.journal.None? && start.fallback.None? && start.journal.None? &&
      c.primary in {start.primary, Some(v)}
    case ClearJournal => c.fallback.None? && c.journal == Some(v) && c.primary == Some(v)
    case RecoverJournal => c.fallback.None? && c.journal in {Some(v), None} && c.primary == Some(v)
    case Done => Resolve(c) == Holds(v)
    case Failed => Resolve(c) in {Resolve(start), Holds(v)}
  }

  lemma SoloStep(start: Cells, v: Bytes, m: Move)
    requires Solo(start, v, m.before, m.from) && Step(m.before, m.from, v, m.after, m.to)
    ensures Solo(start, v, m.after, m.to)
  {
  }

  lemma {:induction false} SoloPath(start: Cells, v: Bytes, run: seq<Move>)
    requires Path(v, run) && Undisturbed(start, run)
    ensures Solo(start, v, Reached(start, run), At(run))
  {
    if run != [] {
      var prefix := run[..|run| - 1];
      assert forall t | 0 <= t < |prefix| :: prefix[t] == run[t] && prefix[..t] == run[..t];
      SoloPath(start, v, prefix);
      SoloStep(start, v, run[|run| - 1]);
    }
  }

  /** One writer alone: wherever it stops, the credential resolves to the old
      value or the new one, and to the new one once it has reported success. */
  lemma OneWriter(start: Cells, v: Bytes, run: seq<Move>)
    requires Path(v, run) && Undisturbed(start, run)
    ensures Resolve(Reached(start, run)) in {Resolve(start), Holds(v)}
    ensures At(run).Done? ==> Resolve(Reached(start, run)) == Holds(v)
  {
    SoloPath(start, v, run);
  }

  /** The states a writer of `v` alone can leave behind. */
  predicate Within(start: Cells, v: Bytes, c: Cells) {
    && c.primary in {start.primary, Some(v)}
    && c.fallback in {start.fallback, None}
    && c.journal in {start.journal, Some(v), None}
  }

  lemma {:induction false} PathStaysWithin(start: Cells, v: Bytes, run: seq<Move>)
    requires Path(v, run) && Undisturbed(start, run)
    ensures Within(start, v, Reached(start, run))
  {
    if run != [] {
      var prefix := run[..|run| - 1];
      assert forall t | 0 <= t < |prefix| :: prefix[t] == run[t] && prefix[..t] == run[..t];
      PathStaysWithin(start, v, prefix);
      var last := run[|run| - 1];
      assert last.before == Reached(start, prefix) && Step(last.before, last.from, v, last.after, last.to);
    }
  }

  // ------------------------------------------------------------------ the programs

  class Stores {
    var cells: Cells
    const shared: bool     // whether other processes use the stores too
    const primaryWorks: bool
    const fallbackWorks: bool  // and nothing stops the writer
    ghost var run: seq<Move>

    constructor (cells: Cells, shared: bool, primaryWorks: bool, fallbackWorks: bool)
      ensures this.cells == cells && this.shared == shared
      ensures this.primaryWorks == primaryWorks && this.fallbackWorks == fallbackWorks
    {
      this.cells := cells;
      this.shared := shared;
      this.primaryWorks, this.fallbackWorks := primaryWorks, fallbackWorks;
      this.run := [];
    }

    /** The operations so far are a writer's path to `pc`, undisturbed unless shared. */
    ghost predicate On(start: Cells, v: Bytes, pc: Pc)
      reads this
    {
      && Path(v, run) && At(run) == pc
      && (!shared ==> Undisturbed(start, run) && cells == Reached(start, run))
    }

    ghost method Advance(start: Cells, v: Bytes, before: Cells, from: Pc, to: Pc)
      requires Path(v, run) && At(run) == from
      requires !shared ==> Undisturbed(start, run) && before == Reached(start, run)
      requires Step(before, from, v, cells, to)
      modifies this`run
      ensures On(start, v, to)
    {
      var was := run;
      run := run + [Move(before, from, cells, to)];
      assert forall t | 0 <= t < |was| :: run[t] == was[t] && run[..t] == was[..t];
      assert run[..|was|] == was;
    }

    /** Whatever other processes do before the next operation. */
    method Others()
      modifies this`cells
      ensures !shared ==> cells == old(cells)
    {
      if shared {
        cells := *;
      }
    }

    /** A store write: its report, and the cells after it. */
    method Write(target: Cells, works: bool) returns (ok: bool)
      modifies this`cells
      ensures Writes(old(cells), target, cells, ok)
      ensures works ==> ok
    {
      var effect: bool := *;
      ok := *;
      ok := ok || works;
      if ok || effect {
        cells := target;
      }
    }

    /** A checkpoint or a read that may stop the writer. */
    method Stops() returns (stop: bool)
      ensures fallbackWorks ==> !stop
    {
      stop := *;
      if fallbackWorks {
        stop := false;
      }
    }

    /** The source's `chained_put_with_checkpoint`: every run of it, among any
        others, is a path of the steps above, and it succeeds only where they end. */
    method Put(v: Bytes) returns (ok: bool)
      modifies this
      ensures Path(v, run) && (ok ==> At(run).Done?)
      ensures !shared ==> Resolve(cells) in {Resolve(old(cells)), Holds(v)}
      ensures !shared && ok ==> Resolve(cells) == Holds(v)
      ensures !shared ==> Within(old(cells), v, cells)
      ensures fallbackWorks ==> ok
      ensures !shared && fallbackWorks && primaryWorks ==> cells == Cells(Some(v), None, None)
    {
      ghost var start := cells;
      run := [];
      ghost var pc: Pc;
      ok, pc := Inspect(start, v);
      if !shared {
        OneWriter(start, v, run);
        PathStaysWithin(start, v, run);
      }
    }

    method Inspect(ghost start: Cells, v: Bytes) returns (ok: bool, ghost pc: Pc)
      requires start == cells && run == []
      modifies this
      ensures On(start, v, pc) && (ok ==> pc.Done?)
      ensures fallbackWorks ==> ok
      ensures !shared && fallbackWorks && primaryWorks ==> cells == Cells(Some(v), None, None)
    {
      ok, pc := false, InspectFallback;
      var stop := Stops();
      if stop {
        return;
      }
      Others();
      var present := cells.fallback.Some?;
      pc := if present then WriteJournal else InspectJournal;
      Advance(start, v, cells, InspectFallback, pc);
      if !present {
        stop := Stops();
        if stop {
          return;
        }
        Others();
        present := cells.journal.Some?;
        pc := if present then WriteJournal else WritePrimary(false);
        Advance(start, v, cells, InspectJournal, pc);
      }
      stop := Stops();
      if stop {
        return;
      }
      if present {
        ok, pc := PutStaged(start, v);
      } else {
        ok, pc := PutUnstaged(start, v);
      }
    }

    /** Fallback state exists: the value goes into the journal first. */
    method PutStaged(ghost start: Cells, v: Bytes) returns (ok: bool, ghost pc: Pc)
      requires On(start, v, WriteJournal)
      modifies this
      ensures On(start, v, pc) && (ok ==> pc.Done?)
      ensures fallbackWorks ==> ok
      ensures !shared && fallbackWorks && primaryWorks ==> cells == Cells(Some(v), None, None)
    {
      Others();
      ghost var before := cells;
      var written := Write(cells.(journal := Some(v)), fallbackWorks);
      pc := if written then WritePrimary(true) else Failed;
      Advance(start, v, before, WriteJournal, pc);
      var stop := Stops();
      if !written || stop {
        return false, pc;
      }
      Others();
      before := cells;
      var primary := Write(cells.(primary := Some(v)), primaryWorks);
      pc := if primary then ClearFallback else ConfirmJournal;
      Advance(start, v, before, WritePrimary(true), pc);
      stop := Stops();
      if stop {
        return false, pc;
      }
      if primary {
        ok, pc := DropFallback(start, v);
      } else {
        ok, pc := KeepJournal(start, v);
      }
    }

    method DropFallback(ghost start: Cells, v: Bytes) returns (ok: bool, ghost pc: Pc)
      requires On(start, v, ClearFallback)
      modifies this
      ensures On(start, v, pc) && (ok ==> pc.Done?)
      ensures fallbackWorks ==> ok
      ensures !shared && fallbackWorks ==> cells == old(cells).(fallback := None, journal := None)
    {
      Others();
      ghost var before := cells;
      var cleared := Write(cells.(fallback := None), fallbackWorks);
      pc := if cleared then ClearJournal else RequireJournal;
      Advance(start, v, before, ClearFallback, pc);
      var stop := Stops();
      if stop {
        return false, pc;
      }
      if cleared {
        ok, pc := DropJournal(start, v);
      } else {
        Others();
        ok := cells.journal == Some(v);
        pc := if ok then Done else Failed;
        Advance(start, v, cells, RequireJournal, pc);
      }
    }

    /** The primary refused: the journal must still hold the value. */
    method KeepJournal(ghost start: Cells, v: Bytes) returns (ok: bool, ghost pc: Pc)
      requires On(start, v, ConfirmJournal)
      modifies this
      ensures On(start, v, pc) && (ok ==> pc.Done?)
      ensures fallbackWorks ==> ok
    {
      Others();
      ok := cells.journal == Some(v);
      pc := if ok then Done else RepairJournal;
      Advance(start, v, cells, ConfirmJournal, pc);
      if !ok {
        Others();
        ghost var before := cells;
        ok := Write(cells.(journal := Some(v)), fallbackWorks);
        pc := if ok then Done else Failed;
        Advance(start, v, before, RepairJournal, pc);
        var stop := Stops();
        ok := ok && !stop;
      }
    }

    /** No fallback state was seen: the value goes straight to the primary. */
    method PutUnstaged(ghost start: Cells, v: Bytes) returns (ok: bool, ghost pc: Pc)
      requires On(start, v, WritePrimary(false))
      modifies this
      ensures On(start, v, pc) && (ok ==> pc.Done?)
      ensures fallbackWorks ==> ok
      ensures !shared && fallbackWorks && primaryWorks ==> cells == old(cells).(primary := Some(v), journal := None)
    {
      Others();
      ghost var before := cells;
      var primary := Write(cells.(primary := Some(v)), primaryWorks);
      pc := if primary then CheckJournal else FallBack;
      Advance(start, v, before, WritePrimary(false), pc);
      var stop := Stops();
      if stop {
        return false, pc;
      }
      Others();
      if primary {
        var late := cells.journal.Some?;
        pc := if late then LateJournal else Done;
        Advance(start, v, cells, CheckJournal, pc);
        ok := !late;
        if late {
          ok, pc := ReplaceJournal(start, v);
        }
      } else {
        before := cells;
        ok := Write(cells.(journal := Some(v)), fallbackWorks);
        pc := if ok then Done else Failed;
        Advance(start, v, before, FallBack, pc);
        stop := Stops();
        ok := ok && !stop;
      }
    }

    /** Another writer's journal appeared meanwhile: supersede it, then drop it. */
    method ReplaceJournal(ghost start: Cells, v: Bytes) returns (ok: bool, ghost pc: Pc)
      requires On(start, v, LateJournal)
      modifies this
      ensures On(start, v, pc) && (ok ==> pc.Done?)
      ensures fallbackWorks ==> ok
      ensures !shared && fallbackWorks ==> cells == old(cells).(journal := None)
    {
      Others();
      ghost var before := cells;
      var written := Write(cells.(journal := Some(v)), fallbackWorks);
      pc := if written then ClearJournal else Failed;
      Advance(start, v, before, LateJournal, pc);
      var stop := Stops();
      if !written || stop {
        return false, pc;
      }
      ok, pc := DropJournal(start, v);
    }

    method DropJournal(ghost start: Cells, v: Bytes) returns (ok: bool, ghost pc: Pc)
      requires On(start, v, ClearJournal)
      modifies this
      ensures On(start, v, pc) && (ok ==> pc.Done?)
      ensures fallbackWorks ==> ok
      ensures !shared && fallbackWorks ==> cells == old(cells).(journal := None)
    {
      Others();
      ghost var before := cells;
      var dropped := Write(cells.(journal := None), fallbackWorks);
      pc := if dropped then Done else RecoverJournal;
      Advance(start, v, before, ClearJournal, pc);
      var stop := Stops();
      if dropped || stop {
        return dropped && !stop, pc;
      }
      Others();
      ok := cells.journal in {Some(v), None};
      pc := if ok then Done else Failed;
      Advance(start, v, cells, RecoverJournal, pc);
    }

    /** The source's `chained_delete`, stopped anywhere. */
    method Delete() returns (ok: bool)
      modifies this
      ensures DeleteStop(old(cells), cells)
      ensures ok ==> cells == Cells(None, None, None)
      ensures primaryWorks && fallbackWorks ==> ok
    {
      ok := false;
      var stop := Stops();
      if stop {
        return;
      }
      var primary := Write(cells.(primary := None), primaryWorks);
      stop := Stops();
      if stop {
        return;
      }
      var fallback := Write(cells.(fallback := None), fallbackWorks);
      stop := Stops();
      if stop {
        return;
      }
      var journal := true;
      if fallback {
        journal := Write(cells.(journal := None), fallbackWorks);
      }
      ok := primary && fallback && journal;
    }
  }

  // ---------------------------------------------------------------------- deletion

  /** The states a deletion from `c` can stop in: the journal goes only after the
      fallback has. */
  predicate DeleteStop(c: Cells, c': Cells) {
    && c'.primary in {c.primary, None} && c'.fallback in {c.fallback, None} && c'.journal in {c.journal, None}
    && (c'.journal != c.journal ==> c'.fallback.None?)
  }

  /** No stale primary hides behind a journal. */
  predicate NoStalePrimary(c: Cells) {
    c.journal.None? || c.primary.None? || c.primary == c.journal
  }

  /** A deletion resolves to the old value or to nothing wherever it stops exactly
      when the start is unambiguous and its primary is not a stale one: a failed
      primary delete otherwise uncovers the value the journal had superseded. */
  lemma DeleteOldOrMissing(c: Cells)
    ensures (forall c' :: DeleteStop(c, c') ==> Resolve(c') in {Resolve(c), Missing})
            <==> (Resolve(c) != Ambiguous && NoStalePrimary(c))
  {
    if Resolve(c) == Ambiguous {
      var stop := c.(primary := None);
      assert DeleteStop(c, stop) && Resolve(stop) == Holds(c.fallback.value);
    } else if !NoStalePrimary(c) {
      var stop := Cells(c.primary, None, None);
      assert DeleteStop(c, stop) && Resolve(stop) == Holds(c.primary.value);
    }
  }

  /** A refused primary write leaves just such a state, one credential overwritten once. */
  lemma StalePrimaryReachable(oldValue: Bytes, v: Bytes) returns (run: seq<Move>)
    requires oldValue != v
    ensures var start := Cells(Some(oldValue), None, None);
            Path(v, run) && Undisturbed(start, run) && At(run).Done? && !NoStalePrimary(Reached(start, run))
  {
    var start := Cells(Some(oldValue), None, None);
    run := [Move(start, InspectFallback, start, InspectJournal),
            Move(start, InspectJournal, start, WritePrimary(false)),
            Move(start, WritePrimary(false), start, FallBack),
            Move(start, FallBack, start.(journal := Some(v)), Done)];
    assert run[..1] == [run[0]] && run[..2] == [run[0], run[1]] && run[..3] == [run[0], run[1], run[2]];
  }
}
