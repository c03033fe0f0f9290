/** Three runs of recovery plans in which what the plans promise fails: a revoked plan
    that is published, two replacements of one registry, and a plan completed with
    no registry at all. */
module RecoveryRaces {
  import opened Bytes
  import opened RecoveryPlans

  const O: Option<Content> := Some(Malformed([]))
  const R0: Option<Content> := Some(Valid(0))
  const R1: Option<Content> := Some(Valid(1))

  lemma Extend(run: seq<World>, n: int, w: World) returns (longer: seq<World>)
    requires Behaviour(run) && MayGo(run[|run| - 1], n) && w == Go(run[|run| - 1], n)
    ensures longer == run + [w] && Behaviour(longer)
  {
    longer := run + [w];
    assert Steps(run[|run| - 1], n, w);
    assert forall t | 0 <= t < |run| :: longer[t] == run[t];
  }

  lemma SameGuard(run: seq<World>, t: nat)
    requires Behaviour(run) && t < |run|
    ensures run[t].guarded == run[0].guarded
  {
    BehaviourBase(run, t);
  }

  // ---------------------------------------------------------- a revoked plan, published

  /** Plan 0 with a resume (job 0) and a revocation (job 1) under way at once, over a
      guarded store. */
  function Scene(pc0: Pc, pc1: Pc, state: PlanState, quarantine: Option<Content>, registry: Option<Content>,
                 published: set<Id>): World
  {
    World(registry, map[0 := Plan(Malformed([]), quarantine, state)],
          [Job(0, Resume, pc0, Prepared, None), Job(0, Revoke, pc1, Prepared, None)], published, Some([]), true)
  }

  lemma BothLoading() returns (run: seq<World>)
    ensures Behaviour(run) && |run| == 4 && run[3] == Scene(Load, Load, Prepared, None, O, {})
  {
    var plans := map[0 := Plan(Malformed([]), None, Prepared)];
    run := [World(O, map[], [], {}, Some([]), true),
            World(O, plans, [], {}, Some([]), true),
            World(O, plans, [Job(0, Resume, Load, Prepared, None)], {}, Some([]), true),
            Scene(Load, Load, Prepared, None, O, {})];
    assert Drafts(run[0], 0, run[1]) && Starts(run[1], 0, Resume, run[2]) && Starts(run[2], 0, Revoke, run[3]);
  }

  lemma RevokedMeanwhile(start: seq<World>) returns (run: seq<World>)
    requires Behaviour(start) && |start| == 4 && start[3] == Scene(Load, Load, Prepared, None, O, {})
    ensures Behaviour(run) && |run| == 8 && start <= run
    ensures run[7] == Scene(ReadQuarantine, Stopped, Revoked, None, O, {})
  {
    hide Behaviour;
    run := Extend(start, 0, Scene(ReadQuarantine, Load, Prepared, None, O, {}));
    run := Extend(run, 1, Scene(ReadQuarantine, ReadQuarantine, Prepared, None, O, {}));
    run := Extend(run, 1, Scene(ReadQuarantine, Save, Prepared, None, O, {}));
    run := Extend(run, 1, Scene(ReadQuarantine, Stopped, Revoked, None, O, {}));
  }

  lemma EnteredAfterwards(start: seq<World>) returns (run: seq<World>)
    requires Behaviour(start) && |start| == 8 && start[7] == Scene(ReadQuarantine, Stopped, Revoked, None, O, {})
    ensures Behaviour(run) && |run| == 12 && start <= run
    ensures run[11] == Scene(CheckOriginal, Stopped, Revoked, None, O, {})
  {
    hide Behaviour;
    run := Extend(start, 0, Scene(ReadRegistry, Stopped, Revoked, None, O, {}));
    run := Extend(run, 0, Scene(Enter, Stopped, Revoked, None, O, {}));
    run := Extend(run, 0, Scene(CheckQuarantine, Stopped, Revoked, None, O, {}));
    run := Extend(run, 0, Scene(CheckOriginal, Stopped, Revoked, None, O, {}));
  }

  lemma QuarantinedAfterwards(start: seq<World>) returns (run: seq<World>)
    requires Behaviour(start) && |start| == 12 && start[11] == Scene(CheckOriginal, Stopped, Revoked, None, O, {})
    ensures Behaviour(run) && |run| == 16 && start <= run
    ensures run[15] == Scene(DropSource, Stopped, Revoked, O, O, {})
  {
    hide Behaviour;
    run := Extend(start, 0, Scene(KeepOriginal, Stopped, Revoked, None, O, {}));
    run := Extend(run, 0, Scene(Recheck, Stopped, Revoked, O, O, {}));
    run := Extend(run, 0, Scene(CheckSource, Stopped, Revoked, O, O, {}));
    run := Extend(run, 0, Scene(DropSource, Stopped, Revoked, O, O, {}));
  }

  lemma DroppedAfterwards(start: seq<World>) returns (run: seq<World>)
    requires Behaviour(start) && |start| == 16 && start[15] == Scene(DropSource, Stopped, Revoked, O, O, {})
    ensures Behaviour(run) && |run| == 19 && start <= run
    ensures run[18] == Scene(CheckPublished, Stopped, Revoked, O, R0, {0})
  {
    hide Behaviour;
    run := Extend(start, 0, Scene(CheckGone, Stopped, Revoked, O, None, {}));
    run := Extend(run, 0, Scene(Publish, Stopped, Revoked, O, None, {}));
    run := Extend(run, 0, Scene(CheckPublished, Stopped, Revoked, O, R0, {0}));
  }

  lemma PublishedAfterAll(start: seq<World>) returns (run: seq<World>)
    requires Behaviour(start) && |start| == 19 && start[18] == Scene(CheckPublished, Stopped, Revoked, O, R0, {0})
    ensures Behaviour(run) && |run| == 22 && start <= run
    ensures run[21] == Scene(Stopped, Stopped, Published, O, R0, {0})
  {
    hide Behaviour;
    run := Extend(start, 0, Scene(Confirm, Stopped, Revoked, O, R0, {0}));
    run := Extend(run, 0, Scene(Save, Stopped, Revoked, O, R0, {0}));
    run := Extend(run, 0, Scene(Stopped, Stopped, Published, O, R0, {0}));
  }

  /** Without turns the order is lost, guard or no guard: a resume that loaded a
      prepared plan carries on after its revocation, fills the revoked plan's
      quarantine, publishes its replacement and saves the plan as published. */
  lemma OrderNeedsTurns() returns (run: seq<World>)
    ensures Behaviour(run) && |run| == 22 && run[0].guarded
    ensures 0 in run[7].plans && run[7].plans[0].state.Revoked? && run[7].plans[0].quarantine.None?
    ensures 0 in run[21].plans && run[21].plans[0].state.Published? && run[21].plans[0].quarantine.Some?
  {
    hide Behaviour;
    run := BothLoading();
    run := RevokedMeanwhile(run);
    run := EnteredAfterwards(run);
    run := QuarantinedAfterwards(run);
    run := DroppedAfterwards(run);
    run := PublishedAfterAll(run);
    SameGuard(run, 21);
  }

  // --------------------------------------------------- two replacements of one registry

  /** Plans 0 and 1 against one malformed registry, resumed by jobs 0 and 1 over a
      store without a guard. */
  function Rivals(pc0: Pc, pc1: Pc, quarantine0: Option<Content>, quarantine1: Option<Content>,
                  state0: PlanState, state1: PlanState, registry: Option<Content>, published: set<Id>): World
  {
    World(registry,
          map[0 := Plan(Malformed([]), quarantine0, state0), 1 := Plan(Malformed([]), quarantine1, state1)],
          [Job(0, Resume, pc0, Prepared, None), Job(1, Resume, pc1, Prepared, None)], published, Some([]), false)
  }

  lemma RivalsLoading() returns (run: seq<World>)
    ensures Behaviour(run) && |run| == 5
    ensures run[4] == Rivals(Load, Load, None, None, Prepared, Prepared, O, {})
  {
    var plan := Plan(Malformed([]), None, Prepared);
    var plans := map[0 := plan, 1 := plan];
    run := [World(O, map[], [], {}, Some([]), false),
            World(O, map[0 := plan], [], {}, Some([]), false),
            World(O, plans, [], {}, Some([]), false),
            World(O, plans, [Job(0, Resume, Load, Prepared, None)], {}, Some([]), false),
            Rivals(Load, Load, None, None, Prepared, Prepared, O, {})];
    assert Drafts(run[0], 0, run[1]) && Drafts(run[1], 1, run[2]);
    assert Starts(run[2], 0, Resume, run[3]) && Starts(run[3], 1, Resume, run[4]);
  }

  lemma FirstReads(start: seq<World>) returns (run: seq<World>)
    requires Behaviour(start) && |start| == 5 && start[4] == Rivals(Load, Load, None, None, Prepared, Prepared, O, {})
    ensures Behaviour(run) && |run| == 8 && start <= run
    ensures run[7] == Rivals(Enter, Load, None, None, Prepared, Prepared, O, {})
  {
    hide Behaviour;
    run := Extend(start, 0, Rivals(ReadQuarantine, Load, None, None, Prepared, Prepared, O, {}));
    run := Extend(run, 0, Rivals(ReadRegistry, Load, None, None, Prepared, Prepared, O, {}));
    run := Extend(run, 0, Rivals(Enter, Load, None, None, Prepared, Prepared, O, {}));
  }

  lemma FirstChecks(start: seq<World>) returns (run: seq<World>)
    requires Behaviour(start) && |start| == 8 && start[7] == Rivals(Enter, Load, None, None, Prepared, Prepared, O, {})
    ensures Behaviour(run) && |run| == 11 && start <= run
    ensures run[10] == Rivals(KeepOriginal, Load, None, None, Prepared, Prepared, O, {})
  {
    hide Behaviour;
    run := Extend(start, 0, Rivals(CheckQuarantine, Load, None, None, Prepared, Prepared, O, {}));
    run := Extend(run, 0, Rivals(CheckOriginal, Load, None, None, Prepared, Prepared, O, {}));
    run := Extend(run, 0, Rivals(KeepOriginal, Load, None, None, Prepared, Prepared, O, {}));
  }

  lemma FirstQuarantines(start: seq<World>) returns (run: seq<World>)
    requires Behaviour(start) && |start| == 11
    requires start[10] == Rivals(KeepOriginal, Load, None, None, Prepared, Prepared, O, {})
    ensures Behaviour(run) && |run| == 14 && start <= run
    ensures run[13] == Rivals(DropSource, Load, O, None, Prepared, Prepared, O, {})
  {
    hide Behaviour;
    run := Extend(start, 0, Rivals(Recheck, Load, O, None, Prepared, Prepared, O, {}));
    run := Extend(run, 0, Rivals(CheckSource, Load, O, None, Prepared, Prepared, O, {}));
    run := Extend(run, 0, Rivals(DropSource, Load, O, None, Prepared, Prepared, O, {}));
  }

  lemma SecondReads(start: seq<World>) returns (run: seq<World>)
    requires Behaviour(start) && |start| == 14
    requires start[13] == Rivals(DropSource, Load, O, None, Prepared, Prepared, O, {})
    ensures Behaviour(run) && |run| == 17 && start <= run
    ensures run[16] == Rivals(DropSource, Enter, O, None, Prepared, Prepared, O, {})
  {
    hide Behaviour;
    run := Extend(start, 1, Rivals(DropSource, ReadQuarantine, O, None, Prepared, Prepared, O, {}));
    run := Extend(run, 1, Rivals(DropSource, ReadRegistry, O, None, Prepared, Prepared, O, {}));
    run := Extend(run, 1, Rivals(DropSource, Enter, O, None, Prepared, Prepared, O, {}));
  }

  lemma SecondChecks(start: seq<World>) returns (run: seq<World>)
    requires Behaviour(start) && |start| == 17
    requires start[16] == Rivals(DropSource, Enter, O, None, Prepared, Prepared, O, {})
    ensures Behaviour(run) && |run| == 20 && start <= run
    ensures run[19] == Rivals(DropSource, KeepOriginal, O, None, Prepared, Prepared, O, {})
  {
    hide Behaviour;
    run := Extend(start, 1, Rivals(DropSource, CheckQuarantine, O, None, Prepared, Prepared, O, {}));
    run := Extend(run, 1, Rivals(DropSource, CheckOriginal, O, None, Prepared, Prepared, O, {}));
    run := Extend(run, 1, Rivals(DropSource, KeepOriginal, O, None, Prepared, Prepared, O, {}));
  }

  lemma SecondQuarantines(start: seq<World>) returns (run: seq<World>)
    requires Behaviour(start) && |start| == 20
    requires start[19] == Rivals(DropSource, KeepOriginal, O, None, Prepared, Prepared, O, {})
    ensures Behaviour(run) && |run| == 23 && start <= run
    ensures run[22] == Rivals(DropSource, DropSource, O, O, Prepared, Prepared, O, {})
  {
    hide Behaviour;
    run := Extend(start, 1, Rivals(DropSource, Recheck, O, O, Prepared, Prepared, O, {}));
    run := Extend(run, 1, Rivals(DropSource, CheckSource, O, O, Prepared, Prepared, O, {}));
    run := Extend(run, 1, Rivals(DropSource, DropSource, O, O, Prepared, Prepared, O, {}));
  }

  lemma FirstPublishes(start: seq<World>) returns (run: seq<World>)
    requires Behaviour(start) && |start| == 23
    requires start[22] == Rivals(DropSource, DropSource, O, O, Prepared, Prepared, O, {})
    ensures Behaviour(run) && |run| == 26 && start <= run
    ensures run[25] == Rivals(CheckPublished, DropSource, O, O, Prepared, Prepared, R0, {0})
  {
    hide Behaviour;
    run := Extend(start, 0, Rivals(CheckGone, DropSource, O, O, Prepared, Prepared, None, {}));
    run := Extend(run, 0, Rivals(Publish, DropSource, O, O, Prepared, Prepared, None, {}));
    run := Extend(run, 0, Rivals(CheckPublished, DropSource, O, O, Prepared, Prepared, R0, {0}));
  }

  lemma FirstIsRecorded(start: seq<World>) returns (run: seq<World>)
    requires Behaviour(start) && |start| == 26
    requires start[25] == Rivals(CheckPublished, DropSource, O, O, Prepared, Prepared, R0, {0})
    ensures Behaviour(run) && |run| == 29 && start <= run
    ensures run[28] == Rivals(Stopped, DropSource, O, O, Published, Prepared, R0, {0})
  {
    hide Behaviour;
    run := Extend(start, 0, Rivals(Confirm, DropSource, O, O, Prepared, Prepared, R0, {0}));
    run := Extend(run, 0, Rivals(Save, DropSource, O, O, Prepared, Prepared, R0, {0}));
    run := Extend(run, 0, Rivals(Stopped, DropSource, O, O, Published, Prepared, R0, {0}));
  }

  lemma SecondPublishes(start: seq<World>) returns (run: seq<World>)
    requires Behaviour(start) && |start| == 29
    requires start[28] == Rivals(Stopped, DropSource, O, O, Published, Prepared, R0, {0})
    ensures Behaviour(run) && |run| == 32 && start <= run
    ensures run[31] == Rivals(Stopped, CheckPublished, O, O, Published, Prepared, R1, {0, 1})
  {
    hide Behaviour;
    run := Extend(start, 1, Rivals(Stopped, CheckGone, O, O, Published, Prepared, None, {0}));
    run := Extend(run, 1, Rivals(Stopped, Publish, O, O, Published, Prepared, None, {0}));
    run := Extend(run, 1, Rivals(Stopped, CheckPublished, O, O, Published, Prepared, R1, {0, 1}));
  }

  lemma SecondIsRecorded(start: seq<World>) returns (run: seq<World>)
    requires Behaviour(start) && |start| == 32
    requires start[31] == Rivals(Stopped, CheckPublished, O, O, Published, Prepared, R1, {0, 1})
    ensures Behaviour(run) && |run| == 35 && start <= run
    ensures run[34] == Rivals(Stopped, Stopped, O, O, Published, Published, R1, {0, 1})
  {
    hide Behaviour;
    run := Extend(start, 1, Rivals(Stopped, Confirm, O, O, Published, Prepared, R1, {0, 1}));
    run := Extend(run, 1, Rivals(Stopped, Save, O, O, Published, Prepared, R1, {0, 1}));
    run := Extend(run, 1, Rivals(Stopped, Stopped, O, O, Published, Published, R1, {0, 1}));
  }

  /** Without a guard and without turns two replacements are published: both plans
      pass every check, the first one publishes and is recorded, and the second one's
      deletion, still to come, removes it. */
  lemma TwoReplacements() returns (run: seq<World>)
    ensures Behaviour(run) && |run| == 35 && !run[0].guarded
    ensures run[28].published == {0} && run[28].registry == R0
    ensures run[34].published == {0, 1} && run[34].registry == R1
    ensures 0 in run[34].plans && run[34].plans[0].state.Published?
  {
    hide Behaviour;
    run := RivalsLoading();
    run := FirstReads(run);
    run := FirstChecks(run);
    run := FirstQuarantines(run);
    run := SecondReads(run);
    run := SecondChecks(run);
    run := SecondQuarantines(run);
    run := FirstPublishes(run);
    run := FirstIsRecorded(run);
    run := SecondPublishes(run);
    run := SecondIsRecorded(run);
    SameGuard(run, 34);
  }

  // ------------------------------------------------- a plan completed with no registry

  /** The rivals after the first one's replacement has been published and deleted. */
  function Gone(state0: PlanState): World {
    Rivals(Stopped, CheckGone, O, O, state0, Prepared, None, {0})
  }

  /** A completion of plan 0 as job 2. */
  function WithCompletion(w: World, pc: Pc, seen: PlanState): World {
    w.(jobs := w.jobs + [Job(0, Complete, pc, seen, None)])
  }

  lemma ConfirmedOverNothing(start: seq<World>) returns (run: seq<World>)
    requires Behaviour(start) && |start| == 26
    requires start[25] == Rivals(CheckPublished, DropSource, O, O, Prepared, Prepared, R0, {0})
    ensures Behaviour(run) && |run| == 30 && start <= run
    ensures run[29] == Gone(Published)
  {
    hide Behaviour;
    run := Extend(start, 0, Rivals(Confirm, DropSource, O, O, Prepared, Prepared, R0, {0}));
    run := Extend(run, 1, Rivals(Confirm, CheckGone, O, O, Prepared, Prepared, None, {0}));
    run := Extend(run, 0, Rivals(Save, CheckGone, O, O, Prepared, Prepared, None, {0}));
    run := Extend(run, 0, Gone(Published));
  }

  lemma CompletionLoading(start: seq<World>) returns (run: seq<World>)
    requires Behaviour(start) && |start| == 30 && start[29] == Gone(Published)
    ensures Behaviour(run) && |run| == 31 && start <= run
    ensures run[30] == WithCompletion(start[29], Load, Prepared)
  {
    run := start + [WithCompletion(start[29], Load, Prepared)];
    assert Starts(run[29], 0, Complete, run[30]);
    assert forall t | 0 <= t < |start| :: run[t] == start[t];
  }

  lemma CompletedAfterwards(start: seq<World>) returns (run: seq<World>)
    requires Behaviour(start) && |start| == 31
    requires start[30] == WithCompletion(Gone(Published), Load, Prepared)
    ensures Behaviour(run) && |run| == 34 && start <= run
    ensures run[33] == WithCompletion(Gone(Completed), Stopped, Published)
  {
    hide Behaviour;
    run := Extend(start, 2, WithCompletion(Gone(Published), Confirm, Published));
    run := Extend(run, 2, WithCompletion(Gone(Published), Save, Published));
    run := Extend(run, 2, WithCompletion(Gone(Completed), Stopped, Published));
  }

  /** Without a guard and without turns a plan is completed while there is no registry:
      the other plan's deletion falls between its publication and its confirmation,
      which an absent registry passes, as it does the completion's. */
  lemma CompletedOverNothing() returns (run: seq<World>)
    ensures Behaviour(run) && |run| == 34 && !run[0].guarded
    ensures run[25].registry == R0 && run[33].registry == None
    ensures 0 in run[33].plans && run[33].plans[0].state.Completed?
  {
    hide Behaviour;
    run := RivalsLoading();
    run := FirstReads(run);
    run := FirstChecks(run);
    run := FirstQuarantines(run);
    run := SecondReads(run);
    run := SecondChecks(run);
    run := SecondQuarantines(run);
    run := FirstPublishes(run);
    run := ConfirmedOverNothing(run);
    run := CompletionLoading(run);
    run := CompletedAfterwards(run);
    SameGuard(run, 33);
  }
}
