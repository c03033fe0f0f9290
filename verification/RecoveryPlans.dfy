/** Recovery plans for a malformed registry: any number of plans, each resumed,
    revoked or completed any number of times by processes that interleave and
    may stop anywhere, over a store whose recovery takes one guard or none. */
module RecoveryPlans {
  import opened Bytes

  type Id = nat

  /** What the registry key or a quarantine holds: a malformed text, or a valid
      registry, known by the plan it was generated for. */
  datatype Content = Malformed(text: Bytes) | Valid(root: Id)

  datatype PlanState = Prepared | Published | Completed | Revoked

  datatype Plan = Plan(original: Content, quarantine: Option<Content>, state: PlanState)

  datatype Op = Resume | Revoke | Complete

  /** The store operation a process performs next; those from `CheckQuarantine` to
      `CheckPublished` are the recovery of the malformed value. */
  datatype Pc =
    | Load | ReadQuarantine | ReadRegistry | Enter
    | CheckQuarantine | CheckOriginal | KeepOriginal | Recheck
    | CheckSource | DropSource | CheckGone | Publish | CheckPublished
    | Confirm | Save | Stopped

  datatype Job = Job(plan: Id, op: Op, pc: Pc, seen: PlanState, kept: Option<Content>)

  /** `found` is the malformed text the registry held at the outset. `guarded` says
      whether the store's recovery holds an exclusive guard, as the platform keyring's
      does; the default recovery of a store holds none. */
  datatype World = World(registry: Option<Content>, plans: map<Id, Plan>, jobs: seq<Job>, published: set<Id>,
                         found: Option<Bytes>, guarded: bool)

  predicate Recovering(pc: Pc) {
    pc in {CheckQuarantine, CheckOriginal, KeepOriginal, Recheck, CheckSource, DropSource, CheckGone, Publish,
           CheckPublished}
  }

  /** The states of a plan an operation accepts, and the state it saves. */
  predicate Accepts(op: Op, s: PlanState) {
    match op
    case Resume => s == Prepared || s == Published
    case Revoke => s == Prepared
    case Complete => s == Published
  }

  function Saves(op: Op): PlanState {
    match op
    case Resume => Published
    case Revoke => Revoked
    case Complete => Completed
  }

  function Run(w: World, n: int, j: Job): World
    requires 0 <= n < |w.jobs|
  {
    w.(jobs := w.jobs[n := j])
  }

  function Amend(w: World, id: Id, plan: Plan): World {
    w.(plans := w.plans[id := plan])
  }

  /** Where job `j` goes next, from what the stores hold. */
  function NextPc(j: Job, p: Plan, registry: Option<Content>): Pc {
    var mine := Some(Valid(j.plan));
    match j.pc
    case Load => if !Accepts(j.op, p.state) then Stopped else if j.op.Complete? then Confirm else ReadQuarantine
    case ReadQuarantine => if j.op.Resume? then ReadRegistry else if p.quarantine.Some? then Stopped else Save
    case ReadRegistry =>
      var original := if j.kept.Some? then j.kept else registry;
      if original != Some(p.original) then Stopped else if registry == mine then Confirm else Enter
    case Enter => CheckQuarantine
    case CheckQuarantine =>
      if p.quarantine.None? then CheckOriginal else if p.quarantine == Some(p.original) then Recheck else Stopped
    case CheckOriginal => if registry == Some(p.original) then KeepOriginal else Stopped
    case KeepOriginal => Recheck
    case Recheck => if p.quarantine == Some(p.original) then CheckSource else Stopped
    case CheckSource =>
      if registry == mine then Confirm
      else if registry == Some(p.original) then DropSource
      else if registry.None? then Publish else Stopped
    case DropSource => CheckGone
    case CheckGone => if registry.None? then Publish else Stopped
    case Publish => CheckPublished
    case CheckPublished => if registry == mine then Confirm else Stopped
    case Confirm => if registry == mine || registry.None? then Save else Stopped
    case Save => Stopped
    case Stopped => Stopped
  }

  /** What job `j` remembers after its operation. */
  function Remembers(j: Job, p: Plan): Job {
    match j.pc
    case Load => j.(seen := p.state)
    case ReadQuarantine => j.(kept := p.quarantine)
    case _ => j
  }

  /** What its operation writes. */
  function Written(w: World, j: Job, p: Plan): World {
    match j.pc
    case KeepOriginal => Amend(w, j.plan, p.(quarantine := Some(p.original)))
    case DropSource => w.(registry := None)
    case Publish => w.(registry := Some(Valid(j.plan)), published := w.published + {j.plan})
    case Save => Amend(w, j.plan, p.(state := Saves(j.op)))
    case _ => w
  }

  /** The world after job `n`'s operation has succeeded. */
  function Go(w: World, n: int): World
    requires 0 <= n < |w.jobs| && w.jobs[n].plan in w.plans
  {
    var j := w.jobs[n];
    var p := w.plans[j.plan];
    Run(Written(w, j, p), n, Remembers(j, p).(pc := NextPc(j, p, w.registry)))
  }

  predicate MayGo(w: World, n: int) {
    && 0 <= n < |w.jobs| && w.jobs[n].plan in w.plans && !w.jobs[n].pc.Stopped?
    && (w.guarded && w.jobs[n].pc.Enter? ==> forall m | 0 <= m < |w.jobs| :: !Recovering(w.jobs[m].pc))
  }

  function Halt(w: World, n: int): World
    requires 0 <= n < |w.jobs|
  {
    Run(w, n, w.jobs[n].(pc := Stopped))
  }

  /** One operation of job `n`: it succeeds, or the process stops before or after its
      effect; a publication that fails is read back all the same. */
  predicate Steps(w: World, n: int, w': World) {
    && MayGo(w, n)
    && (|| w' in {Go(w, n), Halt(Go(w, n), n), Halt(w, n)}
        || (w.jobs[n].pc.Publish? && w' == Run(w, n, w.jobs[n].(pc := CheckPublished))))
  }

  /** A plan is saved, with a new identity, against the malformed text its drafter has
      read, which the registry may hold no longer. */
  predicate Drafts(w: World, id: Id, w': World) {
    id !in w.plans && w.found.Some? && w' == Amend(w, id, Plan(Malformed(w.found.value), None, Prepared))
  }

  predicate Starts(w: World, id: Id, op: Op, w': World) {
    id in w.plans && w' == w.(jobs := w.jobs + [Job(id, op, Load, Prepared, None)])
  }

  ghost predicate Next(w: World, w': World) {
    || (exists n :: Steps(w, n, w'))
    || (exists id :: Drafts(w, id, w'))
    || (exists id, op :: Starts(w, id, op, w'))
  }

  function FoundIn(registry: Option<Content>): Option<Bytes> {
    if registry.Some? && registry.value.Malformed? then Some(registry.value.text) else None
  }

  ghost predicate Behaviour(run: seq<World>) {
    && |run| > 0 && run[0].plans == map[] && run[0].jobs == [] && run[0].published == {}
    && run[0].found == FoundIn(run[0].registry)
    && (forall t | 0 < t < |run| :: Next(run[t - 1], run[t]))
  }

  /** Everything a step of job `n` leaves as it was. */
  lemma StepFrame(w: World, n: int, w': World)
    requires Steps(w, n, w')
    ensures |w'.jobs| == |w.jobs| && w'.jobs[n].plan == w.jobs[n].plan && w'.jobs[n].op == w.jobs[n].op
    ensures forall m | 0 <= m < |w.jobs| && m != n :: w'.jobs[m] == w.jobs[m]
    ensures w'.guarded == w.guarded && w'.found == w.found && w'.plans.Keys == w.plans.Keys
    ensures forall id | id in w.plans && id != w.jobs[n].plan :: w'.plans[id] == w.plans[id]
    ensures w'.plans[w.jobs[n].plan].original == w.plans[w.jobs[n].plan].original
    ensures || (w'.registry == w.registry && w'.plans == w.plans && w'.published == w.published)
            || (w'.registry == Go(w, n).registry && w'.plans == Go(w, n).plans && w'.published == Go(w, n).published)
  {
  }

  /** Whatever an operation goes on to write, it has just read what allows it. */
  lemma WritesFollowChecks(w: World, n: int)
    requires MayGo(w, n)
    ensures var j, p, next := w.jobs[n], w.plans[w.jobs[n].plan], Go(w, n).jobs[n].pc;
            && (j.pc.Load? && !next.Stopped? ==>
                  || (p.state == Prepared && j.op in {Resume, Revoke})
                  || (p.state == Published && j.op in {Resume, Complete}))
            && (next.Enter? ==> w.registry != Some(Valid(j.plan)) &&
                                Some(p.original) == if j.kept.Some? then j.kept else w.registry)
            && (next.CheckOriginal? ==> p.quarantine.None?)
            && (next.KeepOriginal? ==> w.registry == Some(p.original))
            && (next.CheckSource? ==> p.quarantine == Some(p.original))
            && (next.DropSource? ==> w.registry == Some(p.original))
            && (next.Publish? ==> w.registry == None)
            && (next.Confirm? && Recovering(j.pc) ==> w.registry == Some(Valid(j.plan)))
            && (next.Save? && j.pc.ReadQuarantine? ==> j.op != Resume && p.quarantine.None?)
            && (next.Save? && !j.pc.ReadQuarantine? ==>
                  j.pc.Confirm? && w.registry in {None, Some(Valid(j.plan))})
  {
  }

  // ------------------------------------------------------ what no schedule can break

  /** Which operations reach which positions. */
  predicate Shaped(j: Job) {
    && (Recovering(j.pc) || j.pc in {ReadRegistry, Enter} ==> j.op.Resume?)
    && (j.pc.ReadQuarantine? ==> !j.op.Complete?)
    && (j.pc.Confirm? ==> !j.op.Revoke?)
  }

  /** The original is in quarantine before the registry is touched. */
  ghost predicate Sound(start: Option<Content>, w: World, j: Job) {
    && j.plan in w.plans && Shaped(j)
    && (j.pc in {CheckSource, DropSource, CheckGone, Publish, CheckPublished} ==> w.plans[j.plan].quarantine == start)
  }

  ghost predicate SoundPlan(start: Option<Content>, w: World, id: Id) {
    && id in w.plans && w.plans[id].original.Malformed? && start == Some(w.plans[id].original)
    && w.plans[id].quarantine in {None, start}
  }

  /** True of every reachable world, guarded or not. */
  ghost predicate Base(start: Option<Content>, w: World) {
    && (forall n | 0 <= n < |w.jobs| :: Sound(start, w, w.jobs[n]))
    && (forall id | id in w.plans :: SoundPlan(start, w, id))
    && (w.registry == start || w.registry == None || (w.registry.value.Valid? && w.registry.value.root in w.published))
    && w.published <= w.plans.Keys && w.found == FoundIn(start)
  }

  lemma MoverSound(start: Option<Content>, w: World, n: int, w': World)
    requires Base(start, w) && Steps(w, n, w')
    ensures Sound(start, w', w'.jobs[n])
  {
    assert Sound(start, w, w.jobs[n]) && SoundPlan(start, w, w.jobs[n].plan);
  }

  lemma WritesSound(start: Option<Content>, w: World, n: int, w': World)
    requires Base(start, w) && Steps(w, n, w')
    ensures forall id | id in w'.plans :: SoundPlan(start, w', id)
    ensures forall id | id in w.plans && w.plans[id].quarantine == start :: w'.plans[id].quarantine == start
    ensures w'.published <= w'.plans.Keys
    ensures w'.registry == start || w'.registry == None ||
            (w'.registry.value.Valid? && w'.registry.value.root in w'.published)
  {
    StepFrame(w, n, w');
    assert Sound(start, w, w.jobs[n]) && SoundPlan(start, w, w.jobs[n].plan);
    forall id | id in w'.plans ensures SoundPlan(start, w', id) {
      assert SoundPlan(start, w, id);
    }
  }

  lemma BaseKept(start: Option<Content>, w: World, w': World)
    requires Base(start, w) && Next(w, w')
    ensures Base(start, w')
  {
    if n :| Steps(w, n, w') {
      StepFrame(w, n, w');
      MoverSound(start, w, n, w');
      WritesSound(start, w, n, w');
      hide Steps, SoundPlan, Go;
      forall m | 0 <= m < |w'.jobs| ensures Sound(start, w', w'.jobs[m]) {
        if m != n {
          assert Sound(start, w, w.jobs[m]);
          assert SoundPlan(start, w, w.jobs[m].plan);
        }
      }
    } else {
      forall m | 0 <= m < |w'.jobs| ensures Sound(start, w', w'.jobs[m]) {
        if m < |w.jobs| {
          assert Sound(start, w, w.jobs[m]);
        }
      }
      forall id | id in w'.plans ensures SoundPlan(start, w', id) {
        if id in w.plans {
          assert SoundPlan(start, w, id);
        }
      }
    }
  }

  lemma {:induction false} BehaviourBase(run: seq<World>, t: nat)
    requires Behaviour(run) && t < |run|
    ensures Base(run[0].registry, run[t]) && run[t].guarded == run[0].guarded
  {
    if t > 0 {
      BehaviourBase(run, t - 1);
      BaseKept(run[0].registry, run[t - 1], run[t]);
      GuardednessKept(run[t - 1], run[t]);
    }
  }

  lemma GuardednessKept(w: World, w': World)
    requires Next(w, w')
    ensures w'.guarded == w.guarded
  {
    if n :| Steps(w, n, w') {
      StepFrame(w, n, w');
    }
  }

  /** The malformed bytes are at the registry key or in some plan's quarantine. */
  ghost predicate Preserved(w: World, original: Option<Content>) {
    w.registry == original || exists id :: id in w.plans && w.plans[id].quarantine == original
  }

  lemma JobPreserves(start: Option<Content>, w: World, n: int, w': World)
    requires Base(start, w) && Steps(w, n, w') && start.Some? && Preserved(w, start)
    ensures Preserved(w', start)
  {
    StepFrame(w, n, w');
    WritesSound(start, w, n, w');
    var id := w.jobs[n].plan;
    assert Sound(start, w, w.jobs[n]);
    if w.registry == start && w'.registry != w.registry {
      assert w.jobs[n].pc in {DropSource, Publish};
      assert w'.plans[id].quarantine == start;
    } else if w.registry != start {
      var other :| other in w.plans && w.plans[other].quarantine == start;
      assert w'.plans[other].quarantine == start;
    }
  }

  lemma NextPreserves(start: Option<Content>, w: World, w': World)
    requires Base(start, w) && Next(w, w') && start.Some? && Preserved(w, start)
    ensures Preserved(w', start)
  {
    if n :| Steps(w, n, w') {
      JobPreserves(start, w, n, w');
    } else if w.registry != start {
      var id :| id in w.plans && w.plans[id].quarantine == start;
      assert id in w'.plans && w'.plans[id].quarantine == start;
    }
  }

  /** No schedule of any number of plans and stopped processes, with a guard or
      without one, loses the malformed bytes the run started from. */
  lemma {:induction false} OriginalIsPreserved(run: seq<World>, t: nat)
    requires Behaviour(run) && t < |run| && run[0].registry.Some?
    ensures Preserved(run[t], run[0].registry)
  {
    if t > 0 {
      OriginalIsPreserved(run, t - 1);
      BehaviourBase(run, t - 1);
      NextPreserves(run[0].registry, run[t - 1], run[t]);
    }
  }

  // ------------------------------------------------ when one replacement is published

  /** Whatever has been published is the registry: so at most one replacement ever
      was, and it stands. */
  ghost predicate Stands(w: World) {
    forall id | id in w.published :: w.registry == Some(Valid(id))
  }

  /** The next write of job `n` would hit a replacement instead of what its last read
      saw: a deletion of the original that meets a valid registry, or a publication
      that meets another plan's. */
  predicate Spoils(w: World, n: int)
    requires 0 <= n < |w.jobs|
  {
    && w.registry.Some? && w.registry.value.Valid?
    && (w.jobs[n].pc.DropSource? || (w.jobs[n].pc.Publish? && w.registry != Some(Valid(w.jobs[n].plan))))
  }

  /** Per operation: what is published stands exactly unless it is such a write. */
  lemma WriteKeepsReplacement(start: Option<Content>, w: World, n: int)
    requires Base(start, w) && Stands(w) && MayGo(w, n)
    ensures Stands(Go(w, n)) <==> !Spoils(w, n)
  {
    assert Sound(start, w, w.jobs[n]) && SoundPlan(start, w, w.jobs[n].plan);
    var w' := Go(w, n);
    if Spoils(w, n) {
      assert w.registry.value.root in w'.published;
    }
  }

  /** Job `n` made the step, and its write took effect. */
  predicate Acted(w: World, n: int, w': World) {
    && Steps(w, n, w')
    && w'.registry == Go(w, n).registry && w'.plans == Go(w, n).plans && w'.published == Go(w, n).published
  }

  /** No write that took effect between the two worlds spoilt anything. */
  ghost predicate Unspoilt(w: World, w': World) {
    forall n | Acted(w, n, w') :: !Spoils(w, n)
  }

  ghost predicate NothingSpoilt(run: seq<World>) {
    forall t | 0 < t < |run| :: Unspoilt(run[t - 1], run[t])
  }

  lemma StandsByStores(a: World, b: World)
    requires a.registry == b.registry && a.published == b.published
    ensures Stands(a) <==> Stands(b)
  {
  }

  lemma NextStands(start: Option<Content>, w: World, w': World)
    requires Base(start, w) && Stands(w) && Next(w, w')
    ensures Stands(w') <==> Unspoilt(w, w')
  {
    if n :| Steps(w, n, w') {
      StepFrame(w, n, w');
      assert (w'.registry == w.registry && w'.published == w.published) || Acted(w, n, w');
    }
    forall n | Acted(w, n, w') ensures Stands(w') <==> !Spoils(w, n) {
      WriteKeepsReplacement(start, w, n);
      StandsByStores(w', Go(w, n));
    }
    if forall n :: !Acted(w, n, w') {
      StandsByStores(w, w');
    }
    hide Base, Steps, Go, Spoils, Stands, Acted;
  }

  lemma NothingPublishedStands(w: World)
    ensures w.published == {} ==> Stands(w)
  {
  }

  lemma {:induction false} UnspoiltStands(run: seq<World>, t: nat)
    requires Behaviour(run) && t < |run| && NothingSpoilt(run)
    ensures Stands(run[t])
  {
    hide Next, Stands, Unspoilt, Base;
    NothingPublishedStands(run[0]);
    if t > 0 {
      UnspoiltStands(run, t - 1);
      BehaviourBase(run, t - 1);
      assert Unspoilt(run[t - 1], run[t]);
      NextStands(run[0].registry, run[t - 1], run[t]);
    }
  }

  /** Over whole runs, guarded or not: at every moment the published replacement is
      the registry exactly when no write in the run met a registry other than the one
      its process last read. */
  lemma ReplacementStandsExactly(run: seq<World>)
    requires Behaviour(run)
    ensures (forall t | 0 <= t < |run| :: Stands(run[t])) <==> NothingSpoilt(run)
  {
    if NothingSpoilt(run) {
      forall t | 0 <= t < |run| ensures Stands(run[t]) {
        UnspoiltStands(run, t);
      }
    }
    if forall t | 0 <= t < |run| :: Stands(run[t]) {
      forall t | 0 < t < |run| ensures Unspoilt(run[t - 1], run[t]) {
        assert Stands(run[t - 1]) && Stands(run[t]);
        BehaviourBase(run, t - 1);
        NextStands(run[0].registry, run[t - 1], run[t]);
      }
    }
  }

  // --------------------------------------------------------- guards that make it hold

  /** No two processes are recovering at once. */
  ghost predicate Exclusive(w: World) {
    forall m, n | 0 <= m < n < |w.jobs| :: !(Recovering(w.jobs[m].pc) && Recovering(w.jobs[n].pc))
  }

  /** At most one process is under way: what the command line's lifecycle lock provides. */
  ghost predicate OneAtATime(w: World) {
    forall m, n | 0 <= m < n < |w.jobs| :: w.jobs[m].pc.Stopped? || w.jobs[n].pc.Stopped?
  }

  lemma OneAtATimeIsExclusive(w: World)
    requires OneAtATime(w)
    ensures Exclusive(w)
  {
  }

  lemma GuardEntered(w: World, n: int, w': World)
    requires w.guarded && Steps(w, n, w') && Recovering(w'.jobs[n].pc)
    ensures Recovering(w.jobs[n].pc) || forall m | 0 <= m < |w.jobs| :: !Recovering(w.jobs[m].pc)
  {
  }

  lemma GuardKept(w: World, w': World)
    requires w.guarded && Exclusive(w) && Next(w, w')
    ensures Exclusive(w')
  {
    if n :| Steps(w, n, w') {
      StepFrame(w, n, w');
      if Recovering(w'.jobs[n].pc) {
        GuardEntered(w, n, w');
      }
      hide Steps, Go, Recovering;
      forall a, b | 0 <= a < b < |w'.jobs| ensures !(Recovering(w'.jobs[a].pc) && Recovering(w'.jobs[b].pc)) {
        assert !(Recovering(w.jobs[a].pc) && Recovering(w.jobs[b].pc));
      }
    } else {
      forall a, b | 0 <= a < b < |w'.jobs| ensures !(Recovering(w'.jobs[a].pc) && Recovering(w'.jobs[b].pc)) {
        if b < |w.jobs| {
          assert !(Recovering(w.jobs[a].pc) && Recovering(w.jobs[b].pc));
        }
      }
    }
  }

  /** The keyring's guard makes every run exclusive. */
  lemma {:induction false} GuardIsExclusive(run: seq<World>, t: nat)
    requires Behaviour(run) && t < |run| && run[0].guarded
    ensures Exclusive(run[t]) && run[t].guarded
  {
    if t > 0 {
      GuardIsExclusive(run, t - 1);
      GuardKept(run[t - 1], run[t]);
      BehaviourBase(run, t);
    }
  }

  predicate Recorded(w: World, id: Id) {
    id in w.plans && w.plans[id].state in {Published, Completed}
  }

  /** Every plan recorded as published or completed has its replacement at the registry. */
  ghost predicate RecordsStand(w: World) {
    forall id | Recorded(w, id) :: w.registry == Some(Valid(id))
  }

  /** What a position says about the registry when recoveries exclude each other. */
  ghost predicate Knows(w: World, j: Job) {
    && j.plan in w.plans && Shaped(j)
    && (j.pc.DropSource? ==> w.registry == Some(w.plans[j.plan].original))
    && (j.pc in {CheckGone, Publish} ==> w.registry == None)
    && (j.pc.Confirm? || (j.pc.Save? && !j.op.Revoke?) ==> w.registry == Some(Valid(j.plan)))
  }

  ghost predicate Inv(start: Option<Content>, w: World) {
    && Base(start, w) && Stands(w)
    && (forall n | 0 <= n < |w.jobs| :: Knows(w, w.jobs[n]))
    && RecordsStand(w)
  }

  lemma KnowingNeverSpoils(start: Option<Content>, w: World, n: int)
    requires Inv(start, w) && MayGo(w, n)
    ensures !Spoils(w, n)
  {
    assert Knows(w, w.jobs[n]) && SoundPlan(start, w, w.jobs[n].plan);
  }

  /** Only a recovering process changes the registry, and never a valid one. */
  lemma RegistryFrame(start: Option<Content>, w: World, n: int, w': World)
    requires Inv(start, w) && Steps(w, n, w')
    ensures !Recovering(w.jobs[n].pc) ==> w'.registry == w.registry
    ensures w.registry.Some? && w.registry.value.Valid? ==> w'.registry == w.registry
  {
    KnowingNeverSpoils(start, w, n);
  }

  lemma MoverKnows(start: Option<Content>, w: World, n: int, w': World)
    requires Inv(start, w) && Steps(w, n, w')
    ensures Knows(w', w'.jobs[n])
  {
    assert Knows(w, w.jobs[n]) && Sound(start, w, w.jobs[n]) && SoundPlan(start, w, w.jobs[n].plan);
  }

  lemma PublishedIsRegistry(start: Option<Content>, w: World, n: int, w': World)
    requires Inv(start, w) && Steps(w, n, w')
    ensures RecordsStand(w')
  {
    StepFrame(w, n, w');
    RegistryFrame(start, w, n, w');
    assert Knows(w, w.jobs[n]);
    forall id | Recorded(w', id) ensures w'.registry == Some(Valid(id)) {
      assert Recorded(w, id) || (id == w.jobs[n].plan && w.jobs[n].pc.Save? && !w.jobs[n].op.Revoke?);
    }
  }

  lemma StepKeepsInv(start: Option<Content>, w: World, n: int, w': World)
    requires Inv(start, w) && Exclusive(w) && Steps(w, n, w')
    ensures Inv(start, w')
  {
    hide Base, Knows, Stands, Spoils, Go;
    BaseKept(start, w, w');
    forall m | Acted(w, m, w') ensures !Spoils(w, m) {
      assert MayGo(w, m);
      KnowingNeverSpoils(start, w, m);
    }
    assert Stands(w);
    NextStands(start, w, w');
    StepFrame(w, n, w');
    MoverKnows(start, w, n, w');
    PublishedIsRegistry(start, w, n, w');
    forall m | 0 <= m < |w'.jobs| ensures Knows(w', w'.jobs[m]) {
      if m != n {
        OtherKnows(start, w, n, w', m);
      }
    }
  }

  lemma OtherKnows(start: Option<Content>, w: World, n: int, w': World, m: int)
    requires Inv(start, w) && Exclusive(w) && Steps(w, n, w') && 0 <= m < |w.jobs| && m != n
    ensures Knows(w', w.jobs[m])
  {
    StepFrame(w, n, w');
    RegistryFrame(start, w, n, w');
    hide Steps, Go, Base;
    assert Knows(w, w.jobs[m]);
    if m < n {
      assert !(Recovering(w.jobs[m].pc) && Recovering(w.jobs[n].pc));
    } else {
      assert !(Recovering(w.jobs[n].pc) && Recovering(w.jobs[m].pc));
    }
  }

  lemma NextKeepsInv(start: Option<Content>, w: World, w': World)
    requires Inv(start, w) && Exclusive(w) && Next(w, w')
    ensures Inv(start, w')
  {
    BaseKept(start, w, w');
    if n :| Steps(w, n, w') {
      StepKeepsInv(start, w, n, w');
    } else {
      forall m | 0 <= m < |w'.jobs| ensures Knows(w', w'.jobs[m]) {
        if m < |w.jobs| {
          assert Knows(w, w.jobs[m]);
        }
      }
    }
  }

  lemma {:induction false} ExclusiveInv(run: seq<World>, t: nat)
    requires Behaviour(run) && t < |run| && forall s | 0 <= s < |run| :: Exclusive(run[s])
    ensures Inv(run[0].registry, run[t])
  {
    hide Next, Exclusive;
    if t > 0 {
      hide Inv;
      ExclusiveInv(run, t - 1);
      NextKeepsInv(run[0].registry, run[t - 1], run[t]);
    }
  }

  /** While recoveries exclude each other, at most one replacement is ever published,
      it is the registry from then on, and a plan recorded as published or completed
      is that one. */
  lemma OneReplacement(run: seq<World>, t: nat)
    requires Behaviour(run) && t < |run| && forall s | 0 <= s < |run| :: Exclusive(run[s])
    ensures |run[t].published| <= 1 && Stands(run[t]) && RecordsStand(run[t])
  {
    ExclusiveInv(run, t);
    StandingIsOne(run[t]);
  }

  lemma StandingIsOne(w: World)
    requires Stands(w)
    ensures |w.published| <= 1
  {
    if id :| id in w.published {
      forall other | other in w.published ensures other == id {
        assert w.registry == Some(Valid(other));
      }
      assert w.published == {id};
    }
  }

  /** Under the keyring's guard, whatever the schedule. */
  lemma OneReplacementUnderGuard(run: seq<World>, t: nat)
    requires Behaviour(run) && t < |run| && run[0].guarded
    ensures |run[t].published| <= 1 && Stands(run[t])
  {
    forall s | 0 <= s < |run| ensures Exclusive(run[s]) {
      GuardIsExclusive(run, s);
    }
    OneReplacement(run, t);
  }

  /** Under the lifecycle lock, guarded or not. */
  lemma OneReplacementUnderLock(run: seq<World>, t: nat)
    requires Behaviour(run) && t < |run| && forall s | 0 <= s < |run| :: OneAtATime(run[s])
    ensures |run[t].published| <= 1 && Stands(run[t])
  {
    forall s | 0 <= s < |run| ensures Exclusive(run[s]) {
      OneAtATimeIsExclusive(run[s]);
    }
    OneReplacement(run, t);
  }

  // ------------------------------------------------------ when a plan's record is true

  /** The next write of job `n` would make a record false: a save over a registry that
      is not its plan's replacement, or a deletion or a publication under a record. */
  ghost predicate Misrecords(w: World, n: int)
    requires 0 <= n < |w.jobs|
  {
    var j := w.jobs[n];
    || (j.pc.Save? && !j.op.Revoke? && w.registry != Some(Valid(j.plan)))
    || (j.pc.DropSource? && exists id :: Recorded(w, id))
    || (j.pc.Publish? && exists id :: Recorded(w, id) && id != j.plan)
  }

  /** Per operation: the records stay true exactly unless it is such a write. A
      confirmation alone does not prevent it: it also passes over an absent registry. */
  lemma WriteKeepsRecords(w: World, n: int)
    requires RecordsStand(w) && MayGo(w, n)
    ensures RecordsStand(Go(w, n)) <==> !Misrecords(w, n)
  {
    var j, w' := w.jobs[n], Go(w, n);
    if Misrecords(w, n) {
      if j.pc.Save? {
        assert Recorded(w', j.plan);
      } else {
        var id :| Recorded(w, id) && (j.pc.Publish? ==> id != j.plan);
        assert Recorded(w', id);
      }
    } else {
      forall id | Recorded(w', id) ensures w'.registry == Some(Valid(id)) {
        assert Recorded(w, id) || (j.pc.Save? && id == j.plan);
      }
    }
  }

  ghost predicate Truthful(w: World, w': World) {
    forall n | Acted(w, n, w') :: !Misrecords(w, n)
  }

  ghost predicate NothingMisrecorded(run: seq<World>) {
    forall t | 0 < t < |run| :: Truthful(run[t - 1], run[t])
  }

  lemma RecordsByStores(a: World, b: World)
    requires a.registry == b.registry && (forall id :: Recorded(a, id) <==> Recorded(b, id))
    ensures RecordsStand(a) <==> RecordsStand(b)
  {
  }

  lemma NextRecords(w: World, w': World)
    requires RecordsStand(w) && Next(w, w')
    ensures RecordsStand(w') <==> Truthful(w, w')
  {
    if n :| Steps(w, n, w') {
      StepFrame(w, n, w');
      assert (w'.registry == w.registry && w'.plans == w.plans) || Acted(w, n, w');
    }
    forall n | Acted(w, n, w') ensures RecordsStand(w') <==> !Misrecords(w, n) {
      WriteKeepsRecords(w, n);
      RecordsByStores(w', Go(w, n));
    }
    if forall n :: !Acted(w, n, w') {
      RecordsByStores(w, w');
    }
  }

  lemma {:induction false} TruthfulStands(run: seq<World>, t: nat)
    requires Behaviour(run) && t < |run| && NothingMisrecorded(run)
    ensures RecordsStand(run[t])
  {
    hide Next, Truthful;
    if t > 0 {
      TruthfulStands(run, t - 1);
      assert Truthful(run[t - 1], run[t]);
      NextRecords(run[t - 1], run[t]);
    }
  }

  /** Over whole runs, guarded or not: what the plans record is true at every moment
      exactly when no such write took effect. */
  lemma RecordsStandExactly(run: seq<World>)
    requires Behaviour(run)
    ensures (forall t | 0 <= t < |run| :: RecordsStand(run[t])) <==> NothingMisrecorded(run)
  {
    if NothingMisrecorded(run) {
      forall t | 0 <= t < |run| ensures RecordsStand(run[t]) {
        TruthfulStands(run, t);
      }
    }
    if forall t | 0 <= t < |run| :: RecordsStand(run[t]) {
      forall t | 0 < t < |run| ensures Truthful(run[t - 1], run[t]) {
        assert RecordsStand(run[t - 1]) && RecordsStand(run[t]);
        NextRecords(run[t - 1], run[t]);
      }
    }
  }

  // ------------------------------------------------------ the order of a plan's states

  /** One move: prepared to published, published to completed, prepared to revoked. */
  predicate Move(s: PlanState, s': PlanState) {
    || s == s'
    || (s.Prepared? && s'.Published?) || (s.Published? && s'.Completed?) || (s.Prepared? && s'.Revoked?)
  }

  /** Any number of moves. */
  predicate NoLater(s: PlanState, s': PlanState) {
    s == s' || s.Prepared? || (s.Published? && s'.Completed?)
  }

  ghost predicate RevokedAreEmpty(w: World) {
    forall id | id in w.plans && w.plans[id].state.Revoked? :: w.plans[id].quarantine.None?
  }

  /** Every plan makes one move at most, and no revoked plan has a quarantine. */
  ghost predicate Forward(w: World, w': World) {
    && (forall id | id in w.plans :: id in w'.plans && Move(w.plans[id].state, w'.plans[id].state))
    && RevokedAreEmpty(w')
  }

  /** The next write of job `n` would act on a plan that has changed since it was
      loaded: a save no longer in order, a revocation of a plan with a quarantine, or
      a quarantine for a plan that has been revoked. */
  predicate Stale(w: World, n: int)
    requires 0 <= n < |w.jobs| && w.jobs[n].plan in w.plans
  {
    var j := w.jobs[n];
    var p := w.plans[j.plan];
    || (j.pc.Save? && (!Move(p.state, Saves(j.op)) || (j.op.Revoke? && p.quarantine.Some?)))
    || (j.pc.KeepOriginal? && p.state.Revoked?)
  }

  /** Per operation: plans move forward exactly unless it acts on a stale plan, which
      reading the plan again before the write would show. */
  lemma WriteMovesForward(w: World, n: int)
    requires RevokedAreEmpty(w) && MayGo(w, n)
    ensures Forward(w, Go(w, n)) <==> !Stale(w, n)
  {
    var w', id := Go(w, n), w.jobs[n].plan;
    if Stale(w, n) {
      assert id in w'.plans;
    } else {
      assert Move(w.plans[id].state, w'.plans[id].state);
      assert w'.plans[id].state.Revoked? ==> w'.plans[id].quarantine.None?;
    }
  }

  ghost predicate Fresh(w: World, w': World) {
    forall n | Acted(w, n, w') :: !Stale(w, n)
  }

  ghost predicate NothingStale(run: seq<World>) {
    forall t | 0 < t < |run| :: Fresh(run[t - 1], run[t])
  }

  ghost predicate AllForward(run: seq<World>) {
    forall t | 0 < t < |run| :: Forward(run[t - 1], run[t])
  }

  lemma ForwardByPlans(w: World, a: World, b: World)
    requires a.plans == b.plans
    ensures Forward(w, a) <==> Forward(w, b)
  {
  }

  lemma NextForward(w: World, w': World)
    requires RevokedAreEmpty(w) && Next(w, w')
    ensures Forward(w, w') <==> Fresh(w, w')
  {
    if n :| Steps(w, n, w') {
      StepFrame(w, n, w');
      assert w'.plans == w.plans || Acted(w, n, w');
    }
    forall n | Acted(w, n, w') ensures Forward(w, w') <==> !Stale(w, n) {
      WriteMovesForward(w, n);
      ForwardByPlans(w, w', Go(w, n));
    }
    hide Steps, Go, Stale;
    assert (forall n :: !Acted(w, n, w')) ==> Forward(w, w');
  }

  lemma {:induction false} FreshIsForward(run: seq<World>, t: nat)
    requires Behaviour(run) && t < |run| && NothingStale(run)
    ensures RevokedAreEmpty(run[t]) && (t > 0 ==> Forward(run[t - 1], run[t]))
  {
    if t > 0 {
      FreshIsForward(run, t - 1);
      assert Fresh(run[t - 1], run[t]);
      NextForward(run[t - 1], run[t]);
    }
  }

  /** Over whole runs: every plan's state moves only prepared to published to
      completed or prepared to revoked, with every revoked plan's quarantine empty,
      exactly when no write in the run acted on a plan that had changed meanwhile. */
  lemma OrderHoldsExactly(run: seq<World>)
    requires Behaviour(run)
    ensures AllForward(run) <==> NothingStale(run)
  {
    if NothingStale(run) {
      forall t | 0 < t < |run| ensures Forward(run[t - 1], run[t]) {
        FreshIsForward(run, t);
      }
    }
    if AllForward(run) {
      forall t | 0 < t < |run| ensures Fresh(run[t - 1], run[t]) {
        assert Forward(run[t - 1], run[t]);
        assert t > 1 ==> Forward(run[t - 2], run[t - 1]);
        NextForward(run[t - 1], run[t]);
      }
    }
  }

  /** What that means for a plan over any stretch of the run. */
  lemma {:induction false} PlansMoveForward(run: seq<World>, t: nat, u: nat, id: Id)
    requires Behaviour(run) && NothingStale(run) && t <= u < |run| && id in run[t].plans
    ensures id in run[u].plans && NoLater(run[t].plans[id].state, run[u].plans[id].state)
    ensures run[t].plans[id].state.Revoked? ==> run[u].plans[id].state.Revoked? && run[u].plans[id].quarantine.None?
    decreases u
  {
    hide Behaviour, NothingStale, Forward, RevokedAreEmpty;
    FreshIsForward(run, u);
    if t < u {
      PlansMoveForward(run, t, u - 1, id);
      ForwardMoves(run[u - 1], run[u], id);
    } else {
      RevokedIsEmpty(run[u], id);
    }
  }

  lemma ForwardMoves(w: World, w': World, id: Id)
    requires Forward(w, w') && id in w.plans
    ensures id in w'.plans && Move(w.plans[id].state, w'.plans[id].state)
    ensures w'.plans[id].state.Revoked? ==> w'.plans[id].quarantine.None?
  {
  }

  lemma RevokedIsEmpty(w: World, id: Id)
    requires RevokedAreEmpty(w) && id in w.plans
    ensures w.plans[id].state.Revoked? ==> w.plans[id].quarantine.None?
  {
  }

  // --------------------------------------------------------------- taking turns is enough

  /** No two operations on one plan are under way at once. */
  ghost predicate InTurn(w: World) {
    forall m, n | 0 <= m < n < |w.jobs| && !w.jobs[m].pc.Stopped? && !w.jobs[n].pc.Stopped? ::
      w.jobs[m].plan != w.jobs[n].plan
  }

  /** An operation under way acts on the state it loaded, which still stands. */
  ghost predicate Current(w: World, j: Job) {
    && j.plan in w.plans && Shaped(j)
    && (j.pc !in {Load, Stopped} ==> Accepts(j.op, j.seen) && w.plans[j.plan].state == j.seen)
    && (j.pc.Save? && j.op.Revoke? ==> w.plans[j.plan].quarantine.None?)
  }

  ghost predicate TurnInv(w: World) {
    RevokedAreEmpty(w) && forall n | 0 <= n < |w.jobs| :: Current(w, w.jobs[n])
  }

  lemma CurrentIsFresh(w: World, n: int)
    requires TurnInv(w) && MayGo(w, n)
    ensures !Stale(w, n)
  {
    assert Current(w, w.jobs[n]);
  }

  lemma TurnMover(w: World, n: int, w': World)
    requires TurnInv(w) && Steps(w, n, w')
    ensures Current(w', w'.jobs[n])
  {
    assert Current(w, w.jobs[n]);
  }

  lemma OthersStayCurrent(w: World, n: int, w': World, m: int)
    requires TurnInv(w) && InTurn(w) && Steps(w, n, w') && 0 <= m < |w.jobs| && m != n
    ensures Current(w', w.jobs[m])
  {
    StepFrame(w, n, w');
    assert !w.jobs[n].pc.Stopped?;
    hide Steps, Go;
    assert Current(w, w.jobs[m]);
    if !w.jobs[m].pc.Stopped? {
      var low, high := if m < n then m else n, if m < n then n else m;
      assert w.jobs[low].plan != w.jobs[high].plan;
    }
  }

  lemma TurnKeepsInv(w: World, w': World)
    requires TurnInv(w) && InTurn(w) && Next(w, w')
    ensures TurnInv(w') && Fresh(w, w')
  {
    forall n | Acted(w, n, w') ensures !Stale(w, n) {
      CurrentIsFresh(w, n);
    }
    NextForward(w, w');
    if n :| Steps(w, n, w') {
      StepFrame(w, n, w');
      TurnMover(w, n, w');
      hide Steps, Current, Stale;
      forall m | 0 <= m < |w'.jobs| ensures Current(w', w'.jobs[m]) {
        if m != n {
          OthersStayCurrent(w, n, w', m);
        }
      }
    } else {
      forall m | 0 <= m < |w'.jobs| ensures Current(w', w'.jobs[m]) {
        if m < |w.jobs| {
          assert Current(w, w.jobs[m]);
        }
      }
    }
  }

  lemma {:induction false} TurnsInv(run: seq<World>, t: nat)
    requires Behaviour(run) && t < |run| && forall s | 0 <= s < |run| :: InTurn(run[s])
    ensures TurnInv(run[t]) && (t > 0 ==> Fresh(run[t - 1], run[t]))
  {
    if t > 0 {
      TurnsInv(run, t - 1);
      TurnKeepsInv(run[t - 1], run[t]);
    }
  }

  /** When a plan's operations take turns nothing is ever stale, so its states keep
      their order. */
  lemma TurnsKeepOrder(run: seq<World>)
    requires Behaviour(run) && forall s | 0 <= s < |run| :: InTurn(run[s])
    ensures NothingStale(run) && AllForward(run)
  {
    forall t | 0 < t < |run| ensures Fresh(run[t - 1], run[t]) {
      TurnsInv(run, t);
    }
    OrderHoldsExactly(run);
  }

  // ------------------------------------------------------------- an undisturbed resume

  /** The states a resume can bring to its end: a live plan whose malformed bytes
      are at the registry, or in quarantine with nothing foreign at the registry. */
  predicate Completable(w: World, id: Id)
    requires id in w.plans
  {
    var p := w.plans[id];
    && p.state in {Prepared, Published}
    && if p.quarantine.None? then w.registry == Some(p.original)
       else p.quarantine == Some(p.original) && w.registry in {None, Some(p.original), Some(Valid(id))}
  }

  /** The world after job `n` alone has performed its next `k` operations. */
  function Played(w: World, n: int, k: nat): World
    requires 0 <= n < |w.jobs| && w.jobs[n].plan in w.plans
    decreases k
  {
    if k == 0 then w else Played(Go(w, n), n, k - 1)
  }

  function Remaining(pc: Pc): nat {
    match pc
    case Load => 15
    case ReadQuarantine => 14
    case ReadRegistry => 13
    case Enter => 12
    case CheckQuarantine => 11
    case CheckOriginal => 10
    case KeepOriginal => 9
    case Recheck => 8
    case CheckSource => 7
    case DropSource => 6
    case CheckGone => 5
    case Publish => 4
    case CheckPublished => 3
    case Confirm => 2
    case Save => 1
    case Stopped => 0
  }

  ghost predicate Resuming(w: World, n: int) {
    && 0 <= n < |w.jobs| && w.jobs[n].op.Resume? && w.jobs[n].plan in w.plans
    && w.plans[w.jobs[n].plan].original.Malformed?
    && w.plans[w.jobs[n].plan].quarantine in {None, Some(w.plans[w.jobs[n].plan].original)}
  }

  /** On its way to publication, or there. */
  ghost predicate Good(w: World, n: int)
    requires Resuming(w, n)
  {
    var j := w.jobs[n];
    var p := w.plans[j.plan];
    && (j.pc.Stopped? ==> p.state.Published?)
    && Accepts(Resume, p.state)
    && match j.pc
       case Load => Completable(w, j.plan)
       case ReadQuarantine => Completable(w, j.plan)
       case ReadRegistry => Completable(w, j.plan) && j.kept == p.quarantine
       case Enter => Completable(w, j.plan)
       case CheckQuarantine => Completable(w, j.plan)
       case CheckOriginal => Completable(w, j.plan) && p.quarantine.None?
       case KeepOriginal => w.registry == Some(p.original)
       case Recheck => p.quarantine.Some? && Completable(w, j.plan)
       case CheckSource => p.quarantine.Some? && Completable(w, j.plan)
       case DropSource => p.quarantine.Some? && w.registry == Some(p.original)
       case CheckGone => p.quarantine.Some? && w.registry == None
       case Publish => p.quarantine.Some? && w.registry == None
       case _ => p.quarantine.Some? && w.registry == Some(Valid(j.plan))
  }

  /** On its way to a refusal. */
  ghost predicate Doomed(w: World, n: int)
    requires Resuming(w, n)
  {
    var j := w.jobs[n];
    var p := w.plans[j.plan];
    && !Completable(w, j.plan)
    && match j.pc
       case Load => true
       case ReadQuarantine => Accepts(Resume, p.state)
       case ReadRegistry => Accepts(Resume, p.state) && j.kept == p.quarantine
       case Enter => Accepts(Resume, p.state) && p.quarantine.Some?
       case CheckQuarantine => Accepts(Resume, p.state) && p.quarantine.Some?
       case Recheck => Accepts(Resume, p.state) && p.quarantine.Some?
       case CheckSource => Accepts(Resume, p.state) && p.quarantine.Some?
       case Stopped => true
       case _ => false
  }

  /** With no other job recovering, each of these operations is one the system allows. */
  lemma GoIsAllowed(w: World, n: int)
    requires Resuming(w, n) && !w.jobs[n].pc.Stopped?
    requires forall m | 0 <= m < |w.jobs| && m != n :: !Recovering(w.jobs[m].pc)
    ensures Next(w, Go(w, n))
    ensures forall m | 0 <= m < |Go(w, n).jobs| && m != n :: Go(w, n).jobs[m] == w.jobs[m]
  {
    assert Steps(w, n, Go(w, n));
  }

  lemma GoKeepsGood(w: World, n: int)
    requires Resuming(w, n) && Good(w, n)
    ensures Resuming(Go(w, n), n) && Good(Go(w, n), n)
    ensures !w.jobs[n].pc.Stopped? ==> Remaining(Go(w, n).jobs[n].pc) < Remaining(w.jobs[n].pc)
    ensures Go(w, n).jobs[n].plan == w.jobs[n].plan
  {
  }

  lemma GoKeepsDoomed(w: World, n: int)
    requires Resuming(w, n) && Doomed(w, n)
    ensures Resuming(Go(w, n), n) && Doomed(Go(w, n), n)
    ensures Go(w, n).registry == w.registry && Go(w, n).plans == w.plans
  {
  }

  lemma {:induction false} GoodPlays(w: World, n: int, k: nat)
    requires Resuming(w, n) && Good(w, n) && k >= Remaining(w.jobs[n].pc)
    ensures var id, e := w.jobs[n].plan, Played(w, n, k);
            id in e.plans && e.plans[id].state.Published? && e.plans[id].quarantine.Some? &&
            e.registry == Some(Valid(id))
    decreases k
  {
    if k > 0 {
      GoKeepsGood(w, n);
      hide Go, Good;
      GoodPlays(Go(w, n), n, k - 1);
    }
  }

  lemma {:induction false} DoomedPlays(w: World, n: int, k: nat)
    requires Resuming(w, n) && Doomed(w, n)
    ensures Played(w, n, k).registry == w.registry && Played(w, n, k).plans == w.plans
    decreases k
  {
    if k > 0 {
      GoKeepsDoomed(w, n);
      hide Go, Doomed;
      DoomedPlays(Go(w, n), n, k - 1);
    }
  }

  /** From whatever stopped jobs have left, a resume that runs undisturbed publishes
      its replacement, with the original in quarantine, exactly when the plan is
      completable; otherwise it changes nothing. */
  lemma ResumeConverges(start: Option<Content>, w: World, n: int, k: nat)
    requires Base(start, w) && 0 <= n < |w.jobs| && w.jobs[n].op.Resume? && w.jobs[n].pc.Load? && k >= 15
    ensures w.jobs[n].plan in w.plans
    ensures var id, e := w.jobs[n].plan, Played(w, n, k);
            if Completable(w, id)
            then id in e.plans && e.plans[id].state.Published? &&
                 e.plans[id].quarantine == Some(w.plans[id].original) && e.registry == Some(Valid(id))
            else e.registry == w.registry && e.plans == w.plans
  {
    var id := w.jobs[n].plan;
    assert Sound(start, w, w.jobs[n]) && SoundPlan(start, w, id);
    if Completable(w, id) {
      GoodPlays(w, n, k);
      PlayedKeepsOriginal(w, n, k);
    } else {
      DoomedPlays(w, n, k);
    }
  }

  lemma {:induction false} PlayedKeepsOriginal(w: World, n: int, k: nat)
    requires Resuming(w, n)
    ensures var id, e := w.jobs[n].plan, Played(w, n, k);
            id in e.plans && e.plans[id].original == w.plans[id].original &&
            (e.plans[id].quarantine.Some? ==> e.plans[id].quarantine == Some(w.plans[id].original))
    decreases k
  {
    if k > 0 {
      GoKeepsResuming(w, n);
      hide Go;
      PlayedKeepsOriginal(Go(w, n), n, k - 1);
    }
  }

  lemma GoKeepsResuming(w: World, n: int)
    requires Resuming(w, n)
    ensures Resuming(Go(w, n), n) && Go(w, n).jobs[n].plan == w.jobs[n].plan
    ensures Go(w, n).plans[w.jobs[n].plan].original == w.plans[w.jobs[n].plan].original
  {
  }

  lemma {:induction false} StoppedStays(w: World, n: int, k: nat)
    requires 0 <= n < |w.jobs| && w.jobs[n].plan in w.plans && w.jobs[n].pc.Stopped?
    ensures Played(w, n, k) == w
    decreases k
  {
    if k > 0 {
      assert Go(w, n) == w;
      StoppedStays(w, n, k - 1);
    }
  }

  /** What one operation of a job makes of its plan's stores and of its position. */
  lemma GoMakes(w: World, n: int)
    requires 0 <= n < |w.jobs| && w.jobs[n].plan in w.plans
    ensures var j, e := w.jobs[n], Go(w, n);
            && |e.jobs| == |w.jobs| && e.jobs[n].plan == j.plan && e.jobs[n].op == j.op && e.plans.Keys == w.plans.Keys
            && e.jobs[n].pc == NextPc(j, w.plans[j.plan], w.registry)
            && (j.pc !in {DropSource, Publish} ==> e.registry == w.registry)
            && (j.pc !in {KeepOriginal, Save} ==> e.plans == w.plans)
            && (j.pc.Save? ==> e.plans == w.plans[j.plan := w.plans[j.plan].(state := Saves(j.op))])
  {
  }

  lemma StopsAfterThree(w: World, n: int, k: nat) returns (e: World)
    requires 0 <= n < |w.jobs| && w.jobs[n].plan in w.plans && !w.jobs[n].op.Resume? && w.jobs[n].pc.Load? && k >= 3
    ensures var j, p := w.jobs[n], w.plans[w.jobs[n].plan];
            && Played(w, n, k) == e && e.registry == w.registry
            && e.plans == if Accepts(j.op, p.state) &&
                             (if j.op.Revoke? then p.quarantine.None? else w.registry in {None, Some(Valid(j.plan))})
                          then w.plans[j.plan := p.(state := Saves(j.op))] else w.plans
  {
    hide Go;
    GoMakes(w, n);
    var a := Go(w, n);
    GoMakes(a, n);
    var b := Go(a, n);
    GoMakes(b, n);
    e := Go(b, n);
    assert Played(w, n, k) == Played(a, n, k - 1);
    assert Played(a, n, k - 1) == Played(b, n, k - 2) && Played(b, n, k - 2) == Played(e, n, k - 3);
    StoppedStays(e, n, k - 3);
  }

  /** A revocation that runs undisturbed revokes its plan exactly when the plan is
      prepared and nothing is in its quarantine; it touches nothing else. */
  lemma RevokeConverges(w: World, n: int, k: nat)
    requires 0 <= n < |w.jobs| && w.jobs[n].plan in w.plans && w.jobs[n].op.Revoke? && w.jobs[n].pc.Load? && k >= 3
    ensures var id, e := w.jobs[n].plan, Played(w, n, k);
            && e.registry == w.registry
            && e.plans == if w.plans[id].state.Prepared? && w.plans[id].quarantine.None?
                          then w.plans[id := w.plans[id].(state := Revoked)] else w.plans
  {
    hide Go, Played;
    var e := StopsAfterThree(w, n, k);
  }

  /** A completion that runs undisturbed completes its plan exactly when the plan is
      published and the registry is its replacement, or absent. */
  lemma CompleteConverges(w: World, n: int, k: nat)
    requires 0 <= n < |w.jobs| && w.jobs[n].plan in w.plans && w.jobs[n].op.Complete? && w.jobs[n].pc.Load? && k >= 3
    ensures var id, e := w.jobs[n].plan, Played(w, n, k);
            && e.registry == w.registry
            && e.plans == if w.plans[id].state.Published? && w.registry in {None, Some(Valid(id))}
                          then w.plans[id := w.plans[id].(state := Completed)] else w.plans
  {
    hide Go, Played;
    var e := StopsAfterThree(w, n, k);
  }
}
