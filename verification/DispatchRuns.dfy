/** Whole runs of dispatch, release, reaping, clean-up and engine steps, and what they guarantee (service.py). */
module DispatchRuns {
  import opened Prelude
  import opened LoopIds
  import opened Goals
  import opened DispatchModel
  import opened GoalTree
  import opened Reconciling
  import P = PoolModel
  import W = WorkspaceReservations
  import J = JobIndexModel

  /** Reaping an idle slot takes nothing away from a running goal. */
  lemma ReapKeepsInv(s: System, slot: P.SlotId, strict: bool)
    requires Inv(s, strict)
    ensures Inv(Reap(s, slot), strict)
  {
    if s.pool.IsIdle(slot) {
      IdleSlotIsFree(s.pool, slot);
      var q := Reap(s, slot).pool;
      ReapedPool(s.pool, slot);
      hide P.Inv, J.Inv, J.Attributed, W.Exclusive, P.ReleaseWorker, P.Assigned;
      hide WorkersKnown, IndexAgrees, OneSlotEach, HoldersRun, IdsAccounted, SlotsKept;
      SameAssignmentsSameFacts(s.pool, q, s.reservations, s.index);
      MoreIdsUsed(s.pool, q, s.index, s.used, s.used);
      WorkersKnownKept(s.pool, q, s.workerOf, s.released, slot);
    }
  }

  /** So the whole idle-timeout pass keeps the registries consistent and ends no assignment. */
  lemma {:induction false} ReapingKeepsInv(s: System, timedOut: set<P.SlotId>, n: nat, strict: bool)
    requires Inv(s, strict)
    ensures var e := ReapUpTo(s, timedOut, n); Inv(e, strict) && P.Assigned(e.pool) == P.Assigned(s.pool)
  {
    if n > 0 {
      var before := ReapUpTo(s, timedOut, n - 1);
      ReapingKeepsInv(s, timedOut, n - 1, strict);
      ReapKeepsInv(before, n, strict);
      if before.pool.IsIdle(n) {
        ReapedPool(before.pool, n);
      }
    }
  }

  lemma IdleSlotIsFree(p: P.Pool, slot: P.SlotId)
    requires P.Inv(p) && p.IsIdle(slot)
    ensures p.slots[slot].currentGoal.None? && p.slots[slot].loopId in p.byLoop && p.byLoop[p.slots[slot].loopId] == slot
    ensures forall h :: !Runs(p, p.slots[slot].loopId, h)
  {
    forall h
      ensures !Runs(p, p.slots[slot].loopId, h)
    {
      if Runs(p, p.slots[slot].loopId, h) {
        LoopRunsOneGoal(p, p.slots[slot].loopId, h);
      }
    }
  }

  lemma ReapedPool(p: P.Pool, slot: P.SlotId)
    requires P.Inv(p) && p.IsIdle(slot)
    ensures var q := P.ReleaseWorker(p, p.slots[slot].loopId);
      P.Inv(q) && P.Assigned(q) == P.Assigned(p) && SlotsKept(p, q, slot) && q.byLoop.Keys <= p.byLoop.Keys
  {
    var lid := p.slots[slot].loopId;
    IdleSlotIsFree(p, slot);
    P.LookupExact(p, lid);
    P.ReleaseKeepsInv(p, lid);
    assert forall x :: x in P.Assigned(p) ==> Runs(p, x.0, x.1) && x.0 != lid;
  }

  // ---- Steps ----------------------------------------------------------------------------------

  /** The loop id a goal's node carries; empty when it has none or is gone. */
  function NodeLoop(d: Dag, g: GoalId): LoopId {
    if g in d && d[g].assignedLoop.Some? then d[g].assignedLoop.value else ""
  }

  /**
   * `Finish` is a stream consumer's release, with the loop id it reads from its live worker object; `Cancel` is
   * the release of the cancel, pause and reconcile paths, with the loop id captured from the goal's node (empty
   * for none); `CleanUp` is the watchdog's clean-up outside the guard. The engine may do anything to its goals.
   */
  datatype Op =
    | Attempt(goal: Goal, suffix: string)
    | Finish(g: GoalId, seen: LoopId, status: J.EntryStatus, ok: bool)
    | Cancel(g: GoalId, lid: LoopId, status: J.EntryStatus, ok: bool)
    | ReapIdle(slot: P.SlotId)
    | CleanUp
    | MarkJob(job: J.JobId, mark: J.JobStatus)
    | Engine(goals: Dag)

  ghost function Apply(s: System, op: Op, strict: bool): System {
    match op
    case Attempt(goal, suffix) => TryDispatch(s, goal, suffix, strict).0
    case Finish(g, seen, status, ok) => Release(s, g, seen, status, ok)
    case Cancel(g, lid, status, ok) => Release(s, g, lid, status, ok)
    case ReapIdle(slot) => Reap(s, slot)
    case CleanUp => Reconcile(s)
    case MarkJob(job, status) => s.(index := J.MarkStatus(s.index, job, status))
    case Engine(d) => s.(goals := d)
  }

  /** What the latest consumer can read: its worker's current loop id; anything once the slot left the pool. */
  ghost predicate ReadsLive(s: System, g: GoalId, seen: LoopId) {
    g in s.workerOf && (s.workerOf[g] in s.pool.slots ==> HasLoop(s.pool, s.workerOf[g], seen))
  }

  /**
   * What callers must respect: attempts and captured loop ids are safe, an unreleased goal's consumer reads its
   * own worker, and a clean-up finds nothing stale. Consumers left over from before a release may read anything,
   * and so may the engine do.
   */
  ghost predicate WellUsed(s: System, op: Op, strict: bool) {
    match op
    case Attempt(goal, suffix) => DrawsFresh(s, goal, suffix) && SafeDispatch(s, goal, strict)
    case Finish(g, seen, status, ok) => (g in s.released || ReadsLive(s, g, seen)) && status != J.Running
    case Cancel(g, lid, status, ok) => SafeRelease(s, g, lid) && status != J.Running
    case ReapIdle(slot) => true
    case CleanUp => NothingStale(s)
    case MarkJob(job, status) => true
    case Engine(d) => true
  }

  /** A running goal's consumer reads the goal's own loop, however often slots were reused. */
  lemma ConsumerReadsOwnLoop(s: System, g: GoalId, seen: LoopId, strict: bool)
    requires Inv(s, strict) && ReadsLive(s, g, seen)
    ensures Running(s.pool, g) ==> Runs(s.pool, seen, g)
    ensures g in s.released || Runs(s.pool, seen, g)
  {
    if Running(s.pool, g) {
      var l :| Runs(s.pool, l, g);
      assert HasLoop(s.pool, s.workerOf[g], l);
    }
  }

  /** A goal dispatched for the first time under a usable job id is always safe to attempt. */
  lemma FirstDispatchIsSafe(s: System, goal: Goal, strict: bool)
    requires Inv(s, strict) && goal.id !in s.workerOf && Strip(JobOf(s.goals, goal)) != ""
    ensures SafeDispatch(s, goal, strict)
  {
    assert forall lid :: !Runs(s.pool, lid, goal.id);
  }

  lemma MarkJobKeepsInv(s: System, job: J.JobId, status: J.JobStatus, strict: bool)
    requires Inv(s, strict)
    ensures Inv(s.(index := J.MarkStatus(s.index, job, status)), strict)
  {
    hide P.Inv, J.Inv, J.Attributed, J.Active, J.Unseen, W.Exclusive, WorkersKnown, OneSlotEach, HoldersRun, Runs;
    hide J.MarkStatus;
    J.MarkKeepsInv(s.index, job, status);
    J.MarkKeepsAttributed(s.index, job, status);
  }

  lemma StepKeepsInv(s: System, op: Op, strict: bool)
    requires Inv(s, strict) && WellUsed(s, op, strict)
    ensures Inv(Apply(s, op, strict), strict)
  {
    match op
    case Attempt(goal, suffix) => DispatchKeepsInvIff(s, goal, suffix, strict);
    case Finish(g, seen, status, ok) =>
      if g !in s.released {
        ConsumerReadsOwnLoop(s, g, seen, strict);
      }
      ReleaseKeepsInvIff(s, g, seen, status, ok, strict);
    case Cancel(g, lid, status, ok) => ReleaseKeepsInvIff(s, g, lid, status, ok, strict);
    case ReapIdle(slot) => ReapKeepsInv(s, slot, strict);
    case CleanUp => ReconcileKeepsInvIff(s, strict);
    case MarkJob(job, status) => MarkJobKeepsInv(s, job, status, strict);
    case Engine(d) =>
  }

  // ---- How long a goal keeps running ------------------------------------------------------------

  lemma AttemptEndsNothing(s: System, goal: Goal, suffix: string, strict: bool)
    requires Inv(s, strict) && DrawsFresh(s, goal, suffix)
    ensures P.Assigned(s.pool) <= P.Assigned(TryDispatch(s, goal, suffix, strict).0.pool)
  {
    if !RailRoot(goal) && !Gated(s, goal, strict) {
      PickForFacts(s, goal, suffix);
      if PickFor(s, goal, suffix).1.Picked? && !Claimable(s.goals, goal.id) {
        VanishedAssignments(s, goal, suffix, strict);
      }
    }
  }

  lemma VanishedAssignments(s: System, goal: Goal, suffix: string, strict: bool)
    requires Inv(s, strict) && DrawsFresh(s, goal, suffix)
    requires PickFor(s, goal, suffix).1.Picked? && !Claimable(s.goals, goal.id)
    ensures P.Assigned(Place(s, goal, suffix).0.pool) == P.Assigned(s.pool)
  {
    assert P.Inv(s.pool) && s.pool.byLoop.Keys <= s.used;
    PickForFacts(s, goal, suffix);
    FreshLoopFacts(s, goal, suffix);
    hide Inv, P.Inv, P.Assigned, P.MarkIdle, SlotsKept, PickFor, FreshLoop, P.TakesFromQueue;
    var (pool, result) := PickFor(s, goal, suffix);
    VanishedPool(s.pool, pool, result.slot, FreshLoop(s, goal, suffix).value, goal.id);
  }

  lemma ReleaseEndsOnlyItsGoal(
    s: System, h: GoalId, other: LoopId, status: J.EntryStatus, ok: bool, lid: LoopId, g: GoalId)
    requires P.Inv(s.pool) && SafeRelease(s, h, other) && Runs(s.pool, lid, g)
    ensures var e := Release(s, h, other, status, ok);
      Runs(e.pool, lid, g) || (h == g && g !in s.released && g in e.released)
  {
    PoolLoopEnds(s.pool, other, ok);
    LoopRunsOneGoal(s.pool, lid, g);
  }

  /** A running goal goes on under its loop until its own release is recorded for the first time. */
  lemma StepKeepsRunning(s: System, op: Op, lid: LoopId, g: GoalId, strict: bool)
    requires Inv(s, strict) && WellUsed(s, op, strict) && Runs(s.pool, lid, g)
    ensures var e := Apply(s, op, strict); Runs(e.pool, lid, g) || (g !in s.released && g in e.released)
  {
    match op
    case Attempt(goal, suffix) => AttemptEndsNothing(s, goal, suffix, strict);
    case Finish(h, seen, status, ok) =>
      if h !in s.released {
        ConsumerReadsOwnLoop(s, h, seen, strict);
      }
      ReleaseEndsOnlyItsGoal(s, h, seen, status, ok, lid, g);
    case Cancel(h, other, status, ok) => ReleaseEndsOnlyItsGoal(s, h, other, status, ok, lid, g);
    case ReapIdle(slot) =>
      if s.pool.IsIdle(slot) {
        ReapedPool(s.pool, slot);
      }
    case CleanUp => NothingStaleNothingChanges(s, strict);
    case MarkJob(job, status) =>
    case Engine(d) =>
  }

  // ---- Runs -----------------------------------------------------------------------------------

  ghost function Run(s: System, ops: seq<Op>, strict: bool): System
    decreases |ops|
  {
    if ops == [] then s else Run(Apply(s, ops[0], strict), ops[1..], strict)
  }

  ghost predicate WellUsedRun(s: System, ops: seq<Op>, strict: bool)
    decreases |ops|
  {
    ops == [] || (WellUsed(s, ops[0], strict) && WellUsedRun(Apply(s, ops[0], strict), ops[1..], strict))
  }

  lemma {:induction false} RunKeepsInv(s: System, ops: seq<Op>, strict: bool)
    requires Inv(s, strict) && WellUsedRun(s, ops, strict)
    ensures Inv(Run(s, ops, strict), strict) && s.released <= Run(s, ops, strict).released
    decreases |ops|
  {
    hide Inv, WellUsed, TryDispatch, Release, Reap;
    if ops != [] {
      StepKeepsInv(s, ops[0], strict);
      ReleasedOnlyGrows(s, ops[0], strict);
      RunKeepsInv(Apply(s, ops[0], strict), ops[1..], strict);
    }
  }

  lemma {:induction false} RunKeepsRunning(s: System, ops: seq<Op>, lid: LoopId, g: GoalId, strict: bool)
    requires Inv(s, strict) && WellUsedRun(s, ops, strict) && Runs(s.pool, lid, g)
    ensures var e := Run(s, ops, strict); Runs(e.pool, lid, g) || (g !in s.released && g in e.released)
    decreases |ops|
  {
    hide Inv, WellUsed, Runs, TryDispatch, Release, Reap;
    if ops != [] {
      var next := Apply(s, ops[0], strict);
      StepKeepsInv(s, ops[0], strict);
      StepKeepsRunning(s, ops[0], lid, g, strict);
      if Runs(next.pool, lid, g) {
        RunKeepsRunning(next, ops[1..], lid, g, strict);
        ReleasedOnlyGrows(s, ops[0], strict);
        RunKeepsInv(next, ops[1..], strict);
      } else {
        RunKeepsInv(next, ops[1..], strict);
      }
    }
  }

  /**
   * The cancel and pause paths capture the loop id while the goal runs and release only after the engine
   * cleared the node: whatever happened in between, the captured id is still safe to release.
   */
  lemma CapturedLoopStaysSafe(s: System, ops: seq<Op>, lid: LoopId, g: GoalId, strict: bool)
    requires Inv(s, strict) && WellUsedRun(s, ops, strict) && Runs(s.pool, lid, g)
    ensures SafeRelease(Run(s, ops, strict), g, lid)
  {
    RunKeepsRunning(s, ops, lid, g, strict);
  }

  /**
   * A goal dispatched again after its release was recorded keeps its slot and its reservation through any
   * further history of these steps, until a clean-up finds it finished.
   */
  lemma RedispatchedRunsUntilCleanUp(s: System, ops: seq<Op>, lid: LoopId, g: GoalId, strict: bool)
    requires Inv(s, strict) && WellUsedRun(s, ops, strict) && Runs(s.pool, lid, g) && g in s.released
    ensures var e := Run(s, ops, strict);
      && Runs(e.pool, lid, g) && g in e.reservations
      && (Runs(Reconcile(e).pool, lid, g) <==> !Finished(e.goals, g))
  {
    RunKeepsRunning(s, ops, lid, g, strict);
    RunKeepsInv(s, ops, strict);
    ReconcileExact(Run(s, ops, strict));
    assert Running(Run(s, ops, strict).pool, g);
  }

  lemma ReleasedOnlyGrows(s: System, op: Op, strict: bool)
    requires Inv(s, strict)
    ensures s.released <= Apply(s, op, strict).released
  {
    hide Reconcile;
    if op.CleanUp? {
      ReconcileExact(s);
    }
  }

  /** The system before anything was dispatched: whatever the engine holds, nothing runs. */
  function Boot(goals: Dag, maxLoops: nat, used: set<LoopId>): System {
    System(goals, P.Pool(maxLoops, map[], map[], [], 0), map[], J.Index([], map[]), {}, map[], used)
  }

  lemma BootIsConsistent(goals: Dag, maxLoops: nat, used: set<LoopId>, strict: bool)
    requires maxLoops >= 1
    ensures Inv(Boot(goals, maxLoops, used), strict)
  {
    var s := Boot(goals, maxLoops, used);
    assert P.Assigned(s.pool) == {};
    assert forall lid, g :: !Runs(s.pool, lid, g);
  }

  /** The goals of the active slots, one by one. */
  ghost predicate OnSlot(p: P.Pool, t: P.SlotId, g: GoalId) {
    t in p.slots && p.slots[t].status == P.Active && p.slots[t].currentGoal == Some(g)
  }

  ghost predicate ActiveEntry(ix: J.Index, g: GoalId) {
    exists lid :: J.Active(ix, (lid, g))
  }

  /**
   * Mutual exclusion, in any state a run reaches: a goal is on an active slot exactly when it holds a
   * reservation exactly when it has an active index entry; it is on one slot only; and under the strict
   * gate the workspaces of two running goals have no path in common.
   */
  lemma MutualExclusion(s: System, strict: bool)
    requires Inv(s, strict)
    ensures forall g :: g in s.reservations <==> exists t :: OnSlot(s.pool, t, g)
    ensures forall g :: g in s.reservations <==> ActiveEntry(s.index, g)
    ensures forall t, u, g :: OnSlot(s.pool, t, g) && OnSlot(s.pool, u, g) ==> t == u
    ensures strict ==> forall g, h, path :: g in s.reservations && h in s.reservations && g != h ==>
      !(W.Inside(path, s.reservations[g]) && W.Inside(path, s.reservations[h]))
  {
    forall t, g | OnSlot(s.pool, t, g)
      ensures Runs(s.pool, s.pool.slots[t].loopId, g) && Running(s.pool, g) && s.pool.byLoop[s.pool.slots[t].loopId] == t
    {
    }
    forall g | g in s.reservations
      ensures (exists t :: OnSlot(s.pool, t, g)) && ActiveEntry(s.index, g)
    {
      var lid :| Runs(s.pool, lid, g);
      LoopRunsOneGoal(s.pool, lid, g);
      assert OnSlot(s.pool, s.pool.byLoop[lid], g) && J.Active(s.index, (lid, g));
    }
    forall g | ActiveEntry(s.index, g)
      ensures g in s.reservations
    {
      var lid :| J.Active(s.index, (lid, g));
      assert Runs(s.pool, lid, g);
    }
    if strict {
      ReservationsDisjoint(s.reservations);
    }
  }

  lemma ReservationsDisjoint(r: W.Reservations)
    requires W.Exclusive(r, true)
    ensures forall g, h, path :: g in r && h in r && g != h ==> !(W.Inside(path, r[g]) && W.Inside(path, r[h]))
  {
    forall g, h, path | g in r && h in r && g != h
      ensures !(W.Inside(path, r[g]) && W.Inside(path, r[h]))
    {
      W.StrictOverlapIffSubtreesMeet(r[g], r[h]);
    }
  }

  /** From boot, after any well-used history, mutual exclusion holds: the statement over whole runs. */
  lemma RunsExcludeEachOther(goals: Dag, maxLoops: nat, used: set<LoopId>, ops: seq<Op>)
    requires maxLoops >= 1 && WellUsedRun(Boot(goals, maxLoops, used), ops, true)
    ensures var s := Run(Boot(goals, maxLoops, used), ops, true);
      && (forall g :: g in s.reservations <==> exists t :: OnSlot(s.pool, t, g))
      && (forall g :: g in s.reservations <==> ActiveEntry(s.index, g))
      && (forall t, u, g :: OnSlot(s.pool, t, g) && OnSlot(s.pool, u, g) ==> t == u)
      && (forall g, h, path :: g in s.reservations && h in s.reservations && g != h ==>
          !(W.Inside(path, s.reservations[g]) && W.Inside(path, s.reservations[h])))
  {
    BootIsConsistent(goals, maxLoops, used, true);
    RunKeepsInv(Boot(goals, maxLoops, used), ops, true);
    MutualExclusion(Run(Boot(goals, maxLoops, used), ops, true), true);
  }

  // ---- What a consumer's release touches --------------------------------------------------------

  /** From `s` to `e` nothing changed for goals other than `g`, and no worker changed its loop. */
  ghost predicate UntouchedBut(s: System, e: System, g: GoalId) {
    && e.workerOf == s.workerOf && (forall t, l :: HasLoop(e.pool, t, l) <==> HasLoop(s.pool, t, l))
    && (forall l, h :: h != g ==> (Runs(e.pool, l, h) <==> Runs(s.pool, l, h)))
    && (forall h :: h != g ==> (h in e.reservations <==> h in s.reservations))
    && (forall h :: h != g && h in s.reservations ==> e.reservations[h] == s.reservations[h])
    && (forall j, entry: J.Entry :: entry.goal != g ==> (J.Recorded(e.index, j, entry) <==> J.Recorded(s.index, j, entry)))
  }

  /** Nothing runs, reserves or is recorded as active for `g`. */
  ghost predicate Gone(s: System, g: GoalId) {
    !Running(s.pool, g) && g !in s.reservations && !ActiveEntry(s.index, g)
  }

  /**
   * In any consistent state, released or not: a consumer's release with whatever id its worker shows leaves
   * every other goal's assignment, reservation, index entries and worker as they were; and the first such
   * release removes its own goal from all three registries.
   */
  lemma FinishTouchesOnlyItsGoal(
    s: System, g: GoalId, seen: LoopId, status: J.EntryStatus, ok: bool, strict: bool)
    requires Inv(s, strict) && status != J.Running && (g in s.released || ReadsLive(s, g, seen))
    ensures var e := Release(s, g, seen, status, ok); UntouchedBut(s, e, g) && (g !in s.released ==> Gone(e, g))
  {
    if g !in s.released {
      ConsumerReadsOwnLoop(s, g, seen, strict);
      LoopRunsOneGoal(s.pool, seen, g);
      PoolLoopEnds(s.pool, seen, ok);
      assert J.Active(s.index, (seen, g));
      J.EndTouchesOnlyItsGoal(s.index, seen, g, status);
      ReleaseKeepsInvIff(s, g, seen, status, ok, strict);
      ReleasedGoalIsGone(s, Release(s, g, seen, status, ok), g, seen, strict);
    }
  }

  lemma ReleasedGoalIsGone(s: System, e: System, g: GoalId, lid: LoopId, strict: bool)
    requires Inv(s, strict) && Inv(e, strict) && Runs(s.pool, lid, g)
    requires forall l, h :: Runs(e.pool, l, h) <==> Runs(s.pool, l, h) && l != lid
    ensures Gone(e, g)
  {
    assert forall l :: Runs(s.pool, l, g) ==> l == lid;
    assert forall l :: !Runs(e.pool, l, g);
    assert forall l :: J.Active(e.index, (l, g)) <==> Runs(e.pool, l, g);
  }

  /** Over whole runs: no early or late release at the end of a stream disturbs another goal. */
  lemma LateReleaseIsHarmless(
    goals: Dag, maxLoops: nat, used: set<LoopId>, ops: seq<Op>, g: GoalId, seen: LoopId, status: J.EntryStatus,
    ok: bool, strict: bool)
    requires maxLoops >= 1 && WellUsedRun(Boot(goals, maxLoops, used), ops, strict)
    requires WellUsed(Run(Boot(goals, maxLoops, used), ops, strict), Finish(g, seen, status, ok), strict)
    ensures var s := Run(Boot(goals, maxLoops, used), ops, strict);
      var e := Apply(s, Finish(g, seen, status, ok), strict);
      UntouchedBut(s, e, g) && (g !in s.released ==> Gone(e, g))
  {
    BootIsConsistent(goals, maxLoops, used, strict);
    RunKeepsInv(Boot(goals, maxLoops, used), ops, strict);
    FinishTouchesOnlyItsGoal(Run(Boot(goals, maxLoops, used), ops, strict), g, seen, status, ok, strict);
  }

  // ---- The scheduling bound ---------------------------------------------------------------------

  ghost function ActiveSlots(p: P.Pool): set<P.SlotId> {
    set t | t in p.slots && p.slots[t].status == P.Active
  }

  /** One attempt, safe or not, occupies at most one more slot. */
  lemma AttemptAddsOneSlot(s: System, goal: Goal, suffix: string, strict: bool)
    ensures exists t :: ActiveSlots(TryDispatch(s, goal, suffix, strict).0.pool) <= ActiveSlots(s.pool) + {t}
    ensures TryDispatch(s, goal, suffix, strict).0.pool.maxLoops == s.pool.maxLoops
  {
    var e := TryDispatch(s, goal, suffix, strict).0;
    var (pool, result) := PickFor(s, goal, suffix);
    var t := if result.Picked? then result.slot else 0;
    assert ActiveSlots(pool) <= ActiveSlots(s.pool) + {t};
    assert ActiveSlots(e.pool) <= ActiveSlots(s.pool) + {t};
  }

  /** One scheduling pass over the ready candidates: it stops at the first attempt that returns false. */
  ghost function Schedule(s: System, candidates: seq<Goal>, suffixes: seq<string>, strict: bool): System
    requires |suffixes| == |candidates|
    decreases |candidates|
  {
    if candidates == [] then s
    else
      var (next, outcome) := TryDispatch(s, candidates[0], suffixes[0], strict);
      if outcome.Continues() then Schedule(next, candidates[1..], suffixes[1..], strict) else next
  }

  function Min(a: int, b: int): int {
    if a < b then a else b
  }

  function Max(a: int, b: int): int {
    if a > b then a else b
  }

  /** Slots left for one pass, as the scheduler computes it from the number of active workers. */
  function Remaining(maxLoops: int, maxParallel: int, active: int): int {
    Min(Max(0, maxLoops - active), Max(0, maxParallel - active))
  }

  lemma {:induction false} PassAddsAtMost(s: System, candidates: seq<Goal>, suffixes: seq<string>, strict: bool)
    requires |suffixes| == |candidates|
    ensures |ActiveSlots(Schedule(s, candidates, suffixes, strict).pool)| <= |ActiveSlots(s.pool)| + |candidates|
    decreases |candidates|
  {
    if candidates != [] {
      var (next, outcome) := TryDispatch(s, candidates[0], suffixes[0], strict);
      AttemptAddsOneSlot(s, candidates[0], suffixes[0], strict);
      var t :| ActiveSlots(next.pool) <= ActiveSlots(s.pool) + {t};
      GrownByOne(ActiveSlots(s.pool), ActiveSlots(next.pool), t);
      if outcome.Continues() {
        PassAddsAtMost(next, candidates[1..], suffixes[1..], strict);
      }
    }
  }

  lemma GrownByOne(a: set<P.SlotId>, b: set<P.SlotId>, t: P.SlotId)
    requires b <= a + {t}
    ensures |b| <= |a| + 1
  {
    assert |a + {t} - b| == |a + {t}| - |b|;
  }

  /** An uninterrupted pass never pushes the number of active workers over either configured limit. */
  lemma PassStaysUnderLimits(
    s: System, candidates: seq<Goal>, suffixes: seq<string>, maxLoops: int, maxParallel: int, strict: bool)
    requires |suffixes| == |candidates|
    requires |candidates| <= Remaining(maxLoops, maxParallel, |ActiveSlots(s.pool)|)
    ensures |ActiveSlots(Schedule(s, candidates, suffixes, strict).pool)|
      <= Max(|ActiveSlots(s.pool)|, Min(maxLoops, maxParallel))
  {
    PassAddsAtMost(s, candidates, suffixes, strict);
  }

  // ---- Releases that come too late or name too little -------------------------------------------

  /** After the gate, with a free slot and a usable job id, a claimable goal is dispatched. */
  lemma ClaimableIsDispatched(s: System, goal: Goal, suffix: string, strict: bool)
    requires P.Inv(s.pool) && IdsAccounted(s.pool, s.index, s.used)
    requires DrawsFresh(s, goal, suffix) && !RailRoot(goal) && !Gated(s, goal, strict)
    requires !NoFreeSlot(s.pool) && Strip(JobOf(s.goals, goal)) != "" && Claimable(s.goals, goal.id)
    ensures var (e, outcome) := TryDispatch(s, goal, suffix, strict);
      && outcome == Dispatched(FreshLoop(s, goal, suffix).value)
      && PickFor(s, goal, suffix).1.Picked?
      && e == Started(s, goal, PickFor(s, goal, suffix).0, PickFor(s, goal, suffix).1.slot, outcome.loopId)
      && P.Assigned(e.pool) == P.Assigned(s.pool) + {(outcome.loopId, goal.id)} && Runs(e.pool, outcome.loopId, goal.id)
  {
    PickForFacts(s, goal, suffix);
    FreshLoopFacts(s, goal, suffix);
    hide PickFor, FreshLoop, P.Assigned, P.TakesFromQueue, SlotsKept, J.RecordStart, JobOf, Strip;
    var (pool, result) := PickFor(s, goal, suffix);
    assert HasLoop(pool, result.slot, FreshLoop(s, goal, suffix).value);
  }

  /**
   * Dispatched a second time after its release was recorded, a goal runs and holds its workspace, and no
   * release of it, whatever loop it names, does anything any more.
   */
  lemma RedispatchIsNeverReleased(s: System, goal: Goal, suffix: string, strict: bool)
    requires Inv(s, strict) && DrawsFresh(s, goal, suffix) && !RailRoot(goal) && !Gated(s, goal, strict)
    requires !NoFreeSlot(s.pool) && Strip(JobOf(s.goals, goal)) != "" && Claimable(s.goals, goal.id)
    requires goal.id in s.released
    ensures var (e, outcome) := TryDispatch(s, goal, suffix, strict);
      && outcome.Dispatched? && Running(e.pool, goal.id) && goal.id in e.reservations
      && forall lid, status, ok :: Release(e, goal.id, lid, status, ok) == e
  {
    ClaimableIsDispatched(s, goal, suffix, strict);
    var (e, outcome) := TryDispatch(s, goal, suffix, strict);
    assert Runs(e.pool, outcome.loopId, goal.id);
  }

  /**
   * A clean-up freed the slot of a goal whose release was never recorded, and `h` runs there now: that goal's
   * consumer reads the loop of `h`, and its release ends `h` while `h` keeps its reservation.
   */
  lemma UnguardedTailEndsAnother(
    s: System, g: GoalId, h: GoalId, lid: LoopId, status: J.EntryStatus, ok: bool)
    requires P.Inv(s.pool) && OneSlotEach(s.pool) && g !in s.released
    requires g in s.workerOf && HasLoop(s.pool, s.workerOf[g], lid)
    requires Runs(s.pool, lid, h) && h != g && h in s.reservations
    ensures ReadsLive(s, g, lid)
    ensures var e := Release(s, g, lid, status, ok); !Running(e.pool, h) && h in e.reservations
  {
    LoopRunsOneGoal(s.pool, lid, h);
    PoolLoopEnds(s.pool, lid, ok);
    RunningAfterEnd(s.pool, P.MarkIdle(s.pool, lid, ok), lid, h);
  }

  /** Some release of the goal ends its assignment. */
  ghost predicate CanBeReleased(s: System, g: GoalId) {
    exists lid, status, ok :: status != J.Running && !Running(Release(s, g, lid, status, ok).pool, g)
  }

  /** A dispatched goal can be released exactly when its id had not been released before. */
  lemma DispatchedCanBeReleasedIff(s: System, goal: Goal, suffix: string, strict: bool)
    requires Inv(s, strict) && DrawsFresh(s, goal, suffix) && !Running(s.pool, goal.id)
    requires TryDispatch(s, goal, suffix, strict).1.Dispatched?
    ensures CanBeReleased(TryDispatch(s, goal, suffix, strict).0, goal.id) <==> goal.id !in s.released
  {
    var (e, outcome) := TryDispatch(s, goal, suffix, strict);
    PickForFacts(s, goal, suffix);
    FreshLoopFacts(s, goal, suffix);
    DispatchKeepsInvIff(s, goal, suffix, strict);
    assert P.Inv(e.pool) && P.Assigned(e.pool) == P.Assigned(s.pool) + {(outcome.loopId, goal.id)};
    AssignedAfterStart(s.pool, e.pool, outcome.loopId, goal.id);
    hide PickFor, FreshLoop, P.Assigned, P.TakesFromQueue, SlotsKept, TryDispatch, Inv, P.Inv, P.MarkIdle, J.RecordEnd;
    if goal.id !in s.released {
      OwnReleaseEnds(s.pool, e, outcome.loopId, goal.id);
    }
  }

  lemma OwnReleaseEnds(p: P.Pool, e: System, lid: LoopId, g: GoalId)
    requires P.Inv(e.pool) && g !in e.released && lid != "" && !Running(p, g)
    requires forall l, h :: Runs(e.pool, l, h) <==> Runs(p, l, h) || (l == lid && h == g)
    ensures CanBeReleased(e, g)
  {
    PoolLoopEnds(e.pool, lid, true);
    assert forall l :: !Runs(p, l, g);
    assert !Running(Release(e, g, lid, J.Completed, true).pool, g);
  }

  /**
   * A release naming no loop, for a goal that is running: the goal runs on, its reservation is gone, and every
   * later release of it does nothing.
   */
  lemma NamelessReleaseStrands(s: System, g: GoalId, lid: LoopId, status: J.EntryStatus, ok: bool, strict: bool)
    requires Inv(s, strict) && Runs(s.pool, lid, g) && g !in s.released
    ensures var e := Release(s, g, "", status, ok);
      && Runs(e.pool, lid, g) && g !in e.reservations && !Inv(e, strict)
      && forall l, st, o :: Release(e, g, l, st, o) == e
  {
    var e := Release(s, g, "", status, ok);
    assert Running(e.pool, g) && g !in e.reservations;
  }
}
