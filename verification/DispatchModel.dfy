/**
 * Dispatch and release as steps over the joint state of the goal DAG, worker pool, workspace reservations,
 * job index and released-goal guard (service.py). One call of a service method is one step.
 */
module DispatchModel {
  import opened Prelude
  import opened LoopIds
  import opened Goals
  import opened GoalTree
  import P = PoolModel
  import W = WorkspaceReservations
  import J = JobIndexModel

  /**
   * `workerOf` is the worker each dispatched goal's stream consumer holds; `used` collects every loop id
   * that was ever handed out (uuid4 draws outside it).
   */
  datatype System = System(
    goals: Dag,
    pool: P.Pool,
    reservations: W.Reservations,
    index: J.Index,
    released: set<GoalId>,
    workerOf: Workers,
    used: set<LoopId>)

  type Workers = map<GoalId, P.SlotId>

  datatype Outcome = Skipped | Deferred | NoWorker | Vanished | Dispatched(loopId: LoopId) | Raised {
    /** What `_try_dispatch_goal` returns; raising returns nothing. */
    predicate Continues() {
      Skipped? || Dispatched?
    }
  }

  predicate RailRoot(goal: Goal) {
    goal.parentId.None? && goal.railBound
  }

  ghost predicate Gated(s: System, goal: Goal, strict: bool) {
    W.Blocked(s.reservations, goal.workspace, Some(goal.id), strict)
  }

  function FreshLoop(s: System, goal: Goal, suffix: string): Option<LoopId> {
    Allocate(JobOf(s.goals, goal), suffix)
  }

  function PickFor(s: System, goal: Goal, suffix: string): (P.Pool, P.Result) {
    P.Pick(s.pool, goal.id, goal.dependsOn, None, FreshLoop(s, goal, suffix))
  }

  /** Claimed and recorded: the goal runs under `lid` on `slot` of the pool after the pick. */
  function Started(s: System, goal: Goal, pool: P.Pool, slot: P.SlotId, lid: LoopId): System
    requires goal.id in s.goals
  {
    s.(goals := Claimed(s.goals, goal.id, lid),
       pool := pool,
       reservations := s.reservations[goal.id := goal.workspace],
       index := J.RecordStart(s.index, JobOf(s.goals, goal), lid, goal.id, goal.retryCount + 1),
       workerOf := s.workerOf[goal.id := slot],
       used := s.used + {lid})
  }

  /** After the gate: what the three registries look like, by how picking and claiming went. */
  function Place(s: System, goal: Goal, suffix: string): (System, Outcome) {
    var held := s.reservations[goal.id := goal.workspace];
    var (pool, result) := PickFor(s, goal, suffix);
    match result
    case NoCapacity => (s.(pool := pool, reservations := held - {goal.id}), NoWorker)
    case BlankJobId => (s.(pool := pool, reservations := held), Raised)
    case Picked(slot) =>
      var lid := if slot in pool.slots then pool.slots[slot].loopId else "";
      if !Claimable(s.goals, goal.id) then
        (s.(pool := P.MarkIdle(pool, lid, true), reservations := held - {goal.id}, used := s.used + {lid}), Vanished)
      else
        (Started(s, goal, pool, slot, lid), Dispatched(lid))
  }

  ghost function TryDispatch(s: System, goal: Goal, suffix: string, strict: bool): (System, Outcome) {
    if RailRoot(goal) then (s, Skipped)
    else if Gated(s, goal, strict) then (s, Deferred)
    else Place(s, goal, suffix)
  }

  /** `lid` is empty when the caller knows no loop. */
  function Release(s: System, g: GoalId, lid: LoopId, status: J.EntryStatus, ok: bool): System {
    if g in s.released then s
    else
      s.(released := s.released + {g},
         index := if lid == "" then s.index else J.RecordEnd(s.index, lid, status, None).0,
         pool := if lid == "" then s.pool else P.MarkIdle(s.pool, lid, ok),
         reservations := s.reservations - {g})
  }

  /** Idle timeout: the slot is removed through its current loop id. */
  function Reap(s: System, slot: P.SlotId): System {
    if s.pool.IsIdle(slot) then s.(pool := P.ReleaseWorker(s.pool, s.pool.slots[slot].loopId)) else s
  }

  /** The idle slots past their timeout, in slot order up to `n`. */
  function ReapUpTo(s: System, timedOut: set<P.SlotId>, n: nat): System {
    if n == 0 then s
    else
      var before := ReapUpTo(s, timedOut, n - 1);
      if n in timedOut then Reap(before, n) else before
  }

  // ---- The joint invariant --------------------------------------------------------------------

  ghost predicate Runs(p: P.Pool, lid: LoopId, g: GoalId) {
    (lid, g) in P.Assigned(p)
  }

  ghost predicate Running(p: P.Pool, g: GoalId) {
    exists lid :: Runs(p, lid, g)
  }

  ghost predicate OneSlotEach(p: P.Pool) {
    forall k, l, g :: Runs(p, k, g) && Runs(p, l, g) ==> k == l
  }

  /** A goal holds a reservation exactly while it runs. */
  ghost predicate HoldersRun(p: P.Pool, r: W.Reservations) {
    forall g :: g in r <==> Running(p, g)
  }

  /** The index's active entries are exactly the pool's assignments. */
  ghost predicate IndexAgrees(p: P.Pool, ix: J.Index) {
    forall lid, g :: J.Active(ix, (lid, g)) <==> Runs(p, lid, g)
  }

  /**
   * A running goal's consumer holds the worker that runs it, and a dispatched goal stops running only by being
   * released. A goal sent back after its release may run again.
   */
  ghost predicate WorkersKnown(p: P.Pool, workerOf: Workers, released: set<GoalId>) {
    && (forall lid, g :: Runs(p, lid, g) ==> g in workerOf && HasLoop(p, workerOf[g], lid))
    && (forall g :: g in workerOf ==> Running(p, g) || g in released)
  }

  ghost predicate HasLoop(p: P.Pool, slot: P.SlotId, lid: LoopId) {
    slot in p.slots && p.slots[slot].loopId == lid
  }

  /** Every loop id that names a slot or an index entry was handed out before. */
  ghost predicate IdsAccounted(p: P.Pool, ix: J.Index, used: set<LoopId>) {
    && p.byLoop.Keys <= used
    && (forall lid :: lid !in used ==> J.Unseen(ix, lid))
  }

  ghost predicate Inv(s: System, strict: bool) {
    && P.Inv(s.pool)
    && J.Inv(s.index) && J.Attributed(s.index)
    && W.Exclusive(s.reservations, strict)
    && OneSlotEach(s.pool)
    && HoldersRun(s.pool, s.reservations)
    && IndexAgrees(s.pool, s.index)
    && WorkersKnown(s.pool, s.workerOf, s.released)
    && IdsAccounted(s.pool, s.index, s.used)
  }

  // ---- Dispatch -------------------------------------------------------------------------------

  ghost predicate NoFreeSlot(p: P.Pool) {
    |p.slots| == p.maxLoops && forall t :: !p.IsIdle(t)
  }

  /**
   * When a dispatch attempt leaves the registries consistent. A candidate that already runs (a stale ready
   * list) loses its reservation, and a blank job id raises between acquire and rollback.
   */
  ghost predicate SafeDispatch(s: System, goal: Goal, strict: bool) {
    || RailRoot(goal)
    || Gated(s, goal, strict)
    || (if NoFreeSlot(s.pool) then !Running(s.pool, goal.id)
        else if Strip(JobOf(s.goals, goal)) == "" then
          Running(s.pool, goal.id) && !P.TakesFromQueue(s.pool, goal.dependsOn, None)
        else !Running(s.pool, goal.id))
  }

  /** The suffix drawn for the loop id has not been drawn before. */
  ghost predicate DrawsFresh(s: System, goal: Goal, suffix: string) {
    var lid := FreshLoop(s, goal, suffix);
    lid.Some? ==> lid.value !in s.used
  }

  lemma AssignedAfterStart(p: P.Pool, q: P.Pool, lid: LoopId, g: GoalId)
    requires P.Assigned(q) == P.Assigned(p) + {(lid, g)}
    ensures forall l, h :: Runs(q, l, h) <==> Runs(p, l, h) || (l == lid && h == g)
    ensures forall h :: Running(q, h) <==> Running(p, h) || h == g
  {
    assert Runs(q, lid, g);
    forall h | Running(p, h)
      ensures Running(q, h)
    {
      var l :| Runs(p, l, h);
      assert Runs(q, l, h);
    }
  }

  lemma SameAssignments(p: P.Pool, q: P.Pool)
    requires P.Assigned(q) == P.Assigned(p)
    ensures forall l, h :: Runs(q, l, h) <==> Runs(p, l, h)
    ensures forall h :: Running(q, h) <==> Running(p, h)
  {
    forall h
      ensures Running(q, h) <==> Running(p, h)
    {
      if l :| Runs(q, l, h) {
        assert Runs(p, l, h);
      }
      if l :| Runs(p, l, h) {
        assert Runs(q, l, h);
      }
    }
  }

  /** A loop id is on one slot only, and its slot runs one goal only. */
  lemma LoopRunsOneGoal(p: P.Pool, lid: LoopId, g: GoalId)
    requires P.Inv(p) && Runs(p, lid, g)
    ensures lid in p.byLoop && p.slots[p.byLoop[lid]].currentGoal == Some(g) && lid != ""
    ensures forall h :: Runs(p, lid, h) ==> h == g
  {
    forall h | Runs(p, lid, h)
      ensures p.slots[p.byLoop[lid]].currentGoal == Some(h)
    {
      var t :| t in p.slots && p.slots[t].currentGoal.Some? && (lid, h) == (p.slots[t].loopId, p.slots[t].currentGoal.value);
      assert p.byLoop[lid] == t;
    }
  }

  /** Picking touches one slot, which was not running anything. */
  lemma PickFrame(p: P.Pool, g: GoalId, deps: seq<GoalId>, lid: Option<LoopId>)
    requires P.Inv(p)
    ensures var (q, result) := P.Pick(p, g, deps, None, lid);
      && (forall l :: l in q.byLoop ==> l in p.byLoop || Some(l) == lid)
      && (!result.Picked? ==> q.slots == p.slots && q.byLoop == p.byLoop)
      && (result.Picked? ==> SlotsKept(p, q, result.slot))
  {
    P.ChooseExact(p, deps, None);
  }

  /** Slots other than `slot` are untouched, and `slot` was not running a goal before. */
  ghost predicate SlotsKept(p: P.Pool, q: P.Pool, slot: P.SlotId) {
    && (forall t :: t in p.slots && t != slot ==> t in q.slots && q.slots[t] == p.slots[t])
    && (slot in p.slots ==> p.slots[slot].currentGoal.None?)
  }

  /** The slot a running goal's worker sits on is its own, hence not an unused one. */
  lemma WorkerElsewhere(p: P.Pool, workerOf: Workers, slot: P.SlotId, lid: LoopId, g: GoalId)
    requires P.Inv(p) && Runs(p, lid, g) && g in workerOf && HasLoop(p, workerOf[g], lid)
    requires slot in p.slots ==> p.slots[slot].currentGoal.None?
    ensures workerOf[g] != slot
  {
    LoopRunsOneGoal(p, lid, g);
  }

  lemma WorkersKnownAfterStart(
    p: P.Pool, q: P.Pool, workerOf: Workers, released: set<GoalId>, slot: P.SlotId, lid: LoopId, g: GoalId)
    requires P.Inv(p) && WorkersKnown(p, workerOf, released) && SlotsKept(p, q, slot) && HasLoop(q, slot, lid)
    requires P.Assigned(q) == P.Assigned(p) + {(lid, g)} && !Running(p, g)
    ensures WorkersKnown(q, workerOf[g := slot], released)
  {
    AssignedAfterStart(p, q, lid, g);
    var workers := workerOf[g := slot];
    forall l, h | Runs(q, l, h)
      ensures h in workers && HasLoop(q, workers[h], l)
    {
      if Runs(p, l, h) {
        assert Running(p, h);
        WorkerElsewhere(p, workerOf, slot, l, h);
      }
    }
  }

  /** The attempt rolled back: everything stands as before, up to bookkeeping of unused slots. */
  lemma WorkersKnownKept(p: P.Pool, q: P.Pool, workerOf: Workers, released: set<GoalId>, slot: P.SlotId)
    requires P.Inv(p) && WorkersKnown(p, workerOf, released) && SlotsKept(p, q, slot)
    requires P.Assigned(q) == P.Assigned(p)
    ensures WorkersKnown(q, workerOf, released)
  {
    SameAssignments(p, q);
    forall l, h | Runs(q, l, h)
      ensures h in workerOf && HasLoop(q, workerOf[h], l)
    {
      WorkerElsewhere(p, workerOf, slot, l, h);
    }
  }

  lemma FreshLoopFacts(s: System, goal: Goal, suffix: string)
    requires IdsAccounted(s.pool, s.index, s.used) && DrawsFresh(s, goal, suffix)
    ensures var lid := FreshLoop(s, goal, suffix);
      && (lid.None? <==> Strip(JobOf(s.goals, goal)) == "")
      && (lid.Some? ==> P.Fresh(s.pool, lid.value) && J.Unseen(s.index, lid.value))
      && (lid.Some? ==> J.AllocatedFor(JobOf(s.goals, goal), lid.value))
  {
  }

  /** Acquiring past the gate keeps reservations apart; giving it back restores the others. */
  lemma HeldStaysExclusive(s: System, goal: Goal, strict: bool)
    requires W.Exclusive(s.reservations, strict) && !Gated(s, goal, strict)
    ensures W.Exclusive(s.reservations[goal.id := goal.workspace], strict)
  {
    W.AcquireIffNoConflict(s.reservations, goal.id, goal.workspace, strict);
    W.AcquireKeepsExclusive(s.reservations, goal.id, goal.workspace, strict);
  }

  lemma ExclusiveWithout(r: W.Reservations, g: GoalId, strict: bool)
    requires W.Exclusive(r, strict)
    ensures W.Exclusive(r - {g}, strict)
  {
  }

  /** With the same assignments, whatever is stated about running goals carries over. */
  lemma SameAssignmentsSameFacts(p: P.Pool, q: P.Pool, r: W.Reservations, ix: J.Index)
    requires P.Assigned(q) == P.Assigned(p)
    ensures OneSlotEach(q) <==> OneSlotEach(p)
    ensures IndexAgrees(q, ix) <==> IndexAgrees(p, ix)
    ensures HoldersRun(q, r) <==> HoldersRun(p, r)
  {
    SameAssignments(p, q);
  }

  lemma MoreIdsUsed(p: P.Pool, q: P.Pool, ix: J.Index, used: set<LoopId>, used': set<LoopId>)
    requires IdsAccounted(p, ix, used) && used <= used' && q.byLoop.Keys <= used'
    ensures IdsAccounted(q, ix, used')
  {
  }

  lemma HoldersWithout(p: P.Pool, r: W.Reservations, g: GoalId)
    requires HoldersRun(p, r)
    ensures HoldersRun(p, r - {g}) <==> !Running(p, g)
  {
  }

  lemma HoldersWith(p: P.Pool, r: W.Reservations, g: GoalId, ws: W.Path)
    requires HoldersRun(p, r)
    ensures HoldersRun(p, r[g := ws]) <==> Running(p, g)
  {
  }

  /** Rolled back: consistent exactly when the goal was not running. */
  lemma RollbackKeepsInvIff(s: System, e: System, slot: P.SlotId, g: GoalId, ws: W.Path, strict: bool)
    requires Inv(s, strict) && P.Inv(e.pool) && SlotsKept(s.pool, e.pool, slot)
    requires P.Assigned(e.pool) == P.Assigned(s.pool)
    requires e.reservations == s.reservations[g := ws] - {g}
    requires e.index == s.index && e.released == s.released && e.workerOf == s.workerOf
    requires s.used <= e.used && e.pool.byLoop.Keys <= e.used
    ensures Inv(e, strict) <==> !Running(s.pool, g)
  {
    hide P.Inv, J.Inv, J.Attributed, P.Assigned, W.Exclusive, SlotsKept;
    hide WorkersKnown, IndexAgrees, OneSlotEach, Running, HoldersRun, IdsAccounted;
    assert e.reservations == s.reservations - {g};
    ExclusiveWithout(s.reservations, g, strict);
    HoldersWithout(s.pool, s.reservations, g);
    SameAssignmentsSameFacts(s.pool, e.pool, e.reservations, s.index);
    MoreIdsUsed(s.pool, e.pool, s.index, s.used, e.used);
    WorkersKnownKept(s.pool, e.pool, s.workerOf, s.released, slot);
  }

  /** Started: consistent exactly when the goal was not running before. */
  lemma StartKeepsInvIff(s: System, pool: P.Pool, slot: P.SlotId, lid: LoopId, goal: Goal, strict: bool)
    requires Inv(s, strict) && !Gated(s, goal, strict) && goal.id in s.goals
    requires P.Inv(pool) && SlotsKept(s.pool, pool, slot) && HasLoop(pool, slot, lid)
    requires P.Assigned(pool) == P.Assigned(s.pool) + {(lid, goal.id)} && pool.byLoop.Keys <= s.pool.byLoop.Keys + {lid}
    requires lid !in s.used && J.Unseen(s.index, lid) && J.AllocatedFor(JobOf(s.goals, goal), lid)
    ensures Inv(Started(s, goal, pool, slot, lid), strict) <==> !Running(s.pool, goal.id)
  {
    hide P.Inv, J.Inv, J.Attributed, W.Exclusive, WorkersKnown, IndexAgrees, OneSlotEach, HoldersRun, IdsAccounted;
    hide P.Assigned, SlotsKept, J.RecordStart, J.Unseen, J.AllocatedFor, JobOf, Running, Gated;
    if Running(s.pool, goal.id) {
      SecondSlotBreaks(s.pool, pool, s.index, s.used, lid, goal.id);
    } else {
      NewGoalOneSlot(s.pool, pool, lid, goal.id);
      HoldersAfterStart(s.pool, pool, s.reservations, lid, goal);
      HeldStaysExclusive(s, goal, strict);
      WorkersKnownAfterStart(s.pool, pool, s.workerOf, s.released, slot, lid, goal.id);
      IndexAfterStart(s, pool, lid, goal);
    }
  }

  lemma SecondSlotBreaks(p: P.Pool, q: P.Pool, ix: J.Index, used: set<LoopId>, lid: LoopId, g: GoalId)
    requires P.Inv(p) && IdsAccounted(p, ix, used) && lid !in used && Running(p, g)
    requires P.Assigned(q) == P.Assigned(p) + {(lid, g)}
    ensures !OneSlotEach(q)
  {
    AssignedAfterStart(p, q, lid, g);
    var l :| Runs(p, l, g);
    LoopRunsOneGoal(p, l, g);
    assert Runs(q, l, g) && Runs(q, lid, g) && l != lid;
  }

  lemma HoldersAfterStart(p: P.Pool, q: P.Pool, r: W.Reservations, lid: LoopId, goal: Goal)
    requires HoldersRun(p, r) && P.Assigned(q) == P.Assigned(p) + {(lid, goal.id)}
    ensures HoldersRun(q, r[goal.id := goal.workspace])
  {
    AssignedAfterStart(p, q, lid, goal.id);
  }

  lemma IndexAfterStart(s: System, pool: P.Pool, lid: LoopId, goal: Goal)
    requires J.Inv(s.index) && J.Attributed(s.index) && IndexAgrees(s.pool, s.index)
    requires IdsAccounted(s.pool, s.index, s.used) && pool.byLoop.Keys <= s.pool.byLoop.Keys + {lid}
    requires J.Unseen(s.index, lid) && J.AllocatedFor(JobOf(s.goals, goal), lid)
    requires P.Assigned(pool) == P.Assigned(s.pool) + {(lid, goal.id)}
    ensures var ix := J.RecordStart(s.index, JobOf(s.goals, goal), lid, goal.id, goal.retryCount + 1);
      J.Inv(ix) && J.Attributed(ix) && IndexAgrees(pool, ix) && IdsAccounted(pool, ix, s.used + {lid})
  {
    hide J.Inv, J.Attributed, J.Active, J.Unseen, J.RecordStart, P.Assigned, JobOf;
    J.StartKeepsInv(s.index, JobOf(s.goals, goal), lid, goal.id, goal.retryCount + 1);
    J.StartKeepsAttributed(s.index, JobOf(s.goals, goal), lid, goal.id, goal.retryCount + 1);
    AssignedAfterStart(s.pool, pool, lid, goal.id);
  }

  lemma NewGoalOneSlot(p: P.Pool, q: P.Pool, lid: LoopId, g: GoalId)
    requires OneSlotEach(p) && !Running(p, g) && P.Assigned(q) == P.Assigned(p) + {(lid, g)}
    ensures OneSlotEach(q)
  {
    AssignedAfterStart(p, q, lid, g);
    assert forall l :: !Runs(p, l, g);
  }

  /** Raised between acquire and rollback: the new reservation stays behind. */
  lemma RaisedKeepsInvIff(s: System, e: System, goal: Goal, strict: bool)
    requires Inv(s, strict) && !Gated(s, goal, strict)
    requires e == s.(pool := e.pool, reservations := s.reservations[goal.id := goal.workspace])
    requires P.Assigned(e.pool) == P.Assigned(s.pool) && e.pool.slots == s.pool.slots && e.pool.byLoop == s.pool.byLoop
    ensures Inv(e, strict) <==> P.Inv(e.pool) && Running(s.pool, goal.id)
  {
    assert P.Inv(e.pool) ==> SlotsKept(s.pool, e.pool, 0);
    hide P.Inv, J.Inv, J.Attributed, P.Assigned, W.Exclusive, SlotsKept, W.Blocked;
    hide WorkersKnown, IndexAgrees, OneSlotEach, Running, HoldersRun, IdsAccounted;
    HeldStaysExclusive(s, goal, strict);
    HoldersWith(s.pool, s.reservations, goal.id, goal.workspace);
    SameAssignmentsSameFacts(s.pool, e.pool, e.reservations, s.index);
    if P.Inv(e.pool) {
      MoreIdsUsed(s.pool, e.pool, s.index, s.used, s.used);
      WorkersKnownKept(s.pool, e.pool, s.workerOf, s.released, 0);
    }
  }

  /** What picking a worker for the goal does to the pool. */
  lemma PickForFacts(s: System, goal: Goal, suffix: string)
    requires P.Inv(s.pool) && IdsAccounted(s.pool, s.index, s.used) && DrawsFresh(s, goal, suffix)
    ensures var lid := FreshLoop(s, goal, suffix); var (pool, result) := PickFor(s, goal, suffix);
      && (result.NoCapacity? <==> NoFreeSlot(s.pool))
      && (result.NoCapacity? ==> pool == s.pool)
      && (result.BlankJobId? <==> !NoFreeSlot(s.pool) && lid.None?)
      && (result.BlankJobId? ==> P.Assigned(pool) == P.Assigned(s.pool))
      && (result.BlankJobId? ==> pool.slots == s.pool.slots && pool.byLoop == s.pool.byLoop)
      && (P.Inv(pool) <==> lid.Some? || !P.TakesFromQueue(s.pool, goal.dependsOn, None))
      && (result.Picked? ==> lid.Some? && HasLoop(pool, result.slot, lid.value))
      && (result.Picked? ==> SlotsKept(s.pool, pool, result.slot) && pool.byLoop.Keys <= s.pool.byLoop.Keys + {lid.value})
      && (result.Picked? ==> P.Assigned(pool) == P.Assigned(s.pool) + {(lid.value, goal.id)})
  {
    var lid := FreshLoop(s, goal, suffix);
    FreshLoopFacts(s, goal, suffix);
    P.PickKeepsInvIff(s.pool, goal.id, goal.dependsOn, None, lid);
    P.NoCapacityIff(s.pool, goal.id, goal.dependsOn, None, lid);
    PickFrame(s.pool, goal.id, goal.dependsOn, lid);
  }

  lemma RefusedKeepsInvIff(s: System, goal: Goal, suffix: string, strict: bool)
    requires Inv(s, strict) && DrawsFresh(s, goal, suffix) && !Gated(s, goal, strict)
    requires !PickFor(s, goal, suffix).1.Picked?
    ensures Inv(Place(s, goal, suffix).0, strict) <==>
      if NoFreeSlot(s.pool) then !Running(s.pool, goal.id)
      else Running(s.pool, goal.id) && !P.TakesFromQueue(s.pool, goal.dependsOn, None)
  {
    assert P.Inv(s.pool) && SlotsKept(s.pool, s.pool, 0) && s.pool.byLoop.Keys <= s.used;
    PickForFacts(s, goal, suffix);
    hide Inv, P.Inv, P.Assigned, P.TakesFromQueue, SlotsKept, Running, NoFreeSlot, PickFor, FreshLoop, Claimable, Gated;
    var e := Place(s, goal, suffix).0;
    if PickFor(s, goal, suffix).1.NoCapacity? {
      RollbackKeepsInvIff(s, e, 0, goal.id, goal.workspace, strict);
    } else {
      RaisedKeepsInvIff(s, e, goal, strict);
    }
  }

  lemma StartedKeepsInvIff(s: System, goal: Goal, suffix: string, strict: bool)
    requires Inv(s, strict) && DrawsFresh(s, goal, suffix) && !Gated(s, goal, strict)
    requires PickFor(s, goal, suffix).1.Picked? && Claimable(s.goals, goal.id)
    ensures Inv(Place(s, goal, suffix).0, strict) <==> !Running(s.pool, goal.id)
  {
    assert s.pool.byLoop.Keys <= s.used;
    PickForFacts(s, goal, suffix);
    FreshLoopFacts(s, goal, suffix);
    hide Inv, P.Inv, P.Assigned, P.TakesFromQueue, SlotsKept, Running, NoFreeSlot, Started;
    hide J.Unseen, J.AllocatedFor, JobOf, PickFor, FreshLoop, Gated, P.Fresh, Strip;
    var lid := FreshLoop(s, goal, suffix).value;
    var (pool, result) := PickFor(s, goal, suffix);
    StartKeepsInvIff(s, pool, result.slot, lid, goal, strict);
  }

  lemma VanishedKeepsInvIff(s: System, goal: Goal, suffix: string, strict: bool)
    requires Inv(s, strict) && DrawsFresh(s, goal, suffix) && !Gated(s, goal, strict)
    requires PickFor(s, goal, suffix).1.Picked? && !Claimable(s.goals, goal.id)
    ensures Inv(Place(s, goal, suffix).0, strict) <==> !Running(s.pool, goal.id)
  {
    assert P.Inv(s.pool) && s.pool.byLoop.Keys <= s.used;
    PickForFacts(s, goal, suffix);
    FreshLoopFacts(s, goal, suffix);
    hide Inv, P.Inv, P.Assigned, P.MarkIdle, P.TakesFromQueue, SlotsKept, Running, NoFreeSlot;
    hide J.Unseen, J.AllocatedFor, JobOf, PickFor, FreshLoop, Claimable, Gated, Strip;
    var lid := FreshLoop(s, goal, suffix).value;
    var (pool, result) := PickFor(s, goal, suffix);
    VanishedPool(s.pool, pool, result.slot, lid, goal.id);
    RollbackKeepsInvIff(s, Place(s, goal, suffix).0, result.slot, goal.id, goal.workspace, strict);
  }

  /** One dispatch attempt keeps the three registries consistent exactly when it is safe. */
  lemma DispatchKeepsInvIff(s: System, goal: Goal, suffix: string, strict: bool)
    requires Inv(s, strict) && DrawsFresh(s, goal, suffix)
    ensures Inv(TryDispatch(s, goal, suffix, strict).0, strict) <==> SafeDispatch(s, goal, strict)
  {
    if !RailRoot(goal) && !Gated(s, goal, strict) {
      PickForFacts(s, goal, suffix);
      FreshLoopFacts(s, goal, suffix);
      hide Inv, P.TakesFromQueue, Running, NoFreeSlot, PickFor, FreshLoop, Claimable, DrawsFresh, Gated, Place;
      if PickFor(s, goal, suffix).1.Picked? {
        if Claimable(s.goals, goal.id) {
          StartedKeepsInvIff(s, goal, suffix, strict);
        } else {
          VanishedKeepsInvIff(s, goal, suffix, strict);
        }
      } else {
        RefusedKeepsInvIff(s, goal, suffix, strict);
      }
    }
  }

  /** Claiming a slot and idling it again leaves every running goal where it was. */
  lemma VanishedPool(p: P.Pool, q: P.Pool, slot: P.SlotId, lid: LoopId, g: GoalId)
    requires P.Inv(p) && P.Inv(q) && SlotsKept(p, q, slot) && HasLoop(q, slot, lid) && lid !in p.byLoop
    requires P.Assigned(q) == P.Assigned(p) + {(lid, g)}
    ensures var r := P.MarkIdle(q, lid, true);
      P.Inv(r) && P.Assigned(r) == P.Assigned(p) && SlotsKept(p, r, slot) && r.byLoop == q.byLoop
  {
    P.MarkIdleKeepsInv(q, lid, true);
    P.LookupExact(q, lid);
    assert q.byLoop[lid] == slot;
    forall x | x in P.Assigned(p)
      ensures x.0 != lid
    {
      LoopRunsOneGoal(p, x.0, x.1);
    }
  }

  // ---- Release --------------------------------------------------------------------------------

  /** When a release naming loop `lid` (empty for none) leaves the registries consistent. */
  ghost predicate SafeRelease(s: System, g: GoalId, lid: LoopId) {
    || g in s.released
    || Runs(s.pool, lid, g)
    || (!Running(s.pool, g) && forall h :: !Runs(s.pool, lid, h))
  }

  /** Marking a loop idle ends exactly its assignment and moves no loop id. */
  lemma PoolLoopEnds(p: P.Pool, lid: LoopId, ok: bool)
    requires P.Inv(p)
    ensures var q := P.MarkIdle(p, lid, ok);
      && P.Inv(q) && q.byLoop == p.byLoop
      && (forall l, h :: Runs(q, l, h) <==> Runs(p, l, h) && l != lid)
      && (forall t, l :: HasLoop(q, t, l) <==> HasLoop(p, t, l))
  {
    P.MarkIdleKeepsInv(p, lid, ok);
    P.LookupExact(p, lid);
  }

  lemma IndexLoopEnds(p: P.Pool, q: P.Pool, ix: J.Index, used: set<LoopId>, lid: LoopId, status: J.EntryStatus)
    requires J.Inv(ix) && J.Attributed(ix) && IndexAgrees(p, ix) && IdsAccounted(p, ix, used) && status != J.Running
    requires q.byLoop == p.byLoop && forall l, h :: Runs(q, l, h) <==> Runs(p, l, h) && l != lid
    ensures var end := J.RecordEnd(ix, lid, status, None).0;
      J.Inv(end) && J.Attributed(end) && IndexAgrees(q, end) && IdsAccounted(q, end, used)
  {
    hide J.Inv, J.Attributed, J.Active, J.Unseen, J.RecordEnd, Runs;
    J.EndKeepsInv(ix, lid, status, None);
    J.EndStopsExactly(ix, lid, status);
    J.EndKeepsAttributed(ix, lid, status, None);
  }

  lemma RunningAfterEnd(p: P.Pool, q: P.Pool, lid: LoopId, g: GoalId)
    requires OneSlotEach(p) && P.Inv(p)
    requires forall l, h :: Runs(q, l, h) <==> Runs(p, l, h) && l != lid
    ensures OneSlotEach(q)
    ensures Running(q, g) <==> Running(p, g) && !Runs(p, lid, g)
    ensures Runs(p, lid, g) ==> forall h :: h != g ==> (Running(q, h) <==> Running(p, h))
    ensures (forall h :: !Runs(p, lid, h)) ==> forall h :: Running(q, h) <==> Running(p, h)
  {
    forall h | Running(p, h) && !Runs(p, lid, h)
      ensures Running(q, h)
    {
      var l :| Runs(p, l, h);
      assert Runs(q, l, h);
    }
    if Runs(p, lid, g) {
      LoopRunsOneGoal(p, lid, g);
    }
  }

  lemma WorkersAfterEnd(p: P.Pool, q: P.Pool, workerOf: Workers, released: set<GoalId>, lid: LoopId, g: GoalId)
    requires WorkersKnown(p, workerOf, released) && !Running(q, g)
    requires forall l, h :: Runs(q, l, h) <==> Runs(p, l, h) && l != lid
    requires forall t, l :: HasLoop(q, t, l) <==> HasLoop(p, t, l)
    requires forall h :: h != g ==> (Running(q, h) <==> Running(p, h))
    ensures WorkersKnown(q, workerOf, released + {g})
  {
  }

  lemma HoldersAfterEnd(p: P.Pool, q: P.Pool, r: W.Reservations, g: GoalId)
    requires HoldersRun(p, r) && forall h :: h != g ==> (Running(q, h) <==> Running(p, h))
    ensures HoldersRun(q, r - {g}) <==> !Running(q, g)
  {
  }

  /** A loop of another goal ended while that goal keeps its reservation. */
  lemma StrayEndBreaks(p: P.Pool, q: P.Pool, r: W.Reservations, lid: LoopId, g: GoalId, h: GoalId)
    requires P.Inv(p) && OneSlotEach(p) && HoldersRun(p, r) && Runs(p, lid, h) && h != g
    requires forall l, k :: Runs(q, l, k) <==> Runs(p, l, k) && l != lid
    ensures !HoldersRun(q, r - {g})
  {
    assert Running(p, h);
    RunningAfterEnd(p, q, lid, h);
  }

  /** The registries when a release with a loop id is not skipped. */
  lemma EndKeepsInvIff(s: System, g: GoalId, lid: LoopId, status: J.EntryStatus, ok: bool, strict: bool)
    requires Inv(s, strict) && g !in s.released && status != J.Running
    ensures var q := P.MarkIdle(s.pool, lid, ok); var ix := J.RecordEnd(s.index, lid, status, None).0;
      Inv(s.(released := s.released + {g}, index := ix, pool := q, reservations := s.reservations - {g}), strict)
      <==> SafeRelease(s, g, lid)
  {
    var (q, r) := (P.MarkIdle(s.pool, lid, ok), s.reservations - {g});
    hide P.Inv, J.Inv, J.Attributed, W.Exclusive, IndexAgrees, IdsAccounted, P.MarkIdle, J.RecordEnd, P.Assigned, HasLoop;
    hide OneSlotEach, HoldersRun, WorkersKnown, Running, Runs;
    PoolLoopEnds(s.pool, lid, ok);
    IndexLoopEnds(s.pool, q, s.index, s.used, lid, status);
    ExclusiveWithout(s.reservations, g, strict);
    RunningAfterEnd(s.pool, q, lid, g);
    if h :| Runs(s.pool, lid, h) && h != g {
      StrayEndBreaks(s.pool, q, s.reservations, lid, g, h);
      StrayIsUnsafe(s.pool, lid, g, h);
    } else {
      HoldersAfterEnd(s.pool, q, s.reservations, g);
      if !Running(q, g) {
        WorkersAfterEnd(s.pool, q, s.workerOf, s.released, lid, g);
      }
    }
  }

  lemma StrayIsUnsafe(p: P.Pool, lid: LoopId, g: GoalId, h: GoalId)
    requires P.Inv(p) && Runs(p, lid, h) && h != g
    ensures !Runs(p, lid, g)
  {
    LoopRunsOneGoal(p, lid, h);
  }

  /** One release keeps the registries consistent exactly when it names the goal's own loop, or nobody's. */
  lemma ReleaseKeepsInvIff(s: System, g: GoalId, lid: LoopId, status: J.EntryStatus, ok: bool, strict: bool)
    requires Inv(s, strict) && status != J.Running
    ensures Inv(Release(s, g, lid, status, ok), strict) <==> SafeRelease(s, g, lid)
  {
    if g !in s.released {
      EndKeepsInvIff(s, g, lid, status, ok, strict);
    }
  }
}