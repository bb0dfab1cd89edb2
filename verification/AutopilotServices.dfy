/** The service methods that tie pool, gate, index and engine together, on the live objects (service.py). */
module AutopilotServices {
  import opened Prelude
  import opened LoopIds
  import opened Goals
  import opened GoalTree
  import opened DispatchModel
  import opened Reconciling
  import opened DispatchRuns
  import opened Watchdogs
  import opened Ranking
  import P = PoolModel
  import W = WorkspaceReservations
  import J = JobIndexModel
  import WorkerPools
  import JobLoopIndexes

  /** Having reserved the goal's own workspace first does not change what placing it does. */
  lemma ReservingChangesNothingElse(s: System, goal: Goal, suffix: string)
    ensures Place(s.(reservations := s.reservations[goal.id := goal.workspace]), goal, suffix) == Place(s, goal, suffix)
  {
    assert s.reservations[goal.id := goal.workspace][goal.id := goal.workspace] == s.reservations[goal.id := goal.workspace];
  }

  lemma NothingToSchedule(s: System, candidates: seq<Goal>, draws: seq<string>, strict: bool)
    requires candidates == [] && draws == []
    ensures Schedule(s, candidates, draws, strict) == s
  {
  }

  lemma ScheduleStep(s: System, candidates: seq<Goal>, draws: seq<string>, i: nat, strict: bool)
    requires |draws| == |candidates| && i < |candidates|
    ensures Schedule(s, candidates[i..], draws[i..], strict) ==
      var (next, outcome) := TryDispatch(s, candidates[i], draws[i], strict);
      if outcome.Continues() then Schedule(next, candidates[i + 1..], draws[i + 1..], strict) else next
  {
    hide TryDispatch;
    FromIndex(candidates, i);
    FromIndex(draws, i);
  }

  lemma NothingListed(s: System, own: set<GoalId>, listed: seq<GoalId>)
    ensures ReleaseAllLeaked(s, own, listed[..0]) == s && listed[..|listed|] == listed
  {
  }

  lemma NextListed(s: System, own: set<GoalId>, listed: seq<GoalId>, i: nat)
    requires i < |listed|
    ensures ReleaseAllLeaked(s, own, listed[..i + 1])
      == ReleaseLeaked(ReleaseAllLeaked(s, own, listed[..i]), own, listed[i])
  {
    hide ReleaseLeaked;
    assert listed[..i + 1][..i] == listed[..i];
  }

  class AutopilotService {
    const pool: WorkerPools.WorkerPool
    const gate: W.WorkspaceReservation
    const index: JobLoopIndexes.JobLoopIndex
    const dag: GoalDag
    var released: set<GoalId>
    /** The worker object each dispatched goal's stream consumer holds on to. */
    var consumers: map<GoalId, WorkerPools.WorkerSlot>
    ghost var used: set<LoopId>

    ghost predicate Valid()
      reads this, pool, pool.workers.Values, gate, index, dag
    {
      && pool.Valid() && index.Valid() && gate.enabled && WellKeyed(dag.goals)
      && forall g :: g in consumers ==> Held(consumers[g])
    }

    /** A held worker is the pool's own object for its slot as long as the slot is there. */
    ghost predicate Held(w: WorkerPools.WorkerSlot)
      reads this, pool
    {
      w.slotId <= pool.nextSeq && (w.slotId in pool.workers ==> pool.workers[w.slotId] == w)
    }

    ghost function View(): System
      reads this, pool, pool.workers.Values, gate, index, dag
    {
      System(dag.goals, pool.View(), gate.reservations, index.View(), released, Handles(), used)
    }

    ghost function Handles(): Workers
      reads this`consumers
    {
      map g | g in consumers :: consumers[g].slotId
    }

    constructor (
      pool: WorkerPools.WorkerPool, gate: W.WorkspaceReservation, index: JobLoopIndexes.JobLoopIndex, dag: GoalDag)
      requires pool.Valid() && index.Valid() && gate.enabled && WellKeyed(dag.goals)
      ensures Valid() && this.pool == pool && this.gate == gate && this.index == index && this.dag == dag
      ensures released == {} && consumers == map[]
    {
      this.pool, this.gate, this.index, this.dag := pool, gate, index, dag;
      released, consumers, used := {}, map[], {};
    }

    /** `_try_dispatch_goal`, up to handing the worker to its stream consumer. */
    method TryDispatchGoal(goal: Goal, suffix: string) returns (outcome: Outcome)
      requires Valid()
      modifies this, pool, pool.workers.Values, gate, index, dag
      ensures Valid() && fresh(pool.workers.Values - old(pool.workers.Values))
      ensures View() == TryDispatch(old(View()), goal, suffix, gate.strict).0
      ensures outcome == TryDispatch(old(View()), goal, suffix, gate.strict).1
    {
      hide Place;
      if goal.parentId.None? && goal.railBound {
        return Skipped;
      }
      var conflict := gate.ConflictsWithActive(goal.workspace, Some(goal.id));
      if conflict.Some? {
        return Deferred;
      }
      var ok := gate.Acquire(goal.id, goal.workspace);
      if !ok {
        assert false;
      }
      ReservingChangesNothingElse(old(View()), goal, suffix);
      assert View() == old(View()).(reservations := old(View()).reservations[goal.id := goal.workspace]);
      outcome := PlaceReserved(goal, suffix);
    }

    /** After the gate: pick, claim and record, or roll the reservation back. */
    method PlaceReserved(goal: Goal, suffix: string) returns (outcome: Outcome)
      requires Valid() && View().reservations[goal.id := goal.workspace] == View().reservations
      modifies this, pool, pool.workers.Values, gate, index, dag
      ensures Valid() && fresh(pool.workers.Values - old(pool.workers.Values))
      ensures View() == Place(old(View()), goal, suffix).0
      ensures outcome == Place(old(View()), goal, suffix).1
    {
      hide PickFor, P.MarkIdle, J.RecordStart, Claimable, JobOf, Started, View, Valid, Held;
      ghost var s := View();
      var picked, job := PickForGoal(goal, suffix);
      match picked {
        case RaisedBlankJobId =>
          return Raised;
        case NoWorker =>
          GiveBackWorkspace(goal.id);
          return NoWorker;
        case PickedWorker(worker) =>
          outcome := ClaimAndRecord(goal, job, worker, s, suffix);
      }
    }

    /** A worker under a fresh loop id of the goal's job; only the pool changes. */
    method PickForGoal(goal: Goal, suffix: string) returns (picked: WorkerPools.PickResult, job: GoalId)
      requires Valid()
      modifies pool, pool.workers.Values
      ensures Valid() && fresh(pool.workers.Values - old(pool.workers.Values))
      ensures job == JobOf(old(View()).goals, goal)
      ensures View() == old(View()).(pool := PickFor(old(View()), goal, suffix).0)
      ensures match PickFor(old(View()), goal, suffix).1
        case Picked(s) =>
          picked.PickedWorker? && Held(picked.worker) && picked.worker.slotId == s && s in pool.workers
        case NoCapacity => picked == WorkerPools.NoWorker
        case BlankJobId => picked == WorkerPools.RaisedBlankJobId
    {
      hide P.Pick, Allocate, JobOf, WellKeyed;
      job := ResolveJobId(dag.goals, goal);
      picked := pool.PickWorker(goal.id, goal.dependsOn, job, suffix, None);
    }

    /** The worker is picked: claim the goal and record its loop, or return the worker and the reservation. */
    method ClaimAndRecord(goal: Goal, job: GoalId, worker: WorkerPools.WorkerSlot, ghost s: System, ghost suffix: string)
      returns (outcome: Outcome)
      requires Valid() && Held(worker) && worker.slotId in pool.workers
      requires PickFor(s, goal, suffix) == (View().pool, P.Picked(worker.slotId))
      requires View() == s.(pool := View().pool) && job == JobOf(s.goals, goal)
      requires s.reservations[goal.id := goal.workspace] == s.reservations
      modifies this, pool`idle, pool.workers.Values, gate, index, dag
      ensures Valid() && View() == Place(s, goal, suffix).0 && outcome == Place(s, goal, suffix).1
    {
      hide P.MarkIdle, J.RecordStart, JobOf, PickFor;
      var lid := worker.loopId;
      assert lid == View().pool.slots[worker.slotId].loopId;
      var claimed := Claim(goal.id, lid);
      hide View, Valid, Held, Claimable, Claimed;
      if !claimed {
        GiveBack(goal, lid);
        return Vanished;
      }
      Record(goal, job, worker);
      return Dispatched(lid);
    }

    /** The claim on the engine; the loop id counts as used either way. */
    method Claim(id: GoalId, lid: LoopId) returns (claimed: bool)
      requires Valid()
      modifies this`used, dag
      ensures Valid() && claimed == Claimable(old(View()).goals, id)
      ensures View() == old(View()).(
        used := old(used) + {lid}, goals := if claimed then Claimed(old(dag.goals), id, lid) else old(dag.goals))
    {
      used := used + {lid};
      claimed := dag.ClaimGoal(id, lid);
      assert Handles() == old(Handles());
    }

    method GiveBackWorkspace(g: GoalId)
      requires Valid()
      modifies gate
      ensures Valid() && View() == old(View()).(reservations := old(View()).reservations - {g})
    {
      hide WellKeyed;
      var existed := gate.Release(g);
    }

    /** The rollback after a failed claim. */
    method GiveBack(goal: Goal, lid: LoopId)
      requires Valid()
      modifies pool`idle, pool.workers.Values, gate
      ensures Valid() && View() == old(View()).(
        pool := P.MarkIdle(old(View()).pool, lid, true), reservations := old(View()).reservations - {goal.id})
    {
      IdleWorker(lid, true);
      hide P.MarkIdle, View, Valid;
      GiveBackWorkspace(goal.id);
    }

    method IdleWorker(lid: LoopId, ok: bool)
      requires Valid()
      modifies pool`idle, pool.workers.Values
      ensures Valid() && View() == old(View()).(pool := P.MarkIdle(old(View()).pool, lid, ok))
    {
      hide P.MarkIdle, WellKeyed;
      pool.MarkSlotIdle(lid, ok);
    }

    /** The claimed goal enters the index, and its consumer takes the worker. */
    method Record(goal: Goal, job: GoalId, worker: WorkerPools.WorkerSlot)
      requires Valid() && Held(worker)
      modifies this`consumers, index
      ensures Valid() && View() == old(View()).(
        index := J.RecordStart(old(View()).index, job, worker.loopId, goal.id, goal.retryCount + 1),
        workerOf := old(View()).workerOf[goal.id := worker.slotId])
    {
      hide J.RecordStart, WellKeyed;
      var entry := index.StartLoop(job, worker.loopId, goal.id, goal.retryCount + 1);
      consumers := consumers[goal.id := worker];
      assert Handles() == old(Handles())[goal.id := worker.slotId];
    }

    /** `_release_goal_runtime`; an empty loop id stands for none. */
    method ReleaseGoalRuntime(g: GoalId, lid: LoopId, ok: bool, status: J.EntryStatus)
      requires Valid()
      modifies this`released, pool`idle, pool.workers.Values, gate, index
      ensures Valid() && View() == Release(old(View()), g, lid, status, ok)
    {
      if g in released {
        return;
      }
      MarkReleased(g);
      hide P.MarkIdle, J.RecordEnd, Valid;
      EndLoopOf(lid, ok, status);
      GiveBackWorkspace(g);
    }

    method MarkReleased(g: GoalId)
      requires Valid()
      modifies this`released
      ensures Valid() && View() == old(View()).(released := old(View()).released + {g})
    {
      released := released + {g};
    }

    /** Index first, then the worker slot; neither when no loop is named. */
    method EndLoopOf(lid: LoopId, ok: bool, status: J.EntryStatus)
      requires Valid()
      modifies pool`idle, pool.workers.Values, index
      ensures Valid() && View() == old(View()).(
        index := if lid == "" then old(View()).index else J.RecordEnd(old(View()).index, lid, status, None).0,
        pool := if lid == "" then old(View()).pool else P.MarkIdle(old(View()).pool, lid, ok))
    {
      hide P.MarkIdle, J.RecordEnd, WellKeyed;
      if lid != "" {
        var found := index.EndLoop(lid, status, None);
        IdleWorker(lid, ok);
      }
    }

    /** The end of a stream: the loop id is read from the worker object as it is now, not as it was. */
    method FinishStream(g: GoalId, ok: bool, status: J.EntryStatus)
      requires Valid() && g in consumers
      modifies this`released, pool`idle, pool.workers.Values, gate, index
      ensures Valid() && ReadsLive(old(View()), g, old(consumers[g].loopId))
      ensures View() == Release(old(View()), g, old(consumers[g].loopId), status, ok)
    {
      assert HasLoop(View().pool, consumers[g].slotId, consumers[g].loopId) || consumers[g].slotId !in pool.workers;
      ReleaseGoalRuntime(g, consumers[g].loopId, ok, status);
    }

    /**
     * The release of the cancel and reconcile paths, where the node still carries the loop id. The pause path
     * clears the node first and passes the id it captured before to `ReleaseGoalRuntime`.
     */
    method ReleaseAssigned(g: GoalId, ok: bool, status: J.EntryStatus)
      requires Valid()
      modifies this`released, pool`idle, pool.workers.Values, gate, index
      ensures Valid() && View() == Release(old(View()), g, NodeLoop(old(dag.goals), g), status, ok)
    {
      var lid := if g in dag.goals && dag.goals[g].assignedLoop.Some? then dag.goals[g].assignedLoop.value else "";
      ReleaseGoalRuntime(g, lid, ok, status);
    }

    /** `reconcile_stale_reservations`. */
    method ReconcileStaleReservations()
      requires Valid()
      modifies pool`idle, pool.workers.Values, gate
      ensures Valid() && View() == Reconcile(old(View()))
    {
      ghost var s := View();
      hide FreeSlot, StaleHolder, WellKeyed;
      DropStaleReservations();
      var active := set t | t in pool.workers && pool.workers[t].status == P.Active;
      assert View().pool == s.pool;
      ActiveSeen(active);
      var n := pool.nextSeq;
      assert n >= 0 && n == s.pool.nextSeq;
      ghost var dropped := View();
      hide *;
      for i := 0 to n
        invariant Valid() && View() == FreeSlots(dropped, active, i)
      {
        FreeSlotsNext(dropped, active, i);
        if i + 1 in active {
          FreeWorker(i + 1);
        }
      }
      ReconcileIs(s, active, n);
    }

    lemma ActiveSeen(active: set<P.SlotId>)
      requires Valid() && active == set t | t in pool.workers && pool.workers[t].status == P.Active
      ensures active == ActiveIn(View().pool)
    {
      assert forall t :: t in View().pool.slots <==> t in pool.workers;
      assert forall t :: t in pool.workers ==> View().pool.slots[t].status == pool.workers[t].status;
    }

    method DropStaleReservations()
      requires Valid()
      modifies gate
      ensures Valid() && View() == old(View()).(reservations := WithoutStale(old(View()).reservations, old(View()).goals))
    {
      ghost var r := gate.reservations;
      var rest := gate.reservations.Keys;
      hide StaleHolder, WellKeyed;
      while rest != {}
        invariant Valid() && rest <= r.Keys
        invariant gate.reservations == map g | g in r && (g in rest || !StaleHolder(dag.goals, g)) :: r[g]
      {
        var g :| g in rest;
        rest := rest - {g};
        if StaleHolder(dag.goals, g) {
          var existed := gate.Release(g);
        }
      }
    }

    method FreeWorker(t: P.SlotId)
      requires Valid()
      modifies pool`idle, pool.workers.Values, gate
      ensures Valid() && View() == FreeSlot(old(View()), t)
    {
      if t !in pool.workers {
        return;
      }
      var (lid, goal) := (pool.workers[t].loopId, pool.workers[t].currentGoal);
      hide P.MarkIdle, Finished;
      if goal.None? || goal.value == "" {
        IdleWorker(lid, false);
      } else if Finished(dag.goals, goal.value) {
        IdleWorker(lid, false);
        GiveBackWorkspace(goal.value);
      }
    }

    /** `reconcile_goal_resources`, on the registries: `own` are the goals with a workspace of their own. */
    method ReconcileGoalResources(own: set<GoalId>, listed: seq<GoalId>)
      requires Valid()
      modifies this`released, pool`idle, pool.workers.Values, gate, index
      ensures Valid() && View() == WatchdogPass(old(View()), own, listed)
    {
      ghost var s := View();
      hide Reconcile, ReleaseAllLeaked, ReleaseLeaked, Valid, View;
      NothingListed(s, own, listed);
      for i := 0 to |listed|
        invariant Valid() && View() == ReleaseAllLeaked(s, own, listed[..i])
      {
        NextListed(s, own, listed, i);
        ReleaseIfLeaked(listed[i], own);
      }
      ReconcileStaleReservations();
    }

    method ReleaseIfLeaked(g: GoalId, own: set<GoalId>)
      requires Valid()
      modifies this`released, pool`idle, pool.workers.Values, gate, index
      ensures Valid() && View() == ReleaseLeaked(old(View()), own, g)
    {
      hide Release;
      if Leaks(dag.goals, own, g) {
        var status := dag.goals[g].status;
        ReleaseAssigned(g, status == Completed, EndStatus(status));
      }
    }

    /** `_release_idle_loops` without interleaving: idle slots past their timeout are removed, in slot order. */
    method ReleaseIdleLoops(timedOut: set<P.SlotId>)
      requires Valid()
      modifies pool
      ensures Valid() && View() == ReapUpTo(old(View()), timedOut, old(pool.nextSeq))
    {
      ghost var s := View();
      var n := pool.nextSeq;
      hide Reap;
      for i := 0 to n
        invariant Valid() && n == pool.nextSeq == old(pool.nextSeq) && pool.workers.Values <= old(pool.workers.Values)
        invariant View() == ReapUpTo(s, timedOut, i)
      {
        if i + 1 in timedOut {
          ReapIdleSlot(i + 1);
        }
      }
    }

    method ReapIdleSlot(slot: P.SlotId)
      requires Valid()
      modifies pool
      ensures Valid() && View() == Reap(old(View()), slot)
      ensures pool.nextSeq == old(pool.nextSeq) && pool.workers.Values <= old(pool.workers.Values)
    {
      if slot in pool.workers && pool.workers[slot].status == P.Idle {
        var removed := pool.ReleaseSlot(pool.workers[slot].loopId);
      }
    }

    /**
     * `_schedule_via_worker_pool` without interleaving: `ready` is the engine's ready list, of which the
     * scheduler takes at most as many as both limits leave room for.
     */
    method ScheduleViaWorkerPool(ready: seq<Goal>, suffixes: seq<string>, maxParallel: int)
      requires Valid() && |suffixes| == |ready|
      modifies this, pool, pool.workers.Values, gate, index, dag
      ensures Valid() && fresh(pool.workers.Values - old(pool.workers.Values))
      ensures var cap := Remaining(pool.maxLoops, maxParallel, |ActiveSlots(old(View()).pool)|);
        View() == Schedule(old(View()), Take(ready, cap), Take(suffixes, cap), gate.strict)
      ensures |ActiveSlots(View().pool)| <= Max(|ActiveSlots(old(View()).pool)|, Min(pool.maxLoops, maxParallel))
    {
      var active := pool.ActiveCount();
      var cap := Remaining(pool.maxLoops, maxParallel, active);
      var (candidates, draws) := (Take(ready, cap), Take(suffixes, cap));
      PassStaysUnderLimits(View(), candidates, draws, pool.maxLoops, maxParallel, gate.strict);
      RunPass(candidates, draws);
    }

    method RunPass(candidates: seq<Goal>, draws: seq<string>)
      requires Valid() && |draws| == |candidates|
      modifies this, pool, pool.workers.Values, gate, index, dag
      ensures Valid() && fresh(pool.workers.Values - old(pool.workers.Values))
      ensures View() == Schedule(old(View()), candidates, draws, gate.strict)
    {
      hide *;
      ghost var end := Schedule(View(), candidates, draws, gate.strict);
      assert candidates[0..] == candidates && draws[0..] == draws;
      for i := 0 to |candidates|
        invariant Valid() && fresh(pool.workers.Values - old(pool.workers.Values))
        invariant Schedule(View(), candidates[i..], draws[i..], gate.strict) == end
      {
        ScheduleStep(View(), candidates, draws, i, gate.strict);
        var again := AttemptNext(candidates[i], draws[i]);
        if !again {
          return;
        }
      }
      NothingToSchedule(View(), candidates[|candidates|..], draws[|candidates|..], gate.strict);
    }

    /** One candidate: a rail root is skipped without ending the pass. */
    method AttemptNext(goal: Goal, draw: string) returns (again: bool)
      requires Valid()
      modifies this, pool, pool.workers.Values, gate, index, dag
      ensures Valid() && fresh(pool.workers.Values - old(pool.workers.Values))
      ensures View() == TryDispatch(old(View()), goal, draw, gate.strict).0
      ensures again == TryDispatch(old(View()), goal, draw, gate.strict).1.Continues()
    {
      hide Gated, Place;
      if goal.parentId.None? && goal.railBound {
        return true;
      }
      var outcome := TryDispatchGoal(goal, draw);
      again := outcome.Continues();
    }
  }
}
