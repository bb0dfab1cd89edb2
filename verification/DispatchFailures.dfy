/** Where dispatch, release and clean-up fall short: concrete inputs (service.py). */
module DispatchFailures {
  import opened Prelude
  import opened LoopIds
  import opened Goals
  import opened DispatchModel
  import opened GoalTree
  import opened Reconciling
  import opened DispatchRuns
  import P = PoolModel
  import W = WorkspaceReservations
  import J = JobIndexModel

  function PendingRoot(id: GoalId): Goal {
    Goal(id, Pending, None, [], [], [], false, ["work", "site"], 0, None, 0.0, 0.0, 0, "")
  }

  /** The only goal of its id, waiting for its first dispatch. */
  predicate Waiting(d: Dag, id: GoalId) {
    id in d && d[id] == PendingRoot(id)
  }

  function LoopOf(id: GoalId, suffix: string): LoopId {
    PREFIX + id + SEPARATOR + suffix
  }

  /** A waiting goal is its own job, and its loop ids carry its one-letter name. */
  lemma WaitingFacts(s: System, id: GoalId, suffix: string)
    requires Waiting(s.goals, id) && |id| == 1 && !IsSpace(id[0])
    ensures JobOf(s.goals, PendingRoot(id)) == id && Strip(id) == id
    ensures FreshLoop(s, PendingRoot(id), suffix) == Some(LoopOf(id, suffix))
  {
    StripIsIdentityIff(id);
  }

  lemma DifferentJobsDifferentLoops(suffix: string, suffix': string)
    ensures LoopOf("g", suffix) != LoopOf("h", suffix')
  {
    assert LoopOf("g", suffix)[11] == 'g' && LoopOf("h", suffix')[11] == 'h';
  }

  /** The first pick from an empty pool of one slot. */
  lemma FirstPick(s: System, goal: Goal, suffix: string)
    requires goal == PendingRoot("g") && s == Boot(s.goals, 1, {}) && Waiting(s.goals, "g")
    ensures Inv(s, true) && !Gated(s, goal, true) && SafeDispatch(s, goal, true)
    ensures JobOf(s.goals, goal) == "g" == Strip("g") && FreshLoop(s, goal, suffix) == Some(LoopOf("g", suffix))
    ensures PickFor(s, goal, suffix) == (P.SpawnAndClaim(s.pool, "g", LoopOf("g", suffix)), P.Picked(1))
  {
    BootIsConsistent(s.goals, 1, {}, true);
    assert !Running(s.pool, "g") && !Gated(s, goal, true);
    WaitingFacts(s, "g", suffix);
    hide JobOf, Strip, Inv, Running, Gated, LoopOf, FreshLoop;
    FirstPickFromEmpty(s.pool, LoopOf("g", suffix));
  }

  lemma FirstPickFromEmpty(p: P.Pool, lid: LoopId)
    requires p == P.Pool(1, map[], map[], [], 0)
    ensures P.Pick(p, "g", [], None, Some(lid)) == (P.SpawnAndClaim(p, "g", lid), P.Picked(1))
  {
  }

  /** The first dispatch from the empty system. */
  ghost function FirstRun(d: Dag, suffix: string): System {
    TryDispatch(Boot(d, 1, {}), PendingRoot("g"), suffix, true).0
  }

  /** The goal runs, and the pool is full. */
  lemma FirstDispatch(d: Dag, suffix: string)
    requires Waiting(d, "g")
    ensures var e := FirstRun(d, suffix); var lid := LoopOf("g", suffix);
      && Inv(e, true) && Runs(e.pool, lid, "g") && Running(e.pool, "g") && NoFreeSlot(e.pool)
      && e.reservations == map["g" := PendingRoot("g").workspace] && e.released == {}
      && e.pool.byLoop == map[lid := 1] && e.workerOf == map["g" := 1] && e.used == {lid}
  {
    var s := Boot(d, 1, {});
    var goal := PendingRoot("g");
    FirstStart(d, suffix);
    hide Inv, SafeDispatch, Gated, JobOf, PickFor, FreshLoop, P.Assigned, DrawsFresh, LoopOf, TryDispatch, J.RecordStart;
    FirstPick(s, goal, suffix);
    ReadyAgain(s, "g", suffix);
    DispatchKeepsInvIff(s, goal, suffix, true);
  }

  lemma FirstStart(d: Dag, suffix: string)
    requires Waiting(d, "g")
    ensures var (s, lid) := (Boot(d, 1, {}), LoopOf("g", suffix)); var p := P.SpawnAndClaim(s.pool, "g", lid);
      FirstRun(d, suffix) == Started(s, PendingRoot("g"), p, 1, lid) && Runs(p, lid, "g") && NoFreeSlot(p)
  {
    var s := Boot(d, 1, {});
    var goal := PendingRoot("g");
    assert NoFreeSlot(P.SpawnAndClaim(s.pool, "g", LoopOf("g", suffix))) && !NoFreeSlot(s.pool);
    hide P.Inv, SafeDispatch, Gated, JobOf, PickFor, FreshLoop, NoFreeSlot, P.Assigned, DrawsFresh, Claimable, LoopOf;
    hide TryDispatch, Strip, J.Inv, J.Attributed, W.Exclusive, Runs, J.RecordStart;
    FirstPick(s, goal, suffix);
    ReadyAgain(s, "g", suffix);
    hide Inv;
    ClaimableIsDispatched(s, goal, suffix, true);
  }

  /**
   * A stale ready list dispatches a running goal again: the attempt finds no worker and its rollback
   * drops the reservation the goal is still running under.
   */
  lemma StaleCandidateLosesReservation(suffix: string, suffix': string)
    ensures var s := FirstRun(map["g" := PendingRoot("g")], suffix);
      var (e, outcome) := TryDispatch(s, PendingRoot("g"), suffix', true);
      outcome == NoWorker && Running(e.pool, "g") && "g" !in e.reservations
  {
    FirstDispatch(map["g" := PendingRoot("g")], suffix);
    hide FirstRun, Runs;
    AgainOnFullPool(FirstRun(map["g" := PendingRoot("g")], suffix), suffix');
  }

  /** Attempting the only holder again, with no slot free. */
  lemma AgainOnFullPool(s: System, suffix: string)
    requires P.Inv(s.pool) && Running(s.pool, "g") && NoFreeSlot(s.pool)
    requires s.reservations == map["g" := PendingRoot("g").workspace]
    ensures var (e, outcome) := TryDispatch(s, PendingRoot("g"), suffix, true);
      outcome == NoWorker && Running(e.pool, "g") && "g" !in e.reservations
  {
    var goal := PendingRoot("g");
    assert !Gated(s, goal, true);
    hide Gated, Running, P.Pick, P.Inv, FreshLoop;
    P.NoCapacityIff(s.pool, "g", [], None, FreshLoop(s, goal, suffix));
  }

  /** A goal whose job id is blank: allocating the loop id raises after the workspace was reserved. */
  lemma BlankJobKeepsReservation(suffix: string)
    ensures var goal := PendingRoot("");
      var (e, outcome) := TryDispatch(Boot(map["" := goal], 1, {}), goal, suffix, true);
      outcome == Raised && !Running(e.pool, "") && "" in e.reservations
  {
    var goal := PendingRoot("");
    var s := Boot(map["" := goal], 1, {});
    BootIsConsistent(s.goals, 1, {}, true);
    assert !Gated(s, goal, true);
    assert JobOf(s.goals, goal) == "" && FreshLoop(s, goal, suffix) == None;
    PickForFacts(s, goal, suffix);
    SameAssignments(s.pool, PickFor(s, goal, suffix).0);
    assert forall lid :: !Runs(s.pool, lid, "");
  }

  /** An engine step that clears the node of a running goal, and then a release with the id found there. */
  lemma ClearedNodeStrands(s: System, d: Dag, g: GoalId, status: J.EntryStatus, ok: bool)
    requires Inv(s, true) && Running(s.pool, g) && g !in s.released && NodeLoop(d, g) == ""
    ensures var e := Release(s.(goals := d), g, NodeLoop(d, g), status, ok);
      && Running(e.pool, g) && g !in e.reservations && P.Inv(e.pool)
      && forall l, st, o :: Release(e, g, l, st, o) == e
  {
    var lid :| Runs(s.pool, lid, g);
    NamelessReleaseStrands(s.(goals := d), g, lid, status, ok, true);
  }

  /**
   * The engine clears a running goal's node when it parks it for clarification; a cancel that comes after the
   * parking finds no loop id there and strands the goal, until a clean-up finds it cancelled.
   */
  lemma ParkedGoalIsStranded(suffix: string, status: J.EntryStatus, ok: bool)
    ensures var goal := PendingRoot("g");
      var s := FirstRun(map["g" := goal], suffix);
      var parked := s.(goals := map["g" := goal.(status := AwaitingClarification, assignedLoop := None)]);
      var e := Release(parked, "g", NodeLoop(parked.goals, "g"), status, ok);
      var cancelled := e.(goals := map["g" := goal.(status := Cancelled, assignedLoop := None)]);
      && Running(e.pool, "g") && "g" !in e.reservations && (forall l, st, o :: Release(e, "g", l, st, o) == e)
      && !Running(Reconcile(cancelled).pool, "g")
  {
    var goal := PendingRoot("g");
    FirstDispatch(map["g" := goal], suffix);
    var s := FirstRun(map["g" := goal], suffix);
    var d: Dag := map["g" := goal.(status := AwaitingClarification, assignedLoop := None)];
    hide Inv, TryDispatch, Release, Reconcile, FirstRun;
    ClearedNodeStrands(s, d, "g", status, ok);
    var e := Release(s.(goals := d), "g", NodeLoop(d, "g"), status, ok);
    ReconcileFreesTerminal(e.(goals := map["g" := goal.(status := Cancelled, assignedLoop := None)]), "g");
  }

  // ---- The second dispatch of a goal ------------------------------------------------------------

  /** The goal's own release of its first run. */
  function FirstRelease(s: System, suffix: string): System {
    Release(s, "g", LoopOf("g", suffix), J.Completed, true)
  }

  /** The release is recorded, nothing is held any more, and the slot is idle. */
  lemma FirstReleaseFacts(d: Dag, suffix: string)
    requires Waiting(d, "g")
    ensures var e := FirstRelease(FirstRun(d, suffix), suffix);
      && Inv(e, true) && "g" in e.released && e.reservations == map[] && e.used == {LoopOf("g", suffix)}
      && !NoFreeSlot(e.pool)
  {
    var s := FirstRun(d, suffix);
    var lid := LoopOf("g", suffix);
    FirstDispatch(d, suffix);
    LoopRunsOneGoal(s.pool, lid, "g");
    ReleaseKeepsInvIff(s, "g", lid, J.Completed, true, true);
    SlotFreed(s.pool, lid, 1, true);
  }

  lemma OtherSuffixOtherLoop(id: GoalId, suffix: string, suffix': string)
    requires suffix' != suffix
    ensures LoopOf(id, suffix') != LoopOf(id, suffix)
  {
    var n := |PREFIX + id + SEPARATOR|;
    assert LoopOf(id, suffix')[n..] == suffix' && LoopOf(id, suffix)[n..] == suffix;
  }

  /** With nothing reserved, a waiting goal passes every check of a dispatch attempt. */
  lemma ReadyAgain(s: System, id: GoalId, suffix: string)
    requires Waiting(s.goals, id) && |id| == 1 && !IsSpace(id[0])
    requires LoopOf(id, suffix) !in s.used && s.reservations == map[]
    ensures DrawsFresh(s, PendingRoot(id), suffix) && !Gated(s, PendingRoot(id), true) && Claimable(s.goals, id)
    ensures Strip(JobOf(s.goals, PendingRoot(id))) != ""
    ensures FreshLoop(s, PendingRoot(id), suffix) == Some(LoopOf(id, suffix))
  {
    WaitingFacts(s, id, suffix);
  }

  lemma SlotFreed(p: P.Pool, lid: LoopId, t: P.SlotId, ok: bool)
    requires P.Inv(p) && HasLoop(p, t, lid)
    ensures !NoFreeSlot(P.MarkIdle(p, lid, ok))
  {
    P.LookupExact(p, lid);
    SlotIsFree(P.MarkIdle(p, lid, ok), t);
  }

  /**
   * Sent back and dispatched again, a goal runs and holds its workspace, its old release is still recorded, and
   * no release of it does anything.
   */
  lemma SentBackGoalIsNeverReleased(d: Dag, suffix: string, suffix': string)
    requires Waiting(d, "g") && suffix' != suffix
    ensures var s := FirstRelease(FirstRun(d, suffix), suffix).(goals := d);
      var (e, outcome) := TryDispatch(s, PendingRoot("g"), suffix', true);
      && outcome.Dispatched? && Running(e.pool, "g") && "g" in e.reservations
      && forall lid, status, ok :: Release(e, "g", lid, status, ok) == e
  {
    var s := FirstRelease(FirstRun(d, suffix), suffix).(goals := d);
    hide FirstRelease, FirstRun, TryDispatch, LoopOf, FreshLoop, JobOf, Strip, Gated, DrawsFresh, Claimable, NoFreeSlot;
    hide Release;
    FirstReleaseFacts(d, suffix);
    OtherSuffixOtherLoop("g", suffix, suffix');
    ReadyAgain(s, "g", suffix');
    RedispatchIsNeverReleased(s, PendingRoot("g"), suffix', true);
  }

  // ---- A clean-up outside the released-goal guard -------------------------------------------------

  /** The goal completes under the running worker: the engine clears its node, so no guarded release follows. */
  function CompletedMeanwhile(d: Dag): Dag
    requires Waiting(d, "g")
  {
    d["g" := d["g"].(status := Completed, assignedLoop := None)]
  }

  /** After the clean-up: nothing runs, and the one slot is idle under its old loop. */
  ghost predicate OneIdleSlot(s: System, lid: LoopId) {
    && P.Inv(s.pool) && IdsAccounted(s.pool, s.index, s.used)
    && s.pool.byLoop == map[lid := 1] && (forall l, g :: !Runs(s.pool, l, g))
    && s.reservations == map[] && s.released == {} && s.workerOf == map["g" := 1] && s.used == {lid}
  }

  lemma OnlyFinishedCleanedUp(s: System, lid: LoopId)
    requires Inv(s, true) && Runs(s.pool, lid, "g") && "g" in s.goals && s.goals["g"].status.Terminal()
    requires s.pool.byLoop == map[lid := 1] && s.reservations.Keys == {"g"}
    requires s.released == {} && s.workerOf == map["g" := 1] && s.used == {lid}
    ensures OneIdleSlot(Reconcile(s), lid)
  {
    hide Reconcile, P.Inv, J.Inv, J.Attributed, W.Exclusive, J.Unseen, HasLoop, Runs;
    ReconcileExact(s);
    forall l, g | Runs(s.pool, l, g)
      ensures Finished(s.goals, g)
    {
      LoopRunsOneGoal(s.pool, l, g);
      LoopRunsOneGoal(s.pool, lid, "g");
    }
    assert StaleHolder(s.goals, "g");
    assert WithoutStale(s.reservations, s.goals).Keys == {};
  }

  lemma CleanedUpAfterCompletion(d: Dag, suffix: string)
    requires Waiting(d, "g")
    ensures var s := FirstRun(d, suffix).(goals := CompletedMeanwhile(d));
      OneIdleSlot(Reconcile(s), LoopOf("g", suffix)) && Reconcile(s).goals == CompletedMeanwhile(d)
  {
    var s := FirstRun(d, suffix).(goals := CompletedMeanwhile(d));
    hide FirstRun, Reconcile, LoopOf, Runs, P.Inv, J.Inv, J.Attributed, W.Exclusive, OneIdleSlot;
    FirstDispatch(d, suffix);
    ReconcileExact(s);
    OnlyFinishedCleanedUp(s, LoopOf("g", suffix));
  }

  /** A waiting goal dispatched now gets that slot, which the first goal's consumer still holds. */
  lemma NextOnSameSlot(s: System, lid: LoopId, suffix: string)
    requires OneIdleSlot(s, lid) && Waiting(s.goals, "h") && LoopOf("h", suffix) != lid
    ensures var e := TryDispatch(s, PendingRoot("h"), suffix, true).0; var next := LoopOf("h", suffix);
      && P.Inv(e.pool) && OneSlotEach(e.pool) && e.released == {} && "h" in e.reservations
      && Runs(e.pool, next, "h") && "g" in e.workerOf && HasLoop(e.pool, e.workerOf["g"], next)
  {
    var goal := PendingRoot("h");
    var next := LoopOf("h", suffix);
    hide JobOf, Strip, Gated, DrawsFresh, Claimable, P.Assigned, P.Pick, LoopOf, IdsAccounted;
    ReadyAgain(s, "h", suffix);
    OnlySlotIsPicked(s.pool, lid, goal, next);
    SlotIsFree(s.pool, 1);
    hide NoFreeSlot, FreshLoop, P.Inv, SlotsKept, HasLoop;
    PickForFacts(s, goal, suffix);
    ClaimableIsDispatched(s, goal, suffix, true);
    hide TryDispatch, Place, RailRoot;
    AssignedAfterStart(s.pool, PickFor(s, goal, suffix).0, next, "h");
  }

  lemma SlotIsFree(p: P.Pool, t: P.SlotId)
    requires p.IsIdle(t)
    ensures !NoFreeSlot(p)
  {
  }

  lemma OnlySlotIsPicked(p: P.Pool, lid: LoopId, goal: Goal, next: LoopId)
    requires P.Inv(p) && p.byLoop == map[lid := 1] && (forall l, g :: !Runs(p, l, g))
    ensures p.IsIdle(1) && P.Pick(p, goal.id, goal.dependsOn, None, Some(next)).1 == P.Picked(1)
  {
    assert p.byLoop[lid] == 1 && 1 in p.slots;
    if p.slots[1].currentGoal.Some? {
      assert Runs(p, p.slots[1].loopId, p.slots[1].currentGoal.value);
    }
    assert p.IsIdle(1);
    P.ChooseExact(p, goal.dependsOn, None);
    var choice := P.Choose(p, goal.dependsOn, None).0;
    assert choice.Reuse?;
    assert choice.slot in p.slots && p.byLoop[p.slots[choice.slot].loopId] == choice.slot;
  }

  /**
   * A goal completes while its worker runs, a clean-up frees the slot, and the next goal gets it. The release at
   * the end of the first goal's stream then names the second goal's loop: the second goal stops running and
   * keeps its reservation.
   */
  lemma CleanUpLetsTailEndAnother(d: Dag, suffix: string, suffix': string, status: J.EntryStatus, ok: bool)
    requires Waiting(d, "g") && Waiting(d, "h")
    ensures var s := Reconcile(FirstRun(d, suffix).(goals := CompletedMeanwhile(d)));
      var next := TryDispatch(s, PendingRoot("h"), suffix', true).0;
      var lid := LoopOf("h", suffix');
      var e := Release(next, "g", lid, status, ok);
      && Running(next.pool, "h") && ReadsLive(next, "g", lid)
      && !Running(e.pool, "h") && "h" in e.reservations
  {
    var s := Reconcile(FirstRun(d, suffix).(goals := CompletedMeanwhile(d)));
    CleanedUpAfterCompletion(d, suffix);
    DifferentJobsDifferentLoops(suffix, suffix');
    assert Waiting(s.goals, "h");
    hide FirstRun, Reconcile, TryDispatch, LoopOf, OneIdleSlot, Release;
    NextOnSameSlot(s, LoopOf("g", suffix), suffix');
    var next := TryDispatch(s, PendingRoot("h"), suffix', true).0;
    UnguardedTailEndsAnother(next, "g", "h", LoopOf("h", suffix'), status, ok);
  }
}
