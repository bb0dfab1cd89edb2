/** The watchdog's whole pass: guarded releases of leaked goals, then the clean-up outside the guard (service.py). */
module Watchdogs {
  import opened Prelude
  import opened LoopIds
  import opened Goals
  import opened DispatchModel
  import opened Reconciling
  import opened DispatchRuns
  import opened DispatchEffects
  import P = PoolModel
  import W = WorkspaceReservations
  import J = JobIndexModel

  function EndStatus(status: GoalStatus): J.EntryStatus {
    match status
    case Completed => J.Completed
    case Cancelled => J.Cancelled
    case _ => J.Failed
  }

  /** Terminal or suspended, with a workspace of its own (`own`) and a loop id on its node: released by the pass. */
  predicate Leaks(d: Dag, own: set<GoalId>, g: GoalId) {
    g in d && (d[g].status.Terminal() || d[g].status == Suspended) && g in own && NodeLoop(d, g) != ""
  }

  function ReleaseLeaked(s: System, own: set<GoalId>, g: GoalId): System {
    if Leaks(s.goals, own, g) then
      Release(s, g, NodeLoop(s.goals, g), EndStatus(s.goals[g].status), s.goals[g].status == Completed)
    else s
  }

  function ReleaseAllLeaked(s: System, own: set<GoalId>, listed: seq<GoalId>): System {
    if listed == [] then s
    else ReleaseLeaked(ReleaseAllLeaked(s, own, listed[..|listed| - 1]), own, listed[|listed| - 1])
  }

  /** `reconcile_goal_resources`, on the registries. */
  function WatchdogPass(s: System, own: set<GoalId>, listed: seq<GoalId>): System {
    Reconcile(ReleaseAllLeaked(s, own, listed))
  }

  /** Every release the pass would make names the goal's own loop or nobody's. */
  ghost predicate NodesSafe(s: System, own: set<GoalId>) {
    forall g :: Leaks(s.goals, own, g) ==> SafeRelease(s, g, NodeLoop(s.goals, g))
  }

  /** The guarded release reaches the goal. */
  ghost predicate Covered(s: System, own: set<GoalId>, g: GoalId) {
    Leaks(s.goals, own, g) && g !in s.released
  }

  /** From `s` to `e` exactly the goals of `ended` were released, and those stopped running that `s` covers. */
  ghost predicate ReleasedThese(s: System, e: System, own: set<GoalId>, ended: seq<GoalId>) {
    && e.goals == s.goals
    && (forall g :: g in e.released <==> g in s.released || (g in ended && Leaks(s.goals, own, g)))
    && (forall l, g :: Runs(e.pool, l, g) <==> Runs(s.pool, l, g) && !(g in ended && Covered(s, own, g)))
  }

  /** One safe release ends the goal, if it was running and not released, and nothing else. */
  lemma SafeReleaseEndsExactly(s: System, g: GoalId, lid: LoopId, status: J.EntryStatus, ok: bool)
    requires P.Inv(s.pool) && OneSlotEach(s.pool) && SafeRelease(s, g, lid) && lid != ""
    ensures var e := Release(s, g, lid, status, ok);
      forall l, h :: Runs(e.pool, l, h) <==> Runs(s.pool, l, h) && (h != g || g in s.released)
  {
    PoolLoopEnds(s.pool, lid, ok);
    if Runs(s.pool, lid, g) {
      LoopRunsOneGoal(s.pool, lid, g);
    } else if g !in s.released {
      assert forall l :: !Runs(s.pool, l, g);
    }
  }

  lemma SafeStaysSafe(s: System, e: System, own: set<GoalId>, ended: seq<GoalId>)
    requires NodesSafe(s, own) && ReleasedThese(s, e, own, ended)
    ensures NodesSafe(e, own)
  {
    hide Leaks, Runs, NodeLoop;
    forall g | Leaks(e.goals, own, g)
      ensures SafeRelease(e, g, NodeLoop(e.goals, g))
    {
      assert SafeRelease(s, g, NodeLoop(s.goals, g));
    }
  }

  lemma OneMoreReleased(s: System, e: System, own: set<GoalId>, ended: seq<GoalId>, g: GoalId)
    requires P.Inv(e.pool) && OneSlotEach(e.pool) && ReleasedThese(s, e, own, ended) && NodesSafe(e, own)
    ensures ReleasedThese(s, ReleaseLeaked(e, own, g), own, ended + [g])
  {
    hide Runs, P.Inv, P.MarkIdle, J.RecordEnd, OneSlotEach, EndStatus, SafeRelease, NodeLoop;
    if Leaks(e.goals, own, g) {
      var status := e.goals[g].status;
      SafeReleaseEndsExactly(e, g, NodeLoop(e.goals, g), EndStatus(status), status == Completed);
    }
  }

  lemma {:induction false} LeakedReleased(s: System, own: set<GoalId>, listed: seq<GoalId>, strict: bool)
    requires Inv(s, strict) && NodesSafe(s, own)
    ensures var e := ReleaseAllLeaked(s, own, listed); Inv(e, strict) && ReleasedThese(s, e, own, listed)
  {
    if listed != [] {
      var n := |listed| - 1;
      var before := ReleaseAllLeaked(s, own, listed[..n]);
      LeakedReleased(s, own, listed[..n], strict);
      assert P.Inv(before.pool) && OneSlotEach(before.pool) && listed[..n] + [listed[n]] == listed;
      hide Inv, ReleasedThese, Release, SafeRelease, P.Inv, OneSlotEach;
      SafeStaysSafe(s, before, own, listed[..n]);
      OneMoreReleased(s, before, own, listed[..n], listed[n]);
      if Leaks(before.goals, own, listed[n]) {
        var status := before.goals[listed[n]].status;
        var lid := NodeLoop(before.goals, listed[n]);
        ReleaseKeepsInvIff(before, listed[n], lid, EndStatus(status), status == Completed, strict);
      }
    }
  }

  /**
   * A pass keeps the registries consistent exactly when its guarded releases reach every running goal that is
   * gone, terminal or suspended. They miss a goal whose node was cleared, one without a workspace of its own,
   * one that left the engine and one released before.
   */
  lemma PassKeepsInvIff(s: System, own: set<GoalId>, listed: seq<GoalId>, strict: bool)
    requires Inv(s, strict) && NodesSafe(s, own) && Elements(listed) == s.goals.Keys
    ensures Inv(WatchdogPass(s, own, listed), strict) <==>
      forall g :: Running(s.pool, g) && (g == "" || StaleHolder(s.goals, g)) ==> Covered(s, own, g)
  {
    var e := ReleaseAllLeaked(s, own, listed);
    hide Inv, StaleHolder, Runs, Reconcile, Release, SafeRelease, NodeLoop;
    LeakedReleased(s, own, listed, strict);
    ReconcileKeepsInvIff(e, strict);
    forall g
      ensures Running(e.pool, g) <==> Running(s.pool, g) && !Covered(s, own, g)
    {
      assert Covered(s, own, g) ==> g in Elements(listed);
      if Running(s.pool, g) && !Covered(s, own, g) {
        var l :| Runs(s.pool, l, g);
        assert Runs(e.pool, l, g);
      }
    }
  }

  /** Consistent or not, after a pass no finished goal runs and no stale one holds a workspace; the rest runs on. */
  lemma PassFreesExactly(s: System, own: set<GoalId>, listed: seq<GoalId>, strict: bool)
    requires Inv(s, strict) && NodesSafe(s, own) && Elements(listed) == s.goals.Keys
    ensures var e := WatchdogPass(s, own, listed);
      && (forall g :: g in e.reservations <==> Running(s.pool, g) && !StaleHolder(s.goals, g))
      && (forall l, g :: Runs(e.pool, l, g) <==> Runs(s.pool, l, g) && !Finished(s.goals, g) && !Covered(s, own, g))
  {
    var e := ReleaseAllLeaked(s, own, listed);
    LeakedReleased(s, own, listed, strict);
    assert HoldersRun(e.pool, e.reservations);
    hide Inv, Runs, Reconcile, Release, SafeRelease, NodeLoop, ReleaseAllLeaked;
    ReconcileExact(e);
    forall g
      ensures Covered(s, own, g) ==> g in listed && StaleHolder(s.goals, g)
    {
      assert Covered(s, own, g) ==> g in Elements(listed);
    }
    forall g
      ensures Running(e.pool, g) <==> Running(s.pool, g) && !(g in listed && Covered(s, own, g))
    {
      if l :| Runs(s.pool, l, g) && !(g in listed && Covered(s, own, g)) {
        assert Runs(e.pool, l, g);
      }
    }
  }

  // ---- A pass as a run ----------------------------------------------------------------------------

  function LeakOps(d: Dag, own: set<GoalId>, listed: seq<GoalId>): seq<Op> {
    if listed == [] then []
    else
      var g := listed[|listed| - 1];
      LeakOps(d, own, listed[..|listed| - 1]) + (
        if Leaks(d, own, g) then [Cancel(g, NodeLoop(d, g), EndStatus(d[g].status), d[g].status == Completed)] else [])
  }

  lemma {:induction false} RunThenStep(s: System, ops: seq<Op>, op: Op, strict: bool)
    ensures Run(s, ops + [op], strict) == Apply(Run(s, ops, strict), op, strict)
    ensures WellUsedRun(s, ops + [op], strict) <==>
      WellUsedRun(s, ops, strict) && WellUsed(Run(s, ops, strict), op, strict)
    decreases |ops|
  {
    hide Apply, WellUsed;
    if ops == [] {
      assert [op][1..] == [];
      assert ops + [op] == [op];
    } else {
      assert (ops + [op])[1..] == ops[1..] + [op];
      RunThenStep(Apply(s, ops[0], strict), ops[1..], op, strict);
    }
  }

  lemma {:induction false} LeakOpsAreSafe(s: System, own: set<GoalId>, listed: seq<GoalId>, strict: bool)
    requires Inv(s, strict) && NodesSafe(s, own)
    ensures var ops := LeakOps(s.goals, own, listed);
      WellUsedRun(s, ops, strict) && Run(s, ops, strict) == ReleaseAllLeaked(s, own, listed)
  {
    if listed != [] {
      var (past, g) := (listed[..|listed| - 1], listed[|listed| - 1]);
      var before := ReleaseAllLeaked(s, own, past);
      LeakOpsAreSafe(s, own, past, strict);
      LeakedReleased(s, own, past, strict);
      SafeStaysSafe(s, before, own, past);
      hide Inv, Release, SafeRelease, Leaks, NodeLoop, EndStatus, Run, WellUsedRun;
      if Leaks(s.goals, own, g) {
        var status := s.goals[g].status;
        RunThenStep(
          s, LeakOps(s.goals, own, past), Cancel(g, NodeLoop(s.goals, g), EndStatus(status), status == Completed), strict);
      } else {
        assert LeakOps(s.goals, own, past) + [] == LeakOps(s.goals, own, past);
      }
    }
  }

  /**
   * A pass that reaches every stale running goal is a well-used run of guarded releases and one clean-up, so what
   * is proved of runs holds with such passes in between.
   */
  lemma PassIsRun(s: System, own: set<GoalId>, listed: seq<GoalId>, strict: bool)
    requires Inv(s, strict) && NodesSafe(s, own) && Elements(listed) == s.goals.Keys
    requires forall g :: Running(s.pool, g) && (g == "" || StaleHolder(s.goals, g)) ==> Covered(s, own, g)
    ensures var ops := LeakOps(s.goals, own, listed) + [CleanUp];
      WellUsedRun(s, ops, strict) && Run(s, ops, strict) == WatchdogPass(s, own, listed)
  {
    LeakedReleased(s, own, listed, strict);
    PassKeepsInvIff(s, own, listed, strict);
    ReconcileKeepsInvIff(ReleaseAllLeaked(s, own, listed), strict);
    hide Inv, Reconcile, NothingStale, Run, WellUsedRun, ReleaseAllLeaked;
    LeakOpsAreSafe(s, own, listed, strict);
    RunThenStep(s, LeakOps(s.goals, own, listed), CleanUp, strict);
  }

  // ---- What the guarded releases do ---------------------------------------------------------------

  /** Reached by the guarded release: over or suspended, with a workspace of its own and a loop on its node. */
  lemma CoveredMeans(s: System, own: set<GoalId>, g: GoalId)
    ensures Covered(s, own, g) <==>
      && g in s.goals && s.goals[g].status in {Completed, Failed, Cancelled, Suspended} && g in own
      && s.goals[g].assignedLoop.Some? && s.goals[g].assignedLoop.value != "" && g !in s.released
  {
  }

  lemma CoveredIsReleased(s: System, own: set<GoalId>, g: GoalId)
    requires Covered(s, own, g)
    ensures g in s.goals && g !in s.released
    ensures var status := s.goals[g].status;
      ReleaseLeaked(s, own, g) == Release(s, g, NodeLoop(s.goals, g), EndStatus(status), status == Completed)
  {
    hide Release;
  }

  /** How the index entry of a goal with this status ends. */
  ghost predicate EndsAs(status: GoalStatus, entry: J.EntryStatus) {
    && (status == Completed <==> entry == J.Completed)
    && (status == Cancelled <==> entry == J.Cancelled)
    && (status !in {Completed, Cancelled} ==> entry == J.Failed)
  }

  lemma EndStatusMeans(status: GoalStatus)
    ensures EndStatus(status) != J.Running && EndsAs(status, EndStatus(status))
  {
  }

  /**
   * The loop of a leaked goal ends as completed or cancelled like its goal, and as failed otherwise; its slot
   * counts it as a success only if it completed.
   */
  lemma LeakedIsRecorded(s: System, own: set<GoalId>, g: GoalId, strict: bool)
    requires Inv(s, strict) && Covered(s, own, g) && Runs(s.pool, NodeLoop(s.goals, g), g)
    ensures var (e, lid) := (ReleaseLeaked(s, own, g), NodeLoop(s.goals, g));
      && g in s.goals && lid in s.pool.byLoop && s.pool.byLoop[lid] in e.pool.slots
      && e.pool.slots[s.pool.byLoop[lid]].lastOk == (s.goals[g].status == Completed)
      && forall j, entry: J.Entry :: J.Recorded(e.index, j, entry) && entry.loopId == lid ==>
        EndsAs(s.goals[g].status, entry.status)
  {
    hide *;
    CoveredIsReleased(s, own, g);
    var status := s.goals[g].status;
    EndStatusMeans(status);
    ReleaseMeans(s, g, NodeLoop(s.goals, g), EndStatus(status), status == Completed, strict);
  }
}
