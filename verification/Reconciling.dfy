/** The watchdog's clean-up of reservations and worker slots outside the released-goal guard (service.py). */
module Reconciling {
  import opened Prelude
  import opened LoopIds
  import opened Goals
  import opened DispatchModel
  import P = PoolModel
  import W = WorkspaceReservations
  import J = JobIndexModel

  /** A reservation is dropped when its goal is gone, terminal or suspended. */
  predicate StaleHolder(d: Dag, g: GoalId) {
    g !in d || d[g].status.Terminal() || d[g].status == Suspended
  }

  /** A slot is freed when its goal is terminal; an empty goal id counts as no goal. */
  predicate Finished(d: Dag, g: GoalId) {
    g == "" || (g in d && d[g].status.Terminal())
  }

  function WithoutStale(r: W.Reservations, d: Dag): W.Reservations {
    map g | g in r && !StaleHolder(d, g) :: r[g]
  }

  /** One slot that was active when the pass listed the workers. */
  function FreeSlot(s: System, t: P.SlotId): System {
    if t !in s.pool.slots then s
    else
      var slot := s.pool.slots[t];
      if slot.currentGoal.None? || slot.currentGoal.value == "" then
        s.(pool := P.MarkIdle(s.pool, slot.loopId, false))
      else if Finished(s.goals, slot.currentGoal.value) then
        s.(pool := P.MarkIdle(s.pool, slot.loopId, false),
           reservations := s.reservations - {slot.currentGoal.value})
      else s
  }

  function FreeSlots(s: System, active: set<P.SlotId>, n: nat): System {
    if n == 0 then s
    else
      var before := FreeSlots(s, active, n - 1);
      if n in active then FreeSlot(before, n) else before
  }

  function ActiveIn(p: P.Pool): set<P.SlotId> {
    set t | t in p.slots && p.slots[t].status == P.Active
  }

  /** `reconcile_stale_reservations`: reservations first, then the workers in slot order. */
  function Reconcile(s: System): System {
    FreeSlots(
      s.(reservations := WithoutStale(s.reservations, s.goals)), ActiveIn(s.pool),
      if s.pool.nextSeq < 0 then 0 else s.pool.nextSeq)
  }

  lemma FreeSlotsNext(s: System, active: set<P.SlotId>, n: nat)
    ensures FreeSlots(s, active, 0) == s
    ensures FreeSlots(s, active, n + 1) ==
      var before := FreeSlots(s, active, n); if n + 1 in active then FreeSlot(before, n + 1) else before
  {
    hide FreeSlot;
  }

  lemma ReconcileIs(s: System, active: set<P.SlotId>, n: nat)
    requires active == ActiveIn(s.pool) && n == s.pool.nextSeq
    ensures Reconcile(s) == FreeSlots(s.(reservations := WithoutStale(s.reservations, s.goals)), active, n)
  {
  }

  /** No running goal is gone, terminal or suspended, and none has the empty id. */
  ghost predicate NothingStale(s: System) {
    forall g :: Running(s.pool, g) ==> g != "" && !StaleHolder(s.goals, g)
  }

  // ---- What a pass does -------------------------------------------------------------------------

  ghost predicate LowSlot(p: P.Pool, lid: LoopId, n: int) {
    lid in p.byLoop && p.byLoop[lid] <= n
  }

  /** After the slots up to `n`: exactly the finished goals on them no longer run; nothing else changed. */
  ghost predicate FreedUpTo(p: P.Pool, q: P.Pool, d: Dag, n: int) {
    && P.Inv(q) && q.byLoop == p.byLoop
    && (forall t, l :: HasLoop(q, t, l) <==> HasLoop(p, t, l))
    && SameAbove(p, q, n)
    && (forall l, g :: Runs(q, l, g) <==> Runs(p, l, g) && !(Finished(d, g) && LowSlot(p, l, n)))
  }

  lemma OnlyItsSlotChanges(p: P.Pool, lid: LoopId, t: P.SlotId)
    requires P.Inv(p) && t in p.slots && p.slots[t].loopId != lid
    ensures t in P.MarkIdle(p, lid, false).slots && P.MarkIdle(p, lid, false).slots[t] == p.slots[t]
  {
    P.LookupExact(p, lid);
  }

  /** The slot at `n + 1` ran a goal when the pass began: it is freed if the goal is finished. */
  lemma FreeOneActive(p: P.Pool, q: P.Pool, d: Dag, n: int, g: GoalId)
    requires P.Inv(p) && FreedUpTo(p, q, d, n) && n + 1 in p.slots && p.slots[n + 1].currentGoal == Some(g)
    ensures var lid := p.slots[n + 1].loopId;
      FreedUpTo(p, if Finished(d, g) then P.MarkIdle(q, lid, false) else q, d, n + 1)
  {
    var lid := p.slots[n + 1].loopId;
    var r := if Finished(d, g) then P.MarkIdle(q, lid, false) else q;
    assert Runs(p, lid, g) && OnlyLoop(p, n + 1, lid);
    assert P.Inv(q) && q.byLoop == p.byLoop;
    hide P.Inv, P.MarkIdle, P.Assigned, FreedUpTo, Finished, LowSlot, HasLoop, Runs;
    LoopsBySlot(p, n);
    LoopRunsOneGoal(p, lid, g);
    PoolLoopEnds(q, lid, false);
    if Finished(d, g) {
      LaterSlotsStayFreed(p, q, d, lid, n);
    } else {
      LaterSlotsOf(p, q, d, n);
    }
    FreedNext(p, q, r, d, n, lid, g);
  }

  ghost predicate OnlyLoop(p: P.Pool, t: P.SlotId, lid: LoopId) {
    HasLoop(p, t, lid) && forall l :: HasLoop(p, t, l) ==> l == lid
  }

  ghost predicate SameAbove(p: P.Pool, q: P.Pool, n: int) {
    forall t :: t > n && t in p.slots ==> t in q.slots && q.slots[t] == p.slots[t]
  }

  lemma LaterSlotsOf(p: P.Pool, q: P.Pool, d: Dag, n: int)
    requires FreedUpTo(p, q, d, n)
    ensures SameAbove(p, q, n + 1)
  {
    hide HasLoop, Runs, P.Inv, Finished, LowSlot;
  }

  lemma LaterSlotsStayFreed(p: P.Pool, q: P.Pool, d: Dag, lid: LoopId, n: int)
    requires P.Inv(p) && FreedUpTo(p, q, d, n) && HasLoop(p, n + 1, lid)
    ensures SameAbove(p, P.MarkIdle(q, lid, false), n + 1)
  {
    hide Runs, Finished, LowSlot, P.MarkIdle;
    LaterSlotsStay(p, q, lid, n + 1);
  }

  /** From the slots up to `n` to those up to `n + 1`, where only `lid` can have ended, under which `g` ran. */
  lemma FreedNext(p: P.Pool, q: P.Pool, r: P.Pool, d: Dag, n: int, lid: LoopId, g: GoalId)
    requires FreedUpTo(p, q, d, n) && P.Inv(r) && r.byLoop == q.byLoop && SameAbove(p, r, n + 1)
    requires forall t, l :: HasLoop(r, t, l) <==> HasLoop(q, t, l)
    requires forall l, h :: Runs(r, l, h) <==> Runs(q, l, h) && !(Finished(d, g) && l == lid)
    requires forall l :: LowSlot(p, l, n + 1) <==> LowSlot(p, l, n) || HasLoop(p, n + 1, l)
    requires OnlyLoop(p, n + 1, lid) && forall h :: Runs(p, lid, h) ==> h == g
    ensures FreedUpTo(p, r, d, n + 1)
  {
    hide P.Inv, Finished, LowSlot, HasLoop, Runs;
    forall l, h
      ensures Runs(r, l, h) <==> Runs(p, l, h) && !(Finished(d, h) && LowSlot(p, l, n + 1))
    {
      if l == lid && Runs(p, l, h) {
        assert h == g && LowSlot(p, l, n + 1);
      } else {
        assert LowSlot(p, l, n + 1) <==> LowSlot(p, l, n) || HasLoop(p, n + 1, l);
      }
    }
  }

  lemma LaterSlotsStay(p: P.Pool, q: P.Pool, lid: LoopId, t: P.SlotId)
    requires P.Inv(p) && P.Inv(q) && HasLoop(p, t, lid)
    requires forall u :: u >= t && u in p.slots ==> u in q.slots && q.slots[u] == p.slots[u]
    ensures var r := P.MarkIdle(q, lid, false);
      forall u :: u > t && u in p.slots ==> u in r.slots && r.slots[u] == p.slots[u]
  {
    forall u | u > t && u in p.slots
      ensures u in P.MarkIdle(q, lid, false).slots && P.MarkIdle(q, lid, false).slots[u] == p.slots[u]
    {
      assert p.slots[u].loopId != lid;
      OnlyItsSlotChanges(q, lid, u);
    }
  }

  /** The loops of the slots up to `n + 1`: those up to `n`, and the one of slot `n + 1` if there is such a slot. */
  lemma LoopsBySlot(p: P.Pool, n: int)
    requires P.Inv(p)
    ensures forall l :: LowSlot(p, l, n + 1) <==> LowSlot(p, l, n) || HasLoop(p, n + 1, l)
  {
    forall l
      ensures LowSlot(p, l, n + 1) <==> LowSlot(p, l, n) || HasLoop(p, n + 1, l)
    {
      if l in p.byLoop {
        assert HasLoop(p, p.byLoop[l], l);
      }
    }
  }

  /** A slot that ran nothing when the pass began stays as it is. */
  lemma FreeOneIdle(p: P.Pool, q: P.Pool, d: Dag, n: int)
    requires P.Inv(p) && FreedUpTo(p, q, d, n) && (n + 1 in p.slots ==> p.slots[n + 1].currentGoal.None?)
    ensures FreedUpTo(p, q, d, n + 1)
  {
    LoopsBySlot(p, n);
    forall l, g | Runs(p, l, g) && HasLoop(p, n + 1, l)
      ensures false
    {
      LoopRunsOneGoal(p, l, g);
    }
  }

  /** Freeing an active slot ends its goal if that is finished; its reservation went before. */
  lemma FreeSlotStep(s: System, t: P.SlotId, g: GoalId)
    requires t in s.pool.slots && s.pool.slots[t].currentGoal == Some(g)
    requires forall h :: h in s.reservations ==> !StaleHolder(s.goals, h)
    ensures var lid := s.pool.slots[t].loopId;
      FreeSlot(s, t) == s.(pool := if Finished(s.goals, g) then P.MarkIdle(s.pool, lid, false) else s.pool)
  {
    hide P.MarkIdle;
    if g != "" && Finished(s.goals, g) {
      assert StaleHolder(s.goals, g);
      assert s.reservations - {g} == s.reservations;
    }
  }

  lemma {:induction false} FreeSlotsExact(s: System, start: System, n: nat)
    requires P.Inv(s.pool) && start == s.(reservations := WithoutStale(s.reservations, s.goals))
    ensures var e := FreeSlots(start, ActiveIn(s.pool), n);
      e == start.(pool := e.pool) && FreedUpTo(s.pool, e.pool, s.goals, n)
  {
    var active := ActiveIn(s.pool);
    if n == 0 {
      assert forall l :: !LowSlot(s.pool, l, 0);
    } else {
      var before := FreeSlots(start, active, n - 1);
      FreeSlotsExact(s, start, n - 1);
      if n in active {
        var g := s.pool.slots[n].currentGoal.value;
        assert n in before.pool.slots && before.pool.slots[n] == s.pool.slots[n];
        hide FreedUpTo, P.Inv, P.MarkIdle, Finished, StaleHolder, FreeSlot;
        FreeOneActive(s.pool, before.pool, s.goals, n - 1, g);
        FreeSlotStep(before, n, g);
      } else {
        assert n in s.pool.slots ==> s.pool.slots[n].currentGoal.None?;
        hide FreedUpTo, P.Inv;
        FreeOneIdle(s.pool, before.pool, s.goals, n - 1);
      }
    }
  }

  /**
   * The whole pass: exactly the finished goals (terminal, or of empty id) stop running, exactly the stale
   * reservations go, and the index and the released-goal guard do not notice.
   */
  lemma ReconcileExact(s: System)
    requires P.Inv(s.pool)
    ensures var e := Reconcile(s);
      && e == s.(pool := e.pool, reservations := WithoutStale(s.reservations, s.goals))
      && P.Inv(e.pool) && e.pool.byLoop == s.pool.byLoop
      && (forall t, l :: HasLoop(e.pool, t, l) <==> HasLoop(s.pool, t, l))
      && (forall l, g :: Runs(e.pool, l, g) <==> Runs(s.pool, l, g) && !Finished(s.goals, g))
  {
    var n := s.pool.nextSeq;
    FreeSlotsExact(s, s.(reservations := WithoutStale(s.reservations, s.goals)), n);
    forall l, g | Runs(s.pool, l, g)
      ensures LowSlot(s.pool, l, n)
    {
      LoopRunsOneGoal(s.pool, l, g);
    }
  }

  lemma NothingToDrop(s: System)
    requires HoldersRun(s.pool, s.reservations) && NothingStale(s)
    ensures WithoutStale(s.reservations, s.goals) == s.reservations
    ensures forall l, g :: Runs(s.pool, l, g) ==> !Finished(s.goals, g)
  {
    hide Runs;
    forall l, g | Runs(s.pool, l, g)
      ensures !Finished(s.goals, g)
    {
      assert Running(s.pool, g);
    }
  }

  /** With nothing stale the pass changes no registry. */
  lemma NothingStaleNothingChanges(s: System, strict: bool)
    requires Inv(s, strict) && NothingStale(s)
    ensures Inv(Reconcile(s), strict)
    ensures forall l, g :: Runs(Reconcile(s).pool, l, g) <==> Runs(s.pool, l, g)
    ensures Reconcile(s).reservations == s.reservations
  {
    assert HoldersRun(s.pool, s.reservations);
    hide Reconcile, Inv, P.Inv, Finished, StaleHolder, NothingStale, WithoutStale, Runs, HasLoop, Running;
    NothingToDrop(s);
    ReconcileExact(s);
    SameRunsSameInv(s, Reconcile(s), strict);
  }

  lemma SameRunsSameInv(s: System, e: System, strict: bool)
    requires Inv(s, strict) && e == s.(pool := e.pool) && P.Inv(e.pool) && e.pool.byLoop == s.pool.byLoop
    requires forall t, l :: HasLoop(e.pool, t, l) <==> HasLoop(s.pool, t, l)
    requires forall l, g :: Runs(e.pool, l, g) <==> Runs(s.pool, l, g)
    ensures Inv(e, strict)
  {
    hide P.Inv, J.Inv, J.Attributed, J.Active, W.Exclusive, Runs, HasLoop, J.Unseen;
    forall g
      ensures Running(e.pool, g) <==> Running(s.pool, g)
    {
    }
  }

  /**
   * A reconcile pass keeps pool, reservations and index consistent exactly when it finds nothing stale: it
   * ends no index entry, and it drops the reservation but not the slot of a suspended or vanished goal.
   */
  lemma ReconcileKeepsInvIff(s: System, strict: bool)
    requires Inv(s, strict)
    ensures Inv(Reconcile(s), strict) <==> NothingStale(s)
  {
    if NothingStale(s) {
      NothingStaleNothingChanges(s, strict);
    } else {
      var g :| Running(s.pool, g) && (g == "" || StaleHolder(s.goals, g));
      var lid :| Runs(s.pool, lid, g);
      ReconcileExact(s);
      var e := Reconcile(s);
      assert J.Active(s.index, (lid, g)) && J.Active(e.index, (lid, g));
      if Finished(s.goals, g) {
        assert !Runs(e.pool, lid, g);
      } else {
        assert Runs(e.pool, lid, g) && Running(e.pool, g) && g !in e.reservations;
      }
    }
  }

  /**
   * A terminal goal, one dispatched again after its release or stranded by a release that named no loop included,
   * holds neither slot nor reservation after a pass; its index entry and the guard stay as they were.
   */
  lemma ReconcileFreesTerminal(s: System, g: GoalId)
    requires P.Inv(s.pool) && g in s.goals && s.goals[g].status.Terminal()
    ensures var e := Reconcile(s);
      && !Running(e.pool, g) && g !in e.reservations && e.index == s.index && e.released == s.released
      && forall l, h :: Runs(s.pool, l, h) && !Finished(s.goals, h) ==> Runs(e.pool, l, h)
  {
    ReconcileExact(s);
    assert forall l :: !Runs(Reconcile(s).pool, l, g);
  }

  /** The whole pass told in statuses: which reservations and which assignments survive it. */
  lemma ReconcileMeans(s: System)
    requires P.Inv(s.pool)
    ensures var (d, e) := (s.goals, Reconcile(s));
      && e.goals == d && e.index == s.index && e.released == s.released && e.workerOf == s.workerOf
      && (forall g :: g in e.reservations <==>
          g in s.reservations && g in d && d[g].status !in {Completed, Failed, Cancelled, Suspended})
      && (forall g :: g in e.reservations ==> e.reservations[g] == s.reservations[g])
      && (forall l, g :: Runs(e.pool, l, g) <==>
          Runs(s.pool, l, g) && g != "" && !(g in d && d[g].status in {Completed, Failed, Cancelled}))
  {
    ReconcileExact(s);
    hide Reconcile, Runs, HasLoop, P.Inv;
  }

  /** A freed slot is idle, runs nothing, and counts its goal as not succeeded. */
  lemma FreedSlot(s: System, t: P.SlotId)
    requires P.Inv(s.pool) && t in s.pool.slots && s.pool.slots[t].status == P.Active
    ensures var (d, slot, after) := (s.goals, s.pool.slots[t], FreeSlot(s, t).pool.slots);
      var g := slot.currentGoal.value;
      && t in after
      && after[t] == if g == "" || (g in d && d[g].status in {Completed, Failed, Cancelled})
        then slot.(status := P.Idle, currentGoal := None, lastOk := false, lastGoals := after[t].lastGoals) else slot
  {
    P.LookupExact(s.pool, s.pool.slots[t].loopId);
  }
}
