/** What one dispatch attempt and one scheduling pass do, in statuses, loops and limits (service.py, models.py). */
module DispatchEffects {
  import opened Prelude
  import opened LoopIds
  import opened Goals
  import opened GoalTree
  import opened DispatchModel
  import opened DispatchRuns
  import opened Ranking
  import P = PoolModel
  import W = WorkspaceReservations
  import J = JobIndexModel
  import JE = JobIndexEffects

  /** From `d` to `e` the goal went from pending to active under `lid`; nothing else about any goal changed. */
  ghost predicate OnlyActivated(d: Dag, e: Dag, g: GoalId, lid: LoopId) {
    && g in d && d[g].status == Pending && e.Keys == d.Keys
    && e[g] == d[g].(status := Active, assignedLoop := Some(lid))
    && forall x :: x in d && x != g ==> e[x] == d[x]
  }

  /** The goal's dependencies are known and over, and no goal it conflicts with is active. */
  ghost predicate MayStart(d: Dag, g: GoalId)
    requires g in d
  {
    && (forall x :: x in d[g].dependsOn ==> x in d && d[x].status in {Completed, Failed, Cancelled})
    && (forall x :: x in d[g].conflictsWith && x in d && x != d[g].id ==> d[x].status != Active)
  }

  lemma ClaimMeans(d: Dag, g: GoalId, lid: LoopId)
    requires Claimable(d, g) && lid != ""
    ensures OnlyActivated(d, Claimed(d, g, lid), g, lid) && MayStart(d, g) && !Claimable(Claimed(d, g, lid), g)
  {
  }

  /** A goal can be claimed exactly when it is known, pending and may start. */
  lemma ClaimableIff(d: Dag, g: GoalId)
    ensures Claimable(d, g) <==> g in d && d[g].status == Pending && MayStart(d, g)
  {
  }

  /** A usable loop id was drawn and the goal's own loop runs it: the facts behind every successful attempt. */
  lemma DispatchedFacts(s: System, goal: Goal, suffix: string, strict: bool)
    requires Inv(s, strict) && DrawsFresh(s, goal, suffix) && TryDispatch(s, goal, suffix, strict).1.Dispatched?
    ensures var (e, outcome) := TryDispatch(s, goal, suffix, strict); var (pool, result) := PickFor(s, goal, suffix);
      && Claimable(s.goals, goal.id) && outcome.loopId != "" && result.Picked?
      && FreshLoop(s, goal, suffix) == Some(outcome.loopId)
      && e == Started(s, goal, pool, result.slot, outcome.loopId)
      && P.Assigned(pool) == P.Assigned(s.pool) + {(outcome.loopId, goal.id)} && HasLoop(pool, result.slot, outcome.loopId)
  {
    PickForFacts(s, goal, suffix);
    FreshLoopFacts(s, goal, suffix);
    hide Inv, PickFor, P.Assigned, P.TakesFromQueue, SlotsKept, Started, Claimable;
  }

  /**
   * A dispatched goal was pending and free to start; it is now active under the loop that runs it, every other
   * goal is as it was, it is no longer ready, and a cancel right after names the right loop.
   */
  lemma DispatchedMeans(s: System, goal: Goal, suffix: string, strict: bool)
    requires Inv(s, strict) && DrawsFresh(s, goal, suffix) && TryDispatch(s, goal, suffix, strict).1.Dispatched?
    ensures var (e, outcome) := TryDispatch(s, goal, suffix, strict);
      && OnlyActivated(s.goals, e.goals, goal.id, outcome.loopId) && MayStart(s.goals, goal.id)
      && !Claimable(e.goals, goal.id)
      && Runs(e.pool, outcome.loopId, goal.id) && NodeLoop(e.goals, goal.id) == outcome.loopId
      && SafeRelease(e, goal.id, NodeLoop(e.goals, goal.id))
  {
    DispatchedFacts(s, goal, suffix, strict);
    var (e, outcome) := TryDispatch(s, goal, suffix, strict);
    ClaimMeans(s.goals, goal.id, outcome.loopId);
    assert e.goals == Claimed(s.goals, goal.id, outcome.loopId) && e.pool == PickFor(s, goal, suffix).0;
    hide TryDispatch, PickFor, Claimed, Claimable, MayStart, FreshLoop;
    assert (outcome.loopId, goal.id) in P.Assigned(e.pool);
  }

  /** What the attempt wrote elsewhere: the goal's workspace, its index entry, and the worker it hands over. */
  lemma DispatchedIsRecorded(s: System, goal: Goal, suffix: string, strict: bool)
    requires Inv(s, strict) && DrawsFresh(s, goal, suffix) && TryDispatch(s, goal, suffix, strict).1.Dispatched?
    ensures var (e, outcome) := TryDispatch(s, goal, suffix, strict); var job := JobOf(s.goals, goal);
      && e.reservations == s.reservations[goal.id := goal.workspace] && e.released == s.released
      && goal.id in e.workerOf && HasLoop(e.pool, e.workerOf[goal.id], outcome.loopId)
      && var n := if job in s.index.records then s.index.records[job].nextSeq else 1;
        J.Recorded(e.index, job, J.Entry(n, outcome.loopId, goal.id, goal.retryCount + 1, J.Running))
  {
    hide TryDispatch, PickFor, FreshLoop, Inv, JobOf, DrawsFresh, P.Assigned, Claimable, Claimed;
    hide J.RecordStart, J.Recorded;
    DispatchedFacts(s, goal, suffix, strict);
    var l := TryDispatch(s, goal, suffix, strict).1.loopId;
    var n := JE.StartIsRecorded(s.index, JobOf(s.goals, goal), l, goal.id, goal.retryCount + 1);
  }

  /** An attempt that does not dispatch changes no goal, index entry, worker or other goal's reservation. */
  lemma NotDispatchedMeans(s: System, goal: Goal, suffix: string, strict: bool)
    requires Inv(s, strict) && DrawsFresh(s, goal, suffix) && !TryDispatch(s, goal, suffix, strict).1.Dispatched?
    ensures var e := TryDispatch(s, goal, suffix, strict).0;
      && e.goals == s.goals && e.index == s.index && e.workerOf == s.workerOf && e.released == s.released
      && (forall l, h :: Runs(e.pool, l, h) <==> Runs(s.pool, l, h))
      && (forall h :: h != goal.id ==> (h in e.reservations <==> h in s.reservations))
      && (forall h :: h != goal.id && h in s.reservations ==> e.reservations[h] == s.reservations[h])
  {
    var e := TryDispatch(s, goal, suffix, strict).0;
    NotDispatchedRuns(s, goal, suffix, strict);
    hide *;
    SameAssignments(s.pool, e.pool);
    NotDispatchedFrame(s, goal, suffix, strict);
    OthersHold(s.reservations, e.reservations, goal.id, goal.workspace);
  }

  lemma NotDispatchedFrame(s: System, goal: Goal, suffix: string, strict: bool)
    requires !TryDispatch(s, goal, suffix, strict).1.Dispatched?
    ensures var e := TryDispatch(s, goal, suffix, strict).0; var held := s.reservations[goal.id := goal.workspace];
      && e.goals == s.goals && e.index == s.index && e.workerOf == s.workerOf && e.released == s.released
      && e.reservations in {s.reservations, held, held - {goal.id}}
  {
    hide P.MarkIdle, PickFor, FreshLoop, Gated, RailRoot, Claimable, Started;
  }

  lemma OthersHold(r: W.Reservations, q: W.Reservations, g: GoalId, ws: W.Path)
    requires q in {r, r[g := ws], r[g := ws] - {g}}
    ensures forall h :: h != g ==> (h in q <==> h in r)
    ensures forall h :: h != g && h in r ==> q[h] == r[h]
  {
  }

  lemma NotDispatchedRuns(s: System, goal: Goal, suffix: string, strict: bool)
    requires Inv(s, strict) && DrawsFresh(s, goal, suffix) && !TryDispatch(s, goal, suffix, strict).1.Dispatched?
    ensures P.Assigned(TryDispatch(s, goal, suffix, strict).0.pool) == P.Assigned(s.pool)
  {
    if !RailRoot(goal) && !Gated(s, goal, strict) {
      assert P.Inv(s.pool) && IdsAccounted(s.pool, s.index, s.used);
      hide Inv, P.Inv, IdsAccounted, P.Assigned, P.MarkIdle, PickFor, FreshLoop, DrawsFresh, SlotsKept, P.TakesFromQueue;
      PickForFacts(s, goal, suffix);
      if PickFor(s, goal, suffix).1.Picked? {
        VanishedAssignments(s, goal, suffix, strict);
      }
    }
  }

  /** A goal that vanished before the claim: its slot is idle again, unharmed, under the loop id it drew. */
  lemma VanishedMeans(s: System, goal: Goal, suffix: string, strict: bool)
    requires Inv(s, strict) && DrawsFresh(s, goal, suffix) && TryDispatch(s, goal, suffix, strict).1.Vanished?
    ensures var e := TryDispatch(s, goal, suffix, strict).0;
      var (lid, t) := (FreshLoop(s, goal, suffix), PickFor(s, goal, suffix).1);
      && t.Picked? && lid.Some? && t.slot in e.pool.slots && lid.value in e.used
      && var slot := e.pool.slots[t.slot];
        slot.loopId == lid.value && slot.status == P.Idle && slot.currentGoal == None && slot.lastOk
  {
    PickForFacts(s, goal, suffix);
    FreshLoopFacts(s, goal, suffix);
    assert IdsAccounted(s.pool, s.index, s.used);
    hide Inv, PickFor, FreshLoop, P.Inv, P.Assigned, P.MarkIdle, SlotsKept, P.TakesFromQueue, Claimable, IdsAccounted;
    hide DrawsFresh;
    var (pool, result) := PickFor(s, goal, suffix);
    IdledSlotKeepsLoop(pool, result.slot, FreshLoop(s, goal, suffix).value, true);
  }

  lemma IdledSlotKeepsLoop(p: P.Pool, t: P.SlotId, lid: LoopId, ok: bool)
    requires P.Inv(p) && HasLoop(p, t, lid)
    ensures var q := P.MarkIdle(p, lid, ok);
      && HasLoop(q, t, lid) && q.slots[t].status == P.Idle && q.slots[t].currentGoal == None && q.slots[t].lastOk == ok
  {
    P.LookupExact(p, lid);
  }

  /** Another goal's reservation is in the way. */
  ghost predicate InTheWay(s: System, goal: Goal, h: GoalId, strict: bool) {
    h in s.reservations && h != goal.id && W.Overlaps(goal.workspace, s.reservations[h], strict)
  }

  /** How an attempt ends, decided on the state before it. */
  lemma OutcomeIff(s: System, goal: Goal, suffix: string, strict: bool)
    requires Inv(s, strict) && DrawsFresh(s, goal, suffix)
    ensures var outcome := TryDispatch(s, goal, suffix, strict).1;
      var coordinator := goal.parentId.None? && goal.railBound;
      var blocked := exists h :: InTheWay(s, goal, h, strict);
      var slots := s.pool.slots;
      var full := |slots| == s.pool.maxLoops && forall t :: t in slots ==> slots[t].status == P.Active;
      var blank := Strip(JobOf(s.goals, goal)) == "";
      var startable := goal.id in s.goals && s.goals[goal.id].status == Pending && MayStart(s.goals, goal.id);
      && (outcome.Skipped? <==> coordinator)
      && (outcome.Deferred? <==> !coordinator && blocked)
      && (outcome.NoWorker? <==> !coordinator && !blocked && full)
      && (outcome.Raised? <==> !coordinator && !blocked && !full && blank)
      && (outcome.Vanished? <==> !coordinator && !blocked && !full && !blank && !startable)
      && (outcome.Dispatched? <==> !coordinator && !blocked && !full && !blank && startable)
  {
    PickForFacts(s, goal, suffix);
    FreshLoopFacts(s, goal, suffix);
    GatedIff(s, goal, strict);
    FullIff(s.pool);
    ClaimableIff(s.goals, goal.id);
    hide Inv, PickFor, FreshLoop, Gated, NoFreeSlot, Claimable, MayStart, JobOf, Strip, Started, P.MarkIdle, SlotsKept;
    hide P.Assigned, P.Inv, P.TakesFromQueue, DrawsFresh, InTheWay, HasLoop;
  }

  lemma GatedIff(s: System, goal: Goal, strict: bool)
    ensures Gated(s, goal, strict) <==> exists h :: InTheWay(s, goal, h, strict)
  {
    if h :| W.ConflictsWith(s.reservations, goal.workspace, h, strict) && Some(h) != Some(goal.id) {
      assert InTheWay(s, goal, h, strict);
    }
    if h :| InTheWay(s, goal, h, strict) {
      assert W.ConflictsWith(s.reservations, goal.workspace, h, strict) && Some(h) != Some(goal.id);
    }
  }

  lemma FullIff(p: P.Pool)
    ensures NoFreeSlot(p) <==>
      |p.slots| == p.maxLoops && forall t :: t in p.slots ==> p.slots[t].status == P.Active
  {
    assert forall t :: p.IsIdle(t) <==> t in p.slots && p.slots[t].status != P.Active;
  }

  // ---- Conflicting goals ------------------------------------------------------------------------

  /** No active goal names another active goal as a conflict. */
  ghost predicate Peaceful(d: Dag) {
    forall x, y :: x in d && y in d && x != y && d[x].status == Active && d[y].status == Active ==>
      y !in d[x].conflictsWith
  }

  /** A dispatch checks the new goal's own conflicts only: peace is kept exactly when no active goal names it. */
  lemma DispatchKeepsPeaceIff(s: System, goal: Goal, suffix: string, strict: bool)
    requires Inv(s, strict) && DrawsFresh(s, goal, suffix) && WellKeyed(s.goals) && Peaceful(s.goals)
    requires TryDispatch(s, goal, suffix, strict).1.Dispatched?
    ensures Peaceful(TryDispatch(s, goal, suffix, strict).0.goals) <==>
      forall x :: x in s.goals && s.goals[x].status == Active ==> goal.id !in s.goals[x].conflictsWith
  {
    DispatchedMeans(s, goal, suffix, strict);
    hide TryDispatch, Inv, Runs, SafeRelease, NodeLoop, DrawsFresh;
    var (d, e, g) := (s.goals, TryDispatch(s, goal, suffix, strict).0.goals, goal.id);
    if Peaceful(e) {
      forall x | x in d && d[x].status == Active
        ensures g !in d[x].conflictsWith
      {
        assert x != g && e[x] == d[x] && e[g].status == Active;
      }
    }
  }

  // ---- A scheduling pass --------------------------------------------------------------------------

  /** A pass may take more than `n` candidates exactly when both limits leave room for more than `n`. */
  lemma RoomIff(maxLoops: int, maxParallel: int, active: int, n: nat)
    ensures Remaining(maxLoops, maxParallel, active) > n <==> active + n < maxLoops && active + n < maxParallel
  {
  }

  /** With fewer active slots than `max_loops` a slot is free or can be spawned. */
  lemma RoomMeansSlot(p: P.Pool)
    requires |ActiveSlots(p)| < p.maxLoops
    ensures !NoFreeSlot(p)
  {
    if NoFreeSlot(p) {
      FullIsActive(p);
    }
  }

  lemma FullIsActive(p: P.Pool)
    requires NoFreeSlot(p)
    ensures |ActiveSlots(p)| == p.maxLoops
  {
    FullIff(p);
    assert forall t :: t in p.slots ==> p.slots[t].status == P.Active;
    assert ActiveSlots(p) == p.slots.Keys && |p.slots.Keys| == |p.slots|;
  }

  /** Nothing about the goal itself stands in the way: only room for it is still needed. */
  ghost predicate Startable(s: System, goal: Goal, strict: bool) {
    && !(goal.parentId.None? && goal.railBound) && (forall h :: !InTheWay(s, goal, h, strict))
    && Strip(JobOf(s.goals, goal)) != "" && Claimable(s.goals, goal.id)
  }

  lemma StartableIsDispatched(s: System, goal: Goal, suffix: string, strict: bool)
    requires Inv(s, strict) && DrawsFresh(s, goal, suffix) && Startable(s, goal, strict)
    requires |ActiveSlots(s.pool)| < s.pool.maxLoops
    ensures var (e, outcome) := TryDispatch(s, goal, suffix, strict);
      outcome.Dispatched? && OnlyActivated(s.goals, e.goals, goal.id, outcome.loopId)
  {
    RoomMeansSlot(s.pool);
    GatedIff(s, goal, strict);
    assert P.Inv(s.pool) && IdsAccounted(s.pool, s.index, s.used);
    hide Inv, ActiveSlots, Claimable, JobOf, Strip, Gated, NoFreeSlot, InTheWay, DrawsFresh, P.Assigned, TryDispatch;
    hide PickFor, FreshLoop, Started, Place, Runs, P.Inv, IdsAccounted, OnlyActivated;
    ClaimableIsDispatched(s, goal, suffix, strict);
    DispatchedMeans(s, goal, suffix, strict);
  }

  ghost predicate Coordinators(goals: seq<Goal>) {
    forall i :: 0 <= i < |goals| ==> goals[i].parentId.None? && goals[i].railBound
  }

  /** Rail-bound job roots at the head of the list are passed over. */
  lemma {:induction false} CoordinatorsAreSkipped(
    s: System, roots: seq<Goal>, rest: seq<Goal>, a: seq<string>, b: seq<string>, strict: bool)
    requires Coordinators(roots) && |a| == |roots| && |b| == |rest|
    ensures Schedule(s, roots + rest, a + b, strict) == Schedule(s, rest, b, strict)
    decreases |roots|
  {
    if roots == [] {
      assert roots + rest == rest && a + b == b;
    } else {
      assert (roots + rest)[1..] == roots[1..] + rest && (a + b)[1..] == a[1..] + b;
      CoordinatorsAreSkipped(s, roots[1..], rest, a[1..], b, strict);
    }
  }

  /**
   * With room under both limits the pass dispatches the first ready goal that is no coordinator, if its
   * workspace is free and its job id usable, and goes on with the goals after it.
   */
  lemma PassDispatchesFirst(
    s: System, ready: seq<Goal>, draws: seq<string>, i: nat, maxParallel: int, strict: bool)
    requires Inv(s, strict) && |draws| == |ready| && i < |ready| && Coordinators(ready[..i])
    requires Startable(s, ready[i], strict) && DrawsFresh(s, ready[i], draws[i])
    requires |ActiveSlots(s.pool)| + i < s.pool.maxLoops && |ActiveSlots(s.pool)| + i < maxParallel
    ensures var cap := Remaining(s.pool.maxLoops, maxParallel, |ActiveSlots(s.pool)|);
      var (e, outcome) := TryDispatch(s, ready[i], draws[i], strict);
      var (taken, drawn) := (Take(ready, cap), Take(draws, cap));
      && outcome.Dispatched? && OnlyActivated(s.goals, e.goals, ready[i].id, outcome.loopId)
      && |drawn| == |taken| > i && taken[i] == ready[i]
      && Schedule(s, taken, drawn, strict) == Schedule(e, taken[i + 1..], drawn[i + 1..], strict)
  {
    var cap := Remaining(s.pool.maxLoops, maxParallel, |ActiveSlots(s.pool)|);
    RoomIff(s.pool.maxLoops, maxParallel, |ActiveSlots(s.pool)|, i);
    hide *;
    StartableIsDispatched(s, ready[i], draws[i], strict);
    TakeSplits(ready, i, cap);
    TakeSplits(draws, i, cap);
    var (taken, drawn) := (Take(ready, cap), Take(draws, cap));
    PassAt(s, ready[..i], ready[i], taken[i + 1..], draws[..i], draws[i], drawn[i + 1..], strict);
  }

  lemma TakeSplits<T>(xs: seq<T>, i: nat, cap: nat)
    requires i < |xs| && i < cap
    ensures var t := Take(xs, cap);
      && |t| == (if |xs| <= cap then |xs| else cap) && t[i] == xs[i]
      && t == xs[..i] + ([xs[i]] + t[i + 1..])
  {
  }

  lemma PassAt(
    s: System, roots: seq<Goal>, goal: Goal, after: seq<Goal>, a: seq<string>, suffix: string, more: seq<string>,
    strict: bool)
    requires Coordinators(roots) && |a| == |roots| && |more| == |after|
    requires TryDispatch(s, goal, suffix, strict).1.Dispatched?
    ensures Schedule(s, roots + ([goal] + after), a + ([suffix] + more), strict)
      == Schedule(TryDispatch(s, goal, suffix, strict).0, after, more, strict)
  {
    hide *;
    CoordinatorsAreSkipped(s, roots, [goal] + after, a, [suffix] + more, strict);
    GoesOnAfter(s, goal, after, suffix, more, strict);
  }

  lemma GoesOnAfter(s: System, goal: Goal, rest: seq<Goal>, suffix: string, b: seq<string>, strict: bool)
    requires |b| == |rest| && TryDispatch(s, goal, suffix, strict).1.Dispatched?
    ensures Schedule(s, [goal] + rest, [suffix] + b, strict)
      == Schedule(TryDispatch(s, goal, suffix, strict).0, rest, b, strict)
  {
    hide TryDispatch;
    assert ([goal] + rest)[1..] == rest && ([suffix] + b)[1..] == b;
  }

  /** And it ends at the first refusal: a busy workspace, a full pool, a goal that vanished, or an error. */
  lemma PassEndsAtRefusal(
    s: System, goal: Goal, rest: seq<Goal>, suffix: string, b: seq<string>, strict: bool)
    requires |b| == |rest|
    requires var o := TryDispatch(s, goal, suffix, strict).1; o.Deferred? || o.NoWorker? || o.Vanished? || o.Raised?
    ensures Schedule(s, [goal] + rest, [suffix] + b, strict) == TryDispatch(s, goal, suffix, strict).0
  {
    hide TryDispatch;
  }

  // ---- Release and reaping ------------------------------------------------------------------------

  /** A goal's first release under its own loop: what it writes to slot, index, reservations and guard. */
  lemma ReleaseMeans(s: System, g: GoalId, lid: LoopId, status: J.EntryStatus, ok: bool, strict: bool)
    requires Inv(s, strict) && g !in s.released && Runs(s.pool, lid, g) && status != J.Running
    ensures lid in s.pool.byLoop
    ensures var e := Release(s, g, lid, status, ok); var t := s.pool.byLoop[lid];
      && e.released == s.released + {g} && e.reservations == s.reservations - {g} && e.goals == s.goals
      && t in e.pool.slots && e.pool.slots[t].status == P.Idle && e.pool.slots[t].currentGoal == None
      && e.pool.slots[t].lastOk == ok && t in e.pool.idle
      && (forall j, entry: J.Entry :: J.Recorded(e.index, j, entry) && entry.loopId == lid ==> entry.status == status)
      && (forall j, entry: J.Entry :: entry.loopId != lid ==>
          (J.Recorded(e.index, j, entry) <==> J.Recorded(s.index, j, entry)))
  {
    LoopRunsOneGoal(s.pool, lid, g);
    IdledAtRelease(s.pool, lid, ok);
    assert J.Active(s.index, (lid, g));
    var job :| job in s.index.records && J.IsRunning(s.index.records[job], lid, g);
    assert J.Holds(s.index.records[job], lid);
    assert JE.EndsUnder(s.index, lid, None, job);
    assert J.Inv(s.index);
    hide Inv, P.MarkIdle, J.RecordEnd, J.Inv, J.Recorded, P.Inv, Runs, JE.EndsUnder;
    JE.EndWritesStatus(s.index, lid, status, None, job);
  }

  lemma IdledAtRelease(p: P.Pool, lid: LoopId, ok: bool)
    requires P.Inv(p) && lid in p.byLoop
    ensures var (t, q) := (p.byLoop[lid], P.MarkIdle(p, lid, ok));
      && t in q.slots && q.slots[t].status == P.Idle && q.slots[t].currentGoal == None && q.slots[t].lastOk == ok
      && t in q.idle
  {
    P.LookupExact(p, lid);
  }

  /** The slot goes when it is idle; every other slot stays as it is. */
  lemma ReapOneExact(s: System, t: P.SlotId)
    requires P.Inv(s.pool)
    ensures forall u :: u in Reap(s, t).pool.slots <==>
      u in s.pool.slots && !(u == t && s.pool.slots[u].status == P.Idle)
    ensures forall u :: u in Reap(s, t).pool.slots ==> Reap(s, t).pool.slots[u] == s.pool.slots[u]
  {
    if s.pool.IsIdle(t) {
      P.LookupExact(s.pool, s.pool.slots[t].loopId);
    }
  }

  /** From `p` to `q` exactly the idle slots of `timedOut` numbered up to `n` have gone. */
  ghost predicate ReapedTo(p: P.Pool, q: P.Pool, timedOut: set<P.SlotId>, n: int) {
    && (forall t :: t in q.slots <==>
        t in p.slots && !(t in timedOut && 1 <= t <= n && p.slots[t].status == P.Idle))
    && (forall t :: t in q.slots ==> q.slots[t] == p.slots[t])
  }

  lemma NoneReaped(p: P.Pool, timedOut: set<P.SlotId>)
    ensures ReapedTo(p, p, timedOut, 0)
  {
  }

  lemma ReapedNext(p: P.Pool, q: P.Pool, r: P.Pool, timedOut: set<P.SlotId>, n: nat)
    requires n > 0 && ReapedTo(p, q, timedOut, n - 1)
    requires if n in timedOut
      then (forall u :: u in r.slots <==> u in q.slots && !(u == n && q.slots[u].status == P.Idle))
        && (forall u :: u in r.slots ==> r.slots[u] == q.slots[u])
      else r == q
    ensures ReapedTo(p, r, timedOut, n)
  {
  }

  lemma PoolConsistent(s: System, strict: bool)
    requires Inv(s, strict)
    ensures P.Inv(s.pool)
  {
  }

  /** The idle pass removes exactly the idle slots past their timeout. */
  lemma {:induction false} ReapedExactly(s: System, timedOut: set<P.SlotId>, n: nat, strict: bool)
    requires Inv(s, strict)
    ensures ReapedTo(s.pool, ReapUpTo(s, timedOut, n).pool, timedOut, n)
  {
    hide Inv, P.Inv, Reap, ReapedTo;
    NoneReaped(s.pool, timedOut);
    if n > 0 {
      var before := ReapUpTo(s, timedOut, n - 1);
      ReapedExactly(s, timedOut, n - 1, strict);
      ReapingKeepsInv(s, timedOut, n - 1, strict);
      PoolConsistent(before, strict);
      ReapOneExact(before, n);
      ReapedNext(s.pool, before.pool, ReapUpTo(s, timedOut, n).pool, timedOut, n);
    }
  }
}
