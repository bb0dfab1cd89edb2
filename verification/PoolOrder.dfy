/** Which idle slot a pick takes: one that ran a dependency, else the one idle longest (pool.py). */
module PoolOrder {
  import opened Prelude
  import opened LoopIds
  import opened PoolModel

  /** A goal ends on its slot: the slot is idle, remembers the last sixteen goals, and keeps its loop id. */
  lemma IdledSlot(p: Pool, lid: LoopId, ok: bool)
    requires Inv(p) && lid in p.byLoop
    ensures var (t, q) := (p.byLoop[lid], MarkIdle(p, lid, ok));
      var ran := p.slots[t].currentGoal;
      var all := p.slots[t].lastGoals + (if ran.Some? && ran.value != "" then [ran.value] else []);
      && t in q.slots && q.slots[t]
        == Slot(lid, Idle, None, if |all| > 16 then all[|all| - 16..] else all, ok)
      && (forall u :: u in p.slots && u != t ==> u in q.slots && q.slots[u] == p.slots[u])
  {
    LookupExact(p, lid);
    var t := p.byLoop[lid];
    var ran := p.slots[t].currentGoal;
    if ran.None? || ran.value == "" {
      assert p.slots[t].lastGoals + [] == p.slots[t].lastGoals;
    }
  }

  /** The idle slot remembers having run the goal. */
  ghost predicate Remembers(p: Pool, t: SlotId, g: GoalId) {
    t in p.slots && p.slots[t].status == Idle && g in p.slots[t].lastGoals
  }

  lemma RecentIsRemembered(p: Pool, t: SlotId, g: GoalId)
    requires Inv(p) && p.IsIdle(t)
    ensures p.slots[t].RecentlyRan(g) <==> Remembers(p, t, g)
  {
  }

  /** The first dependency some idle slot remembers decides, and of the slots that do, the lowest. */
  lemma {:induction false} AffineMeans(p: Pool, deps: seq<GoalId>, i: nat, t: SlotId)
    requires Inv(p) && i < |deps| && Remembers(p, t, deps[i])
    requires forall j, u :: 0 <= j < i ==> !Remembers(p, u, deps[j])
    ensures AffineSlot(p, deps).Some?
    ensures var r := AffineSlot(p, deps).value; Remembers(p, r, deps[i]) && r <= t
    decreases i
  {
    hide Inv, Remembers;
    Searched(p, deps[0]);
    if i == 0 {
      FoundFirst(p, deps[0], t);
    } else {
      assert FirstRecent(p, deps[0], 0).None? by {
        NoneRemembers(p, deps);
      }
      AffineMeans(p, deps[1..], i - 1, t);
    }
  }

  lemma Searched(p: Pool, g: GoalId)
    requires Inv(p)
    ensures var r := FirstRecent(p, g, 0); r.Some? ==> Remembers(p, r.value, g)
  {
    var r := FirstRecent(p, g, 0);
    if r.Some? {
      RecentIsRemembered(p, r.value, g);
    }
  }

  lemma FoundFirst(p: Pool, g: GoalId, t: SlotId)
    requires Inv(p) && Remembers(p, t, g)
    ensures FirstRecent(p, g, 0).Some? && FirstRecent(p, g, 0).value <= t
  {
    RecentIsRemembered(p, t, g);
  }

  lemma NoneRemembers(p: Pool, deps: seq<GoalId>)
    requires Inv(p) && deps != [] && forall u :: !Remembers(p, u, deps[0])
    ensures FirstRecent(p, deps[0], 0).None?
  {
    Searched(p, deps[0]);
  }

  /** Without a preferred slot: an idle slot that ran a dependency is picked, first dependency first. */
  lemma DependencySlotIsPicked(p: Pool, goal: GoalId, deps: seq<GoalId>, i: nat, t: SlotId, lid: LoopId)
    requires Inv(p) && i < |deps| && Remembers(p, t, deps[i])
    requires forall j, u :: 0 <= j < i ==> !Remembers(p, u, deps[j])
    ensures var result := Pick(p, goal, deps, None, Some(lid)).1;
      result.Picked? && Remembers(p, result.slot, deps[i]) && result.slot <= t
  {
    AffineMeans(p, deps, i, t);
    hide AffineSlot, Inv, Remembers;
  }

  /** A goal that just ended on a slot nobody else ran it on: a goal depending on it alone gets that slot. */
  lemma NextGetsItsDependencysSlot(p: Pool, g: GoalId, lid: LoopId, ok: bool, goal: GoalId, next: LoopId)
    requires Inv(p) && lid in p.byLoop && p.slots[p.byLoop[lid]].currentGoal == Some(g) && g != ""
    requires forall u :: u in p.slots ==> g !in p.slots[u].lastGoals
    ensures Pick(MarkIdle(p, lid, ok), goal, [g], None, Some(next)).1 == Picked(p.byLoop[lid])
  {
    var (t, q) := (p.byLoop[lid], MarkIdle(p, lid, ok));
    IdledSlot(p, lid, ok);
    MarkIdleKeepsInv(p, lid, ok);
    var all := p.slots[t].lastGoals + [g];
    assert all[|all| - 1] == g;
    assert |all| > 16 ==> all[|all| - 16..][15] == g;
    assert Remembers(q, t, [g][0]);
    hide MarkIdle, Pick, Inv;
    DependencySlotIsPicked(q, goal, [g], 0, t, next);
  }

  /** A preferred slot, named by its id or its loop, is taken when it is idle. */
  lemma PreferredIsPicked(p: Pool, goal: GoalId, deps: seq<GoalId>, prefer: Prefer, t: SlotId, lid: LoopId)
    requires Inv(p) && p.IsIdle(t)
    requires prefer == BySlot(t) || prefer == ByLoop(p.slots[t].loopId)
    ensures Pick(p, goal, deps, Some(prefer), Some(lid)).1 == Picked(t)
  {
  }

  // ---- The order of the idle queue ----------------------------------------------------------------

  /** When each slot last went idle, as operation numbers. */
  type Since = map<SlotId, nat>

  /** The operation numbered `now`: a slot that is not idle and whose loop is marked idle goes idle now. */
  ghost function Stamped(p: Pool, op: Op, since: Since, now: nat): Since {
    if op.IdleOp? && op.lid in p.byLoop && p.byLoop[op.lid] in p.slots && p.slots[p.byLoop[op.lid]].status == Active
    then since[p.byLoop[op.lid] := now] else since
  }

  ghost function SinceAfter(h: History, ops: seq<Op>, since: Since, now: nat): Since
    decreases |ops|
  {
    if ops == [] then since
    else SinceAfter(Apply(h, ops[0]), ops[1..], Stamped(h.pool, ops[0], since, now), now + 1)
  }

  function When(since: Since, t: SlotId): int {
    if t in since then since[t] else -1
  }

  /** The queue lists the idle slots by when they went idle. */
  ghost predicate ByIdleTime(queue: seq<SlotId>, since: Since, now: nat) {
    && (forall i :: 0 <= i < |queue| ==> 0 <= When(since, queue[i]) < now)
    && forall i, j :: 0 <= i < j < |queue| ==> When(since, queue[i]) < When(since, queue[j])
  }

  lemma TailByIdleTime(head: SlotId, rest: seq<SlotId>, since: Since, now: nat)
    requires ByIdleTime([head] + rest, since, now)
    ensures ByIdleTime(rest, since, now) && forall t :: t in rest ==> When(since, head) < When(since, t)
  {
    var queue := [head] + rest;
    assert queue[0] == head && forall i :: 0 <= i < |rest| ==> rest[i] == queue[i + 1];
  }

  lemma HeadByIdleTime(head: SlotId, rest: seq<SlotId>, since: Since, now: nat)
    requires ByIdleTime(rest, since, now) && 0 <= When(since, head) < now
    requires forall t :: t in rest ==> When(since, head) < When(since, t)
    ensures ByIdleTime([head] + rest, since, now)
  {
  }

  lemma {:induction false} RemovedByIdleTime(queue: seq<SlotId>, t: SlotId, since: Since, now: nat)
    requires ByIdleTime(queue, since, now)
    ensures ByIdleTime(RemoveFirst(queue, t), since, now)
    ensures forall u :: u in RemoveFirst(queue, t) ==> u in queue
  {
    if queue != [] {
      var (head, rest) := (queue[0], queue[1..]);
      assert queue == [head] + rest && 0 <= When(since, head) < now;
      hide ByIdleTime, When;
      TailByIdleTime(head, rest, since, now);
      RemovedByIdleTime(rest, t, since, now);
      if head != t {
        HeadByIdleTime(head, RemoveFirst(rest, t), since, now);
      }
    }
  }

  lemma AppendedByIdleTime(queue: seq<SlotId>, t: SlotId, since: Since, now: nat)
    requires ByIdleTime(queue, since, now) && t !in queue
    ensures ByIdleTime(queue + [t], since[t := now], now + 1)
  {
    forall i | 0 <= i < |queue|
      ensures When(since[t := now], queue[i]) == When(since, queue[i])
    {
      assert queue[i] in queue;
    }
  }

  lemma LaterByIdleTime(queue: seq<SlotId>, since: Since, now: nat)
    requires ByIdleTime(queue, since, now)
    ensures ByIdleTime(queue, since, now + 1)
  {
  }

  lemma PickKeepsIdleOrder(
    p: Pool, goal: GoalId, deps: seq<GoalId>, prefer: Option<Prefer>, lid: Option<LoopId>, since: Since, now: nat)
    requires Inv(p) && ByIdleTime(p.idle, since, now)
    ensures ByIdleTime(Pick(p, goal, deps, prefer, lid).0.idle, since, now)
  {
    hide ByIdleTime, Choose, Inv, When;
    ChooseExact(p, deps, prefer);
    var (choice, rest) := Choose(p, deps, prefer);
    if p.idle != [] {
      assert p.idle == [p.idle[0]] + p.idle[1..];
      TailByIdleTime(p.idle[0], p.idle[1..], since, now);
    }
    assert ByIdleTime(rest, since, now);
    if choice.Reuse? {
      RemovedByIdleTime(rest, choice.slot, since, now);
    }
  }

  lemma ApplyKeepsIdleOrder(h: History, op: Op, since: Since, now: nat)
    requires HistoryInv(h) && ByIdleTime(h.pool.idle, since, now)
    ensures ByIdleTime(Apply(h, op).pool.idle, Stamped(h.pool, op, since, now), now + 1)
  {
    var p := h.pool;
    match op {
      case PickOp(goal, deps, prefer, lid) =>
        hide ByIdleTime, Inv, Pick;
        PickKeepsIdleOrder(p, goal, deps, prefer, lid, since, now);
        LaterByIdleTime(Pick(p, goal, deps, prefer, lid).0.idle, since, now);
      case IdleOp(lid, ok) =>
        IdleKeepsIdleOrder(p, lid, ok, since, now);
      case ReleaseOp(lid) =>
        LookupExact(p, lid);
        hide ByIdleTime, Inv;
        LaterByIdleTime(p.idle, since, now);
        if lid in p.byLoop {
          RemovedByIdleTime(p.idle, p.byLoop[lid], since, now + 1);
        }
    }
  }

  lemma IdleKeepsIdleOrder(p: Pool, lid: LoopId, ok: bool, since: Since, now: nat)
    requires Inv(p) && ByIdleTime(p.idle, since, now)
    ensures ByIdleTime(MarkIdle(p, lid, ok).idle, Stamped(p, IdleOp(lid, ok), since, now), now + 1)
  {
    LookupExact(p, lid);
    if lid in p.byLoop {
      var t := p.byLoop[lid];
      assert t in p.idle <==> p.IsIdle(t);
      hide ByIdleTime, Inv;
      LaterByIdleTime(p.idle, since, now);
      if t !in p.idle {
        AppendedByIdleTime(p.idle, t, since, now);
      }
    } else {
      LaterByIdleTime(p.idle, since, now);
    }
  }

  /** Over every history the queue stays in the order in which its slots went idle. */
  lemma {:induction false} RunKeepsIdleOrder(h: History, ops: seq<Op>, since: Since, now: nat)
    requires HistoryInv(h) && DrawsFreshIds(h, ops) && ByIdleTime(h.pool.idle, since, now)
    ensures ByIdleTime(Run(h, ops).pool.idle, SinceAfter(h, ops, since, now), now + |ops|)
    decreases |ops|
  {
    if ops != [] {
      ApplyKeepsInv(h, ops[0]);
      hide ByIdleTime, HistoryInv, Apply, Stamped;
      ApplyKeepsIdleOrder(h, ops[0], since, now);
      RunKeepsIdleOrder(Apply(h, ops[0]), ops[1..], Stamped(h.pool, ops[0], since, now), now + 1);
    }
  }

  /** From an empty pool, after any history: a goal no idle slot has a dependency of gets the slot idle longest. */
  lemma LongestIdleIsPicked(maxLoops: nat, ops: seq<Op>, goal: GoalId, deps: seq<GoalId>, lid: LoopId)
    requires maxLoops >= 1
    requires var h := History(Pool(maxLoops, map[], map[], [], 0), {}); DrawsFreshIds(h, ops)
    requires var p := Run(History(Pool(maxLoops, map[], map[], [], 0), {}), ops).pool;
      (exists t :: p.IsIdle(t)) && forall t, i :: 0 <= i < |deps| ==> !Remembers(p, t, deps[i])
    ensures var h := History(Pool(maxLoops, map[], map[], [], 0), {});
      var (p, since) := (Run(h, ops).pool, SinceAfter(h, ops, map[], 0));
      var result := Pick(p, goal, deps, None, Some(lid)).1;
      && result.Picked? && p.IsIdle(result.slot)
      && forall t :: p.IsIdle(t) && t != result.slot ==> 0 <= When(since, result.slot) < When(since, t)
  {
    var h := History(Pool(maxLoops, map[], map[], [], 0), {});
    var (p, since) := (Run(h, ops).pool, SinceAfter(h, ops, map[], 0));
    assert Assigned(h.pool) == {};
    RunKeepsInv(h, ops);
    RunKeepsIdleOrder(h, ops, map[], 0);
    hide Run, SinceAfter, DrawsFreshIds;
    FrontIsPicked(p, goal, deps, lid, since, 0 + |ops|);
  }

  lemma FrontIsPicked(p: Pool, goal: GoalId, deps: seq<GoalId>, lid: LoopId, since: Since, now: nat)
    requires Inv(p) && ByIdleTime(p.idle, since, now) && (exists t :: p.IsIdle(t))
    requires forall t, i :: 0 <= i < |deps| ==> !Remembers(p, t, deps[i])
    ensures var result := Pick(p, goal, deps, None, Some(lid)).1;
      && result.Picked? && p.IsIdle(result.slot)
      && forall t :: p.IsIdle(t) && t != result.slot ==> 0 <= When(since, result.slot) < When(since, t)
  {
    var some :| p.IsIdle(some);
    assert some in p.idle;
    NoAffinity(p, deps);
    var front := p.idle[0];
    assert front in p.idle && p.IsIdle(front);
    forall t | p.IsIdle(t) && t != front
      ensures 0 <= When(since, front) < When(since, t)
    {
      assert t in p.idle;
      var k :| 0 <= k < |p.idle| && p.idle[k] == t;
      assert k > 0;
    }
    hide ByIdleTime, AffineSlot, Remembers;
    ChooseExact(p, deps, None);
  }

  lemma {:induction false} NoAffinity(p: Pool, deps: seq<GoalId>)
    requires Inv(p) && forall t, i :: 0 <= i < |deps| ==> !Remembers(p, t, deps[i])
    ensures AffineSlot(p, deps).None?
  {
    if deps != [] {
      NoneRemembers(p, deps);
      assert forall i :: 0 <= i < |deps[1..]| ==> deps[1..][i] == deps[i + 1];
      NoAffinity(p, deps[1..]);
    }
  }

  /** A reused slot runs the goal under the new loop and keeps what it remembers; no other slot changes. */
  lemma ReusedSlot(p: Pool, goal: GoalId, deps: seq<GoalId>, prefer: Option<Prefer>, lid: LoopId)
    requires Inv(p) && exists t :: p.IsIdle(t)
    ensures var (q, result) := Pick(p, goal, deps, prefer, Some(lid));
      && result.Picked? && p.IsIdle(result.slot) && q.nextSeq == p.nextSeq
      && var before := p.slots[result.slot];
        q.slots == p.slots[result.slot := Slot(lid, Active, Some(goal), before.lastGoals, before.lastOk)]
  {
    ChooseExact(p, deps, prefer);
  }

  /** With no slot idle and room left, a slot is spawned under the next number, and runs the goal. */
  lemma NextNumberIsSpawned(p: Pool, goal: GoalId, deps: seq<GoalId>, prefer: Option<Prefer>, lid: LoopId)
    requires Inv(p) && (forall t :: !p.IsIdle(t)) && |p.slots| < p.maxLoops
    ensures var (q, result) := Pick(p, goal, deps, prefer, Some(lid)); var t := p.nextSeq + 1;
      && result == Picked(t) && t !in p.slots && q.nextSeq == t
      && q.slots == p.slots[t := Slot(lid, Active, Some(goal), [], true)]
  {
    ChooseExact(p, deps, prefer);
  }
}
