/**
 * Abstract state of the worker pool (pool.py) and the functions its methods implement.
 * Slot ids are the spawn sequence numbers; dictionary order of slots is their numeric order.
 */
module PoolModel {
  import opened Prelude
  import opened LoopIds

  type GoalId = string
  type SlotId = int

  const LAST_GOALS_MAX := 16

  datatype Status = Idle | Active

  datatype Slot = Slot(
    loopId: LoopId, status: Status, currentGoal: Option<GoalId>, lastGoals: seq<GoalId>, lastOk: bool)
  {
    function Assign(goal: GoalId, lid: LoopId): Slot {
      this.(status := Active, currentGoal := Some(goal), loopId := lid)
    }

    function ReleaseToIdle(ok: bool): Slot {
      this.(status := Idle, currentGoal := None, lastOk := ok, lastGoals := Remembered())
    }

    /** The recency cache after a release: at most the last sixteen goals. */
    function Remembered(): (r: seq<GoalId>)
    {
      if currentGoal.None? || currentGoal.value == "" then lastGoals
      else
        var r := lastGoals + [currentGoal.value];
        if |r| > LAST_GOALS_MAX then r[1..] else r
    }

    predicate RecentlyRan(goal: GoalId) {
      goal in lastGoals || currentGoal == Some(goal)
    }
  }

  datatype Pool = Pool(
    maxLoops: nat, slots: map<SlotId, Slot>, byLoop: map<LoopId, SlotId>, idle: seq<SlotId>, nextSeq: SlotId)
  {
    predicate IsIdle(s: SlotId) {
      s in slots && slots[s].status == Idle
    }
  }

  datatype Prefer = BySlot(slot: SlotId) | ByLoop(loopId: LoopId)

  datatype Result = Picked(slot: SlotId) | NoCapacity | BlankJobId

  datatype Choice = Reuse(slot: SlotId) | Spawn | Full

  function ResolvePrefer(p: Pool, prefer: Option<Prefer>): Option<SlotId> {
    match prefer
    case Some(BySlot(s)) => if s in p.slots then Some(s) else None
    case Some(ByLoop(l)) => if l in p.byLoop then Some(p.byLoop[l]) else None
    case None => None
  }

  /** First idle slot, in dictionary order from `s` on, that recently ran `parent`. */
  function FirstRecent(p: Pool, parent: GoalId, s: SlotId): (r: Option<SlotId>)
    ensures r.Some? ==> r.value >= s && p.IsIdle(r.value) && p.slots[r.value].RecentlyRan(parent)
    ensures forall t :: s <= t <= p.nextSeq && p.IsIdle(t) && p.slots[t].RecentlyRan(parent) ==> r.Some? && r.value <= t
    decreases p.nextSeq + 1 - s
  {
    if s > p.nextSeq then None
    else if p.IsIdle(s) && p.slots[s].RecentlyRan(parent) then Some(s)
    else FirstRecent(p, parent, s + 1)
  }

  /** Sticky affinity: an idle slot that recently ran one of the goal's dependencies, earliest first. */
  function AffineSlot(p: Pool, dependsOn: seq<GoalId>): (r: Option<SlotId>)
    ensures r.Some? ==> p.IsIdle(r.value) && exists d :: d in dependsOn && p.slots[r.value].RecentlyRan(d)
    ensures r.None? ==> forall t, d :: d in dependsOn && 0 <= t <= p.nextSeq && p.IsIdle(t) ==> !p.slots[t].RecentlyRan(d)
  {
    if dependsOn == [] then None
    else
      var first := FirstRecent(p, dependsOn[0], 0);
      if first.Some? then first
      else
        assert dependsOn == [dependsOn[0]] + dependsOn[1..];
        AffineSlot(p, dependsOn[1..])
  }

  /** Dependency by dependency: the search from position `i` on. */
  lemma AffineFrom(p: Pool, dependsOn: seq<GoalId>, i: nat)
    requires i <= |dependsOn|
    ensures AffineSlot(p, dependsOn[i..]) ==
      if i == |dependsOn| then None
      else
        var first := FirstRecent(p, dependsOn[i], 0);
        if first.Some? then first else AffineSlot(p, dependsOn[i + 1..])
  {
    hide FirstRecent;
    if i < |dependsOn| {
      FromIndex(dependsOn, i);
    }
  }

  /** Pops queue entries until one is still idle. */
  function PopIdle(p: Pool, queue: seq<SlotId>): (r: (Option<SlotId>, seq<SlotId>))
    ensures r.0.Some? ==> p.IsIdle(r.0.value) && r.0.value in queue
    ensures r.0.None? ==> r.1 == [] && forall s :: s in queue ==> !p.IsIdle(s)
  {
    if queue == [] then (None, [])
    else if p.IsIdle(queue[0]) then (Some(queue[0]), queue[1..])
    else PopIdle(p, queue[1..])
  }

  /** Which slot `pick_worker` settles on, and the idle queue left behind by its search. */
  function Choose(p: Pool, dependsOn: seq<GoalId>, prefer: Option<Prefer>): (r: (Choice, seq<SlotId>))
    ensures r.0.Reuse? ==> p.IsIdle(r.0.slot)
  {
    var preferred := ResolvePrefer(p, prefer);
    if preferred.Some? && p.IsIdle(preferred.value) then (Reuse(preferred.value), p.idle)
    else
      var affine := AffineSlot(p, dependsOn);
      if affine.Some? then (Reuse(affine.value), p.idle)
      else
        var (head, rest) := PopIdle(p, p.idle);
        if head.Some? then (Reuse(head.value), rest)
        else (if |p.slots| < p.maxLoops then Spawn else Full, rest)
  }

  function Claim(p: Pool, s: SlotId, goal: GoalId, lid: LoopId): Pool
    requires s in p.slots
  {
    var previous := p.slots[s].loopId;
    var kept := if previous != "" && previous in p.byLoop && p.byLoop[previous] == s
      then p.byLoop - {previous} else p.byLoop;
    p.(slots := p.slots[s := p.slots[s].Assign(goal, lid)],
       byLoop := kept[lid := s],
       idle := RemoveFirst(p.idle, s))
  }

  function SpawnAndClaim(p: Pool, goal: GoalId, lid: LoopId): Pool {
    var s := p.nextSeq + 1;
    p.(nextSeq := s,
       slots := p.slots[s := Slot(lid, Idle, None, [], true).Assign(goal, lid)],
       byLoop := p.byLoop[lid := s])
  }

  /** Binds the chosen slot; `lid` is None when the job id is blank and allocating a loop id raises. */
  function Bind(p: Pool, choice: Choice, goal: GoalId, lid: Option<LoopId>): (Pool, Result)
    requires choice.Reuse? ==> choice.slot in p.slots
  {
    match choice
    case Reuse(s) =>
      if lid.None? then (p, BlankJobId) else (Claim(p, s, goal, lid.value), Picked(s))
    case Spawn =>
      if lid.None? then (p.(nextSeq := p.nextSeq + 1), BlankJobId)
      else (SpawnAndClaim(p, goal, lid.value), Picked(p.nextSeq + 1))
    case Full => (p, NoCapacity)
  }

  function Pick(p: Pool, goal: GoalId, dependsOn: seq<GoalId>, prefer: Option<Prefer>, lid: Option<LoopId>)
    : (Pool, Result)
  {
    var (choice, rest) := Choose(p, dependsOn, prefer);
    Bind(p.(idle := rest), choice, goal, lid)
  }

  /** Linear fallback of the loop-id lookup, in dictionary order. */
  function ScanForLoop(p: Pool, lid: LoopId, s: SlotId): (r: Option<SlotId>)
    ensures r.Some? ==> r.value in p.slots && p.slots[r.value].loopId == lid
    ensures r.None? ==> forall t :: s <= t <= p.nextSeq && t in p.slots ==> p.slots[t].loopId != lid
    decreases p.nextSeq + 1 - s
  {
    if s > p.nextSeq then None
    else if s in p.slots && p.slots[s].loopId == lid then Some(s)
    else ScanForLoop(p, lid, s + 1)
  }

  function SlotOfLoop(p: Pool, lid: LoopId): (r: Option<SlotId>)
    ensures r.Some? ==> r.value in p.slots
  {
    if lid in p.byLoop then (if p.byLoop[lid] in p.slots then Some(p.byLoop[lid]) else None)
    else ScanForLoop(p, lid, 0)
  }

  function MarkIdle(p: Pool, lid: LoopId, ok: bool): Pool {
    match SlotOfLoop(p, lid)
    case None => p
    case Some(s) =>
      p.(slots := p.slots[s := p.slots[s].ReleaseToIdle(ok)],
         idle := if s in p.idle then p.idle else p.idle + [s])
  }

  function ReleaseWorker(p: Pool, lid: LoopId): Pool {
    match SlotOfLoop(p, lid)
    case None => p
    case Some(s) =>
      p.(slots := p.slots - {s},
         byLoop := map l | l in p.byLoop && p.byLoop[l] != s :: p.byLoop[l],
         idle := RemoveFirst(p.idle, s))
  }

  // ---- Representation invariant -------------------------------------------------------------

  ghost predicate IdleQueueExact(p: Pool) {
    && NoDuplicates(p.idle)
    && forall s :: s in p.idle <==> p.IsIdle(s)
  }

  ghost predicate LoopIndexBijective(p: Pool) {
    && (forall s :: s in p.slots ==> p.slots[s].loopId in p.byLoop && p.byLoop[p.slots[s].loopId] == s)
    && (forall l :: l in p.byLoop ==> p.byLoop[l] in p.slots && p.slots[p.byLoop[l]].loopId == l)
  }

  ghost predicate Inv(p: Pool) {
    && 1 <= p.maxLoops && |p.slots| <= p.maxLoops && 0 <= p.nextSeq
    && (forall s :: s in p.slots ==> 1 <= s <= p.nextSeq && p.slots[s].loopId != "")
    && (forall s :: s in p.slots ==> (p.slots[s].status == Active <==> p.slots[s].currentGoal.Some?))
    && (forall s :: s in p.slots ==> |p.slots[s].lastGoals| <= LAST_GOALS_MAX)
    && IdleQueueExact(p)
    && LoopIndexBijective(p)
  }

  ghost predicate Fresh(p: Pool, lid: LoopId) {
    lid != "" && lid !in p.byLoop
  }

  /** The pairs (loop id, goal) of the active slots: who is running, and under which assignment. */
  ghost function Assigned(p: Pool): set<(LoopId, GoalId)> {
    set s | s in p.slots && p.slots[s].currentGoal.Some? :: (p.slots[s].loopId, p.slots[s].currentGoal.value)
  }

  /** The search falls through to the idle queue and finds something there. */
  predicate TakesFromQueue(p: Pool, dependsOn: seq<GoalId>, prefer: Option<Prefer>) {
    var preferred := ResolvePrefer(p, prefer);
    && !(preferred.Some? && p.IsIdle(preferred.value))
    && AffineSlot(p, dependsOn).None?
    && p.idle != []
  }

  lemma ChooseExact(p: Pool, dependsOn: seq<GoalId>, prefer: Option<Prefer>)
    requires Inv(p)
    ensures var (choice, rest) := Choose(p, dependsOn, prefer);
      && (choice.Reuse? ==> p.IsIdle(choice.slot))
      && (choice.Reuse? <==> exists s :: p.IsIdle(s))
      && (choice.Full? <==> |p.slots| == p.maxLoops && forall s :: !p.IsIdle(s))
      && rest == (if TakesFromQueue(p, dependsOn, prefer) then p.idle[1..] else p.idle)
      && (TakesFromQueue(p, dependsOn, prefer) ==> choice == Reuse(p.idle[0]))
  {
    if p.idle != [] {
      assert p.IsIdle(p.idle[0]);
    }
    assert forall s :: p.IsIdle(s) ==> s in p.idle;
  }

  /** No worker is handed out exactly when no slot is idle and the pool is full. */
  lemma NoCapacityIff(p: Pool, goal: GoalId, dependsOn: seq<GoalId>, prefer: Option<Prefer>, lid: Option<LoopId>)
    requires Inv(p)
    ensures Pick(p, goal, dependsOn, prefer, lid).1.NoCapacity?
      <==> |p.slots| == p.maxLoops && forall s :: !p.IsIdle(s)
    ensures Pick(p, goal, dependsOn, prefer, lid).1.NoCapacity? ==> Pick(p, goal, dependsOn, prefer, lid).0 == p
  {
    ChooseExact(p, dependsOn, prefer);
  }

  /** Claiming an idle slot through a queue from which the search may already have popped it. */
  lemma ClaimQueueExact(p: Pool, s: SlotId, goal: GoalId, lid: LoopId, rest: seq<SlotId>)
    requires IdleQueueExact(p) && p.IsIdle(s)
    requires rest == p.idle || (p.idle != [] && p.idle[0] == s && rest == p.idle[1..])
    ensures IdleQueueExact(Claim(p.(idle := rest), s, goal, lid))
  {
    var q := Claim(p.(idle := rest), s, goal, lid);
    RemoveFirstFromDistinct(p.idle, s);
    if rest != p.idle {
      assert s !in rest;
      RemoveFirstAbsent(rest, s);
    }
    assert q.idle == RemoveFirst(p.idle, s);
    assert forall t :: q.IsIdle(t) <==> p.IsIdle(t) && t != s;
  }

  lemma ClaimIndexBijective(p: Pool, s: SlotId, goal: GoalId, lid: LoopId)
    requires LoopIndexBijective(p) && s in p.slots && lid !in p.byLoop && p.slots[s].loopId != ""
    ensures LoopIndexBijective(Claim(p, s, goal, lid))
  {
    var q := Claim(p, s, goal, lid);
    var previous := p.slots[s].loopId;
    assert q.byLoop == (p.byLoop - {previous})[lid := s];
    forall t | t in q.slots
      ensures q.slots[t].loopId in q.byLoop && q.byLoop[q.slots[t].loopId] == t
    {
      assert t != s ==> p.slots[t].loopId != previous;
    }
  }

  lemma ClaimKeepsInv(p: Pool, s: SlotId, goal: GoalId, lid: LoopId, rest: seq<SlotId>)
    requires Inv(p) && p.IsIdle(s) && Fresh(p, lid)
    requires rest == p.idle || (p.idle != [] && p.idle[0] == s && rest == p.idle[1..])
    ensures Inv(Claim(p.(idle := rest), s, goal, lid))
    ensures Assigned(Claim(p.(idle := rest), s, goal, lid)) == Assigned(p) + {(lid, goal)}
  {
    var q := Claim(p.(idle := rest), s, goal, lid);
    ClaimQueueExact(p, s, goal, lid, rest);
    ClaimIndexBijective(p.(idle := rest), s, goal, lid);
    SameKeysSameSize(p.slots, q.slots);
    AssignedAfterUpdate(p, q, s);
  }

  lemma SameKeysSameSize<K, V>(m: map<K, V>, n: map<K, V>)
    ensures m.Keys == n.Keys ==> |m| == |n|
    ensures m.Keys <= n.Keys ==> |m| <= |n|
    ensures forall k :: k !in m && n.Keys == m.Keys + {k} ==> |n| == |m| + 1
  {
    assert |m| == |m.Keys| && |n| == |n.Keys|;
    if m.Keys <= n.Keys {
      assert |n.Keys - m.Keys| == |n.Keys| - |m.Keys|;
    }
  }

  /** Assigned pairs after one slot's record changes: the others keep theirs. */
  lemma AssignedAfterUpdate(p: Pool, q: Pool, s: SlotId)
    requires q.slots.Keys == p.slots.Keys + {s}
    requires forall t :: t in p.slots && t != s ==> q.slots[t] == p.slots[t]
    requires s in p.slots ==> p.slots[s].currentGoal.None?
    ensures Assigned(q) == Assigned(p)
      + (if q.slots[s].currentGoal.Some? then {(q.slots[s].loopId, q.slots[s].currentGoal.value)} else {})
  {
    forall x | x in Assigned(p)
      ensures x in Assigned(q)
    {
      var t :| t in p.slots && p.slots[t].currentGoal.Some? && x == (p.slots[t].loopId, p.slots[t].currentGoal.value);
      assert t in q.slots && q.slots[t] == p.slots[t];
    }
  }

  lemma SpawnKeepsInv(p: Pool, goal: GoalId, lid: LoopId)
    requires Inv(p) && Fresh(p, lid) && |p.slots| < p.maxLoops
    ensures Inv(SpawnAndClaim(p, goal, lid))
    ensures Assigned(SpawnAndClaim(p, goal, lid)) == Assigned(p) + {(lid, goal)}
  {
    var q := SpawnAndClaim(p, goal, lid);
    var s := p.nextSeq + 1;
    assert s !in p.slots;
    assert q.slots.Keys == p.slots.Keys + {s};
    SameKeysSameSize(p.slots, q.slots);
    SpawnQueueExact(p, goal, lid);
    SpawnIndexBijective(p, goal, lid);
    hide IdleQueueExact, LoopIndexBijective, Assigned;
    AssignedAfterUpdate(p, q, s);
  }

  lemma SpawnQueueExact(p: Pool, goal: GoalId, lid: LoopId)
    requires IdleQueueExact(p) && p.nextSeq + 1 !in p.slots
    ensures IdleQueueExact(SpawnAndClaim(p, goal, lid))
  {
    assert forall t :: SpawnAndClaim(p, goal, lid).IsIdle(t) <==> p.IsIdle(t);
  }

  lemma SpawnIndexBijective(p: Pool, goal: GoalId, lid: LoopId)
    requires LoopIndexBijective(p) && lid !in p.byLoop && p.nextSeq + 1 !in p.slots
    ensures LoopIndexBijective(SpawnAndClaim(p, goal, lid))
  {
  }

  /** What binding a choice leaves behind, whichever way it went. */
  ghost predicate BoundExactly(p: Pool, q: Pool, result: Result, goal: GoalId, lid: Option<LoopId>) {
    && (result.BlankJobId? ==> lid.None?)
    && (!result.Picked? ==> Assigned(q) == Assigned(p))
    && (result.Picked? ==> lid.Some? && Assigned(q) == Assigned(p) + {(lid.value, goal)})
    && (result.Picked? ==> result.slot in q.slots && q.slots[result.slot].loopId == lid.value)
    && (result.Picked? ==> q.slots[result.slot].currentGoal == Some(goal))
  }

  lemma ReuseKeepsInvIff(p: Pool, s: SlotId, rest: seq<SlotId>, goal: GoalId, lid: Option<LoopId>)
    requires Inv(p) && p.IsIdle(s) && (lid.Some? ==> Fresh(p, lid.value))
    requires rest == p.idle || (p.idle != [] && p.idle[0] == s && rest == p.idle[1..])
    ensures var (q, result) := Bind(p.(idle := rest), Reuse(s), goal, lid);
      BoundExactly(p, q, result, goal, lid) && (Inv(q) <==> lid.Some? || rest == p.idle)
  {
    if lid.Some? {
      ClaimKeepsInv(p, s, goal, lid.value, rest);
    } else if rest == p.idle {
      assert p.(idle := rest) == p;
    } else {
      LostToTheQueue(p, s, rest);
    }
  }

  lemma LostToTheQueue(p: Pool, s: SlotId, rest: seq<SlotId>)
    requires Inv(p) && p.IsIdle(s) && p.idle != [] && p.idle[0] == s && rest == p.idle[1..]
    ensures !Inv(p.(idle := rest)) && Assigned(p.(idle := rest)) == Assigned(p) && rest != p.idle
  {
    var q := p.(idle := rest);
    assert s !in rest && q.IsIdle(s);
  }

  lemma NewSlotKeepsInv(p: Pool, goal: GoalId, lid: Option<LoopId>)
    requires Inv(p) && |p.slots| < p.maxLoops && (lid.Some? ==> Fresh(p, lid.value))
    ensures var (q, result) := Bind(p, Spawn, goal, lid); BoundExactly(p, q, result, goal, lid) && Inv(q)
  {
    if lid.Some? {
      SpawnKeepsInv(p, goal, lid.value);
    }
  }

  /**
   * Picking keeps the pool consistent except in one case: a blank job id raises after an idle slot has
   * already been taken off the queue, and that slot is lost to the queue.
   */
  lemma PickKeepsInvIff(p: Pool, goal: GoalId, dependsOn: seq<GoalId>, prefer: Option<Prefer>, lid: Option<LoopId>)
    requires Inv(p) && (lid.Some? ==> Fresh(p, lid.value))
    ensures Inv(Pick(p, goal, dependsOn, prefer, lid).0) <==> lid.Some? || !TakesFromQueue(p, dependsOn, prefer)
    ensures var (q, result) := Pick(p, goal, dependsOn, prefer, lid); BoundExactly(p, q, result, goal, lid)
  {
    ChooseExact(p, dependsOn, prefer);
    var (choice, rest) := Choose(p, dependsOn, prefer);
    assert TakesFromQueue(p, dependsOn, prefer) ==> p.idle != [] && rest != p.idle;
    assert rest == p.idle ==> p.(idle := rest) == p;
    assert choice.Spawn? ==> |p.slots| < p.maxLoops;
    hide Choose, TakesFromQueue, Inv, Bind, BoundExactly, Fresh;
    match choice
    case Reuse(s) => ReuseKeepsInvIff(p, s, rest, goal, lid);
    case Spawn => NewSlotKeepsInv(p, goal, lid);
    case Full => RefusedChangesNothing(p, goal, lid);
  }

  lemma RefusedChangesNothing(p: Pool, goal: GoalId, lid: Option<LoopId>)
    ensures Bind(p, Full, goal, lid) == (p, NoCapacity) && BoundExactly(p, p, NoCapacity, goal, lid)
  {
  }

  lemma LookupExact(p: Pool, lid: LoopId)
    requires Inv(p)
    ensures SlotOfLoop(p, lid) == if lid in p.byLoop then Some(p.byLoop[lid]) else None
  {
    assert forall s :: s in p.slots ==> p.slots[s].loopId in p.byLoop;
  }

  lemma MarkIdleQueueExact(p: Pool, lid: LoopId, ok: bool)
    requires IdleQueueExact(p) && LoopIndexBijective(p) && lid in p.byLoop
    ensures IdleQueueExact(MarkIdle(p, lid, ok)) && LoopIndexBijective(MarkIdle(p, lid, ok))
  {
    var q := MarkIdle(p, lid, ok);
    assert forall t :: q.IsIdle(t) <==> p.IsIdle(t) || t == p.byLoop[lid];
  }

  lemma NotAssigned(p: Pool, lid: LoopId)
    requires LoopIndexBijective(p) && lid !in p.byLoop
    ensures Assigned(p) == set x | x in Assigned(p) && x.0 != lid
  {
    assert forall x :: x in Assigned(p) ==> x.0 in p.byLoop;
  }

  lemma MarkIdleKeepsInv(p: Pool, lid: LoopId, ok: bool)
    requires Inv(p)
    ensures Inv(MarkIdle(p, lid, ok))
    ensures Assigned(MarkIdle(p, lid, ok)) == set x | x in Assigned(p) && x.0 != lid
    ensures MarkIdle(p, lid, ok).byLoop == p.byLoop && MarkIdle(p, lid, ok).slots.Keys == p.slots.Keys
  {
    LookupExact(p, lid);
    if lid in p.byLoop {
      var q := MarkIdle(p, lid, ok);
      MarkIdleQueueExact(p, lid, ok);
      SameKeysSameSize(p.slots, q.slots);
      AssignedWithoutLoop(p, q, p.byLoop[lid], lid);
    } else {
      NotAssigned(p, lid);
    }
  }

  lemma AssignedWithoutLoop(p: Pool, q: Pool, s: SlotId, lid: LoopId)
    requires Inv(p) && s in p.slots && p.slots[s].loopId == lid
    requires p.slots.Keys - {s} <= q.slots.Keys <= p.slots.Keys
    requires forall t :: t in p.slots && t != s ==> q.slots[t] == p.slots[t]
    requires s in q.slots ==> q.slots[s].currentGoal.None?
    ensures Assigned(q) == set x | x in Assigned(p) && x.0 != lid
  {
    forall x | x in Assigned(p) && x.0 != lid
      ensures x in Assigned(q)
    {
      var t :| t in p.slots && p.slots[t].currentGoal.Some? && x == (p.slots[t].loopId, p.slots[t].currentGoal.value);
      assert t in q.slots && q.slots[t] == p.slots[t];
    }
    forall x | x in Assigned(q)
      ensures x in Assigned(p) && x.0 != lid
    {
      var t :| t in q.slots && q.slots[t].currentGoal.Some? && x == (q.slots[t].loopId, q.slots[t].currentGoal.value);
      assert t in p.slots && q.slots[t] == p.slots[t];
    }
  }

  lemma ReleaseIndexBijective(p: Pool, lid: LoopId)
    requires LoopIndexBijective(p) && lid in p.byLoop
    ensures ReleaseWorker(p, lid).byLoop == p.byLoop - {lid}
    ensures LoopIndexBijective(ReleaseWorker(p, lid))
  {
  }

  lemma ReleaseQueueExact(p: Pool, s: SlotId, q: Pool)
    requires IdleQueueExact(p) && q.idle == RemoveFirst(p.idle, s) && q.slots == p.slots - {s}
    ensures IdleQueueExact(q)
  {
    RemoveFirstFromDistinct(p.idle, s);
    assert forall t :: q.IsIdle(t) <==> p.IsIdle(t) && t != s;
  }

  lemma ReleaseKeepsInv(p: Pool, lid: LoopId)
    requires Inv(p)
    ensures Inv(ReleaseWorker(p, lid))
    ensures Assigned(ReleaseWorker(p, lid)) == set x | x in Assigned(p) && x.0 != lid
    ensures ReleaseWorker(p, lid).byLoop == p.byLoop - {lid}
  {
    LookupExact(p, lid);
    if lid in p.byLoop {
      var q := ReleaseWorker(p, lid);
      var s := p.byLoop[lid];
      ReleaseIndexBijective(p, lid);
      ReleaseQueueExact(p, s, q);
      SameKeysSameSize(q.slots, p.slots);
      AssignedWithoutLoop(p, q, s, lid);
    } else {
      NotAssigned(p, lid);
      assert p.byLoop == p.byLoop - {lid};
    }
  }

  // ---- Whole runs -----------------------------------------------------------------------------

  datatype Op =
    | PickOp(goal: GoalId, dependsOn: seq<GoalId>, prefer: Option<Prefer>, draw: Option<LoopId>)
    | IdleOp(lid: LoopId, ok: bool)
    | ReleaseOp(lid: LoopId)

  /** A pool together with every loop id ever issued. */
  datatype History = History(pool: Pool, used: set<LoopId>)

  function Apply(h: History, op: Op): History {
    match op
    case PickOp(goal, deps, prefer, lid) =>
      var (q, result) := Pick(h.pool, goal, deps, prefer, lid);
      History(q, if result.Picked? && lid.Some? then h.used + {lid.value} else h.used)
    case IdleOp(lid, ok) => History(MarkIdle(h.pool, lid, ok), h.used)
    case ReleaseOp(lid) => History(ReleaseWorker(h.pool, lid), h.used)
  }

  function Run(h: History, ops: seq<Op>): History
    decreases |ops|
  {
    if ops == [] then h else Run(Apply(h, ops[0]), ops[1..])
  }

  /**
   * Every pick draws a loop id never issued before (uuid4); one with a blank job id, which draws none and
   * raises, comes while it would take nothing from the queue.
   */
  ghost predicate PickInOrder(h: History, op: Op)
    requires op.PickOp?
  {
    match op.draw
    case Some(lid) => lid != "" && lid !in h.used
    case None => !TakesFromQueue(h.pool, op.dependsOn, op.prefer)
  }

  ghost predicate DrawsFreshIds(h: History, ops: seq<Op>)
    decreases |ops|
  {
    ops == [] || (
      && (ops[0].PickOp? ==> PickInOrder(h, ops[0]))
      && DrawsFreshIds(Apply(h, ops[0]), ops[1..]))
  }

  ghost predicate HistoryInv(h: History) {
    Inv(h.pool) && h.pool.byLoop.Keys <= h.used
  }

  /** One operation: consistency, ids only grow, and dead loop ids or slot ids never come back. */
  lemma ApplyKeepsInv(h: History, op: Op)
    requires HistoryInv(h) && (op.PickOp? ==> PickInOrder(h, op))
    ensures HistoryInv(Apply(h, op)) && h.used <= Apply(h, op).used
    ensures h.pool.nextSeq <= Apply(h, op).pool.nextSeq && Apply(h, op).pool.maxLoops == h.pool.maxLoops
    ensures forall l :: l in h.used && l !in h.pool.byLoop ==> l !in Apply(h, op).pool.byLoop
    ensures forall s :: s in Apply(h, op).pool.slots ==> s in h.pool.slots || s > h.pool.nextSeq
  {
    match op
    case PickOp(goal, deps, prefer, lid) =>
      PickKeepsInvIff(h.pool, goal, deps, prefer, lid);
      ChooseExact(h.pool, deps, prefer);
    case IdleOp(lid, ok) => MarkIdleKeepsInv(h.pool, lid, ok);
    case ReleaseOp(lid) => ReleaseKeepsInv(h.pool, lid);
  }

  /**
   * Over every run: the representation invariant holds, removed slot ids are never reused, and a loop id
   * that no longer names a slot never names one again.
   */
  lemma {:induction false} RunKeepsInv(h: History, ops: seq<Op>)
    requires HistoryInv(h) && DrawsFreshIds(h, ops)
    ensures HistoryInv(Run(h, ops))
    ensures h.pool.nextSeq <= Run(h, ops).pool.nextSeq
    ensures forall l :: l in h.used && l !in h.pool.byLoop ==> l !in Run(h, ops).pool.byLoop
    ensures forall s :: s in Run(h, ops).pool.slots ==> s in h.pool.slots || s > h.pool.nextSeq
    decreases |ops|
  {
    if ops != [] {
      ApplyKeepsInv(h, ops[0]);
      RunKeepsInv(Apply(h, ops[0]), ops[1..]);
    }
  }

  /**
   * Stale loop ids are inert for ever: once the slot that `stale` named has been claimed under a new loop
   * id, no later `mark_idle` or `release_worker` with it changes anything, through either lookup.
   */
  lemma StaleLoopIdInert(h: History, s: SlotId, goal: GoalId, lid: LoopId, ops: seq<Op>, ok: bool)
    requires HistoryInv(h) && h.pool.IsIdle(s)
    requires lid != "" && lid !in h.used
    requires var claimed := History(Claim(h.pool, s, goal, lid), h.used + {lid}); DrawsFreshIds(claimed, ops)
    ensures var stale := h.pool.slots[s].loopId;
      var end := Run(History(Claim(h.pool, s, goal, lid), h.used + {lid}), ops).pool;
      MarkIdle(end, stale, ok) == end && ReleaseWorker(end, stale) == end
  {
    var stale := h.pool.slots[s].loopId;
    var claimed := History(Claim(h.pool, s, goal, lid), h.used + {lid});
    ClaimKeepsInv(h.pool, s, goal, lid, h.pool.idle);
    assert h.pool.(idle := h.pool.idle) == h.pool;
    assert stale in h.used && stale !in claimed.pool.byLoop;
    RunKeepsInv(claimed, ops);
    LookupExact(Run(claimed, ops).pool, stale);
  }
}
