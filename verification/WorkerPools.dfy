/**
 * The worker pool as mutable objects (pool.py). A worker reference handed out by `PickWorker` stays live:
 * its `loopId` field changes under the holder's feet when the slot is claimed again.
 */
module WorkerPools {
  import opened Prelude
  import opened LoopIds
  import opened PoolModel

  class WorkerSlot {
    const slotId: SlotId
    var loopId: LoopId
    var status: Status
    var currentGoal: Option<GoalId>
    var lastGoals: seq<GoalId>
    var lastOk: bool

    function View(): Slot
      reads this
    {
      Slot(loopId, status, currentGoal, lastGoals, lastOk)
    }

    constructor (slotId: SlotId, loopId: LoopId)
      ensures this.slotId == slotId && View() == Slot(loopId, Idle, None, [], true)
    {
      this.slotId, this.loopId := slotId, loopId;
      status, currentGoal, lastGoals, lastOk := Idle, None, [], true;
    }

    method Assign(goal: GoalId, lid: LoopId)
      modifies this
      ensures View() == old(View()).Assign(goal, lid)
    {
      status := Active;
      currentGoal := Some(goal);
      loopId := lid;
    }

    method ReleaseToIdle(ok: bool)
      modifies this
      ensures View() == old(View()).ReleaseToIdle(ok)
    {
      if currentGoal.Some? && currentGoal.value != "" {
        lastGoals := lastGoals + [currentGoal.value];
        if |lastGoals| > LAST_GOALS_MAX {
          lastGoals := lastGoals[1..];
        }
      }
      currentGoal := None;
      lastOk := ok;
      status := Idle;
    }
  }

  datatype PickResult = PickedWorker(worker: WorkerSlot) | NoWorker | RaisedBlankJobId

  class WorkerPool {
    const maxLoops: nat
    var workers: map<SlotId, WorkerSlot>
    var byLoop: map<LoopId, SlotId>
    var idle: seq<SlotId>
    var nextSeq: SlotId

    ghost predicate Valid()
      reads this, workers.Values
    {
      && 0 <= nextSeq
      && forall s :: s in workers ==> 1 <= s <= nextSeq && workers[s].slotId == s
    }

    /** Slot objects stay in place, and a new one sits under a number never used before. */
    twostate predicate Extends()
      reads this
    {
      && old(nextSeq) <= nextSeq
      && (forall s :: s in old(workers) ==> s in workers && workers[s] == old(workers[s]))
      && (forall s :: s in workers ==> s in old(workers) || s > old(nextSeq))
    }

    ghost function View(): Pool
      reads this, workers.Values
    {
      Pool(maxLoops, map s | s in workers :: workers[s].View(), byLoop, idle, nextSeq)
    }

    constructor (maxLoops: nat)
      requires maxLoops >= 1
      ensures Valid() && View() == Pool(maxLoops, map[], map[], [], 0) && workers == map[]
    {
      this.maxLoops := maxLoops;
      workers, byLoop, idle, nextSeq := map[], map[], [], 0;
    }

    method FindAffine(dependsOn: seq<GoalId>) returns (found: Option<SlotId>)
      requires Valid()
      ensures found == AffineSlot(View(), dependsOn)
    {
      ghost var p := View();
      assert dependsOn[0..] == dependsOn;
      hide *;
      for i := 0 to |dependsOn|
        invariant AffineSlot(p, dependsOn) == AffineSlot(p, dependsOn[i..])
      {
        AffineFrom(p, dependsOn, i);
        found := FindRecent(dependsOn[i]);
        if found.Some? {
          return;
        }
      }
      AffineFrom(p, dependsOn, |dependsOn|);
      return None;
    }

    /** The first idle worker, in slot order, that recently ran the goal. */
    method FindRecent(goal: GoalId) returns (found: Option<SlotId>)
      requires Valid()
      ensures found == FirstRecent(View(), goal, 0)
    {
      var s := 0;
      while s <= nextSeq
        invariant 0 <= s <= nextSeq + 1
        invariant FirstRecent(View(), goal, 0) == FirstRecent(View(), goal, s)
      {
        if s in workers && workers[s].status == Idle {
          if goal in workers[s].lastGoals || workers[s].currentGoal == Some(goal) {
            return Some(s);
          }
        }
        s := s + 1;
      }
      return None;
    }

    method PopIdleSlot() returns (found: Option<SlotId>)
      requires Valid()
      modifies this`idle
      ensures Valid() && (found, idle) == PopIdle(old(View()), old(idle)) && View() == old(View()).(idle := idle)
    {
      while idle != []
        invariant Valid()
        invariant PopIdle(old(View()), old(idle)) == PopIdle(old(View()), idle)
        decreases |idle|
      {
        var s := idle[0];
        idle := idle[1..];
        if s in workers && workers[s].status == Idle {
          return Some(s);
        }
      }
      return None;
    }

    /** `_claim`: the caller has found `w` idle in the pool. */
    method ClaimSlot(w: WorkerSlot, goal: GoalId, lid: LoopId)
      requires Valid() && w.slotId in workers && workers[w.slotId] == w
      modifies this`byLoop, this`idle, w
      ensures Valid() && View() == Claim(old(View()), w.slotId, goal, lid)
    {
      if w.loopId != "" && w.loopId in byLoop && byLoop[w.loopId] == w.slotId {
        byLoop := byLoop - {w.loopId};
      }
      w.Assign(goal, lid);
      byLoop := byLoop[lid := w.slotId];
      idle := RemoveFirst(idle, w.slotId);
      assert forall s :: s in workers && s != w.slotId ==> workers[s] != w;
      assert View().slots == old(View()).slots[w.slotId := w.View()];
    }

    method SpawnSlot(goal: GoalId, lid: LoopId) returns (w: WorkerSlot)
      requires Valid()
      modifies this`workers, this`byLoop, this`nextSeq
      ensures Valid() && View() == SpawnAndClaim(old(View()), goal, lid)
      ensures fresh(w) && w.slotId == nextSeq && workers == old(workers)[nextSeq := w]
    {
      nextSeq := nextSeq + 1;
      w := new WorkerSlot(nextSeq, lid);
      w.Assign(goal, lid);
      workers := workers[nextSeq := w];
      byLoop := byLoop[lid := nextSeq];
      assert View().slots == old(View()).slots[nextSeq := w.View()];
    }

    method FindPreferred(prefer: Option<Prefer>) returns (found: Option<SlotId>)
      requires Valid()
      ensures var preferred := ResolvePrefer(View(), prefer);
        found == if preferred.Some? && View().IsIdle(preferred.value) then preferred else None
    {
      found := match prefer
        case Some(BySlot(s)) => if s in workers then Some(s) else None
        case Some(ByLoop(l)) => if l in byLoop then Some(byLoop[l]) else None
        case None => None;
      if found.Some? && !(found.value in workers && workers[found.value].status == Idle) {
        found := None;
      }
    }

    method HasCapacity() returns (free: bool)
      requires Valid()
      ensures free == (|View().slots| < maxLoops)
    {
      free := |workers| < maxLoops;
      assert |workers.Keys| == |workers| && workers.Keys == View().slots.Keys && |View().slots.Keys| == |View().slots|;
    }

    /** The search order of `pick_worker`: preferred slot, sticky affinity, idle queue, spawn. */
    method ChooseSlot(dependsOn: seq<GoalId>, prefer: Option<Prefer>) returns (choice: Choice)
      requires Valid()
      modifies this`idle
      ensures Valid() && View() == old(View()).(idle := idle)
      ensures (choice, idle) == Choose(old(View()), dependsOn, prefer)
    {
      ghost var before := View();
      var found := FindPreferred(prefer);
      if found.Some? {
        return Reuse(found.value);
      }
      found := FindAffine(dependsOn);
      if found.Some? {
        return Reuse(found.value);
      }
      found := PopIdleSlot();
      if found.Some? {
        return Reuse(found.value);
      }
      assert View().slots == before.slots;
      var free := HasCapacity();
      choice := if free then Spawn else Full;
    }

    method BindSlot(choice: Choice, goal: GoalId, lid: Option<LoopId>) returns (result: PickResult)
      requires Valid() && (choice.Reuse? ==> choice.slot in workers)
      modifies this, workers.Values
      ensures Valid() && fresh(workers.Values - old(workers.Values)) && Extends()
      ensures View() == Bind(old(View()), choice, goal, lid).0
      ensures match Bind(old(View()), choice, goal, lid).1
        case Picked(s) => result.PickedWorker? && s in workers && workers[s] == result.worker
        case NoCapacity => result == NoWorker
        case BlankJobId => result == RaisedBlankJobId
    {
      match choice {
        case Reuse(s) =>
          if lid.None? {
            return RaisedBlankJobId;
          }
          ClaimSlot(workers[s], goal, lid.value);
          return PickedWorker(workers[s]);
        case Spawn =>
          if lid.None? {
            nextSeq := nextSeq + 1;
            return RaisedBlankJobId;
          }
          var w := SpawnSlot(goal, lid.value);
          return PickedWorker(w);
        case Full =>
          return NoWorker;
      }
    }

    method PickWorker(goal: GoalId, dependsOn: seq<GoalId>, jobId: string, suffix: string, prefer: Option<Prefer>)
      returns (result: PickResult)
      requires Valid()
      modifies this, workers.Values
      ensures Valid() && fresh(workers.Values - old(workers.Values)) && Extends()
      ensures View() == Pick(old(View()), goal, dependsOn, prefer, Allocate(jobId, suffix)).0
      ensures match Pick(old(View()), goal, dependsOn, prefer, Allocate(jobId, suffix)).1
        case Picked(s) => result.PickedWorker? && s in workers && workers[s] == result.worker
        case NoCapacity => result == NoWorker
        case BlankJobId => result == RaisedBlankJobId
    {
      var choice := ChooseSlot(dependsOn, prefer);
      result := BindSlot(choice, goal, Allocate(jobId, suffix));
    }

    method GetByLoopId(lid: LoopId) returns (found: Option<SlotId>)
      requires Valid()
      ensures found == SlotOfLoop(View(), lid)
    {
      if lid in byLoop {
        return if byLoop[lid] in workers then Some(byLoop[lid]) else None;
      }
      var s := 0;
      while s <= nextSeq
        invariant 0 <= s <= nextSeq + 1
        invariant ScanForLoop(View(), lid, 0) == ScanForLoop(View(), lid, s)
      {
        if s in workers && workers[s].loopId == lid {
          return Some(s);
        }
        s := s + 1;
      }
      return None;
    }

    method MarkSlotIdle(lid: LoopId, ok: bool)
      requires Valid()
      modifies this`idle, workers.Values
      ensures Valid() && View() == MarkIdle(old(View()), lid, ok)
    {
      var found := GetByLoopId(lid);
      if found.None? {
        return;
      }
      var w := workers[found.value];
      w.ReleaseToIdle(ok);
      if w.slotId !in idle {
        idle := idle + [w.slotId];
      }
      assert forall s :: s in workers && s != found.value ==> workers[s] != w;
      assert View().slots == old(View()).slots[found.value := w.View()];
    }

    method ReleaseSlot(lid: LoopId) returns (removed: Option<WorkerSlot>)
      requires Valid()
      modifies this
      ensures Valid() && View() == ReleaseWorker(old(View()), lid) && nextSeq == old(nextSeq)
      ensures workers.Values <= old(workers.Values)
      ensures forall s :: s in workers ==> s in old(workers) && workers[s] == old(workers[s])
      ensures removed.Some? <==> SlotOfLoop(old(View()), lid).Some?
    {
      var found := GetByLoopId(lid);
      if found.None? {
        return None;
      }
      var s := found.value;
      removed := Some(workers[s]);
      workers := workers - {s};
      byLoop := map l | l in byLoop && byLoop[l] != s :: byLoop[l];
      idle := RemoveFirst(idle, s);
      assert View().slots == old(View()).slots - {s};
    }

    /** `active_count`: the slots whose status is active. */
    method ActiveCount() returns (n: nat)
      requires Valid()
      ensures n == |set s | s in View().slots && View().slots[s].status == Active|
    {
      assert (set s | s in View().slots && View().slots[s].status == Active)
        == set s | s in workers && workers[s].View().status == Active;
      assert forall s :: s in workers ==> workers[s].View().status == workers[s].status;
      assert (set s | s in workers && workers[s].View().status == Active)
        == set s | s in workers && workers[s].status == Active;
      n := |set s | s in workers && workers[s].status == Active|;
    }
  }
}
