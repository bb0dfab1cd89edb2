/** Garbage collection of goals whose job root is already terminal (service.py, gc_orphaned_goals). */
module OrphanGc {
  import opened Prelude
  import opened Goals
  import opened GoalTree

  /** A live non-root goal under a terminal job root. */
  predicate Orphan(d: Dag, x: GoalId) {
    x in d && d[x].parentId.Some? && !d[x].status.Terminal()
    && var r := JobOf(d, d[x]); r in d && d[r].status.Terminal()
  }

  ghost function Orphans(d: Dag): set<GoalId> {
    set x | x in d && Orphan(d, x)
  }

  /** A live non-root goal under a job root that is not terminal. */
  predicate Spared(d: Dag, x: GoalId) {
    x in d && d[x].parentId.Some? && !d[x].status.Terminal() && !Orphan(d, x)
  }

  // ---- The pass -------------------------------------------------------------------------------

  /** What the root lookup gives: nothing for an empty root id, else a status or the mark for a missing root. */
  datatype Reading = NoRoot | Missing | Known(status: GoalStatus) {
    predicate Dead() {
      Missing? || (Known? && status.Terminal())
    }
  }

  type Cache = map<GoalId, Reading>

  datatype Pass = Pass(goals: Dag, cache: Cache, cancelled: nat)

  function ReadRoot(d: Dag, g: Goal, cache: Cache): (Reading, Cache) {
    var r := JobOf(d, g);
    if r == "" then (NoRoot, cache)
    else if r in cache then (cache[r], cache)
    else
      var now := if r in d then Known(d[r].status) else Missing;
      (now, cache[r := now])
  }

  function Collect(p: Pass, x: GoalId): Pass {
    if x !in p.goals || p.goals[x].parentId.None? || p.goals[x].status.Terminal() then p
    else
      var (reading, cache) := ReadRoot(p.goals, p.goals[x], p.cache);
      if reading.Dead() then Pass(p.goals[x := p.goals[x].(status := Cancelled)], cache, p.cancelled + 1)
      else p.(cache := cache)
  }

  /** The listed goals one after the other, statuses and the cache of root readings changing on the way. */
  function PassOver(d: Dag, listed: seq<GoalId>): Pass {
    if listed == [] then Pass(d, map[], 0)
    else Collect(PassOver(d, listed[..|listed| - 1]), listed[|listed| - 1])
  }

  method RootStatus(dag: GoalDag, goal: Goal, cache: Cache) returns (reading: Reading, cache': Cache)
    requires WellKeyed(dag.goals)
    ensures (reading, cache') == ReadRoot(dag.goals, goal, cache)
  {
    cache' := cache;
    var r := ResolveJobId(dag.goals, goal);
    if r == "" {
      return NoRoot, cache';
    }
    if r !in cache' {
      cache' := cache'[r := if r in dag.goals then Known(dag.goals[r].status) else Missing];
    }
    reading := cache'[r];
  }

  /** One goal of the pass. */
  method CollectOne(dag: GoalDag, x: GoalId, cache: Cache) returns (hit: bool, cache': Cache)
    requires WellKeyed(dag.goals) && x in dag.goals
    modifies dag
    ensures WellKeyed(dag.goals) && dag.goals.Keys == old(dag.goals.Keys)
    ensures forall n: nat ::
      Pass(dag.goals, cache', if hit then n + 1 else n) == Collect(Pass(old(dag.goals), cache, n), x)
  {
    var goal := dag.goals[x];
    if goal.parentId.None? || goal.status.Terminal() {
      return false, cache;
    }
    var reading;
    reading, cache' := RootStatus(dag, goal, cache);
    hit := reading.Dead();
    if hit {
      dag.CancelGoal(x);
    }
  }

  method GcOrphanedGoals(dag: GoalDag, listed: seq<GoalId>, enabled: bool) returns (cancelled: nat)
    requires WellKeyed(dag.goals) && Elements(listed) == dag.goals.Keys
    modifies dag
    ensures !enabled ==> dag.goals == old(dag.goals) && cancelled == 0
    ensures enabled ==> var p := PassOver(old(dag.goals), listed); dag.goals == p.goals && cancelled == p.cancelled
  {
    cancelled := 0;
    if !enabled {
      return;
    }
    ghost var d := dag.goals;
    var cache: Cache := map[];
    for i := 0 to |listed|
      invariant WellKeyed(dag.goals) && dag.goals.Keys == d.Keys
      invariant Pass(dag.goals, cache, cancelled) == PassOver(d, listed[..i])
    {
      assert listed[..i + 1][..i] == listed[..i];
      assert listed[i] in Elements(listed);
      var hit;
      hit, cache := CollectOne(dag, listed[i], cache);
      if hit {
        cancelled := cancelled + 1;
      }
    }
    assert listed[..|listed|] == listed;
  }

  // ---- What one pass achieves -----------------------------------------------------------------

  /** The intended outcome: exactly the orphans are cancelled. */
  function Collected(d: Dag): Dag {
    map x | x in d :: if Orphan(d, x) then d[x].(status := Cancelled) else d[x]
  }

  /** No spared goal belongs to a job whose root is itself an orphan. */
  ghost predicate RootsLive(d: Dag) {
    forall x :: Spared(d, x) ==> !Orphan(d, JobOf(d, d[x]))
  }

  /** On acyclic parent links a job root has no known parent, so it cannot be an orphan. */
  lemma AcyclicRootsLive(d: Dag)
    requires WellKeyed(d) && Acyclic(d)
    ensures RootsLive(d)
  {
    forall x | Spared(d, x)
      ensures !Orphan(d, JobOf(d, d[x]))
    {
      JobIsOwnJob(d, x);
    }
  }

  ghost predicate SameLinks(d: Dag, e: Dag) {
    d.Keys == e.Keys && forall x :: x in d ==> d[x].id == e[x].id && d[x].parentId == e[x].parentId
  }

  lemma {:induction false} RootFromSameLinks(d: Dag, e: Dag, g: Goal, h: Goal, seen: set<GoalId>)
    requires SameLinks(d, e) && g.id == h.id && g.parentId == h.parentId
    ensures RootFrom(d, g, seen) == RootFrom(e, h, seen)
    decreases d.Keys - seen
  {
    var p := g.Parent();
    if p.Some? && p.value in d && p.value !in seen {
      RootFromSameLinks(d, e, d[p.value], e[p.value], seen + {p.value});
    }
  }

  /** An empty job id is the goal's own. */
  lemma {:induction false} EmptyRootIsSelf(d: Dag, g: Goal, seen: set<GoalId>)
    requires WellKeyed(d) && RootFrom(d, g, seen) == ""
    ensures g.id == ""
    decreases d.Keys - seen
  {
    var p := g.Parent();
    if p.Some? && p.value in d && p.value !in seen {
      EmptyRootIsSelf(d, d[p.value], seen + {p.value});
    }
  }

  /** The goals in `done` have been cancelled and nothing else has happened. */
  ghost predicate Cancelling(d: Dag, e: Dag, done: set<GoalId>) {
    && d.Keys == e.Keys
    && forall x :: x in d ==> e[x] == if x in done then d[x].(status := Cancelled) else d[x]
  }

  ghost predicate CacheCorrect(d: Dag, cache: Cache) {
    forall r :: r in cache ==> r in d && cache[r] == Known(d[r].status)
  }

  /** Half way through, the status of a live goal's root still reads as it did at the start. */
  lemma RootsReadTheSame(d: Dag, p: Pass, done: set<GoalId>, x: GoalId)
    requires WellKeyed(d) && RootsLive(d) && Cancelling(d, p.goals, done) && done <= Orphans(d) && CacheCorrect(d, p.cache)
    requires x in d && d[x].parentId.Some? && !d[x].status.Terminal()
    ensures var (reading, cache) := ReadRoot(p.goals, d[x], p.cache);
      CacheCorrect(d, cache) && (reading.Dead() <==> Orphan(d, x))
  {
    RootFromSameLinks(d, p.goals, d[x], d[x], {d[x].id});
    RootFromFacts(d, x, {x});
    if JobOf(d, d[x]) == "" {
      EmptyRootIsSelf(d, d[x], {x});
    }
  }

  lemma CollectNext(d: Dag, p: Pass, done: set<GoalId>, x: GoalId)
    requires WellKeyed(d) && RootsLive(d) && Cancelling(d, p.goals, done) && done <= Orphans(d) && CacheCorrect(d, p.cache)
    requires x in d && x !in done
    ensures var q := Collect(p, x); var done' := if Orphan(d, x) then done + {x} else done;
      Cancelling(d, q.goals, done') && CacheCorrect(d, q.cache)
      && q.cancelled == p.cancelled + (if Orphan(d, x) then 1 else 0)
  {
    if d[x].parentId.Some? && !d[x].status.Terminal() {
      RootsReadTheSame(d, p, done, x);
    }
  }

  /** `hits` are the orphans among the listed goals. */
  ghost predicate HitsExact(d: Dag, listed: seq<GoalId>, hits: seq<GoalId>) {
    NoDuplicates(hits) && forall x :: x in hits <==> x in listed && Orphan(d, x)
  }

  lemma HitsNext(d: Dag, before: seq<GoalId>, x: GoalId, hits: seq<GoalId>)
    requires HitsExact(d, before, hits) && x !in before && forall y :: y in before ==> y in d
    ensures HitsExact(d, before + [x], if Orphan(d, x) then hits + [x] else hits)
    ensures Elements(hits) <= Orphans(d) && x !in Elements(hits) && Elements(hits + [x]) == Elements(hits) + {x}
  {
    hide Orphan;
    AppendDistinct(hits, x);
  }

  lemma {:induction false} PassCancelsOrphans(d: Dag, listed: seq<GoalId>) returns (hits: seq<GoalId>)
    requires WellKeyed(d) && RootsLive(d) && NoDuplicates(listed) && forall x :: x in listed ==> x in d
    ensures HitsExact(d, listed, hits)
    ensures var p := PassOver(d, listed);
      Cancelling(d, p.goals, Elements(hits)) && CacheCorrect(d, p.cache) && p.cancelled == |hits|
  {
    if listed == [] {
      return [];
    }
    hide Collect, Orphan, HitsExact, Cancelling, RootsLive, WellKeyed;
    var (before, x) := (listed[..|listed| - 1], listed[|listed| - 1]);
    assert listed == before + [x] && x !in before;
    hits := PassCancelsOrphans(d, before);
    HitsNext(d, before, x, hits);
    CollectNext(d, PassOver(d, before), Elements(hits), x);
    if Orphan(d, x) {
      hits := hits + [x];
    }
  }

  /**
   * When no spared goal's root is an orphan, one pass in any order cancels exactly the orphans, although the
   * cache is filled while the loop is changing statuses; no root and no terminal goal changes.
   */
  lemma PassIsExact(d: Dag, listed: seq<GoalId>)
    requires WellKeyed(d) && RootsLive(d) && NoDuplicates(listed) && Elements(listed) == d.Keys
    ensures PassOver(d, listed).goals == Collected(d) && PassOver(d, listed).cancelled == |Orphans(d)|
    ensures CacheCorrect(d, PassOver(d, listed).cache)
  {
    assert forall x :: x in listed <==> x in Elements(listed);
    var hits := PassCancelsOrphans(d, listed);
    assert Elements(hits) == Orphans(d);
    DistinctLength(hits);
  }

  /** After such a pass every non-root goal is terminal or under a live job. */
  lemma CollectedIsComplete(d: Dag)
    requires WellKeyed(d)
    ensures Orphans(Collected(d)) == {} <==> RootsLive(d)
  {
    var e := Collected(d);
    forall x
      ensures Orphan(e, x) <==> Spared(d, x) && Orphan(d, JobOf(d, d[x]))
    {
      LeftOver(d, x);
    }
    assert forall x :: x in Orphans(e) <==> Orphan(e, x);
  }

  lemma LeftOver(d: Dag, x: GoalId)
    requires WellKeyed(d)
    ensures Orphan(Collected(d), x) <==> Spared(d, x) && Orphan(d, JobOf(d, d[x]))
  {
    var e := Collected(d);
    if x in d {
      RootFromSameLinks(d, e, d[x], e[x], {d[x].id});
      RootFromFacts(d, x, {x});
    }
  }

  // ---- Arbitrary parent links -------------------------------------------------------------------

  /** A listing of all goals, each once. */
  ghost predicate Listing(d: Dag, listed: seq<GoalId>) {
    NoDuplicates(listed) && Elements(listed) == d.Keys
  }

  ghost predicate LeavesNone(d: Dag, listed: seq<GoalId>) {
    Orphans(PassOver(d, listed).goals) == {}
  }

  lemma {:induction false} ListRest(s: set<GoalId>) returns (listed: seq<GoalId>)
    ensures NoDuplicates(listed) && forall x :: x in listed <==> x in s
    decreases s
  {
    listed := [];
    if s != {} {
      var x :| x in s;
      var rest := ListRest(s - {x});
      listed := [x] + rest;
    }
  }

  /** From `d` to `e`: no link changed, nothing was revived, and only goals in `touched` changed at all. */
  ghost predicate ChangesOnly(d: Dag, e: Dag, touched: seq<GoalId>) {
    && SameLinks(d, e)
    && (forall x :: x in d && d[x].status.Terminal() ==> e[x].status.Terminal())
    && (forall x :: x in d && x !in touched ==> e[x] == d[x])
  }

  lemma OneMoreChange(d: Dag, p: Pass, touched: seq<GoalId>, x: GoalId)
    requires ChangesOnly(d, p.goals, touched)
    ensures ChangesOnly(d, Collect(p, x).goals, touched + [x])
  {
    hide ReadRoot;
    assert forall y :: y !in touched + [x] ==> y !in touched && y != x;
  }

  lemma {:induction false} RestChangesLittle(d: Dag, first: seq<GoalId>, rest: seq<GoalId>)
    ensures ChangesOnly(PassOver(d, first).goals, PassOver(d, first + rest).goals, rest)
    decreases |rest|
  {
    if rest == [] {
      assert first + rest == first;
    } else {
      var (init, x) := (rest[..|rest| - 1], rest[|rest| - 1]);
      assert (first + rest)[..|first + rest| - 1] == first + init;
      assert rest == init + [x];
      RestChangesLittle(d, first, init);
      hide ChangesOnly, Collect;
      OneMoreChange(PassOver(d, first).goals, PassOver(d, first + init), init, x);
    }
  }

  /** The spared goal is read first, its root is cancelled next. */
  lemma RootAfterGoal(d: Dag, x: GoalId)
    requires WellKeyed(d) && Spared(d, x) && Orphan(d, JobOf(d, d[x]))
    ensures var r := JobOf(d, d[x]); r != x && PassOver(d, [x, r]).goals == d[r := d[r].(status := Cancelled)]
  {
    var r := JobOf(d, d[x]);
    if r == "" {
      EmptyRootIsSelf(d, d[x], {x});
    }
    if JobOf(d, d[r]) == "" {
      EmptyRootIsSelf(d, d[r], {r});
    }
    hide JobOf;
    assert [x][..0] == [] && [x, r][..1] == [x];
    assert PassOver(d, [x]) == Collect(PassOver(d, []), x) == Pass(d, map[r := Known(d[r].status)], 0);
  }

  lemma OrphanedLater(d: Dag, e: Dag, x: GoalId)
    requires Spared(d, x) && SameLinks(d, e) && e[x] == d[x]
    requires var r := JobOf(d, d[x]); r in e && e[r].status.Terminal()
    ensures Orphan(e, x)
  {
    RootFromSameLinks(d, e, d[x], e[x], {d[x].id});
  }

  /** A spared goal seen before its orphan root is cancelled ends up stranded. */
  lemma StrandedByOrder(d: Dag, x: GoalId, rest: seq<GoalId>)
    requires WellKeyed(d) && Spared(d, x) && Orphan(d, JobOf(d, d[x])) && x !in rest
    ensures var r := JobOf(d, d[x]); Orphan(PassOver(d, [x, r] + rest).goals, x)
  {
    var r := JobOf(d, d[x]);
    RootAfterGoal(d, x);
    RestChangesLittle(d, [x, r], rest);
    assert x in d && r in d;
    hide PassOver, JobOf, Orphan, Spared, WellKeyed;
    var (two, e) := (PassOver(d, [x, r]).goals, PassOver(d, [x, r] + rest).goals);
    assert two[r].status == Cancelled && two[x] == d[x];
    OrphanedLater(d, e, x);
  }

  /**
   * On arbitrary links, cycles included: a pass leaves no orphan in whatever order the goals are listed
   * exactly when no goal it should spare belongs to a job whose root is an orphan.
   */
  lemma CompleteInEveryOrderIff(d: Dag)
    requires WellKeyed(d)
    ensures (forall listed :: Listing(d, listed) ==> LeavesNone(d, listed)) <==> RootsLive(d)
  {
    if RootsLive(d) {
      CollectedIsComplete(d);
      forall listed | Listing(d, listed)
        ensures LeavesNone(d, listed)
      {
        PassIsExact(d, listed);
      }
    } else {
      var x :| Spared(d, x) && Orphan(d, JobOf(d, d[x]));
      var listed := StrandingOrder(d, x);
      assert Listing(d, listed) && !LeavesNone(d, listed);
    }
  }

  lemma StrandingOrder(d: Dag, x: GoalId) returns (listed: seq<GoalId>)
    requires WellKeyed(d) && Spared(d, x) && Orphan(d, JobOf(d, d[x]))
    ensures Listing(d, listed) && !LeavesNone(d, listed)
  {
    var r := JobOf(d, d[x]);
    var rest := ListRest(d.Keys - {x, r});
    listed := [x, r] + rest;
    StrandedByOrder(d, x, rest);
    assert x in Orphans(PassOver(d, listed).goals);
  }

  /** A parent cycle can defeat one pass: `a` is collected as an orphan of `b`, and strands `c`. */
  lemma CycleDefeatsOnePass() returns (d: Dag, listed: seq<GoalId>)
    ensures WellKeyed(d) && Listing(d, listed) && !LeavesNone(d, listed)
  {
    var a := Goal("a", Active, Some("b"), [], [], [], false, [], 0, None, 0.0, 0.0, 0, "");
    var b := a.(id := "b", status := Completed, parentId := Some("a"));
    var c := a.(id := "c", status := Pending, parentId := Some("b"));
    d := map["a" := a, "b" := b, "c" := c];
    assert "a" in d && "b" in d && "c" in d;
    assert {"a"} + {"b"} == {"a", "b"};
    assert JobOf(d, a) == RootFrom(d, b, {"a", "b"}) == "b";
    assert {"c"} + {"b"} + {"a"} == {"c", "b", "a"};
    assert JobOf(d, c) == RootFrom(d, b, {"c"} + {"b"}) == RootFrom(d, a, {"c", "b", "a"}) == "a";
    listed := StrandingOrder(d, "c");
  }

  // ---- The pass without its own vocabulary --------------------------------------------------------

  /** `r` is the goal itself or above it, and no known goal is above `r`. */
  ghost predicate TopOf(d: Dag, x: GoalId, r: GoalId) {
    && InSubtree(d, r, x) && r in d
    && (d[r].parentId.None? || d[r].parentId.value == "" || d[r].parentId.value !in d)
  }

  lemma {:induction false} TopIsUnique(d: Dag, x: GoalId, r: GoalId, q: GoalId, n: nat)
    requires WellKeyed(d) && r != "" && UnderBy(d, x, r, n) && TopOf(d, x, r) && TopOf(d, x, q)
    ensures q == r
    decreases n
  {
    var p := d[x].parentId.value;
    assert d[x].parentId.Some? && p != "" && p in d by {
      if n == 0 {
        assert p == r;
      }
    }
    assert q != x;
    UnderStep(d, x, q);
    if n == 0 {
      AboveTop(d, r, q);
    } else {
      UnderStep(d, p, q);
      if p == q {
        AboveTop(d, q, r) by {
          assert UnderBy(d, p, r, n - 1);
        }
      } else {
        UnderStep(d, p, r);
        assert Under(d, p, r) by {
          assert UnderBy(d, p, r, n - 1);
        }
        TopIsUnique(d, p, r, q, n - 1);
      }
    }
  }

  /** Nothing is above a top goal. */
  lemma AboveTop(d: Dag, r: GoalId, q: GoalId)
    requires r in d && (d[r].parentId.None? || d[r].parentId.value == "" || d[r].parentId.value !in d)
    ensures q in d && q != "" ==> !Under(d, r, q)
  {
    UnderStep(d, r, q);
    if d[r].parentId.Some? && d[r].parentId.value != "" {
      UnderStep(d, d[r].parentId.value, q);
    }
  }

  lemma JobIsTop(d: Dag, x: GoalId)
    requires WellKeyed(d) && Acyclic(d) && x in d
    ensures TopOf(d, x, JobOf(d, d[x])) && forall q :: TopOf(d, x, q) ==> q == JobOf(d, d[x])
  {
    var r := JobOf(d, d[x]);
    JobIsOwnJob(d, x);
    if r == "" {
      EmptyRootIsSelf(d, d[x], {x});
    }
    forall q | TopOf(d, x, q)
      ensures q == r
    {
      if r == x {
        AboveTop(d, x, q);
      } else {
        var n: nat :| UnderBy(d, x, r, n);
        TopIsUnique(d, x, r, q, n);
      }
    }
  }

  /** Open, with a parent link, and under a top goal that is over. */
  ghost predicate Abandoned(d: Dag, x: GoalId) {
    && x in d && d[x].parentId.Some? && d[x].status !in {Completed, Failed, Cancelled}
    && exists r :: TopOf(d, x, r) && d[r].status in {Completed, Failed, Cancelled}
  }

  /** On acyclic links, in any listing order, the pass cancels exactly the abandoned goals. */
  lemma AcyclicPassMeans(d: Dag, listed: seq<GoalId>)
    requires WellKeyed(d) && Acyclic(d) && NoDuplicates(listed) && Elements(listed) == d.Keys
    ensures var e := PassOver(d, listed).goals;
      && e.Keys == d.Keys
      && forall x :: x in d ==> e[x] == if Abandoned(d, x) then d[x].(status := Cancelled) else d[x]
  {
    AcyclicRootsLive(d);
    PassIsExact(d, listed);
    forall x | x in d
      ensures Orphan(d, x) <==> Abandoned(d, x)
    {
      JobIsTop(d, x);
    }
  }
}
