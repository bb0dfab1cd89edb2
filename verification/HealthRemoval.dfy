/** Removal of goals a health report suggests, guarded by `may_auto_remove` (goal_dag_verifier.py). */
module HealthRemoval {
  import opened Prelude
  import opened Goals
  import opened GoalTree

  // ---- Collecting a subtree -------------------------------------------------------------------

  lemma {:induction false} ThroughAChild(d: Dag, x: GoalId, r: GoalId, n: nat) returns (c: GoalId)
    requires UnderBy(d, x, r, n) && r != ""
    ensures c in d && d[c].Parent() == Some(r) && InSubtree(d, c, x)
    ensures if n == 0 then c == x else c != "" && UnderBy(d, x, c, n - 1)
    decreases n
  {
    if n == 0 {
      return x;
    }
    var p := d[x].Parent().value;
    c := ThroughAChild(d, p, r, n - 1);
    assert UnderBy(d, x, c, n - 1);
  }

  lemma BelowAChild(d: Dag, x: GoalId, r: GoalId, c: GoalId)
    requires r != "" && c in d && d[c].Parent() == Some(r) && InSubtree(d, c, x)
    ensures InSubtree(d, r, x)
  {
    assert UnderBy(d, c, r, 0);
    if x != c {
      var n: nat :| UnderBy(d, x, c, n);
      UnderTransitive(d, x, c, r, n);
    }
  }

  /** Some chain of `levels` parent links, all between known goals, ends at `r`. */
  ghost predicate Deep(d: Dag, r: GoalId, levels: nat) {
    levels == 0 || (r != "" && EndsChain(d, r, levels - 1))
  }

  ghost predicate EndsChain(d: Dag, r: GoalId, n: nat) {
    exists x :: UnderBy(d, x, r, n)
  }

  lemma DeepThroughChild(d: Dag, r: GoalId, c: GoalId, levels: nat)
    requires c in d && r != "" && d[c].Parent() == Some(r) && Deep(d, c, levels)
    ensures Deep(d, r, levels + 1)
  {
    assert UnderBy(d, c, r, 0);
    if levels > 0 {
      var x :| UnderBy(d, x, c, levels - 1);
      ChainOverChild(d, x, c, r, levels - 1);
    }
  }

  lemma {:induction false} ChainOverChild(d: Dag, x: GoalId, c: GoalId, r: GoalId, n: nat)
    requires UnderBy(d, x, c, n) && c in d && c != "" && d[c].Parent() == Some(r)
    ensures UnderBy(d, x, r, n + 1)
    decreases n
  {
    if n == 0 {
      assert UnderBy(d, c, r, 0);
    } else {
      ChainOverChild(d, d[x].Parent().value, c, r, n - 1);
    }
  }

  /** Deepest first: whatever lies below a listed goal is listed before it. */
  ghost predicate DeepestFirst(d: Dag, ids: seq<GoalId>) {
    forall i, x :: 0 <= i < |ids| && InSubtree(d, ids[i], x) && x != ids[i] ==> x in ids[..i]
  }

  lemma DeepestFirstConcat(d: Dag, a: seq<GoalId>, b: seq<GoalId>)
    requires DeepestFirst(d, a) && DeepestFirst(d, b)
    ensures DeepestFirst(d, a + b)
  {
    var ids := a + b;
    forall i, x | 0 <= i < |ids| && InSubtree(d, ids[i], x) && x != ids[i]
      ensures x in ids[..i]
    {
      if i < |a| {
        assert ids[..i] == a[..i];
      } else {
        assert ids[..i] == a + b[..i - |a|];
      }
    }
  }

  lemma DeepestFirstLast(d: Dag, below: seq<GoalId>, g: GoalId)
    requires DeepestFirst(d, below) && forall x :: InSubtree(d, g, x) && x != g ==> x in below
    ensures DeepestFirst(d, below + [g])
  {
    var ids := below + [g];
    assert ids[..|below|] == below;
    forall i, x | 0 <= i < |ids| && InSubtree(d, ids[i], x) && x != ids[i]
      ensures x in ids[..i]
    {
      if i < |below| {
        assert ids[..i] == below[..i];
      }
    }
  }

  /** Two goals above the same goal: the farther one is above the nearer one. */
  lemma {:induction false} ChainsCompare(d: Dag, x: GoalId, a: GoalId, b: GoalId, n: nat, m: nat)
    requires UnderBy(d, x, a, n) && UnderBy(d, x, b, m) && n < m && a != ""
    ensures UnderBy(d, a, b, m - n - 1)
    decreases n
  {
    if n > 0 {
      ChainsCompare(d, d[x].Parent().value, a, b, n - 1, m - 1);
    }
  }

  lemma {:induction false} SameLengthSameEnd(d: Dag, x: GoalId, a: GoalId, b: GoalId, n: nat)
    requires UnderBy(d, x, a, n) && UnderBy(d, x, b, n)
    ensures a == b
    decreases n
  {
    if n > 0 {
      SameLengthSameEnd(d, d[x].Parent().value, a, b, n - 1);
    }
  }

  /** A child of `g` above another child of `g` puts `g` on a cycle. */
  lemma SiblingAboveIsCycle(d: Dag, g: GoalId, a: GoalId, b: GoalId)
    requires a in d && b in d && d[a].Parent() == Some(g) && d[b].Parent() == Some(g) && b != "" && Under(d, a, b)
    ensures OnCycle(d, g)
  {
    assert UnderBy(d, b, g, 0);
    UnderStep(d, a, b);
    if d[a].parentId == Some(b) {
      assert UnderBy(d, g, g, 0);
    } else {
      var n: nat :| UnderBy(d, g, b, n);
      ChainsJoin(d, g, b, g, n, 0);
    }
  }

  /** Two children of one goal that share a descendant put that goal on a cycle. */
  lemma SharedDescendantIsCycle(d: Dag, g: GoalId, a: GoalId, b: GoalId, x: GoalId)
    requires a in d && b in d && a != b && d[a].Parent() == Some(g) && d[b].Parent() == Some(g)
    requires InSubtree(d, a, x) && InSubtree(d, b, x)
    ensures OnCycle(d, g)
  {
    if x == a {
      SiblingAboveIsCycle(d, g, a, b);
    } else if x == b {
      SiblingAboveIsCycle(d, g, b, a);
    } else {
      var n: nat :| UnderBy(d, x, a, n);
      var m: nat :| UnderBy(d, x, b, m);
      if n == m {
        SameLengthSameEnd(d, x, a, b, n);
      } else if n < m {
        ChainsCompare(d, x, a, b, n, m);
        SiblingAboveIsCycle(d, g, a, b);
      } else {
        ChainsCompare(d, x, b, a, m, n);
        SiblingAboveIsCycle(d, g, b, a);
      }
    }
  }

  /**
   * The recursive `_visit`, with the interpreter's recursion limit: None stands for RecursionError. It
   * fails exactly when a chain of `limit` links leads down from the goal.
   */
  method Visit(children: map<GoalId, seq<GoalId>>, g: GoalId, limit: nat, ghost d: Dag) returns (ids: Option<seq<GoalId>>)
    requires WellKeyed(d) && ChildrenExact(d, children) && ChildrenDistinct(children) && g in d
    ensures ids.None? <==> Deep(d, g, limit)
    ensures ids.Some? ==> PostOrder(d, g, ids.value)
    decreases limit
  {
    if limit == 0 {
      return None;
    }
    var kids := if g in children then children[g] else [];
    ghost var acyclic := !Deep(d, g, limit);
    forall c | c in kids
      ensures c in d && g != "" && d[c].Parent() == Some(g)
    {
    }
    var below := [];
    for i := 0 to |kids|
      invariant ListsBelow(d, kids, i, below, acyclic)
      invariant forall k :: 0 <= k < i ==> !Deep(d, kids[k], limit - 1)
    {
      hide ListsBelow, PostOrder;
      assert kids[i] in kids;
      var part := Visit(children, kids[i], limit - 1, d);
      if part.None? {
        DeepThroughChild(d, g, kids[i], limit - 1);
        return None;
      }
      if acyclic && OnCycle(d, g) {
        CycleIsDeep(d, g, limit);
      }
      OneMoreChild(d, g, kids, i, below, part.value, acyclic);
      below := below + part.value;
    }
    if Deep(d, g, limit) {
      var c := DeepBelowAChild(d, children, g, limit);
    }
    ChildrenMakeSubtree(d, g, kids);
    SubtreeListed(d, g, kids, below, limit);
    ids := Some(below + [g]);
  }

  /** Exactly the subtree, each goal once, deepest first, the root last. */
  ghost predicate PostOrder(d: Dag, g: GoalId, ids: seq<GoalId>) {
    && (forall x :: x in ids <==> InSubtree(d, g, x))
    && NoDuplicates(ids) && DeepestFirst(d, ids)
    && ids != [] && ids[|ids| - 1] == g
  }

  /** The subtrees of the first `i` children, deepest first; each goal once unless there is a cycle. */
  ghost predicate ListsBelow(d: Dag, kids: seq<GoalId>, i: nat, below: seq<GoalId>, acyclic: bool)
    requires i <= |kids|
  {
    && (forall x :: x in below <==> exists k :: 0 <= k < i && InSubtree(d, kids[k], x))
    && DeepestFirst(d, below) && (acyclic ==> NoDuplicates(below))
  }

  lemma OneMoreChild(
    d: Dag, g: GoalId, kids: seq<GoalId>, i: nat, below: seq<GoalId>, part: seq<GoalId>, acyclic: bool)
    requires i < |kids| && ListsBelow(d, kids, i, below, acyclic) && PostOrder(d, kids[i], part)
    requires NoDuplicates(kids) && (forall c :: c in kids ==> c in d && d[c].Parent() == Some(g))
    requires acyclic ==> !OnCycle(d, g)
    ensures ListsBelow(d, kids, i + 1, below + part, acyclic)
  {
    DeepestFirstConcat(d, below, part);
    if acyclic {
      forall x | x in below && x in part
        ensures false
      {
        var k :| 0 <= k < i && InSubtree(d, kids[k], x);
        assert kids[k] in kids && kids[i] in kids && kids[k] != kids[i];
        SharedDescendantIsCycle(d, g, kids[k], kids[i], x);
      }
      DistinctConcat(below, part);
    }
  }

  lemma DistinctConcat(a: seq<GoalId>, b: seq<GoalId>)
    requires NoDuplicates(a) && NoDuplicates(b) && forall x :: x in a ==> x !in b
    ensures NoDuplicates(a + b)
  {
    assert forall i :: 0 <= i < |a| ==> (a + b)[i] == a[i] && a[i] in a;
    assert forall i :: |a| <= i < |a + b| ==> (a + b)[i] == b[i - |a|] && b[i - |a|] in b;
  }

  lemma SubtreeListed(d: Dag, g: GoalId, kids: seq<GoalId>, below: seq<GoalId>, limit: nat)
    requires g in d && ListsBelow(d, kids, |kids|, below, true) && !Deep(d, g, limit)
    requires forall c :: c in kids <==> c in d && d[c].Parent() == Some(g)
    requires forall x :: InSubtree(d, g, x) <==> x == g || exists k :: 0 <= k < |kids| && InSubtree(d, kids[k], x)
    ensures PostOrder(d, g, below + [g])
  {
    if g in below {
      var k :| 0 <= k < |kids| && InSubtree(d, kids[k], g);
      RootBelowIsCycle(d, g, kids[k]);
      CycleIsDeep(d, g, limit);
    }
    DeepestFirstLast(d, below, g);
    AppendDistinct(below, g);
  }

  lemma RootBelowIsCycle(d: Dag, g: GoalId, c: GoalId)
    requires g in d && c in d && d[c].Parent() == Some(g) && InSubtree(d, c, g)
    ensures OnCycle(d, g)
  {
    assert UnderBy(d, c, g, 0);
    if g != c {
      var n: nat :| UnderBy(d, g, c, n);
      ChainsJoin(d, g, c, g, n, 0);
    }
  }

  lemma DeepBelowAChild(d: Dag, children: map<GoalId, seq<GoalId>>, g: GoalId, levels: nat) returns (c: GoalId)
    requires ChildrenExact(d, children) && levels > 0 && Deep(d, g, levels)
    ensures g in children && c in children[g] && Deep(d, c, levels - 1)
  {
    var x :| UnderBy(d, x, g, levels - 1);
    c := ThroughAChild(d, x, g, levels - 1);
  }

  lemma ChildrenMakeSubtree(d: Dag, g: GoalId, kids: seq<GoalId>)
    requires g in d && forall c :: c in kids <==> c in d && d[c].Parent() == Some(g)
    ensures forall x :: InSubtree(d, g, x) <==> x == g || exists k :: 0 <= k < |kids| && InSubtree(d, kids[k], x)
  {
    forall x | InSubtree(d, g, x) && x != g
      ensures exists k :: 0 <= k < |kids| && InSubtree(d, kids[k], x)
    {
      var n: nat :| UnderBy(d, x, g, n);
      var c := ThroughAChild(d, x, g, n);
      var k :| 0 <= k < |kids| && kids[k] == c;
    }
    forall k, x | 0 <= k < |kids| && InSubtree(d, kids[k], x)
      ensures InSubtree(d, g, x)
    {
      assert kids[k] in kids;
      BelowAChild(d, x, g, kids[k]);
    }
  }

  /** The goals of the DAG, in some order. */
  method ListGoals(d: Dag) returns (listed: seq<Goal>)
    requires WellKeyed(d)
    ensures Lists(listed, d)
  {
    listed := [];
    var rest := d.Keys;
    while rest != {}
      invariant rest <= d.Keys
      invariant forall i, j :: 0 <= i < j < |listed| ==> listed[i].id != listed[j].id
      invariant forall i :: 0 <= i < |listed| ==> listed[i].id in d && d[listed[i].id] == listed[i] && listed[i].id !in rest
      invariant forall k :: k in d && k !in rest ==> d[k] in listed
    {
      var k :| k in rest;
      rest := rest - {k};
      listed := listed + [d[k]];
    }
  }

  /** `collect_subtree_ids`: a missing root has an empty subtree. */
  method CollectSubtreeIds(d: Dag, root: GoalId, limit: nat) returns (ids: Option<seq<GoalId>>)
    requires WellKeyed(d)
    ensures ids.None? <==> root in d && Deep(d, root, limit)
    ensures ids.Some? ==> if root in d then PostOrder(d, root, ids.value) else ids.value == []
  {
    if root !in d {
      return Some([]);
    }
    var listed := ListGoals(d);
    var children := ChildrenMap(listed, d);
    ids := Visit(children, root, limit, d);
  }

  lemma {:induction false} ChainsJoin(d: Dag, x: GoalId, y: GoalId, z: GoalId, a: nat, b: nat)
    requires UnderBy(d, x, y, a) && UnderBy(d, y, z, b) && y != ""
    ensures UnderBy(d, x, z, a + b + 1)
    decreases a
  {
    if a > 0 {
      ChainsJoin(d, d[x].Parent().value, y, z, a - 1, b);
    }
  }

  lemma {:induction false} ChainShortens(d: Dag, y: GoalId, r: GoalId, long: nat, n: nat) returns (x: GoalId)
    requires UnderBy(d, y, r, long) && n <= long
    ensures UnderBy(d, x, r, n)
    decreases long
  {
    if n == long {
      return y;
    }
    x := ChainShortens(d, d[y].Parent().value, r, long - 1, n);
  }

  /** Going round a cycle often enough. */
  lemma {:induction false} LongWayRound(d: Dag, r: GoalId, m: nat, n: nat) returns (long: nat)
    requires UnderBy(d, r, r, m) && r != ""
    ensures long >= n && UnderBy(d, r, r, long)
    decreases n
  {
    if n <= m {
      return m;
    }
    var less := LongWayRound(d, r, m, n - m - 1);
    ChainsJoin(d, r, r, r, m, less);
    long := m + less + 1;
  }

  /** A goal on a parent cycle has chains of every length: the recursion can only end in the error. */
  lemma CycleIsDeep(d: Dag, r: GoalId, levels: nat)
    requires OnCycle(d, r)
    ensures Deep(d, r, levels)
  {
    if levels > 0 {
      var m: nat :| UnderBy(d, r, r, m);
      var long := LongWayRound(d, r, m, levels - 1);
      var x := ChainShortens(d, r, r, long, levels - 1);
    }
  }

  /** Two cancelled goals, each the other's parent. */
  function CrossedParents(): Dag {
    map[
      "a" := Goal("a", Cancelled, Some("b"), [], [], [], false, [], 0, None, 0.0, 0.0, 0, ""),
      "b" := Goal("b", Cancelled, Some("a"), [], [], [], false, [], 0, None, 0.0, 0.0, 0, "")]
  }

  /** A concrete input: whatever the recursion limit, the guard on one of them raises. */
  lemma CrossedParentsOverflow(limit: nat)
    ensures WellKeyed(CrossedParents()) && Overflows(CrossedParents(), "a", limit)
  {
    var d := CrossedParents();
    assert UnderBy(d, "b", "a", 0);
    assert UnderBy(d, "a", "a", 1);
    CycleIsDeep(d, "a", limit);
  }

  // ---- The guard ------------------------------------------------------------------------------

  /** What `may_auto_remove` decides. */
  ghost predicate MayRemove(d: Dag, g: GoalId) {
    && g in d && (d[g].status == Cancelled || d[g].status == Failed)
    && (forall x :: x != g && InSubtree(d, g, x) ==> d[x].status.Terminal())
    && (forall x :: x in Dependents(d, g) ==> d[x].status.Terminal())
  }

  /** The guard gets as far as the subtree walk, and the walk exhausts the recursion limit. */
  ghost predicate Overflows(d: Dag, g: GoalId, limit: nat) {
    g in d && (d[g].status == Cancelled || d[g].status == Failed) && Deep(d, g, limit)
  }

  /** None where the subtree walk ends in RecursionError. */
  method MayAutoRemove(d: Dag, g: GoalId, limit: nat) returns (may: Option<bool>)
    requires WellKeyed(d)
    ensures may.Some? ==> (may.value <==> MayRemove(d, g))
    ensures may.None? <==> Overflows(d, g, limit)
  {
    if g !in d {
      return Some(false);
    }
    if d[g].status != Cancelled && d[g].status != Failed {
      return Some(false);
    }
    var subtree := CollectSubtreeIds(d, g, limit);
    if subtree.None? {
      return None;
    }
    for i := 0 to |subtree.value|
      invariant forall k :: 0 <= k < i ==> subtree.value[k] in d
      invariant forall k :: 0 <= k < i ==> subtree.value[k] == g || d[subtree.value[k]].status.Terminal()
    {
      assert subtree.value[i] in subtree.value;
      if subtree.value[i] != g && !d[subtree.value[i]].status.Terminal() {
        return Some(false);
      }
    }
    assert forall x :: x != g && InSubtree(d, g, x) ==> x in subtree.value && d[x].status.Terminal();
    var rest := Dependents(d, g);
    while rest != {}
      invariant rest <= Dependents(d, g)
      invariant forall x :: x in Dependents(d, g) && x !in rest ==> d[x].status.Terminal()
    {
      var x :| x in rest;
      rest := rest - {x};
      if !d[x].status.Terminal() {
        return Some(false);
      }
    }
    return Some(true);
  }

  // ---- What no list of suggestions can do -----------------------------------------------------

  /**
   * From `d` to `e` only cancelled or failed goals disappeared, the others are untouched, and no goal
   * still open lost a hard dependency or a parent ancestor it had.
   */
  ghost predicate OpenWorkIntact(d: Dag, e: Dag) {
    && (forall k :: k in e ==> k in d && e[k] == d[k])
    && (forall k :: k in d && k !in e ==> d[k].status == Cancelled || d[k].status == Failed)
    && (forall y :: y in d && !d[y].status.Terminal() ==> LinksIntact(d, e, y))
  }

  ghost predicate LinksIntact(d: Dag, e: Dag, y: GoalId)
    requires y in d
  {
    && (forall dep :: dep in d[y].dependsOn && dep in d ==> dep in e)
    && (forall z :: z != "" && Under(d, y, z) ==> Under(e, y, z) && (z in d ==> z in e))
  }

  lemma {:induction false} ChainAvoids(d: Dag, g: GoalId, y: GoalId, z: GoalId, n: nat)
    requires y != g && !(g != "" && Under(d, y, g)) && UnderBy(d, y, z, n)
    ensures UnderBy(d - {g}, y, z, n)
    decreases n
  {
    if n > 0 {
      UnderStep(d, y, g);
      ChainAvoids(d, g, d[y].Parent().value, z, n - 1);
    }
  }

  lemma RemovalKeepsOpenWork(d: Dag, g: GoalId)
    requires MayRemove(d, g) && Dependents(d, g) == {}
    ensures OpenWorkIntact(d, d - {g})
  {
    var e := d - {g};
    forall y | y in d && !d[y].status.Terminal()
      ensures LinksIntact(d, e, y)
    {
      assert y !in Dependents(d, g);
      assert !(g != "" && Under(d, y, g)) by {
        assert !InSubtree(d, g, y);
      }
      forall z | z != "" && Under(d, y, z)
        ensures Under(e, y, z) && (z in d ==> z in e)
      {
        var n: nat :| UnderBy(d, y, z, n);
        ChainAvoids(d, g, y, z, n);
      }
    }
  }

  lemma OpenWorkTransitive(d: Dag, e: Dag, f: Dag)
    requires OpenWorkIntact(d, e) && OpenWorkIntact(e, f)
    ensures OpenWorkIntact(d, f)
  {
    forall y | y in d && !d[y].status.Terminal()
      ensures LinksIntact(d, f, y)
    {
      assert y in e && LinksIntact(d, e, y) && LinksIntact(e, f, y);
    }
  }

  /** One suggestion: a goal others still depend on stays. */
  ghost function RemoveOne(d: Dag, g: GoalId): Dag {
    if MayRemove(d, g) && Dependents(d, g) == {} then d - {g} else d
  }

  ghost function RemoveAll(d: Dag, suggestions: seq<GoalId>): Dag {
    if suggestions == [] then d
    else RemoveOne(RemoveAll(d, suggestions[..|suggestions| - 1]), suggestions[|suggestions| - 1])
  }

  /** None of the first `n` suggestions overflowed when its turn came. */
  ghost predicate NoOverflow(d: Dag, suggestions: seq<GoalId>, n: nat, limit: nat)
    requires n <= |suggestions|
  {
    forall k :: 0 <= k < n ==> !Overflows(RemoveAll(d, suggestions[..k]), suggestions[k], limit)
  }

  lemma NextRemoval(d: Dag, suggestions: seq<GoalId>, k: nat, limit: nat)
    requires k < |suggestions|
    ensures RemoveAll(d, suggestions[..k + 1]) == RemoveOne(RemoveAll(d, suggestions[..k]), suggestions[k])
    ensures NoOverflow(d, suggestions, k + 1, limit) <==>
      NoOverflow(d, suggestions, k, limit) && !Overflows(RemoveAll(d, suggestions[..k]), suggestions[k], limit)
  {
    hide RemoveOne, Overflows;
    assert suggestions[..k + 1][..k] == suggestions[..k];
  }

  /** Whatever a health report suggests, in whatever order and however often, open work stays intact. */
  lemma {:induction false} RemoveAllKeepsOpenWork(d: Dag, suggestions: seq<GoalId>)
    ensures OpenWorkIntact(d, RemoveAll(d, suggestions))
  {
    if suggestions != [] {
      var before := RemoveAll(d, suggestions[..|suggestions| - 1]);
      RemoveAllKeepsOpenWork(d, suggestions[..|suggestions| - 1]);
      hide OpenWorkIntact, MayRemove;
      if RemoveAll(d, suggestions) != before {
        RemovalKeepsOpenWork(before, suggestions[|suggestions| - 1]);
        OpenWorkTransitive(d, before, RemoveAll(d, suggestions));
      }
    }
  }

  /**
   * The removal loop of `apply_health_report`. `done` counts the suggestions processed: all of them up to the
   * first whose subtree walk exhausts the recursion limit: that error leaves `apply_health_report`, the monitor
   * loop catches and logs it, and what the report suggested from there on is lost.
   */
  method ApplyRemovals(dag: GoalDag, suggestions: seq<GoalId>, limit: nat) returns (done: nat)
    requires WellKeyed(dag.goals)
    modifies dag
    ensures done <= |suggestions| && dag.goals == RemoveAll(old(dag.goals), suggestions[..done])
    ensures NoOverflow(old(dag.goals), suggestions, done, limit)
    ensures done < |suggestions| ==> Overflows(dag.goals, suggestions[done], limit)
    ensures OpenWorkIntact(old(dag.goals), dag.goals)
  {
    ghost var d := dag.goals;
    done := 0;
    assert suggestions[..0] == [] && NoOverflow(d, suggestions, 0, limit);
    assert RemoveAll(d, []) == d;
    hide *;
    while done < |suggestions|
      invariant done <= |suggestions| && WellKeyed(dag.goals)
      invariant dag.goals == RemoveAll(d, suggestions[..done]) && NoOverflow(d, suggestions, done, limit)
    {
      NextRemoval(d, suggestions, done, limit);
      var ok := ApplyRemoval(dag, suggestions[done], limit);
      if !ok {
        break;
      }
      done := done + 1;
    }
    RemoveAllKeepsOpenWork(d, suggestions[..done]);
  }

  /** One suggestion; false where the guard's subtree walk raises. */
  method ApplyRemoval(dag: GoalDag, g: GoalId, limit: nat) returns (ok: bool)
    requires WellKeyed(dag.goals)
    modifies dag
    ensures WellKeyed(dag.goals) && (ok <==> !Overflows(old(dag.goals), g, limit))
    ensures dag.goals == if ok then RemoveOne(old(dag.goals), g) else old(dag.goals)
  {
    hide MayRemove, Overflows;
    var may := MayAutoRemove(dag.goals, g, limit);
    if may.None? {
      return false;
    }
    if may.value {
      var removed := dag.RemoveGoal(g);
    }
    ok := true;
  }
}
