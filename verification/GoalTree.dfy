/** Downward and upward views of the `parent_id` tree (service.py): job root, descendants, snapshot, tokens. */
module GoalTree {
  import opened Prelude
  import opened Goals
  import opened GoalDepths

  // ---- Parent chains --------------------------------------------------------------------------

  /** `x` reaches `r` by n + 1 parent links, all from known goals. */
  ghost predicate UnderBy(d: Dag, x: GoalId, r: GoalId, n: nat)
    decreases n
  {
    x in d && if n == 0 then d[x].parentId == Some(r) else d[x].Parent().Some? && UnderBy(d, d[x].Parent().value, r, n - 1)
  }

  ghost predicate Under(d: Dag, x: GoalId, r: GoalId) {
    exists n: nat :: UnderBy(d, x, r, n)
  }

  ghost predicate OnCycle(d: Dag, x: GoalId) {
    x != "" && Under(d, x, x)
  }

  ghost predicate Acyclic(d: Dag) {
    forall x :: x in d ==> !OnCycle(d, x)
  }

  lemma UnderStep(d: Dag, x: GoalId, r: GoalId)
    ensures Under(d, x, r) <==>
      x in d && (d[x].parentId == Some(r) || (d[x].Parent().Some? && Under(d, d[x].Parent().value, r)))
  {
    if x in d {
      if n: nat :| UnderBy(d, x, r, n) {
        if n > 0 {
          assert UnderBy(d, d[x].Parent().value, r, n - 1);
        }
      }
      if d[x].parentId == Some(r) {
        assert UnderBy(d, x, r, 0);
      }
      if d[x].Parent().Some? {
        if n: nat :| UnderBy(d, d[x].Parent().value, r, n) {
          assert UnderBy(d, x, r, n + 1);
        }
      }
    }
  }

  lemma {:induction false} UnderTransitive(d: Dag, x: GoalId, y: GoalId, z: GoalId, n: nat)
    requires UnderBy(d, x, y, n) && y != "" && Under(d, y, z)
    ensures Under(d, x, z)
    decreases n
  {
    UnderStep(d, x, z);
    if n > 0 {
      UnderTransitive(d, d[x].Parent().value, y, z, n - 1);
    }
  }

  /** The upward walk of `_is_descendant_of`. */
  method IsDescendantOf(d: Dag, goal: GoalId, ancestor: GoalId) returns (yes: bool)
    requires WellKeyed(d)
    ensures yes <==> goal != ancestor && Under(d, goal, ancestor)
  {
    if goal == ancestor {
      return false;
    }
    var seen: set<GoalId> := {};
    var cur := goal;
    while cur in d && cur !in seen
      invariant seen <= d.Keys
      invariant goal in seen || cur == goal
      invariant forall x :: x in seen ==> d[x].parentId != Some(ancestor)
      invariant forall x :: x in seen ==> d[x].Parent().Some? && (d[x].Parent().value in seen || d[x].Parent().value == cur)
      invariant Under(d, goal, ancestor) <==> Under(d, cur, ancestor)
      decreases d.Keys - seen
    {
      UnderStep(d, cur, ancestor);
      seen := seen + {cur};
      if d[cur].parentId == Some(ancestor) {
        return true;
      }
      if d[cur].Parent().None? {
        return false;
      }
      cur := d[cur].Parent().value;
    }
    if cur in d {
      ClosedLoopNeverArrives(d, seen, ancestor, goal);
    } else {
      UnderStep(d, cur, ancestor);
    }
    return false;
  }

  /** Parent links from `s` stay in `s` and never name `r`. */
  ghost predicate StaysInside(d: Dag, s: set<GoalId>, r: GoalId) {
    && s <= d.Keys
    && forall y :: y in s ==> d[y].parentId != Some(r) && d[y].Parent().Some? && d[y].Parent().value in s
  }

  /** A set of goals closed under parents, none of whose parents is `r`, never reaches `r`. */
  lemma ClosedLoopNeverArrives(d: Dag, s: set<GoalId>, r: GoalId, x: GoalId)
    requires StaysInside(d, s, r) && x in s
    ensures !Under(d, x, r)
  {
    if n: nat :| UnderBy(d, x, r, n) {
      ClosedLoopNeverArrivesIn(d, s, r, x, n);
    }
  }

  lemma NextInside(d: Dag, s: set<GoalId>, r: GoalId, x: GoalId)
    requires StaysInside(d, s, r) && x in s
    ensures x in d && d[x].parentId != Some(r) && d[x].Parent().Some? && d[x].Parent().value in s
  {
  }

  lemma {:induction false} ClosedLoopNeverArrivesIn(d: Dag, s: set<GoalId>, r: GoalId, x: GoalId, n: nat)
    requires StaysInside(d, s, r) && x in s
    ensures !UnderBy(d, x, r, n)
    decreases n
  {
    hide StaysInside;
    NextInside(d, s, r, x);
    if n > 0 {
      ClosedLoopNeverArrivesIn(d, s, r, d[x].Parent().value, n - 1);
    }
  }

  // ---- Job root -------------------------------------------------------------------------------

  function RootFrom(d: Dag, cur: Goal, seen: set<GoalId>): GoalId
    decreases d.Keys - seen
  {
    match cur.Parent()
    case None => cur.id
    case Some(p) => if p !in d || p in seen then cur.id else RootFrom(d, d[p], seen + {p})
  }

  function JobOf(d: Dag, g: Goal): GoalId {
    RootFrom(d, g, {g.id})
  }

  method ResolveJobId(d: Dag, g: Goal) returns (job: GoalId)
    requires WellKeyed(d)
    ensures job == JobOf(d, g)
  {
    var current := g;
    var seen := {g.id};
    while current.Parent().Some?
      invariant JobOf(d, g) == RootFrom(d, current, seen)
      decreases d.Keys - seen
    {
      var p := current.Parent().value;
      if p !in d || d[p].id in seen {
        break;
      }
      seen := seen + {d[p].id};
      current := d[p];
    }
    return current.id;
  }

  /** A known goal's job is itself or one of its ancestors, and is known. */
  lemma {:induction false} RootFromFacts(d: Dag, x: GoalId, seen: set<GoalId>)
    requires WellKeyed(d) && x in d && x in seen && (x == "" ==> seen == {x})
    requires forall y :: y in seen && y != x ==> y in d && Under(d, y, x)
    ensures var r := RootFrom(d, d[x], seen);
      && r in d && (r == x || Under(d, x, r))
      && (d[r].Parent().None? || d[r].Parent().value !in d || OnCycle(d, d[r].Parent().value))
    decreases d.Keys - seen
  {
    var parent := d[x].Parent();
    if parent.Some? && parent.value in d {
      var p := parent.value;
      UnderStep(d, x, p);
      if p in seen {
        if p != x {
          var n: nat :| UnderBy(d, p, x, n);
          UnderTransitive(d, p, x, p, n);
        }
      } else {
        forall y | y in seen && y != x
          ensures Under(d, y, p)
        {
          var n: nat :| UnderBy(d, y, x, n);
          UnderTransitive(d, y, x, p, n);
        }
        RootFromFacts(d, p, seen + {p});
        UnderStep(d, x, RootFrom(d, d[p], seen + {p}));
      }
    }
  }

  /** On acyclic links the job of a known goal is a root or hangs from an unknown parent; it is its own job. */
  lemma JobIsOwnJob(d: Dag, x: GoalId)
    requires WellKeyed(d) && Acyclic(d) && x in d
    ensures var r := JobOf(d, d[x]);
      && r in d && (r == x || Under(d, x, r)) && JobOf(d, d[r]) == r
      && (d[r].Parent().None? || d[r].Parent().value !in d)
  {
    RootFromFacts(d, x, {x});
  }

  // ---- Downward breadth-first views -----------------------------------------------------------

  /** What the downward walk from `r` should list. */
  ghost predicate InSubtree(d: Dag, r: GoalId, x: GoalId) {
    x in d && (x == r || (r != "" && Under(d, x, r)))
  }

  ghost function Subtree(d: Dag, r: GoalId): set<GoalId> {
    set x | x in d && InSubtree(d, r, x)
  }

  predicate ChildrenExact(d: Dag, children: map<GoalId, seq<GoalId>>) {
    && (forall p, c :: p in children && c in children[p] ==> c in d && d[c].Parent() == Some(p))
    && (forall c :: c in d && d[c].Parent().Some? ==>
        d[c].Parent().value in children && c in children[d[c].Parent().value])
  }

  /** Every list of children names each child once. */
  ghost predicate ChildrenDistinct(children: map<GoalId, seq<GoalId>>) {
    forall p :: p in children ==> NoDuplicates(children[p])
  }

  method ChildrenMap(listed: seq<Goal>, ghost d: Dag) returns (children: map<GoalId, seq<GoalId>>)
    requires WellKeyed(d) && Lists(listed, d)
    ensures ChildrenExact(d, children) && ChildrenDistinct(children)
  {
    children := map[];
    for i := 0 to |listed|
      invariant forall p, c :: p in children && c in children[p] ==> c in d && d[c].Parent() == Some(p)
      invariant forall p, c :: p in children && c in children[p] ==> exists k :: 0 <= k < i && listed[k].id == c
      invariant forall k :: 0 <= k < i && listed[k].Parent().Some? ==>
        listed[k].Parent().value in children && listed[k].id in children[listed[k].Parent().value]
      invariant ChildrenDistinct(children)
    {
      var g := listed[i];
      var p := g.Parent();
      if p.Some? {
        var known := if p.value in children then children[p.value] else [];
        AppendDistinct(known, g.id);
        children := children[p.value := known + [g.id]];
      }
    }
    forall c | c in d && d[c].Parent().Some?
      ensures d[c].Parent().value in children && c in children[d[c].Parent().value]
    {
      var k :| 0 <= k < |listed| && listed[k] == d[c];
      assert listed[k].id == c;
    }
  }

  /** Invariant shared by the two downward walks. */
  ghost predicate WalkInv(d: Dag, r: GoalId, visited: set<GoalId>, queue: seq<GoalId>) {
    && (forall x :: x in visited || x in queue ==> x == r || InSubtree(d, r, x))
    && (r in visited || r in queue)
    && (forall c :: c in d && d[c].Parent().Some? && d[c].Parent().value in visited ==> c in visited || c in queue)
  }

  lemma WalkVisit(d: Dag, r: GoalId, visited: set<GoalId>, queue: seq<GoalId>, kids: seq<GoalId>, queue': seq<GoalId>)
    requires WellKeyed(d) && WalkInv(d, r, visited, queue) && queue != []
    requires forall c :: c in kids <==> c in d && d[c].Parent() == Some(queue[0])
    requires forall c :: c in queue' <==> c in queue[1..] || (c in kids && c !in visited + {queue[0]})
    ensures WalkInv(d, r, visited + {queue[0]}, queue')
  {
    var x := queue[0];
    assert queue == [x] + queue[1..];
    forall c | c in kids
      ensures InSubtree(d, r, c)
    {
      UnderStep(d, c, r);
      if x != r {
        assert InSubtree(d, r, x);
      }
    }
  }

  lemma WalkDone(d: Dag, r: GoalId, visited: set<GoalId>)
    requires WellKeyed(d) && WalkInv(d, r, visited, [])
    ensures visited * d.Keys == Subtree(d, r)
  {
    forall x | x in Subtree(d, r)
      ensures x in visited
    {
      if x != r {
        var n: nat :| UnderBy(d, x, r, n);
        UnderIsVisited(d, r, visited, x, n);
      }
    }
  }

  lemma {:induction false} UnderIsVisited(d: Dag, r: GoalId, visited: set<GoalId>, x: GoalId, n: nat)
    requires WalkInv(d, r, visited, []) && r != "" && UnderBy(d, x, r, n)
    ensures x in visited
    decreases n
  {
    if n > 0 {
      UnderIsVisited(d, r, visited, d[x].Parent().value, n - 1);
    }
  }

  /** One dequeue of either walk: the children of `x` not yet visited join the queue. */
  method Enqueue(children: map<GoalId, seq<GoalId>>, x: GoalId, visited: set<GoalId>, queue: seq<GoalId>, ghost d: Dag)
    returns (longer: seq<GoalId>, ghost kids: seq<GoalId>)
    requires ChildrenExact(d, children)
    ensures forall c :: c in kids <==> c in d && d[c].Parent() == Some(x)
    ensures forall c :: c in longer <==> c in queue || (c in kids && c !in visited)
    ensures |queue| <= |longer| && longer[..|queue|] == queue
    ensures forall c :: c in longer[|queue|..] ==> c in kids && c !in visited
  {
    longer := queue;
    var mine := if x in children then children[x] else [];
    kids := mine;
    for i := 0 to |mine|
      invariant forall c :: c in longer <==> c in queue || (c in mine[..i] && c !in visited)
      invariant |queue| <= |longer| && longer[..|queue|] == queue
      invariant forall c :: c in longer[|queue|..] ==> c in mine && c !in visited
    {
      assert mine[..i + 1] == mine[..i] + [mine[i]];
      if mine[i] !in visited {
        longer := longer + [mine[i]];
      }
    }
    assert mine[..|mine|] == mine;
  }

  /** `{g.id: g for g in goals}`. */
  method ById(listed: seq<Goal>, ghost d: Dag) returns (byId: Dag)
    requires WellKeyed(d) && Lists(listed, d)
    ensures byId == d
  {
    byId := map[];
    for i := 0 to |listed|
      invariant forall k :: k in byId ==> k in d && byId[k] == d[k]
      invariant forall j :: 0 <= j < i ==> listed[j].id in byId
    {
      byId := byId[listed[i].id := listed[i]];
    }
    forall k | k in d
      ensures k in byId
    {
      var j :| 0 <= j < |listed| && listed[j] == d[k];
      assert listed[j].id == k;
    }
  }

  method SnapshotEdges(byId: Dag, nodes: seq<GoalId>, visited: set<GoalId>, ghost root: GoalId)
    returns (edges: seq<(GoalId, GoalId)>)
    requires WellKeyed(byId) && NoDuplicates(nodes) && Elements(nodes) == Subtree(byId, root)
    requires visited * byId.Keys == Subtree(byId, root) && root in visited && visited <= byId.Keys + {root}
    ensures NoDuplicates(edges)
    ensures forall p, c :: (p, c) in edges <==>
      c in nodes && c in byId && byId[c].Parent() == Some(p) && (c != root || OnCycle(byId, root))
  {
    edges := [];
    assert forall x :: x in nodes <==> x in Elements(nodes);
    assert forall x :: x in nodes ==> x in byId;
    for i := 0 to |nodes|
      invariant NoDuplicates(edges)
      invariant forall p, c :: (p, c) in edges <==>
        c in nodes[..i] && c in byId && byId[c].Parent() == Some(p) && p in visited
    {
      assert nodes[..i + 1] == nodes[..i] + [nodes[i]];
      var g := byId[nodes[i]];
      var p := g.Parent();
      if p.Some? && p.value in visited {
        assert nodes[i] !in nodes[..i];
        edges := edges + [(p.value, g.id)];
      }
    }
    assert nodes[..|nodes|] == nodes;
    forall p, c | c in nodes && c in byId && byId[c].Parent() == Some(p)
      ensures p in visited <==> c != root || OnCycle(byId, root)
    {
      ParentVisitedIff(byId, root, visited, c);
    }
  }

  /** Every listed goal's parent was visited, except that the root's is only when the root is on a cycle. */
  lemma ParentVisitedIff(d: Dag, root: GoalId, visited: set<GoalId>, c: GoalId)
    requires WellKeyed(d) && visited * d.Keys == Subtree(d, root) && root in visited
    requires InSubtree(d, root, c) && d[c].Parent().Some?
    requires visited <= d.Keys + {root}
    ensures d[c].Parent().value in visited <==> c != root || OnCycle(d, root)
  {
    var p := d[c].Parent().value;
    UnderStep(d, c, root);
    assert p in Subtree(d, root) <==> InSubtree(d, root, p);
    assert p in visited <==> p == root || InSubtree(d, root, p);
    if Under(d, p, root) {
      UnderStep(d, p, root);
    }
  }

  ghost predicate ParentIn(d: Dag, x: GoalId, s: set<GoalId>) {
    x in d && d[x].Parent().Some? && d[x].Parent().value in s
  }

  /** A known parent is among `nodes`. */
  ghost predicate ParentListed(d: Dag, x: GoalId, nodes: seq<GoalId>) {
    x in d && d[x].Parent().Some? && (d[x].Parent().value in d ==> d[x].Parent().value in nodes)
  }

  /** Every listed goal but the root comes after its parent, when the parent is a known goal. */
  ghost predicate ParentsFirst(d: Dag, root: GoalId, nodes: seq<GoalId>) {
    forall i :: 0 <= i < |nodes| && nodes[i] != root ==> ParentListed(d, nodes[i], nodes[..i])
  }

  /** The nodes so far are the visited known goals, parents first; what is queued has its parent visited. */
  ghost predicate Ordered(d: Dag, root: GoalId, visited: set<GoalId>, queue: seq<GoalId>, nodes: seq<GoalId>) {
    && NoDuplicates(nodes) && (forall x :: x in nodes <==> x in visited && x in d)
    && ParentsFirst(d, root, nodes)
    && (forall x :: x in queue ==> x == root || ParentIn(d, x, visited))
  }

  lemma OrderedSkip(d: Dag, root: GoalId, visited: set<GoalId>, queue: seq<GoalId>, nodes: seq<GoalId>)
    requires Ordered(d, root, visited, queue, nodes) && queue != []
    ensures Ordered(d, root, visited, queue[1..], nodes)
  {
    assert forall x :: x in queue[1..] ==> x in queue;
  }

  lemma OrderedVisit(
    d: Dag, root: GoalId, visited: set<GoalId>, queue: seq<GoalId>, nodes: seq<GoalId>, kids: seq<GoalId>,
    queue': seq<GoalId>)
    requires Ordered(d, root, visited, queue, nodes) && queue != [] && queue[0] !in visited
    requires forall c :: c in kids <==> c in d && d[c].Parent() == Some(queue[0])
    requires forall c :: c in queue' <==> c in queue[1..] || (c in kids && c !in visited + {queue[0]})
    ensures Ordered(d, root, visited + {queue[0]}, queue', if queue[0] in d then nodes + [queue[0]] else nodes)
  {
    var x := queue[0];
    assert x in queue && forall y :: y in queue[1..] ==> y in queue;
    hide ParentsFirst, ParentIn;
    QueuedBelowVisited(d, root, visited, queue, kids, queue');
    if x in d {
      AppendDistinct(nodes, x);
      ParentsFirstAppend(d, root, nodes, x, visited);
    }
  }

  lemma QueuedBelowVisited(
    d: Dag, root: GoalId, visited: set<GoalId>, queue: seq<GoalId>, kids: seq<GoalId>, queue': seq<GoalId>)
    requires queue != [] && forall x :: x in queue ==> x == root || ParentIn(d, x, visited)
    requires forall c :: c in kids ==> c in d && d[c].Parent() == Some(queue[0])
    requires forall c :: c in queue' ==> c in queue[1..] || c in kids
    ensures forall x :: x in queue' ==> x == root || ParentIn(d, x, visited + {queue[0]})
  {
    assert forall y :: y in queue[1..] ==> y in queue;
  }

  lemma ParentsFirstAppend(d: Dag, root: GoalId, nodes: seq<GoalId>, x: GoalId, visited: set<GoalId>)
    requires ParentsFirst(d, root, nodes) && (x == root || ParentIn(d, x, visited))
    requires forall y :: y in nodes <==> y in visited && y in d
    ensures ParentsFirst(d, root, nodes + [x])
  {
    var longer := nodes + [x];
    hide ParentListed;
    assert longer[..|nodes|] == nodes;
    assert forall i :: 0 <= i < |nodes| ==> longer[..i] == nodes[..i];
    if x != root {
      ListedIfVisited(d, x, nodes, visited);
    }
  }

  lemma ListedIfVisited(d: Dag, x: GoalId, nodes: seq<GoalId>, visited: set<GoalId>)
    requires ParentIn(d, x, visited) && forall y :: y in nodes <==> y in visited && y in d
    ensures ParentListed(d, x, nodes)
  {
  }

  /** Every goal of a subtree has a depth in it. */
  lemma {:induction false} DepthExists(d: Dag, r: GoalId, x: GoalId, n: nat) returns (k: nat)
    requires r != "" && UnderBy(d, x, r, n)
    ensures AtDepth(d, r, x, k)
    decreases n
  {
    if x == r {
      return 0;
    }
    if n == 0 {
      assert AtDepth(d, r, r, 0);
      return 1;
    }
    k := DepthExists(d, r, d[x].Parent().value, n - 1);
    k := k + 1;
  }

  lemma SubtreeHasDepths(d: Dag, r: GoalId, x: GoalId)
    requires x in Subtree(d, r)
    ensures exists k: nat :: AtDepth(d, r, x, k)
  {
    if x == r {
      assert AtDepth(d, r, x, 0);
    } else {
      var n: nat :| UnderBy(d, x, r, n);
      var k := DepthExists(d, r, x, n);
    }
  }

  /** `dag_snapshot`: the visited goals, breadth first, and the parent-to-child edges among them. */
  method DagSnapshot(listed: seq<Goal>, root: GoalId, ghost d: Dag)
    returns (nodes: seq<GoalId>, edges: seq<(GoalId, GoalId)>)
    requires WellKeyed(d) && Lists(listed, d)
    ensures NoDuplicates(nodes) && Elements(nodes) == Subtree(d, root) && ParentsFirst(d, root, nodes)
    ensures ByDepth(d, root, nodes) && NoDuplicates(edges)
    ensures forall p, c :: (p, c) in edges <==>
      c in nodes && c in d && d[c].Parent() == Some(p) && (c != root || OnCycle(d, root))
  {
    var byId := ById(listed, d);
    var children := ChildrenMap(listed, d);
    var visited;
    nodes, visited := WalkDown(byId, children, root, d);
    edges := SnapshotEdges(byId, nodes, visited, root);
  }

  /** Invariant of the snapshot's walk: exact, parents first and breadth first. */
  ghost predicate Walking(
    d: Dag, root: GoalId, visited: set<GoalId>, queue: seq<GoalId>, nodes: seq<GoalId>, n: int, k: nat) {
    && WalkInv(d, root, visited, queue) && Ordered(d, root, visited, queue, nodes)
    && Leveled(d, root, nodes, queue, n, k) && (root in visited || queue == [root])
  }

  lemma WalkStarts(d: Dag, root: GoalId)
    ensures Walking(d, root, {}, [root], [], 1, 0)
  {
    LeveledStart(d, root);
  }

  lemma WalkSkips(
    d: Dag, root: GoalId, visited: set<GoalId>, queue: seq<GoalId>, nodes: seq<GoalId>, n: int, k: nat)
    returns (m: int, l: nat)
    requires Walking(d, root, visited, queue, nodes, n, k) && queue != [] && queue[0] in visited
    ensures Walking(d, root, visited, queue[1..], nodes, m, l)
  {
    hide Ordered, Leveled;
    assert queue == [queue[0]] + queue[1..] && queue[1..] + [] == queue[1..];
    OrderedSkip(d, root, visited, queue, nodes);
    m, l := LeveledNext(d, root, nodes, queue, [], false, n, k);
  }

  /** One goal is visited: `added` are its children that were not, appended to the queue. */
  lemma WalkProceeds(
    d: Dag, root: GoalId, visited: set<GoalId>, queue: seq<GoalId>, nodes: seq<GoalId>, kids: seq<GoalId>,
    added: seq<GoalId>, n: int, k: nat) returns (m: int, l: nat)
    requires WellKeyed(d) && Walking(d, root, visited, queue, nodes, n, k) && queue != [] && queue[0] !in visited
    requires forall c :: c in kids <==> c in d && d[c].Parent() == Some(queue[0])
    requires forall c :: c in added ==> c in kids && c !in visited + {queue[0]}
    requires forall c :: c in kids && c !in visited + {queue[0]} ==> c in queue[1..] + added
    ensures Walking(
      d, root, visited + {queue[0]}, queue[1..] + added, if queue[0] in d then nodes + [queue[0]] else nodes, m, l)
  {
    var longer := queue[1..] + added;
    assert forall c :: c in longer <==> c in queue[1..] || (c in kids && c !in visited + {queue[0]});
    assert root in visited + {queue[0]};
    hide Ordered, Leveled, WalkInv, WellKeyed;
    OrderedVisit(d, root, visited, queue, nodes, kids, longer);
    WalkVisit(d, root, visited, queue, kids, longer);
    m, l := LeveledNext(d, root, nodes, queue, added, queue[0] in d, n, k);
  }

  lemma WalkEnds(d: Dag, root: GoalId, visited: set<GoalId>, nodes: seq<GoalId>, n: int, k: nat)
    requires WellKeyed(d) && Walking(d, root, visited, [], nodes, n, k)
    ensures NoDuplicates(nodes) && Elements(nodes) == Subtree(d, root) && ParentsFirst(d, root, nodes)
    ensures ByDepth(d, root, nodes)
    ensures visited * d.Keys == Subtree(d, root) && root in visited && visited <= d.Keys + {root}
  {
    WalkDone(d, root, visited);
  }

  /** The breadth-first walk of the snapshot. */
  method WalkDown(byId: Dag, children: map<GoalId, seq<GoalId>>, root: GoalId, ghost d: Dag)
    returns (nodes: seq<GoalId>, visited: set<GoalId>)
    requires WellKeyed(d) && byId == d && ChildrenExact(d, children)
    ensures NoDuplicates(nodes) && Elements(nodes) == Subtree(d, root) && ParentsFirst(d, root, nodes)
    ensures ByDepth(d, root, nodes)
    ensures visited * d.Keys == Subtree(d, root) && root in visited && visited <= d.Keys + {root}
  {
    visited, nodes := {}, [];
    var queue := [root];
    ghost var universe := d.Keys + {root};
    ghost var (n: int, k: nat) := (1, 0);
    WalkStarts(d, root);
    hide *;
    while queue != []
      invariant Walking(d, root, visited, queue, nodes, n, k) && visited <= universe
      decreases universe - visited, |queue|
    {
      InUniverse(d, root, visited, queue, nodes, n, k);
      ghost var (before, seen, listing) := (queue, visited, nodes);
      var x := queue[0];
      queue := queue[1..];
      if x in visited {
        n, k := WalkSkips(d, root, visited, before, nodes, n, k);
        continue;
      }
      visited := visited + {x};
      if x in byId {
        nodes := nodes + [x];
      }
      ghost var rest := queue;
      ghost var kids;
      queue, kids := Enqueue(children, x, visited, queue, d);
      n, k := WalkProceeds(d, root, seen, before, listing, kids, queue[|rest|..], n, k);
      assert rest + queue[|rest|..] == queue;
    }
    WalkEnds(d, root, visited, nodes, n, k);
  }

  /** What is queued is the root or a known goal. */
  lemma InUniverse(
    d: Dag, root: GoalId, visited: set<GoalId>, queue: seq<GoalId>, nodes: seq<GoalId>, n: int, k: nat)
    requires Walking(d, root, visited, queue, nodes, n, k) && queue != []
    ensures queue[0] in d.Keys + {root}
  {
    assert queue[0] in queue;
  }

  // ---- Token totals ---------------------------------------------------------------------------

  ghost function TokensOf(d: Dag, s: set<GoalId>): nat
    requires s <= d.Keys
  {
    if s == {} then 0
    else
      var x :| x in s;
      d[x].totalTokens + TokensOf(d, s - {x})
  }

  lemma {:induction false} TokensWithout(d: Dag, s: set<GoalId>, x: GoalId)
    requires s <= d.Keys && x in s
    ensures TokensOf(d, s) == d[x].totalTokens + TokensOf(d, s - {x})
  {
    var y :| y in s && TokensOf(d, s) == d[y].totalTokens + TokensOf(d, s - {y});
    if y != x {
      TokensWithout(d, s - {y}, x);
      TokensWithout(d, s - {x}, y);
      assert s - {y} - {x} == s - {x} - {y};
    }
  }

  function TokensListed(d: Dag, nodes: seq<GoalId>): nat
    requires forall x :: x in nodes ==> x in d
  {
    if nodes == [] then 0 else d[nodes[0]].totalTokens + TokensListed(d, nodes[1..])
  }

  /** `subtree_total_tokens`: a second walk of the same tree that only adds up. */
  method SubtreeTotalTokens(listed: seq<Goal>, root: GoalId, ghost d: Dag) returns (total: nat)
    requires WellKeyed(d) && Lists(listed, d)
    ensures total == TokensOf(d, Subtree(d, root))
  {
    var byId := ById(listed, d);
    var children := ChildrenMap(listed, d);
    total := 0;
    var visited: set<GoalId> := {};
    var queue := [root];
    ghost var universe := d.Keys + {root};
    while queue != []
      invariant WalkInv(d, root, visited, queue) && visited <= universe
      invariant total == TokensOf(d, visited * d.Keys)
      decreases universe - visited, |queue|
    {
      var x := queue[0];
      ghost var before := queue;
      ghost var seen := visited;
      assert queue == [x] + queue[1..];
      queue := queue[1..];
      if x in visited {
        continue;
      }
      visited := visited + {x};
      if x in byId {
        total := total + byId[x].totalTokens;
        TokensWithout(d, visited * d.Keys, x);
        assert visited * d.Keys - {x} == seen * d.Keys;
      } else {
        assert visited * d.Keys == seen * d.Keys;
      }
      ghost var kids;
      queue, kids := Enqueue(children, x, visited, queue, d);
      WalkVisit(d, root, seen, before, kids, queue);
    }
    WalkDone(d, root, visited);
  }

  /** The token total is the sum over the snapshot's nodes, whatever order they are listed in. */
  lemma {:induction false} TokensAgreeWithSnapshot(d: Dag, nodes: seq<GoalId>)
    requires NoDuplicates(nodes) && Elements(nodes) <= d.Keys
    ensures (forall x :: x in nodes ==> x in d) && TokensListed(d, nodes) == TokensOf(d, Elements(nodes))
  {
    assert forall x :: x in nodes ==> x in Elements(nodes);
    if nodes != [] {
      var rest := nodes[1..];
      assert nodes == [nodes[0]] + rest && nodes[0] !in rest;
      assert Elements(rest) == Elements(nodes) - {nodes[0]};
      TokensAgreeWithSnapshot(d, rest);
      TokensWithout(d, Elements(nodes), nodes[0]);
    }
  }

  /**
   * The two views agree (the snapshot lists exactly the root and the goals the upward walk accepts) except
   * for the empty root id, where they agree exactly when no other goal carries an empty parent id.
   */
  lemma ViewsAgreeIff(d: Dag, root: GoalId)
    requires WellKeyed(d)
    ensures (forall x :: x in d ==> (x in Subtree(d, root) <==> x == root || Under(d, x, root)))
      <==> root != "" || forall x :: x in d && x != "" ==> d[x].parentId != Some("")
  {
    if root == "" {
      if x :| x in d && x != "" && d[x].parentId == Some("") {
        UnderStep(d, x, root);
      } else {
        forall x | x in d && x != ""
          ensures !Under(d, x, "")
        {
          if n: nat :| UnderBy(d, x, "", n) {
            NeverUnderEmpty(d, x, n);
          }
        }
      }
    }
  }

  lemma {:induction false} NeverUnderEmpty(d: Dag, x: GoalId, n: nat)
    requires x != "" && forall y :: y in d && y != "" ==> d[y].parentId != Some("")
    ensures !UnderBy(d, x, "", n)
    decreases n
  {
    if n > 0 && x in d && d[x].Parent().Some? {
      NeverUnderEmpty(d, d[x].Parent().value, n - 1);
    }
  }
}
