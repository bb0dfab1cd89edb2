/** Ancestor collection for context projection (projector.py, _collect_ancestors). */
module Ancestors {
  import opened Prelude
  import opened Goals
  import opened IdOrder

  /** Each collected id with the set of its own parents. */
  type Graph = map<Id, set<Id>>

  function Linked(g: Goal): set<Id> {
    set p | p in g.dependsOn + g.informs && p != ""
  }

  function ParentsIn(d: Dag, a: Id): set<Id> {
    if a in d then Linked(d[a]) else {}
  }

  /** A chain of hard or soft dependency edges. */
  ghost predicate Chain(d: Dag, p: seq<Id>) {
    p != [] && forall i :: 0 <= i < |p| - 1 ==> p[i + 1] in ParentsIn(d, p[i])
  }

  /** `x` is reachable from `goal` by one or more edges. */
  ghost predicate Ancestor(d: Dag, goal: Goal, x: Id) {
    exists p :: Chain(d, p) && p[0] in Linked(goal) && p[|p| - 1] == x
  }

  lemma AncestorStep(d: Dag, goal: Goal, x: Id, y: Id)
    requires Ancestor(d, goal, x) && y in ParentsIn(d, x)
    ensures Ancestor(d, goal, y)
  {
    var p :| Chain(d, p) && p[0] in Linked(goal) && p[|p| - 1] == x;
    var q := p + [y];
    assert Chain(d, q) && q[0] in Linked(goal) && q[|q| - 1] == y;
  }

  lemma DirectAncestor(d: Dag, goal: Goal, x: Id)
    requires x in Linked(goal)
    ensures Ancestor(d, goal, x)
  {
    assert Chain(d, [x]) && [x][0] in Linked(goal);
  }

  lemma {:induction false} ChainStaysInside(d: Dag, s: set<Id>, p: seq<Id>)
    requires Chain(d, p) && p[0] in s && forall a :: a in s ==> ParentsIn(d, a) <= s
    ensures p[|p| - 1] in s
    decreases |p|
  {
    if |p| > 1 {
      assert p[1] in ParentsIn(d, p[0]);
      ChainStaysInside(d, s, p[1..]);
    }
  }

  // ---- Breadth-first search -------------------------------------------------------------------

  /** A finite set holding every id the search can meet. */
  ghost predicate Covers(u: set<Id>, d: Dag, goal: Goal) {
    Linked(goal) <= u && forall a :: a in d ==> ParentsIn(d, a) <= u
  }

  ghost function Universe(d: Dag, goal: Goal): (u: set<Id>)
    ensures Covers(u, d, goal)
  {
    Linked(goal) + set a, p | a in d && p in ParentsIn(d, a) :: p
  }

  /** Every id seen so far is a genuine ancestor. */
  ghost predicate SeenSound(d: Dag, goal: Goal, s: set<Id>) {
    forall a :: a in s ==> Ancestor(d, goal, a)
  }

  /** Nothing reachable has been dropped: seeds and parents are visited or queued. */
  ghost predicate SeenClosed(d: Dag, goal: Goal, edges: Graph, seen: set<Id>) {
    && Linked(goal) <= seen
    && forall a :: a in edges ==> edges[a] == ParentsIn(d, a) && edges[a] <= seen
  }

  ghost predicate SearchInv(d: Dag, goal: Goal, edges: Graph, queue: seq<Id>, seen: set<Id>) {
    seen == edges.Keys + Elements(queue) && SeenSound(d, goal, seen) && SeenClosed(d, goal, edges, seen)
  }

  /** The ids to visit first: the goal's own non-empty links. */
  method Seeds(links: seq<Id>) returns (queue: seq<Id>)
    ensures Elements(queue) == set p | p in links && p != ""
  {
    queue := [];
    for i := 0 to |links|
      invariant forall p :: p in queue <==> p in links[..i] && p != ""
    {
      assert links[..i + 1] == links[..i] + [links[i]];
      if links[i] != "" {
        queue := queue + [links[i]];
      }
    }
    assert links[..|links|] == links;
  }

  /** Scans one node's links: they become its edges, and the unvisited ones join the queue. */
  method Scan(links: seq<Id>, visited: set<Id>, queue: seq<Id>) returns (parents: set<Id>, longer: seq<Id>)
    ensures parents == set p | p in links && p != ""
    ensures Elements(longer) == Elements(queue) + (parents - visited)
  {
    parents, longer := {}, queue;
    for i := 0 to |links|
      invariant forall p :: p in parents <==> p in links[..i] && p != ""
      invariant forall p :: p in longer <==> p in queue || (p in parents && p !in visited)
    {
      assert links[..i + 1] == links[..i] + [links[i]];
      if links[i] != "" {
        parents := parents + {links[i]};
        if links[i] !in visited {
          longer := longer + [links[i]];
        }
      }
    }
    assert links[..|links|] == links;
  }

  /** Visiting `a` adds its parents to what has been seen. */
  lemma VisitKeepsSeen(d: Dag, goal: Goal, edges: Graph, seen: set<Id>, a: Id)
    requires SeenSound(d, goal, seen) && SeenClosed(d, goal, edges, seen) && a in seen
    ensures SeenSound(d, goal, seen + ParentsIn(d, a))
    ensures SeenClosed(d, goal, edges[a := ParentsIn(d, a)], seen + ParentsIn(d, a))
  {
    forall p | p in ParentsIn(d, a)
      ensures Ancestor(d, goal, p)
    {
      AncestorStep(d, goal, a, p);
    }
  }

  lemma SeenAfterVisit(keys: set<Id>, parents: set<Id>, queue: seq<Id>, queue': seq<Id>)
    requires queue != [] && Elements(queue') == Elements(queue[1..]) + (parents - (keys + {queue[0]}))
    ensures (keys + {queue[0]}) + Elements(queue') == (keys + Elements(queue)) + parents
  {
    HeadAndTail(queue);
  }

  lemma HeadAndTail(s: seq<Id>)
    requires s != []
    ensures Elements(s) == {s[0]} + Elements(s[1..])
  {
    assert s == [s[0]] + s[1..];
  }

  lemma SearchVisit(d: Dag, goal: Goal, edges: Graph, queue: seq<Id>, seen: set<Id>, parents: set<Id>, queue': seq<Id>)
    requires SearchInv(d, goal, edges, queue, seen) && queue != [] && parents == ParentsIn(d, queue[0])
    requires Elements(queue') == Elements(queue[1..]) + (parents - (edges.Keys + {queue[0]}))
    ensures SearchInv(d, goal, edges[queue[0] := parents], queue', seen + parents)
  {
    assert queue[0] in Elements(queue);
    VisitKeepsSeen(d, goal, edges, seen, queue[0]);
    SeenAfterVisit(edges.Keys, parents, queue, queue');
  }

  lemma SearchSkip(d: Dag, goal: Goal, edges: Graph, queue: seq<Id>, seen: set<Id>)
    requires SearchInv(d, goal, edges, queue, seen) && queue != [] && queue[0] in edges
    ensures SearchInv(d, goal, edges, queue[1..], seen)
  {
    HeadAndTail(queue);
  }

  lemma SearchStart(d: Dag, goal: Goal, queue: seq<Id>)
    requires Elements(queue) == Linked(goal)
    ensures SearchInv(d, goal, map[], queue, Elements(queue))
  {
    forall a | a in Linked(goal)
      ensures Ancestor(d, goal, a)
    {
      DirectAncestor(d, goal, a);
    }
  }

  lemma SearchDone(d: Dag, goal: Goal, edges: Graph, seen: set<Id>)
    requires SearchInv(d, goal, edges, [], seen)
    ensures AncestorGraph(d, goal, edges)
  {
    assert seen == edges.Keys;
    forall x | Ancestor(d, goal, x)
      ensures x in edges
    {
      var p :| Chain(d, p) && p[0] in Linked(goal) && p[|p| - 1] == x;
      ChainStaysInside(d, seen, p);
    }
  }

  /** The graph an exact search must return: every reachable id with its parents, and nothing else. */
  ghost predicate AncestorGraph(d: Dag, goal: Goal, edges: Graph) {
    && (forall x :: x in edges <==> Ancestor(d, goal, x))
    && (forall x :: x in edges ==> edges[x] == ParentsIn(d, x) && edges[x] <= edges.Keys)
  }

  /** That graph itself. */
  ghost function GraphOf(d: Dag, goal: Goal): (edges: Graph)
    ensures AncestorGraph(d, goal, edges)
  {
    GraphIsClosed(d, goal);
    map x | x in Universe(d, goal) && Ancestor(d, goal, x) :: ParentsIn(d, x)
  }

  lemma GraphIsClosed(d: Dag, goal: Goal)
    ensures forall x :: Ancestor(d, goal, x) ==> x in Universe(d, goal)
    ensures forall x, y :: Ancestor(d, goal, x) && y in ParentsIn(d, x) ==> Ancestor(d, goal, y)
  {
    forall x | Ancestor(d, goal, x)
      ensures x in Universe(d, goal)
    {
      var p :| Chain(d, p) && p[0] in Linked(goal) && p[|p| - 1] == x;
      ChainStaysInside(d, Universe(d, goal), p);
    }
    forall x, y | Ancestor(d, goal, x) && y in ParentsIn(d, x)
      ensures Ancestor(d, goal, y)
    {
      AncestorStep(d, goal, x, y);
    }
  }

  lemma LinksAreParents(d: Dag, a: Id, links: seq<Id>, parents: set<Id>)
    requires links == if a in d then d[a].dependsOn + d[a].informs else []
    requires parents == set p | p in links && p != ""
    ensures parents == ParentsIn(d, a)
  {
  }

  /** One dequeue of the search: a visited id is dropped, a new one becomes a node of the graph. */
  method VisitNext(goal: Goal, d: Dag, edges: Graph, queue: seq<Id>, ghost seen: set<Id>)
    returns (edges': Graph, queue': seq<Id>, ghost seen': set<Id>)
    requires queue != [] && SearchInv(d, goal, edges, queue, seen)
    ensures SearchInv(d, goal, edges', queue', seen') && seen' <= seen + ParentsIn(d, queue[0])
    ensures if queue[0] in edges then edges' == edges && queue' == queue[1..] else edges'.Keys == edges.Keys + {queue[0]}
  {
    hide SeenSound, SeenClosed;
    var a := queue[0];
    if a in edges {
      SearchSkip(d, goal, edges, queue, seen);
      return edges, queue[1..], seen;
    }
    var links := if a in d then d[a].dependsOn + d[a].informs else [];
    var parents;
    parents, queue' := Scan(links, edges.Keys + {a}, queue[1..]);
    LinksAreParents(d, a, links, parents);
    SearchVisit(d, goal, edges, queue, seen, parents, queue');
    edges' := edges[a := parents];
    seen' := seen + parents;
  }

  method Explore(goal: Goal, d: Dag) returns (edges: Graph)
    ensures AncestorGraph(d, goal, edges)
  {
    edges := map[];
    var queue := Seeds(goal.dependsOn + goal.informs);
    SearchStart(d, goal, queue);
    ghost var seen := Elements(queue);
    ghost var universe := Universe(d, goal);
    while queue != []
      invariant SearchInv(d, goal, edges, queue, seen) && seen <= universe
      decreases universe - edges.Keys, |queue|
    {
      assert queue[0] in Elements(queue);
      edges, queue, seen := VisitNext(goal, d, edges, queue, seen);
    }
    SearchDone(d, goal, edges, seen);
  }

  // ---- Level-by-level topological sort --------------------------------------------------------

  function Roots(g: Graph): set<Id> {
    set a | a in g && g[a] * g.Keys == {}
  }

  /** One level: all current roots, or, when a cycle blocks every node, the least remaining id. */
  ghost function Level(g: Graph): (s: set<Id>)
    requires g != map[]
    ensures s != {} && s <= g.Keys
  {
    if Roots(g) != {} then Roots(g)
    else
      assert g.Keys != {};
      {Least(map[], g.Keys)}
  }

  /** The order depends on the graph, the times and the ids only, never on the order of the link lists. */
  ghost function TopoOrder(g: Graph, times: Times): (order: seq<Id>)
    ensures NoDuplicates(order) && Elements(order) == g.Keys
    decreases g.Keys
  {
    if g == map[] then []
    else
      var level := Sorted(times, Level(g));
      var rest := TopoOrder(g - Level(g), times);
      JoinDistinct(times, level, rest, Level(g), g.Keys - Level(g));
      level + rest
  }

  lemma JoinDistinct(times: Times, a: seq<Id>, b: seq<Id>, s: set<Id>, t: set<Id>)
    requires Ascending(times, a) && Elements(a) == s && NoDuplicates(b) && Elements(b) == t && s !! t
    ensures NoDuplicates(a + b) && Elements(a + b) == s + t
  {
    AscendingIsDistinct(times, a);
    assert forall i :: 0 <= i < |a| ==> a[i] in Elements(a);
    assert forall i :: 0 <= i < |b| ==> b[i] in Elements(b);
    assert forall x :: x in a + b <==> x in a || x in b;
  }

  lemma AscendingIsDistinct(times: Times, a: seq<Id>)
    requires Ascending(times, a)
    ensures NoDuplicates(a)
  {
    forall i, j | 0 <= i < j < |a|
      ensures a[i] != a[j]
    {
      BeforeTotal(times, a[i], a[j]);
    }
  }

  method ListRoots(g: Graph) returns (roots: seq<Id>)
    ensures NoDuplicates(roots) && Elements(roots) == Roots(g)
  {
    roots := [];
    var rest := g.Keys;
    while rest != {}
      invariant rest <= g.Keys && NoDuplicates(roots)
      invariant Elements(roots) == set a | a in Roots(g) && a !in rest
    {
      var a :| a in rest;
      rest := rest - {a};
      if g[a] * g.Keys == {} {
        AppendDistinct(roots, a);
        roots := roots + [a];
      }
    }
  }

  /** `min` over the remaining ids. */
  method LeastRemaining(keys: set<Id>) returns (m: Id)
    requires keys != {}
    ensures m == Least(map[], keys)
  {
    m :| m in keys;
    var rest := keys - {m};
    while rest != {}
      invariant rest <= keys && m in keys && m !in rest
      invariant forall y :: y in keys && y !in rest && y != m ==> Before(map[], m, y)
    {
      var y :| y in rest;
      rest := rest - {y};
      BeforeTotal(map[], m, y);
      if LexLess(y, m) {
        forall z | z in keys && z !in rest && z != y
          ensures Before(map[], y, z)
        {
          if z != m {
            BeforeTransitive(map[], y, m, z);
          }
        }
        m := y;
      }
    }
    BeforeTotal(map[], m, Least(map[], keys));
  }

  /** The next level as the loop computes it: the roots, or the least remaining id when there are none. */
  method NextLevel(remaining: Graph) returns (roots: seq<Id>)
    requires remaining != map[]
    ensures NoDuplicates(roots) && Elements(roots) == Level(remaining)
  {
    roots := ListRoots(remaining);
    if roots == [] {
      assert remaining.Keys != {};
      var m := LeastRemaining(remaining.Keys);
      roots := [m];
    } else {
      assert roots[0] in Elements(roots);
    }
  }

  lemma TopoOrderStep(g: Graph, times: Times, level: set<Id>, done: seq<Id>)
    requires g != map[] && level == Level(g)
    ensures done + TopoOrder(g, times) == (done + Sorted(times, level)) + TopoOrder(g - level, times)
  {
  }

  method TopoSort(edges: Graph, times: Times) returns (resolved: seq<Id>)
    ensures resolved == TopoOrder(edges, times)
  {
    resolved := [];
    var remaining := edges;
    while remaining != map[]
      invariant resolved + TopoOrder(remaining, times) == TopoOrder(edges, times)
      decreases remaining.Keys
    {
      var roots := NextLevel(remaining);
      var sorted := SortIds(times, roots);
      TopoOrderStep(remaining, times, Elements(roots), resolved);
      resolved := resolved + sorted;
      remaining := remaining - Elements(roots);
    }
    assert resolved + [] == resolved;
  }

  function CreatedTimes(d: Dag): Times {
    map a | a in d :: d[a].createdAt
  }

  function KnownOnly(d: Dag, ids: seq<Id>): seq<Id> {
    if ids == [] then [] else (if ids[0] in d then [ids[0]] else []) + KnownOnly(d, ids[1..])
  }

  method FilterKnown(d: Dag, resolved: seq<Id>) returns (ids: seq<Id>)
    ensures ids == KnownOnly(d, resolved)
  {
    ids := [];
    assert resolved[0..] == resolved;
    for i := 0 to |resolved|
      invariant KnownOnly(d, resolved) == ids + KnownOnly(d, resolved[i..])
    {
      ghost var rest := KnownOnly(d, resolved[i + 1..]);
      assert resolved[i..][0] == resolved[i] && resolved[i..][1..] == resolved[i + 1..];
      assert ids + ([resolved[i]] + rest) == (ids + [resolved[i]]) + rest;
      assert ids + ([] + rest) == ids + rest;
      if resolved[i] in d {
        ids := ids + [resolved[i]];
      }
    }
  }

  /** The ids of the returned nodes, in order; the nodes themselves are `d` at these ids. */
  method CollectAncestors(goal: Goal, d: Dag) returns (ids: seq<Id>)
    ensures ids == Collected(d, goal)
  {
    var graph := Explore(goal, d);
    GraphIsUnique(d, goal, graph, GraphOf(d, goal));
    var resolved := TopoSort(graph, CreatedTimes(d));
    ids := FilterKnown(d, resolved);
  }

  ghost function Collected(d: Dag, goal: Goal): seq<Id> {
    KnownOnly(d, TopoOrder(GraphOf(d, goal), CreatedTimes(d)))
  }

  // ---- What the result means ------------------------------------------------------------------

  /** Exactness on every graph, cyclic ones included: each known ancestor once, and nothing else. */
  lemma CollectionIsExact(d: Dag, goal: Goal)
    ensures NoDuplicates(Collected(d, goal))
    ensures forall x :: x in Collected(d, goal) <==> x in d && Ancestor(d, goal, x)
  {
    var order := TopoOrder(GraphOf(d, goal), CreatedTimes(d));
    KnownOnlyKeeps(d, order);
    assert forall x :: x in order <==> x in Elements(order);
  }

  /** The dispatched goal is listed among its own ancestors exactly when a chain of links leads back to it. */
  lemma GoalListedIff(d: Dag, goal: Goal)
    ensures goal.id in Collected(d, goal) <==> goal.id in d && Ancestor(d, goal, goal.id)
  {
    CollectionIsExact(d, goal);
  }

  /** For one, `a` depends on `b`, which is informed by `a`: the search from `a` lists `a`. */
  lemma CycleListsGoal(a: Goal, b: Goal)
    requires a.id == "a" && a.dependsOn == ["b"] && a.informs == []
    requires b.id == "b" && b.dependsOn == [] && b.informs == ["a"]
    ensures "a" in Collected(map["a" := a, "b" := b], a)
  {
    var d: Dag := map["a" := a, "b" := b];
    assert "b" in Linked(a) && "a" in Linked(b);
    DirectAncestor(d, a, "b");
    AncestorStep(d, a, "b", "a");
    CollectionIsExact(d, a);
  }

  lemma {:induction false} KnownOnlyKeeps(d: Dag, ids: seq<Id>)
    ensures forall x :: x in KnownOnly(d, ids) <==> x in ids && x in d
    ensures NoDuplicates(ids) ==> NoDuplicates(KnownOnly(d, ids))
  {
    if ids != [] {
      assert ids == [ids[0]] + ids[1..];
      KnownOnlyKeeps(d, ids[1..]);
      if NoDuplicates(ids) {
        assert ids[0] !in ids[1..];
      }
    }
  }

  /** The graph, and with it the returned order, does not depend on how the search went about it. */
  lemma GraphIsUnique(d: Dag, goal: Goal, e: Graph, f: Graph)
    requires AncestorGraph(d, goal, e) && AncestorGraph(d, goal, f)
    ensures e == f
  {
    assert forall x :: x in e <==> x in f;
  }

  /** Goals that differ only in the order (or repetition) of their link lists. */
  ghost predicate SameLinkSets(d: Dag, e: Dag) {
    && d.Keys == e.Keys
    && forall a :: a in d ==> Linked(d[a]) == Linked(e[a]) && d[a].createdAt == e[a].createdAt
  }

  lemma OrderIgnoresListOrder(d: Dag, e: Dag, goal: Goal, goal': Goal)
    requires SameLinkSets(d, e) && Linked(goal) == Linked(goal')
    ensures Collected(d, goal) == Collected(e, goal')
  {
    var edges := GraphOf(d, goal);
    assert forall a :: ParentsIn(d, a) == ParentsIn(e, a);
    forall x
      ensures Ancestor(d, goal, x) <==> Ancestor(e, goal', x)
    {
      SameChains(d, e, goal, goal', x);
      SameChains(e, d, goal', goal, x);
    }
    GraphIsUnique(d, goal, edges, GraphOf(e, goal'));
    assert CreatedTimes(d) == CreatedTimes(e);
    KnownOnlySameKeys(d, e, TopoOrder(edges, CreatedTimes(d)));
  }

  lemma SameChains(d: Dag, e: Dag, goal: Goal, goal': Goal, x: Id)
    requires (forall a :: ParentsIn(d, a) == ParentsIn(e, a)) && Linked(goal) == Linked(goal')
    ensures Ancestor(d, goal, x) ==> Ancestor(e, goal', x)
  {
    if p :| Chain(d, p) && p[0] in Linked(goal) && p[|p| - 1] == x {
      assert Chain(e, p);
    }
  }

  lemma {:induction false} KnownOnlySameKeys(d: Dag, e: Dag, ids: seq<Id>)
    requires d.Keys == e.Keys
    ensures KnownOnly(d, ids) == KnownOnly(e, ids)
  {
    if ids != [] {
      assert ids[0] in d <==> ids[0] in e;
      KnownOnlySameKeys(d, e, ids[1..]);
    }
  }

  // ---- Parents first, exactly on acyclic graphs -----------------------------------------------

  /** No parent is listed at or after its child. */
  ghost predicate ParentsFirst(g: Graph, order: seq<Id>) {
    forall i, j :: 0 <= i <= j < |order| && order[i] in g ==> order[j] !in g[order[i]]
  }

  ghost predicate Walk(g: Graph, p: seq<Id>) {
    && (forall i :: 0 <= i < |p| ==> p[i] in g)
    && (forall i :: 0 <= i < |p| - 1 ==> p[i + 1] in g[p[i]])
  }

  ghost predicate Cycle(g: Graph, p: seq<Id>) {
    |p| >= 2 && Walk(g, p) && p[0] == p[|p| - 1]
  }

  ghost predicate Acyclic(g: Graph) {
    forall p :: !Cycle(g, p)
  }

  /** With no root left every node has a remaining parent, so one can walk on for ever. */
  lemma {:induction false} LongWalk(g: Graph, n: nat) returns (p: seq<Id>)
    requires g != map[] && Roots(g) == {}
    ensures |p| == n + 1 && Walk(g, p)
  {
    if n == 0 {
      assert g.Keys != {};
      var a :| a in g.Keys;
      p := [a];
    } else {
      var q := LongWalk(g, n - 1);
      var last := q[|q| - 1];
      assert last !in Roots(g);
      var next :| next in g[last] * g.Keys;
      p := q + [next];
    }
  }

  lemma RootlessHasCycle(g: Graph)
    requires g != map[] && Roots(g) == {}
    ensures !Acyclic(g)
  {
    var p := LongWalk(g, |g.Keys|);
    if NoDuplicates(p) {
      assert Elements(p) <= g.Keys;
      DistinctWithinSet(p, g.Keys);
    }
    var i, j :| 0 <= i < j < |p| && p[i] == p[j];
    var c := p[i..j + 1];
    assert forall k :: 0 <= k < |c| ==> c[k] == p[i + k];
    assert Cycle(g, c);
  }

  lemma SubgraphAcyclic(g: Graph, s: set<Id>)
    requires Acyclic(g)
    ensures Acyclic(g - s)
  {
    forall p
      ensures !Cycle(g - s, p)
    {
      assert Cycle(g - s, p) ==> Cycle(g, p);
    }
  }

  lemma {:induction false} AcyclicParentsFirst(g: Graph, times: Times)
    requires Acyclic(g)
    ensures ParentsFirst(g, TopoOrder(g, times))
    decreases g.Keys
  {
    if g != map[] {
      if Roots(g) == {} {
        RootlessHasCycle(g);
      }
      var level := Sorted(times, Level(g));
      var g' := g - Level(g);
      var rest := TopoOrder(g', times);
      SubgraphAcyclic(g, Level(g));
      AcyclicParentsFirst(g', times);
      assert forall x :: x in level <==> x in Elements(level);
      assert forall x :: x in rest <==> x in Elements(rest);
      LevelThenRest(g, g', level, rest);
    }
  }

  lemma LevelThenRest(g: Graph, g': Graph, level: seq<Id>, rest: seq<Id>)
    requires forall i :: 0 <= i < |level| ==> level[i] in g && g[level[i]] * g.Keys == {}
    requires forall i :: 0 <= i < |rest| ==> rest[i] in g' && rest[i] in g && g'[rest[i]] == g[rest[i]]
    requires ParentsFirst(g', rest)
    ensures ParentsFirst(g, level + rest)
  {
    var order := level + rest;
    forall i, j | 0 <= i <= j < |order| && order[i] in g
      ensures order[j] !in g[order[i]]
    {
      assert order[j] in g;
      if i < |level| {
        assert order[j] !in g[level[i]] * g.Keys;
      } else {
        var (k, l) := (i - |level|, j - |level|);
        assert order[i] == rest[k] && order[j] == rest[l];
      }
    }
  }

  /** A cycle cannot be listed parents first. */
  lemma CycleBlocksParentsFirst(g: Graph, order: seq<Id>, p: seq<Id>)
    requires Cycle(g, p) && NoDuplicates(order) && forall x :: x in p ==> x in order
    ensures !ParentsFirst(g, order)
  {
    assert p[0] in order;
    var i :| 0 <= i < |order| && order[i] == p[0];
    if ParentsFirst(g, order) {
      var j := WalkGoesBack(g, order, p, i);
    }
  }

  lemma {:induction false} WalkGoesBack(g: Graph, order: seq<Id>, p: seq<Id>, i: nat) returns (j: nat)
    requires ParentsFirst(g, order) && Walk(g, p) && p != [] && (forall x :: x in p ==> x in order)
    requires i < |order| && order[i] == p[0]
    ensures j < |order| && order[j] == p[|p| - 1] && (|p| > 1 ==> j < i)
    decreases |p|
  {
    if |p| == 1 {
      j := i;
    } else {
      assert p[1] in g[p[0]] && p[1] in order;
      var k :| 0 <= k < |order| && order[k] == p[1];
      assert k < i;
      j := WalkGoesBack(g, order, p[1..], k);
    }
  }

  /** In the full order, parents come before their children exactly when the ancestor graph has no cycle. */
  lemma ParentsFirstIffAcyclic(g: Graph, times: Times)
    ensures ParentsFirst(g, TopoOrder(g, times)) <==> Acyclic(g)
  {
    var order := TopoOrder(g, times);
    if Acyclic(g) {
      AcyclicParentsFirst(g, times);
    } else {
      var p :| Cycle(g, p);
      assert forall x :: x in p ==> x in g;
      assert forall x :: x in g ==> x in Elements(order);
      CycleBlocksParentsFirst(g, order, p);
    }
  }

  lemma KnownOnlyOfCons(d: Dag, ids: seq<Id>)
    requires ids != []
    ensures var kept := KnownOnly(d, ids[1..]); KnownOnly(d, ids) == if ids[0] in d then [ids[0]] + kept else kept
  {
    assert [] + KnownOnly(d, ids[1..]) == KnownOnly(d, ids[1..]);
  }

  lemma HeadParentsFirst(g: Graph, head: Id, rest: seq<Id>, kept: seq<Id>)
    requires ParentsFirst(g, [head] + rest) && ParentsFirst(g, kept) && forall i :: 0 <= i < |kept| ==> kept[i] in rest
    ensures ParentsFirst(g, [head] + kept)
  {
    forall i, j | 0 <= i <= j < |[head] + kept| && ([head] + kept)[i] in g
      ensures ([head] + kept)[j] !in g[([head] + kept)[i]]
    {
      if i == 0 && j > 0 {
        var k :| 0 <= k < |rest| && rest[k] == kept[j - 1];
        assert ([head] + rest)[0] == head && ([head] + rest)[k + 1] == kept[j - 1];
      } else if i == 0 {
        assert ([head] + rest)[0] == head;
      }
    }
  }

  lemma {:induction false} KnownOnlyParentsFirst(d: Dag, g: Graph, ids: seq<Id>)
    requires ParentsFirst(g, ids)
    ensures ParentsFirst(g, KnownOnly(d, ids))
  {
    if ids != [] {
      var rest := ids[1..];
      assert ids == [ids[0]] + rest;
      assert forall i :: 0 <= i < |rest| ==> rest[i] == ids[i + 1];
      KnownOnlyParentsFirst(d, g, rest);
      KnownOnlyKeeps(d, rest);
      hide KnownOnly;
      var kept := KnownOnly(d, rest);
      assert forall i :: 0 <= i < |kept| ==> kept[i] in rest;
      HeadParentsFirst(g, ids[0], rest, kept);
      assert KnownOnly(d, ids) == (if ids[0] in d then [ids[0]] + kept else kept) by {
        KnownOnlyOfCons(d, ids);
      }
    }
  }

  /**
   * The returned list: every known ancestor appears after all of its own parents exactly when the ancestor
   * graph is acyclic.
   */
  lemma CollectedParentsFirstIff(d: Dag, goal: Goal)
    ensures ParentsFirst(GraphOf(d, goal), Collected(d, goal)) <==> Acyclic(GraphOf(d, goal))
  {
    var edges := GraphOf(d, goal);
    var order := TopoOrder(edges, CreatedTimes(d));
    if Acyclic(edges) {
      ParentsFirstIffAcyclic(edges, CreatedTimes(d));
      KnownOnlyParentsFirst(d, edges, order);
    } else {
      var p :| Cycle(edges, p);
      CycleIsKnown(d, goal, edges, p);
      CollectionIsExact(d, goal);
      assert forall x :: x in p ==> x in edges;
      CycleBlocksParentsFirst(edges, KnownOnly(d, order), p);
    }
  }

  /** Unknown ids have no parents, so every id on a cycle is a known goal. */
  lemma CycleIsKnown(d: Dag, goal: Goal, edges: Graph, p: seq<Id>)
    requires AncestorGraph(d, goal, edges) && Cycle(edges, p)
    ensures forall x :: x in p ==> x in d
  {
    forall i | 0 <= i < |p|
      ensures p[i] in d
    {
      var k := if i == |p| - 1 then 0 else i;
      assert p[k] == p[i] && p[k + 1] in edges[p[k]];
    }
  }
}
