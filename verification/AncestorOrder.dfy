/** The order of the collected ancestors, read off goals and links alone (projector.py, _collect_ancestors). */
module AncestorOrder {
  import opened Prelude
  import opened Goals
  import opened IdOrder
  import opened Ancestors

  /** From `x` one can go up `n` links without leaving the graph. */
  ghost predicate Climbs(g: Graph, x: Id, n: nat)
    decreases n
  {
    x in g && (n == 0 || exists y :: y in g[x] && Climbs(g, y, n - 1))
  }

  /** The longest way up from `x` has `h` links. */
  ghost predicate HeightIs(g: Graph, x: Id, h: nat) {
    Climbs(g, x, h) && !Climbs(g, x, h + 1)
  }

  /** `a` sorts before `b`: at the first difference it ends or has the smaller character. */
  ghost predicate Smaller(a: string, b: string) {
    exists k :: 0 <= k <= |a| && k < |b| && a[..k] == b[..k] && (k == |a| || a[k] < b[k])
  }

  /** `x` is listed before `y`. */
  ghost predicate Precedes(order: seq<Id>, x: Id, y: Id) {
    exists i, j :: 0 <= i < j < |order| && order[i] == x && order[j] == y
  }

  lemma {:induction false} LexLessIff(a: string, b: string)
    ensures LexLess(a, b) <==> Smaller(a, b)
  {
    if a != "" && b != "" && a[0] == b[0] {
      LexLessIff(a[1..], b[1..]);
      if k :| 0 <= k <= |a| && k < |b| && a[..k] == b[..k] && (k == |a| || a[k] < b[k]) {
        assert k > 0 && a[1..][..k - 1] == a[..k][1..] && b[1..][..k - 1] == b[..k][1..];
        assert Smaller(a[1..], b[1..]);
      }
      var (x, y) := (a[1..], b[1..]);
      if k :| 0 <= k <= |x| && k < |y| && x[..k] == y[..k] && (k == |x| || x[k] < y[k]) {
        assert a[..k + 1] == [a[0]] + x[..k] && b[..k + 1] == [b[0]] + y[..k];
        assert Smaller(a, b);
      }
    } else {
      FirstCharacterDecides(a, b);
    }
  }

  lemma FirstCharacterDecides(a: string, b: string)
    requires a == "" || b == "" || a[0] != b[0]
    ensures LexLess(a, b) <==> Smaller(a, b)
  {
    SamePrefixSameHead(a, b);
    if LexLess(a, b) {
      assert a[..0] == b[..0];
    }
  }

  lemma SamePrefixSameHead(a: string, b: string)
    ensures forall k :: 0 < k <= |a| && k <= |b| && a[..k] == b[..k] ==> a[0] == b[0]
  {
    forall k | 0 < k <= |a| && k <= |b| && a[..k] == b[..k]
      ensures a[0] == b[0]
    {
      assert a[..k][0] == a[0] && b[..k][0] == b[0];
    }
  }

  // ---- Heights ----------------------------------------------------------------------------------

  lemma {:induction false} ClimbsLess(g: Graph, x: Id, n: nat, m: nat)
    requires Climbs(g, x, n) && m <= n
    ensures Climbs(g, x, m)
    decreases n
  {
    if m > 0 {
      var y :| y in g[x] && Climbs(g, y, n - 1);
      ClimbsLess(g, y, n - 1, m - 1);
    }
  }

  lemma HeightIsUnique(g: Graph, x: Id, h: nat, k: nat)
    requires HeightIs(g, x, h) && HeightIs(g, x, k)
    ensures h == k
  {
    if h < k {
      ClimbsLess(g, x, k, h + 1);
    } else if k < h {
      ClimbsLess(g, x, h, k + 1);
    }
  }

  /** Taking the roots away shortens every way up by one link. */
  lemma {:induction false} ClimbsAboveRoots(g: Graph, x: Id, n: nat)
    ensures Climbs(g - Roots(g), x, n) <==> Climbs(g, x, n + 1)
    decreases n
  {
    var rest := g - Roots(g);
    if x in g {
      if n == 0 {
        if x in rest {
          var y :| y in g[x] * g.Keys;
          assert Climbs(g, y, 0);
        }
        if Climbs(g, x, 1) {
          var y :| y in g[x] && Climbs(g, y, 0);
          assert y in g[x] * g.Keys;
        }
      } else {
        forall y | y in g[x]
          ensures Climbs(rest, y, n - 1) <==> Climbs(g, y, n)
        {
          ClimbsAboveRoots(g, y, n - 1);
        }
        if Climbs(g, x, n + 1) {
          var y :| y in g[x] && Climbs(g, y, n);
          assert y in g[x] * g.Keys;
          assert x in rest && y in rest[x] && Climbs(rest, y, n - 1);
        }
        if Climbs(rest, x, n) {
          var y :| y in rest[x] && Climbs(rest, y, n - 1);
          assert y in g[x] && Climbs(g, y, n);
        }
      }
    }
  }

  lemma HeightAboveRoots(g: Graph, x: Id, h: nat)
    requires HeightIs(g, x, h) && x !in Roots(g)
    ensures h > 0 && HeightIs(g - Roots(g), x, h - 1)
  {
    ClimbsAboveRoots(g, x, 0);
    ClimbsAboveRoots(g, x, h);
    if h > 0 {
      ClimbsAboveRoots(g, x, h - 1);
    }
  }

  lemma RootHeight(g: Graph, x: Id, h: nat)
    requires HeightIs(g, x, h) && x in Roots(g)
    ensures h == 0
  {
    ClimbsAboveRoots(g, x, 0);
    if h > 0 {
      ClimbsLess(g, x, h, 1);
    }
  }

  /** On an acyclic graph every node has a height. */
  lemma {:induction false} HeightExists(g: Graph, x: Id) returns (h: nat)
    requires Acyclic(g) && x in g
    ensures HeightIs(g, x, h)
    decreases g.Keys
  {
    if Roots(g) == {} {
      RootlessHasCycle(g);
    }
    if x in Roots(g) {
      ClimbsAboveRoots(g, x, 0);
      return 0;
    }
    SubgraphAcyclic(g, Roots(g));
    h := HeightExists(g - Roots(g), x);
    ClimbsAboveRoots(g, x, h);
    ClimbsAboveRoots(g, x, h + 1);
    h := h + 1;
  }

  // ---- The order ----------------------------------------------------------------------------------

  lemma At(s: seq<Id>, x: Id) returns (i: nat)
    requires x in s
    ensures i < |s| && s[i] == x
  {
    var k :| 0 <= k < |s| && s[k] == x;
    i := k;
  }

  /** In a list without duplicates each entry has one position, so positions decide. */
  lemma PrecedesByIndex(s: seq<Id>, i: nat, j: nat)
    requires NoDuplicates(s) && i < |s| && j < |s|
    ensures Precedes(s, s[i], s[j]) <==> i < j
  {
  }

  lemma PrecedesInFirst(a: seq<Id>, b: seq<Id>, x: Id, y: Id)
    requires NoDuplicates(a + b) && NoDuplicates(a) && x in a && y in a
    ensures Precedes(a + b, x, y) <==> Precedes(a, x, y)
  {
    hide Precedes, NoDuplicates;
    var i := At(a, x);
    var j := At(a, y);
    PrecedesByIndex(a, i, j);
    PrecedesByIndex(a + b, i, j);
  }

  lemma PrecedesInSecond(a: seq<Id>, b: seq<Id>, x: Id, y: Id)
    requires NoDuplicates(a + b) && NoDuplicates(b) && x in b && y in b
    ensures Precedes(a + b, x, y) <==> Precedes(b, x, y)
  {
    hide Precedes, NoDuplicates;
    var i := At(b, x);
    var j := At(b, y);
    PrecedesByIndex(b, i, j);
    PrecedesByIndex(a + b, |a| + i, |a| + j);
  }

  lemma PrecedesAcross(a: seq<Id>, b: seq<Id>, x: Id, y: Id)
    requires NoDuplicates(a + b) && x in a && y in b
    ensures Precedes(a + b, x, y) && !Precedes(a + b, y, x)
  {
    hide Precedes, NoDuplicates;
    var i := At(a, x);
    var j := At(b, y);
    PrecedesByIndex(a + b, i, |a| + j);
    PrecedesByIndex(a + b, |a| + j, i);
  }

  lemma AscendingPrecedes(times: Times, a: seq<Id>, x: Id, y: Id)
    requires Ascending(times, a) && x in a && y in a
    ensures Precedes(a, x, y) <==> Before(times, x, y)
  {
    var i :| 0 <= i < |a| && a[i] == x;
    var j :| 0 <= j < |a| && a[j] == y;
    BeforeTotal(times, x, y);
    if i < j {
      assert Precedes(a, x, y);
    }
  }

  /** Level upon level: smaller heights first, and by time and id within a height. */
  lemma {:induction false} TopoOrderByHeight(g: Graph, times: Times, x: Id, y: Id, h: nat, k: nat)
    requires Acyclic(g) && HeightIs(g, x, h) && HeightIs(g, y, k)
    ensures Precedes(TopoOrder(g, times), x, y) <==> h < k || (h == k && Before(times, x, y))
    decreases g.Keys
  {
    hide *;
    AcyclicHasRoot(g, x, h);
    SubgraphAcyclic(g, Roots(g));
    LevelThenRest(g, times);
    OneOf(g, times, x, h);
    OneOf(g, times, y, k);
    if x !in Roots(g) && y !in Roots(g) {
      TopoOrderByHeight(g - Roots(g), times, x, y, h - 1, k - 1);
    }
    ByLevel(Sorted(times, Roots(g)), TopoOrder(g - Roots(g), times), Roots(g), times, x, y, h, k);
  }

  lemma AcyclicHasRoot(g: Graph, x: Id, h: nat)
    requires Acyclic(g) && HeightIs(g, x, h)
    ensures Roots(g) != {}
  {
    assert x in g;
    hide Acyclic, Roots;
    if Roots(g) == {} {
      RootlessHasCycle(g);
    }
  }

  /** Level 0 in front of the others, which are ordered by height among themselves. */
  lemma ByLevel(
    level: seq<Id>, rest: seq<Id>, roots: set<Id>, times: Times, x: Id, y: Id, h: nat, k: nat)
    requires NoDuplicates(level + rest) && NoDuplicates(level) && NoDuplicates(rest) && Ascending(times, level)
    requires if x in roots then h == 0 && x in level else h > 0 && x in rest
    requires if y in roots then k == 0 && y in level else k > 0 && y in rest
    requires x !in roots && y !in roots ==> (Precedes(rest, x, y) <==> h < k || (h == k && Before(times, x, y)))
    ensures Precedes(level + rest, x, y) <==> h < k || (h == k && Before(times, x, y))
  {
    hide *;
    if x in roots && y in roots {
      PrecedesInFirst(level, rest, x, y);
      AscendingPrecedes(times, level, x, y);
    } else if x !in roots && y !in roots {
      PrecedesInSecond(level, rest, x, y);
    } else if x in roots {
      PrecedesAcross(level, rest, x, y);
    } else {
      PrecedesAcross(level, rest, y, x);
    }
  }

  lemma LevelThenRest(g: Graph, times: Times)
    requires Roots(g) != {}
    ensures var (level, rest) := (Sorted(times, Roots(g)), TopoOrder(g - Roots(g), times));
      && TopoOrder(g, times) == level + rest && NoDuplicates(level + rest) && NoDuplicates(level) && NoDuplicates(rest)
      && Ascending(times, level)
    ensures (g - Roots(g)).Keys < g.Keys
  {
    AscendingIsDistinct(times, Sorted(times, Roots(g)));
    var r :| r in Roots(g);
    assert r in g && Level(g) == Roots(g);
    hide Sorted;
  }

  /** A node is a root, at height 0, or in the rest, one lower there. */
  lemma OneOf(g: Graph, times: Times, x: Id, h: nat)
    requires HeightIs(g, x, h)
    ensures if x in Roots(g) then h == 0 && x in Sorted(times, Roots(g))
      else h > 0 && HeightIs(g - Roots(g), x, h - 1) && x in TopoOrder(g - Roots(g), times)
  {
    assert x in g;
    hide TopoOrder, Sorted, Roots, HeightIs;
    if x in Roots(g) {
      RootHeight(g, x, h);
      assert x in Elements(Sorted(times, Roots(g)));
    } else {
      HeightAboveRoots(g, x, h);
      assert x in Elements(TopoOrder(g - Roots(g), times));
    }
  }

  lemma {:induction false} KnownOnlyPrecedes(d: Dag, ids: seq<Id>, x: Id, y: Id)
    requires x in d && y in d && NoDuplicates(ids)
    ensures Precedes(KnownOnly(d, ids), x, y) <==> Precedes(ids, x, y)
  {
    if ids != [] {
      var (head, rest) := (ids[0], ids[1..]);
      var kept := KnownOnly(d, rest);
      assert ids == [head] + rest && NoDuplicates(rest);
      hide KnownOnly, NoDuplicates, Precedes;
      KnownOnlyKeeps(d, rest);
      KnownOnlyOfCons(d, ids);
      KnownOnlyPrecedes(d, rest, x, y);
      HeadPrecedes(head, rest, x, y);
      HeadPrecedes(head, kept, x, y);
    }
  }

  lemma HeadPrecedes(head: Id, rest: seq<Id>, x: Id, y: Id)
    ensures Precedes([head] + rest, x, y) <==> Precedes(rest, x, y) || (head == x && y in rest)
  {
    var all := [head] + rest;
    if i, j :| 0 <= i < j < |all| && all[i] == x && all[j] == y {
      assert rest[j - 1] == y && (i > 0 ==> rest[i - 1] == x);
    }
    if i, j :| 0 <= i < j < |rest| && rest[i] == x && rest[j] == y {
      assert all[i + 1] == x && all[j + 1] == y;
    }
    if head == x && y in rest {
      var j :| 0 <= j < |rest| && rest[j] == y;
      assert all[0] == x && all[j + 1] == y;
    }
  }

  /** By creation time, and at the same time by id. */
  ghost predicate Older(d: Dag, x: Id, y: Id)
    requires x in d && y in d
  {
    d[x].createdAt < d[y].createdAt || (d[x].createdAt == d[y].createdAt && Smaller(x, y))
  }

  lemma BeforeIsOlder(d: Dag, x: Id, y: Id)
    requires x in d && y in d
    ensures Before(CreatedTimes(d), x, y) <==> Older(d, x, y)
  {
    LexLessIff(x, y);
  }

  /**
   * On an acyclic ancestor graph, of two listed ancestors the one with the smaller height comes first; at the
   * same height the older one; and of equally old ones the one with the smaller id.
   */
  lemma CollectedByHeightAndAge(d: Dag, goal: Goal, x: Id, y: Id, h: nat, k: nat)
    requires Acyclic(GraphOf(d, goal)) && x in Collected(d, goal) && y in Collected(d, goal)
    requires HeightIs(GraphOf(d, goal), x, h) && HeightIs(GraphOf(d, goal), y, k)
    ensures x in d && y in d
    ensures Precedes(Collected(d, goal), x, y) <==> h < k || (h == k && Older(d, x, y))
  {
    CollectionIsExact(d, goal);
    var order := TopoOrder(GraphOf(d, goal), CreatedTimes(d));
    TopoOrderByHeight(GraphOf(d, goal), CreatedTimes(d), x, y, h, k);
    BeforeIsOlder(d, x, y);
    KnownOnlyPrecedes(d, order, x, y);
  }

  /** Of two listed ancestors without parents the older one comes first. */
  lemma RootsByAge(d: Dag, goal: Goal, x: Id, y: Id)
    requires Acyclic(GraphOf(d, goal)) && x in Collected(d, goal) && y in Collected(d, goal) && x in d && y in d
    requires d[x].dependsOn == d[x].informs == d[y].dependsOn == d[y].informs == []
    requires d[x].createdAt < d[y].createdAt
    ensures Precedes(Collected(d, goal), x, y)
  {
    CollectionIsExact(d, goal);
    NoParentsNoHeight(d, goal, x);
    NoParentsNoHeight(d, goal, y);
    CollectedByHeightAndAge(d, goal, x, y, 0, 0);
  }

  lemma NoParentsNoHeight(d: Dag, goal: Goal, x: Id)
    requires x in d && Ancestor(d, goal, x) && d[x].dependsOn == d[x].informs == []
    ensures HeightIs(GraphOf(d, goal), x, 0)
  {
    assert ParentsIn(d, x) == {};
  }

  /** No ancestor is a root: each has parents, and those are ancestors too. */
  ghost predicate NoRoots(d: Dag, goal: Goal) {
    forall x :: Ancestor(d, goal, x) ==> ParentsIn(d, x) != {}
  }

  lemma HasParentsInGraph(d: Dag, goal: Goal, x: Id)
    requires NoRoots(d, goal) && x in GraphOf(d, goal)
    ensures x in d && GraphOf(d, goal)[x] * GraphOf(d, goal).Keys != {}
  {
    var g := GraphOf(d, goal);
    assert AncestorGraph(d, goal, g);
    hide GraphOf, NoRoots, Ancestor;
    NoRootsAt(d, goal, x);
    assert g[x] == ParentsIn(d, x) && g[x] <= g.Keys;
    var y :| y in g[x];
    assert y in g[x] * g.Keys;
  }

  lemma NoRootsAt(d: Dag, goal: Goal, x: Id)
    requires NoRoots(d, goal) && Ancestor(d, goal, x)
    ensures ParentsIn(d, x) != {}
  {
  }

  /** Where every ancestor has a parent, links go round in cycles, and the listing starts with the smallest id. */
  lemma BlockedByCyclesTakesSmallest(d: Dag, goal: Goal)
    requires GraphOf(d, goal) != map[] && NoRoots(d, goal)
    ensures Collected(d, goal) != []
    ensures var first := Collected(d, goal)[0];
      first in GraphOf(d, goal) && forall x :: x in GraphOf(d, goal) && x != first ==> Smaller(first, x)
  {
    hide TopoOrder, KnownOnly, GraphOf, Smaller, NoRoots, CreatedTimes, Roots, AncestorGraph;
    forall x | x in GraphOf(d, goal)
      ensures x in d && x !in Roots(GraphOf(d, goal))
    {
      HasParentsInGraph(d, goal, x);
      NotARoot(GraphOf(d, goal), x);
    }
    BlockedLevel(d, GraphOf(d, goal));
  }

  lemma NotARoot(g: Graph, x: Id)
    requires x in g && g[x] * g.Keys != {}
    ensures x !in Roots(g)
  {
  }

  lemma BlockedLevel(d: Dag, g: Graph)
    requires g != map[] && forall x :: x in g ==> x in d && x !in Roots(g)
    ensures var order := KnownOnly(d, TopoOrder(g, CreatedTimes(d)));
      order != [] && order[0] in g && forall x :: x in g && x != order[0] ==> Smaller(order[0], x)
  {
    var times := CreatedTimes(d);
    assert Roots(g) == {};
    assert g.Keys != {};
    var m := Least(map[], g.Keys);
    OnlyOne(times, m);
    assert TopoOrder(g, times) == [m] + TopoOrder(g - {m}, times);
    hide TopoOrder, KnownOnly, Smaller, Least, Roots;
    forall x | x in g && x != m
      ensures Smaller(m, x)
    {
      LexLessIff(m, x);
    }
    KnownOnlyOfCons(d, [m] + TopoOrder(g - {m}, times));
  }

  lemma OnlyOne(times: Times, m: Id)
    ensures Sorted(times, {m}) == [m]
  {
    var xs := Sorted(times, {m});
    assert m in Elements(xs);
    AscendingIsDistinct(times, xs);
    DistinctLength(xs);
    assert xs[0] in Elements(xs);
  }
}
