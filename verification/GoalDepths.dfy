/** Depth in a job's subtree, and what a breadth-first queue keeps (service.py, dag_snapshot). */
module GoalDepths {
  import opened Prelude
  import opened Goals

  /** `x` lies `k` parent links below `r`, and `r` is not among the goals in between. */
  ghost predicate AtDepth(d: Dag, r: GoalId, x: GoalId, k: nat)
    decreases k
  {
    if k == 0 then x == r
    else x != r && x in d && d[x].Parent().Some? && AtDepth(d, r, d[x].Parent().value, k - 1)
  }

  lemma {:induction false} DepthIsUnique(d: Dag, r: GoalId, x: GoalId, k: nat, m: nat)
    requires AtDepth(d, r, x, k) && AtDepth(d, r, x, m)
    ensures k == m
    decreases k
  {
    if k > 0 && m > 0 {
      DepthIsUnique(d, r, d[x].Parent().value, k - 1, m - 1);
    }
  }

  /** Shallower goals come first. */
  ghost predicate ByDepth(d: Dag, r: GoalId, nodes: seq<GoalId>) {
    forall i, j, a: nat, b: nat ::
      0 <= i < j < |nodes| && AtDepth(d, r, nodes[i], a) && AtDepth(d, r, nodes[j], b) ==> a <= b
  }

  ghost predicate NoneBelow(d: Dag, r: GoalId, nodes: seq<GoalId>, k: nat) {
    forall i, a: nat :: 0 <= i < |nodes| && AtDepth(d, r, nodes[i], a) ==> a <= k
  }

  /** The first `n` entries are at depth `k`, the others one deeper. */
  ghost predicate TwoLevels(d: Dag, r: GoalId, queue: seq<GoalId>, n: int, k: nat) {
    && 0 <= n <= |queue|
    && forall i :: 0 <= i < |queue| ==> AtDepth(d, r, queue[i], if i < n then k else k + 1)
  }

  /** Listed so far by depth, down to depth `k`, and the queue holds what remains of depth `k` before depth `k + 1`. */
  ghost predicate Leveled(d: Dag, r: GoalId, nodes: seq<GoalId>, queue: seq<GoalId>, n: int, k: nat) {
    ByDepth(d, r, nodes) && NoneBelow(d, r, nodes, k) && TwoLevels(d, r, queue, n, k)
  }

  /** A queue that starts one level deeper is at the next level altogether. */
  lemma Descend(d: Dag, r: GoalId, nodes: seq<GoalId>, queue: seq<GoalId>, k: nat)
    requires Leveled(d, r, nodes, queue, 0, k)
    ensures Leveled(d, r, nodes, queue, |queue|, k + 1)
  {
  }

  lemma ListedNext(d: Dag, r: GoalId, nodes: seq<GoalId>, x: GoalId, k: nat)
    requires ByDepth(d, r, nodes) && NoneBelow(d, r, nodes, k) && AtDepth(d, r, x, k)
    ensures ByDepth(d, r, nodes + [x]) && NoneBelow(d, r, nodes + [x], k)
  {
    var longer := nodes + [x];
    forall a: nat | AtDepth(d, r, x, a)
      ensures a == k
    {
      DepthIsUnique(d, r, x, a, k);
    }
    forall i, a: nat | 0 <= i < |longer| && AtDepth(d, r, longer[i], a)
      ensures a <= k
    {
    }
    forall i, j, a: nat, b: nat | 0 <= i < j < |longer| && AtDepth(d, r, longer[i], a) && AtDepth(d, r, longer[j], b)
      ensures a <= b
    {
      if j < |nodes| {
        assert AtDepth(d, r, nodes[i], a) && AtDepth(d, r, nodes[j], b);
      } else {
        assert AtDepth(d, r, nodes[i], a);
      }
    }
  }

  /** Children of a goal at depth `k`, the root excepted, join at the end of the queue. */
  lemma QueueNext(d: Dag, r: GoalId, queue: seq<GoalId>, added: seq<GoalId>, n: int, k: nat)
    requires queue != [] && n > 0 && TwoLevels(d, r, queue, n, k)
    requires forall c :: c in added ==> c != r && c in d && d[c].Parent() == Some(queue[0])
    ensures TwoLevels(d, r, queue[1..] + added, n - 1, k)
  {
    var longer := queue[1..] + added;
    forall i | 0 <= i < |longer|
      ensures AtDepth(d, r, longer[i], if i < n - 1 then k else k + 1)
    {
      if i < |queue| - 1 {
        assert longer[i] == queue[i + 1];
      } else {
        assert longer[i] in added;
      }
    }
  }

  /** Dequeuing one goal, with or without listing it: the walk stays breadth first. */
  lemma LeveledNext(
    d: Dag, r: GoalId, nodes: seq<GoalId>, queue: seq<GoalId>, added: seq<GoalId>, listed: bool, n: int, k: nat)
    returns (m: int, l: nat)
    requires queue != [] && Leveled(d, r, nodes, queue, n, k)
    requires forall c :: c in added ==> c != r && c in d && d[c].Parent() == Some(queue[0])
    ensures Leveled(d, r, if listed then nodes + [queue[0]] else nodes, queue[1..] + added, m, l)
  {
    m, l := n, k;
    if n == 0 {
      Descend(d, r, nodes, queue, k);
      m, l := |queue|, k + 1;
    }
    QueueNext(d, r, queue, added, m, l);
    if listed {
      ListedNext(d, r, nodes, queue[0], l);
    }
    m := m - 1;
  }

  lemma LeveledStart(d: Dag, r: GoalId)
    ensures Leveled(d, r, [], [r], 1, 0)
  {
  }
}
