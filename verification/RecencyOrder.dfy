/** The merge order of the parents, told by their positions in the goal's link lists (projector.py). */
module RecencyOrder {
  import opened Prelude
  import opened Goals
  import opened Ranking
  import opened Bundles
  import opened Transcripts
  import opened Projector

  ghost predicate Rising(at: seq<nat>) {
    forall i, j :: 0 <= i < j < |at| ==> at[i] < at[j]
  }

  /** The listed pairs are those of the parents at these positions. */
  ghost predicate PairsAt(d: Dag, parents: seq<GoalId>, found: Found, at: seq<nat>, ks: seq<Keyed<Pair>>) {
    |ks| == |at| && forall m :: 0 <= m < |at| ==> PairAt(d, parents, found, at[m], ks[m])
  }

  ghost predicate PairAt(d: Dag, parents: seq<GoalId>, found: Found, i: nat, k: Keyed<Pair>) {
    && i < |parents| && parents[i] in found && k.item == (parents[i], found[parents[i]])
    && k.key == Updated(d, parents[i])
  }

  function Next(at: seq<nat>): (r: seq<nat>)
    ensures |r| == |at| && forall m :: 0 <= m < |r| ==> r[m] == at[m] + 1
  {
    seq(|at|, m requires 0 <= m < |at| => at[m] + 1)
  }

  /** One pair for every position whose parent has a contribution, in list order. */
  lemma {:induction false} PairsAreListed(d: Dag, parents: seq<GoalId>, found: Found) returns (at: seq<nat>)
    ensures Rising(at) && PairsAt(d, parents, found, at, ParentPairs(d, parents, found))
    ensures forall i: nat :: i in at <==> i < |parents| && parents[i] in found
  {
    if parents == [] {
      return [];
    }
    var (head, rest) := (parents[0], parents[1..]);
    var later := PairsAreListed(d, rest, found);
    assert parents == [head] + rest;
    hide Updated, ParentPairs;
    PairsCons(d, head, rest, found, later, ParentPairs(d, rest, found));
    PairsStep(d, parents, found);
    at := if head in found then [0] + Next(later) else Next(later);
  }

  lemma PairsStep(d: Dag, parents: seq<GoalId>, found: Found)
    requires parents != []
    ensures var later := ParentPairs(d, parents[1..], found);
      ParentPairs(d, parents, found) == if parents[0] in found
        then [Keyed(Updated(d, parents[0]), (parents[0], found[parents[0]]))] + later else later
  {
    assert [] + ParentPairs(d, parents[1..], found) == ParentPairs(d, parents[1..], found);
  }

  lemma NextMembers(at: seq<nat>)
    ensures forall i: nat :: i in Next(at) <==> i > 0 && i - 1 in at
  {
    forall i: nat
      ensures i in Next(at) <==> i > 0 && i - 1 in at
    {
      if m :| 0 <= m < |at| && at[m] == i - 1 {
        assert Next(at)[m] == i;
      }
    }
  }

  lemma NextPairs(d: Dag, head: GoalId, rest: seq<GoalId>, found: Found, later: seq<nat>, ks: seq<Keyed<Pair>>)
    requires Rising(later) && PairsAt(d, rest, found, later, ks)
    ensures Rising(Next(later)) && PairsAt(d, [head] + rest, found, Next(later), ks)
  {
    hide Updated;
    forall m | 0 <= m < |later|
      ensures PairAt(d, [head] + rest, found, Next(later)[m], ks[m])
    {
      assert PairAt(d, rest, found, later[m], ks[m]);
    }
  }

  lemma FirstPair(d: Dag, parents: seq<GoalId>, found: Found, at: seq<nat>, k: Keyed<Pair>, ks: seq<Keyed<Pair>>)
    requires Rising(at) && PairsAt(d, parents, found, at, ks) && PairAt(d, parents, found, 0, k)
    requires forall m :: 0 <= m < |at| ==> at[m] > 0
    ensures Rising([0] + at) && PairsAt(d, parents, found, [0] + at, [k] + ks)
  {
    hide PairAt;
  }

  lemma PairsCons(
    d: Dag, head: GoalId, rest: seq<GoalId>, found: Found, later: seq<nat>, ks: seq<Keyed<Pair>>)
    requires Rising(later) && PairsAt(d, rest, found, later, ks)
    requires forall i: nat :: i in later <==> i < |rest| && rest[i] in found
    ensures var (all, parents) := (if head in found then [0] + Next(later) else Next(later), [head] + rest);
      && Rising(all) && (forall i: nat :: i in all <==> i < |parents| && parents[i] in found)
      && PairsAt(
          d, parents, found, all,
          if head in found then [Keyed(Updated(d, head), (head, found[head]))] + ks else ks)
  {
    var parents := [head] + rest;
    NextMembers(later);
    NextPairs(d, head, rest, found, later, ks);
    forall i: nat
      ensures i in Next(later) <==> 0 < i < |parents| && parents[i] in found
    {
      if i > 0 {
        var before: nat := i - 1;
        assert before in later <==> before < |rest| && rest[before] in found;
      }
    }
    hide Updated, PairsAt, Rising;
    if head in found {
      FirstPair(d, parents, found, Next(later), Keyed(Updated(d, head), (head, found[head])), ks);
    }
  }

  /** Position `i` merges before position `j`: more recently updated, or at equal times standing earlier. */
  ghost predicate MergesBefore(d: Dag, parents: seq<GoalId>, i: nat, j: nat)
    requires i < |parents| && j < |parents|
  {
    Updated(d, parents[i]) > Updated(d, parents[j]) || (Updated(d, parents[i]) == Updated(d, parents[j]) && i < j)
  }

  ghost predicate Within(at: seq<nat>, n: nat) {
    forall m :: 0 <= m < |at| ==> at[m] < n
  }

  /**
   * The whole merge order: every position whose parent has a contribution once, also where a parent is listed
   * twice; most recently updated first; parents updated at the same time in list order.
   */
  lemma MergeOrderMeans(d: Dag, parents: seq<GoalId>, found: Found) returns (at: seq<nat>)
    ensures Within(at, |parents|) && |ByRecency(d, parents, found)| == |at|
    ensures forall i: nat :: i in at <==> i < |parents| && parents[i] in found
    ensures forall m :: 0 <= m < |at| ==>
      parents[at[m]] in found && ByRecency(d, parents, found)[m] == (parents[at[m]], found[parents[at[m]]])
    ensures forall i, j :: 0 <= i < j < |at| ==> MergesBefore(d, parents, at[i], at[j])
  {
    var listed := PairsAreListed(d, parents, found);
    var ks := ParentPairs(d, parents, found);
    var order := SortDescRanks(ks);
    hide ParentPairs, SortDesc, Updated;
    at := seq(|order|, m requires 0 <= m < |order| => listed[order[m]]);
    forall m | 0 <= m < |at|
      ensures PairAt(d, parents, found, at[m], SortDesc(ks)[m])
    {
      assert PairAt(d, parents, found, listed[order[m]], ks[order[m]]);
    }
    forall i: nat
      ensures i in at <==> i in listed
    {
      if i in listed {
        var k: nat :| k < |listed| && listed[k] == i;
        assert k in order;
        var m :| 0 <= m < |order| && order[m] == k;
        assert at[m] == i;
      }
    }
    forall i, j | 0 <= i < j < |at|
      ensures MergesBefore(d, parents, at[i], at[j])
    {
      assert RanksBefore(ks, order[i], order[j]);
      assert PairAt(d, parents, found, at[i], SortDesc(ks)[i]) && PairAt(d, parents, found, at[j], SortDesc(ks)[j]);
    }
  }
}
