/** Which findings a bundle keeps: the ranking spelled out over the parents' contributions (projector.py). */
module FindingOrder {
  import opened Prelude
  import opened Goals
  import opened Ranking
  import opened Bundles
  import opened MergeOrder
  import opened Transcripts
  import opened Projector

  function FindingSizes(pairs: seq<Pair>): (sizes: Sizes)
    ensures |sizes| == |pairs| && forall i :: 0 <= i < |pairs| ==> sizes[i] == |pairs[i].1.findings|
  {
    seq(|pairs|, i requires 0 <= i < |pairs| => |pairs[i].1.findings|)
  }

  /** Among n parents the i-th counts (2n - i) / 2n of a finding's relevance: all of it first, down to about half. */
  function Score(pairs: seq<Pair>, p: Place): real
    requires Within(p, FindingSizes(pairs))
  {
    var n := |pairs|;
    pairs[p.pair].1.findings[p.item].relevance * ((2 * n - p.pair) as real / (2 * n) as real)
  }

  predicate FindingAt(pairs: seq<Pair>, p: Place, f: ParentFinding) {
    && Within(p, FindingSizes(pairs))
    && var (parent, c) := pairs[p.pair];
      f == ParentFinding(parent, c.findings[p.item].summary, c.findings[p.item].relevance)
  }

  /** A higher score wins; at equal scores what stands earlier in the merge order. */
  ghost predicate Better(pairs: seq<Pair>, p: Place, q: Place)
    requires Within(p, FindingSizes(pairs)) && Within(q, FindingSizes(pairs))
  {
    Score(pairs, p) > Score(pairs, q) || (Score(pairs, p) == Score(pairs, q) && Earlier(p, q))
  }

  /** Every place of a finding once, better ones first. */
  ghost predicate IsRanking(pairs: seq<Pair>, places: seq<Place>) {
    && (forall p :: p in places <==> Within(p, FindingSizes(pairs)))
    && forall i, j :: 0 <= i < j < |places| && places[i] in places && places[j] in places ==>
      Better(pairs, places[i], places[j])
  }

  // ---- The scores -------------------------------------------------------------------------------

  lemma WeightIsShare(i: nat, n: nat)
    requires n > 0
    ensures Weight(i, n) == (2 * n - i) as real / (2 * n) as real
  {
    var (x, y) := (i as real, n as real);
    assert (2 * n - i) as real == 2.0 * y - x && (2 * n) as real == 2.0 * y;
    ShareOfTwo(x, y);
  }

  lemma ShareOfTwo(x: real, y: real)
    requires y > 0.0
    ensures 1.0 - 0.5 * x / y == (2.0 * y - x) / (2.0 * y)
  {
    var l := 0.5 * x / y;
    assert l * y == 0.5 * x;
    assert (1.0 - l) * (2.0 * y) == 2.0 * y - 2.0 * (l * y);
    DivideBack(1.0 - l, 2.0 * y, 2.0 * y - x);
  }

  lemma DivideBack(q: real, y: real, z: real)
    requires y > 0.0 && q * y == z
    ensures q == z / y
  {
  }

  // ---- The ranking over places --------------------------------------------------------------------

  /** The scored finding is the one at the place. */
  ghost predicate ScoredAt(pairs: seq<Pair>, p: Place, k: Keyed<ParentFinding>) {
    FindingAt(pairs, p, k.item) && k.key == Score(pairs, p)
  }

  ghost predicate AllScoredAt(pairs: seq<Pair>, places: seq<Place>, ks: seq<Keyed<ParentFinding>>) {
    |ks| == |places| && forall m :: 0 <= m < |places| ==> ScoredAt(pairs, places[m], ks[m])
  }

  lemma AllScoredConcat(
    pairs: seq<Pair>, a: seq<Place>, b: seq<Place>, ks: seq<Keyed<ParentFinding>>, ls: seq<Keyed<ParentFinding>>)
    requires AllScoredAt(pairs, a, ks) && AllScoredAt(pairs, b, ls)
    ensures AllScoredAt(pairs, a + b, ks + ls)
  {
    hide ScoredAt;
  }

  lemma {:induction false} ScoredFindingsAre(parent: GoalId, findings: seq<Finding>, weight: real)
    ensures |ScoredFindings(parent, findings, weight)| == |findings|
    ensures forall k :: 0 <= k < |findings| ==>
      Counted(parent, findings[k], weight, ScoredFindings(parent, findings, weight)[k])
  {
    if findings != [] {
      var (rest, all) := (findings[1..], ScoredFindings(parent, findings, weight));
      ScoredFindingsAre(parent, rest, weight);
      assert Counted(parent, findings[0], weight, all[0]);
      hide Counted;
      forall k | 0 < k < |findings|
        ensures Counted(parent, findings[k], weight, all[k])
      {
        assert findings[k] == rest[k - 1] && all[k] == ScoredFindings(parent, rest, weight)[k - 1];
      }
    }
  }

  ghost predicate Counted(parent: GoalId, f: Finding, weight: real, k: Keyed<ParentFinding>) {
    k == Keyed(f.relevance * weight, ParentFinding(parent, f.summary, f.relevance))
  }

  lemma RowScored(pairs: seq<Pair>, i: nat)
    requires i < |pairs|
    ensures AllScoredAt(
      pairs, Row(i, FindingSizes(pairs)[i]),
      ScoredFindings(pairs[i].0, pairs[i].1.findings, Weight(i, |pairs|)))
  {
    WeightIsShare(i, |pairs|);
    ScoredFindingsAre(pairs[i].0, pairs[i].1.findings, Weight(i, |pairs|));
    hide Weight, ScoredFindings;
    forall k | 0 <= k < |pairs[i].1.findings|
      ensures ScoredAt(
        pairs, Row(i, FindingSizes(pairs)[i])[k],
        ScoredFindings(pairs[i].0, pairs[i].1.findings, Weight(i, |pairs|))[k])
    {
    }
  }

  lemma {:induction false} AllFindingsPlaced(pairs: seq<Pair>, i: nat)
    requires i <= |pairs|
    ensures AllScoredAt(pairs, Flat(FindingSizes(pairs), i), AllFindings(pairs, i))
    decreases |pairs| - i
  {
    if i < |pairs| {
      AllFindingsPlaced(pairs, i + 1);
      RowScored(pairs, i);
      FlatStep(FindingSizes(pairs), i);
      AllFindingsStep(pairs, i);
      hide *;
      AllScoredConcat(
        pairs, Row(i, FindingSizes(pairs)[i]), Flat(FindingSizes(pairs), i + 1),
        ScoredFindings(pairs[i].0, pairs[i].1.findings, Weight(i, |pairs|)), AllFindings(pairs, i + 1));
    }
  }

  lemma AllFindingsStep(pairs: seq<Pair>, i: nat)
    requires i < |pairs|
    ensures AllFindings(pairs, i)
      == ScoredFindings(pairs[i].0, pairs[i].1.findings, Weight(i, |pairs|)) + AllFindings(pairs, i + 1)
  {
  }

  /** The merged findings are those at the places, under the parent's id. */
  ghost predicate FindingsAt(pairs: seq<Pair>, places: seq<Place>, findings: seq<ParentFinding>) {
    |findings| == |places| && forall m :: 0 <= m < |places| ==> FindingAt(pairs, places[m], findings[m])
  }

  function Read(places: seq<Place>, at: seq<nat>): (r: seq<Place>)
    requires forall m :: 0 <= m < |at| ==> at[m] < |places|
    ensures |r| == |at| && forall m :: 0 <= m < |r| ==> r[m] == places[at[m]]
  {
    seq(|at|, m requires 0 <= m < |at| => places[at[m]])
  }

  /** The merged findings are the first `cap` of the one ranking of all findings. */
  lemma MergedFindingsMean(pairs: seq<Pair>, cap: nat) returns (places: seq<Place>)
    ensures IsRanking(pairs, places)
    ensures FindingsAt(pairs, Take(places, cap), Items(Take(SortDesc(AllFindings(pairs, 0)), cap)))
  {
    var (all, ks) := (Flat(FindingSizes(pairs), 0), AllFindings(pairs, 0));
    FlatFacts(FindingSizes(pairs), 0);
    AllFindingsPlaced(pairs, 0);
    var at := SortDescRanks(ks);
    hide Flat, AllFindings, SortDesc, Within;
    places := Read(all, at);
    RankedPlaces(pairs, all, ks, at, SortDesc(ks));
    TakenFindings(pairs, all, ks, at, SortDesc(ks), cap);
  }

  lemma TakenFindings(
    pairs: seq<Pair>, all: seq<Place>, ks: seq<Keyed<ParentFinding>>, at: seq<nat>, ranked: seq<Keyed<ParentFinding>>,
    cap: nat)
    requires AllScoredAt(pairs, all, ks) && Ranks(ks, at, ranked)
    ensures FindingsAt(pairs, Take(Read(all, at), cap), Items(Take(ranked, cap)))
  {
    hide FindingAt, Score, RanksBefore;
    forall m | 0 <= m < |Take(ranked, cap)|
      ensures FindingAt(pairs, Take(Read(all, at), cap)[m], Items(Take(ranked, cap))[m])
    {
      assert ScoredAt(pairs, all[at[m]], ks[at[m]]);
    }
  }

  lemma RankedPlaces(
    pairs: seq<Pair>, all: seq<Place>, ks: seq<Keyed<ParentFinding>>, at: seq<nat>, ranked: seq<Keyed<ParentFinding>>)
    requires AllScoredAt(pairs, all, ks) && Ranks(ks, at, ranked) && InOrder(all)
    requires forall p :: p in all <==> Within(p, FindingSizes(pairs)) && p.pair >= 0
    ensures IsRanking(pairs, Read(all, at))
  {
    hide Within, Score, Earlier, FindingAt;
    var places := Read(all, at);
    forall p
      ensures p in places <==> p in all
    {
      if p in all {
        var k: nat :| k < |all| && all[k] == p;
        assert k in at;
        var m :| 0 <= m < |at| && at[m] == k;
        assert places[m] == p;
      }
    }
    forall i, j | 0 <= i < j < |places| && places[i] in places && places[j] in places
      ensures Better(pairs, places[i], places[j])
    {
      assert RanksBefore(ks, at[i], at[j]);
      assert ScoredAt(pairs, all[at[i]], ks[at[i]]) && ScoredAt(pairs, all[at[j]], ks[at[j]]);
    }
  }

  /** No finding left out beats one that is kept. */
  lemma LeftOutIsWorse(pairs: seq<Pair>, places: seq<Place>, cap: nat, p: Place, q: Place)
    requires IsRanking(pairs, places) && Within(p, FindingSizes(pairs)) && Within(q, FindingSizes(pairs))
    requires q in Take(places, cap) && p !in Take(places, cap)
    ensures Better(pairs, q, p) && Score(pairs, q) >= Score(pairs, p)
  {
    hide Within, Score, Better;
    assert p in places;
    var i :| 0 <= i < |Take(places, cap)| && Take(places, cap)[i] == q;
    var j :| 0 <= j < |places| && places[j] == p;
    assert forall k :: 0 <= k < |Take(places, cap)| ==> Take(places, cap)[k] == places[k];
    assert j >= |Take(places, cap)|;
    assert places[i] in places && places[j] in places;
    BetterScore(pairs, q, p);
  }

  lemma BetterScore(pairs: seq<Pair>, q: Place, p: Place)
    requires Within(p, FindingSizes(pairs)) && Within(q, FindingSizes(pairs))
    ensures Better(pairs, q, p) ==> Score(pairs, q) >= Score(pairs, p)
    ensures !(Better(pairs, q, p) && Better(pairs, p, q))
  {
  }

  /** Of two equally relevant findings, relevant at all, the one of the earlier parent scores higher. */
  lemma EarlierParentScoresHigher(pairs: seq<Pair>, p: Place, q: Place)
    requires Within(p, FindingSizes(pairs)) && Within(q, FindingSizes(pairs)) && p.pair < q.pair
    requires pairs[p.pair].1.findings[p.item].relevance == pairs[q.pair].1.findings[q.item].relevance > 0.0
    ensures Score(pairs, p) > Score(pairs, q)
  {
    var n := |pairs|;
    var r := pairs[p.pair].1.findings[p.item].relevance;
    var (a, b) := ((2 * n - p.pair) as real / (2 * n) as real, (2 * n - q.pair) as real / (2 * n) as real);
    DivideLess((2 * n - q.pair) as real, (2 * n - p.pair) as real, (2 * n) as real);
    TimesLess(r, b, a);
  }

  lemma DivideLess(x: real, y: real, n: real)
    requires x < y && n > 0.0
    ensures x / n < y / n
  {
    assert (x / n) * n == x && (y / n) * n == y;
  }

  lemma TimesLess(r: real, x: real, y: real)
    requires r > 0.0 && x < y
    ensures r * x < r * y
  {
  }

  /**
   * Of two equally relevant findings, relevant at all, the one from the more recently updated parent is never
   * left out while the other is kept.
   */
  lemma NewerParentsFindingFirst(
    d: Dag, parents: seq<GoalId>, found: Found, places: seq<Place>, cap: nat, p: Place, q: Place)
    requires var pairs := ByRecency(d, parents, found);
      && IsRanking(pairs, places) && Within(p, FindingSizes(pairs)) && Within(q, FindingSizes(pairs))
      && Updated(d, pairs[p.pair].0) > Updated(d, pairs[q.pair].0)
      && pairs[p.pair].1.findings[p.item].relevance == pairs[q.pair].1.findings[q.item].relevance > 0.0
    ensures q in Take(places, cap) ==> p in Take(places, cap)
  {
    var pairs := ByRecency(d, parents, found);
    hide ByRecency, IsRanking, Take, Better, Score;
    if p.pair == q.pair {
      assert false;
    } else if q.pair < p.pair {
      NewestFirst(d, parents, found, q.pair, p.pair);
      assert false;
    }
    EarlierParentScoresHigher(pairs, p, q);
    if q in Take(places, cap) && p !in Take(places, cap) {
      LeftOutIsWorse(pairs, places, cap, p, q);
    }
  }
}
