/** Python's stable `sort(key=..., reverse=True)` over explicit real keys, and what taking its head means. */
module Ranking {
  datatype Keyed<T> = Keyed(key: real, item: T)

  /** `x` comes from before `xs` in the original list, so it goes in front of equal keys. */
  function InsertDesc<T>(x: Keyed<T>, xs: seq<Keyed<T>>): seq<Keyed<T>> {
    if xs == [] || x.key >= xs[0].key then [x] + xs else [xs[0]] + InsertDesc(x, xs[1..])
  }

  function SortDesc<T>(xs: seq<Keyed<T>>): seq<Keyed<T>> {
    if xs == [] then [] else InsertDesc(xs[0], SortDesc(xs[1..]))
  }

  ghost predicate Descending<T>(xs: seq<Keyed<T>>) {
    forall i, j :: 0 <= i < j < |xs| ==> xs[i].key >= xs[j].key
  }

  lemma {:induction false} InsertDescKeeps<T>(x: Keyed<T>, xs: seq<Keyed<T>>)
    ensures multiset(InsertDesc(x, xs)) == multiset{x} + multiset(xs)
  {
    if xs != [] {
      assert xs == [xs[0]] + xs[1..];
      if x.key < xs[0].key {
        InsertDescKeeps(x, xs[1..]);
      }
    }
  }

  lemma {:induction false} InsertDescFacts<T>(x: Keyed<T>, xs: seq<Keyed<T>>)
    requires Descending(xs)
    ensures Descending(InsertDesc(x, xs))
    ensures multiset(InsertDesc(x, xs)) == multiset{x} + multiset(xs)
  {
    InsertDescKeeps(x, xs);
    if xs != [] && x.key < xs[0].key {
      InsertDescFacts(x, xs[1..]);
      InsertDescKeeps(x, xs[1..]);
      var r := InsertDesc(x, xs[1..]);
      forall i | 0 <= i < |r|
        ensures xs[0].key >= r[i].key
      {
        assert r[i] in multiset(r);
        assert r[i] == x || r[i] in xs[1..];
      }
    }
  }

  /** Sorting permutes the list into descending keys. */
  lemma {:induction false} SortDescFacts<T>(xs: seq<Keyed<T>>)
    ensures Descending(SortDesc(xs)) && multiset(SortDesc(xs)) == multiset(xs)
    ensures |SortDesc(xs)| == |xs|
  {
    if xs != [] {
      SortDescFacts(xs[1..]);
      InsertDescFacts(xs[0], SortDesc(xs[1..]));
      assert xs == [xs[0]] + xs[1..];
    }
    assert |SortDesc(xs)| == |multiset(SortDesc(xs))| == |multiset(xs)|;
  }

  function WithKey<T>(xs: seq<Keyed<T>>, k: real): seq<Keyed<T>> {
    if xs == [] then [] else (if xs[0].key == k then [xs[0]] else []) + WithKey(xs[1..], k)
  }

  /** Stability: items of equal key keep their original order. */
  lemma {:induction false} SortDescStable<T>(xs: seq<Keyed<T>>, k: real)
    ensures WithKey(SortDesc(xs), k) == WithKey(xs, k)
  {
    if xs != [] {
      SortDescStable(xs[1..], k);
      SortDescFacts(xs[1..]);
      InsertDescStable(xs[0], SortDesc(xs[1..]), k);
      WithKeyOfCons(xs[0], SortDesc(xs[1..]), k);
    }
  }

  lemma WithKeyOfCons<T>(x: Keyed<T>, xs: seq<Keyed<T>>, k: real)
    ensures WithKey([x] + xs, k) == (if x.key == k then [x] else []) + WithKey(xs, k)
  {
    assert ([x] + xs)[1..] == xs;
  }

  lemma {:induction false} InsertDescStable<T>(x: Keyed<T>, xs: seq<Keyed<T>>, k: real)
    requires Descending(xs)
    ensures WithKey(InsertDesc(x, xs), k) == WithKey([x] + xs, k)
  {
    if xs != [] && x.key < xs[0].key {
      var (head, rest) := (xs[0], xs[1..]);
      InsertDescStable(x, rest, k);
      assert xs == [head] + rest;
      WithKeyOfCons(head, InsertDesc(x, rest), k);
      WithKeyOfCons(x, rest, k);
      WithKeyOfCons(head, rest, k);
      WithKeyOfCons(x, xs, k);
    }
  }

  function Take<T>(s: seq<T>, n: nat): seq<T> {
    if |s| <= n then s else s[..n]
  }

  lemma SplitDescending<T>(s: seq<Keyed<T>>, n: nat)
    requires Descending(s) && n <= |s|
    ensures forall a, b :: a in s[..n] && b in s[n..] ==> a.key >= b.key
    ensures Descending(s[..n]) && multiset(s[..n]) + multiset(s[n..]) == multiset(s)
  {
    assert s == s[..n] + s[n..];
    forall a, b | a in s[..n] && b in s[n..]
      ensures a.key >= b.key
    {
      var i :| 0 <= i < n && s[i] == a;
      var j :| n <= j < |s| && s[j] == b;
    }
  }

  /** The head of the ranking is a true top-n: nothing left out scores above anything kept. */
  lemma TopOfRanking<T>(xs: seq<Keyed<T>>, n: nat)
    ensures var kept := Take(SortDesc(xs), n); var dropped := SortDesc(xs)[|kept|..];
      && |kept| == (if |xs| <= n then |xs| else n)
      && multiset(kept) + multiset(dropped) == multiset(xs)
      && Descending(kept)
      && forall a, b :: a in kept && b in dropped ==> a.key >= b.key
  {
    SortDescFacts(xs);
    var m := if |xs| <= n then |xs| else n;
    SplitDescending(SortDesc(xs), m);
    assert Take(SortDesc(xs), n) == SortDesc(xs)[..m];
  }

  function Items<T>(xs: seq<Keyed<T>>): (r: seq<T>)
    ensures |r| == |xs| && forall i :: 0 <= i < |xs| ==> r[i] == xs[i].item
  {
    seq(|xs|, i requires 0 <= i < |xs| => xs[i].item)
  }

  /** Every ranked entry keeps the key and item it came with. */
  lemma KeysStay<T>(xs: seq<Keyed<T>>)
    ensures forall k :: k in SortDesc(xs) <==> k in xs
  {
    SortDescFacts(xs);
    forall k
      ensures k in SortDesc(xs) <==> k in xs
    {
      assert k in multiset(SortDesc(xs)) <==> k in multiset(xs);
    }
  }

  lemma {:induction false} InsertDescItems<T>(x: Keyed<T>, xs: seq<Keyed<T>>)
    ensures multiset(Items(InsertDesc(x, xs))) == multiset{x.item} + multiset(Items(xs))
  {
    if xs == [] || x.key >= xs[0].key {
      assert Items([x] + xs) == [x.item] + Items(xs);
    } else {
      InsertDescItems(x, xs[1..]);
      assert Items([xs[0]] + InsertDesc(x, xs[1..])) == [xs[0].item] + Items(InsertDesc(x, xs[1..]));
      assert Items(xs) == [xs[0].item] + Items(xs[1..]);
    }
  }

  lemma {:induction false} SortDescItems<T>(xs: seq<Keyed<T>>)
    ensures multiset(Items(SortDesc(xs))) == multiset(Items(xs))
  {
    if xs != [] {
      SortDescItems(xs[1..]);
      InsertDescItems(xs[0], SortDesc(xs[1..]));
      assert Items(xs) == [xs[0].item] + Items(xs[1..]);
    } else {
      assert Items(SortDesc(xs)) == Items(xs);
    }
  }

  lemma ItemOf<T>(xs: seq<Keyed<T>>, a: T) returns (i: nat)
    requires a in Items(xs)
    ensures i < |xs| && xs[i].item == a
  {
    var k :| 0 <= k < |Items(xs)| && Items(xs)[k] == a;
    i := k;
  }

  /** Entry by entry: what the head keeps scores at least as high as what it drops. */
  lemma KeptBeatsDropped<T>(xs: seq<Keyed<T>>, n: nat, a: T, b: T) returns (x: Keyed<T>, y: Keyed<T>)
    requires var kept := Take(SortDesc(xs), n); a in Items(kept) && b in Items(SortDesc(xs)[|kept|..])
    ensures x in xs && y in xs && x.item == a && y.item == b && x.key >= y.key
  {
    var ranked := SortDesc(xs);
    var kept := Take(ranked, n);
    SortDescFacts(xs);
    KeysStay(xs);
    hide SortDesc;
    var i := ItemOf(kept, a);
    var j := ItemOf(ranked[|kept|..], b);
    x, y := ranked[i], ranked[|kept| + j];
    assert x in ranked && y in ranked;
  }

  // ---- The sort told by positions -----------------------------------------------------------------

  /** Position `i` ranks before position `j`: by the larger key, and at equal keys by standing earlier. */
  ghost predicate RanksBefore<T>(xs: seq<Keyed<T>>, i: nat, j: nat)
    requires i < |xs| && j < |xs|
  {
    xs[i].key > xs[j].key || (xs[i].key == xs[j].key && i < j)
  }

  ghost predicate AllBelow(at: seq<nat>, n: nat) {
    forall m :: 0 <= m < |at| ==> at[m] < n
  }

  /** `at` lists every position of `xs` once, in the order of the ranking, and `ys` is `xs` read in that order. */
  ghost predicate Ranks<T>(xs: seq<Keyed<T>>, at: seq<nat>, ys: seq<Keyed<T>>) {
    && |at| == |ys| && AllBelow(at, |xs|)
    && (forall k: nat :: k < |xs| ==> k in at)
    && (forall m :: 0 <= m < |at| ==> ys[m] == xs[at[m]])
    && forall i, j :: 0 <= i < j < |at| ==> RanksBefore(xs, at[i], at[j])
  }

  /** Where a new item goes: in front of the first key that is not larger. */
  lemma {:induction false} InsertedAt<T>(x: Keyed<T>, ys: seq<Keyed<T>>) returns (p: nat)
    requires Descending(ys)
    ensures p <= |ys| && InsertDesc(x, ys) == ys[..p] + [x] + ys[p..]
    ensures forall m :: 0 <= m < p ==> ys[m].key > x.key
    ensures forall m :: p <= m < |ys| ==> x.key >= ys[m].key
  {
    if ys == [] || x.key >= ys[0].key {
      assert ys[..0] + [x] + ys[0..] == [x] + ys;
      return 0;
    }
    p := InsertedAt(x, ys[1..]);
    assert ys == [ys[0]] + ys[1..];
    assert ys[..p + 1] == [ys[0]] + ys[1..][..p] && ys[p + 1..] == ys[1..][p..];
    p := p + 1;
  }

  function Placed<T>(x: T, ys: seq<T>, p: nat): (r: seq<T>)
    requires p <= |ys|
    ensures |r| == |ys| + 1 && r[p] == x
    ensures forall m :: 0 <= m < p ==> r[m] == ys[m]
    ensures forall m :: p < m < |r| ==> r[m] == ys[m - 1]
  {
    ys[..p] + [x] + ys[p..]
  }

  /** Every position one further on, and position 0 put in at `p`. */
  function Woven(at: seq<nat>, p: nat): (r: seq<nat>)
    requires p <= |at|
    ensures |r| == |at| + 1 && r[p] == 0
    ensures forall m :: 0 <= m < p ==> r[m] == at[m] + 1
    ensures forall m :: p < m < |r| ==> r[m] == at[m - 1] + 1
  {
    Placed(0, seq(|at|, m requires 0 <= m < |at| => at[m] + 1), p)
  }

  lemma WovenCovers(at: seq<nat>, p: nat, n: nat)
    requires p <= |at| && forall k: nat :: k < n ==> k in at
    ensures forall k: nat :: k < n + 1 ==> k in Woven(at, p)
  {
    var longer := Woven(at, p);
    forall k: nat | k < n + 1
      ensures k in longer
    {
      if k == 0 {
        assert longer[p] == 0;
      } else {
        var before: nat := k - 1;
        assert before in at;
        var m :| 0 <= m < |at| && at[m] == before;
        assert longer[if m < p then m else m + 1] == k;
      }
    }
  }

  /** A pair of positions of the longer list, neither of them the new one. */
  lemma RanksAsBefore<T>(x: Keyed<T>, xs: seq<Keyed<T>>, i: nat, j: nat)
    requires i < |xs| && j < |xs|
    ensures RanksBefore([x] + xs, i + 1, j + 1) <==> RanksBefore(xs, i, j)
  {
  }

  lemma WovenOrder<T>(x: Keyed<T>, xs: seq<Keyed<T>>, at: seq<nat>, p: nat, i: nat, j: nat)
    requires p <= |at| && AllBelow(at, |xs|) && i < j < |at| + 1
    requires forall m, n :: 0 <= m < n < |at| ==> RanksBefore(xs, at[m], at[n])
    requires forall m :: 0 <= m < p ==> xs[at[m]].key > x.key
    requires forall m :: p <= m < |at| ==> x.key >= xs[at[m]].key
    ensures Woven(at, p)[i] < |xs| + 1 && Woven(at, p)[j] < |xs| + 1
    ensures RanksBefore([x] + xs, Woven(at, p)[i], Woven(at, p)[j])
  {
    if i != p && j != p {
      var (m, n) := (if i < p then i else i - 1, if j < p then j else j - 1);
      RanksAsBefore(x, xs, at[m], at[n]);
      assert RanksBefore(xs, at[m], at[n]);
    }
  }

  lemma InsertRanks<T>(x: Keyed<T>, xs: seq<Keyed<T>>, at: seq<nat>, ys: seq<Keyed<T>>, p: nat)
    requires Ranks(xs, at, ys) && p <= |ys|
    requires forall m :: 0 <= m < p ==> ys[m].key > x.key
    requires forall m :: p <= m < |ys| ==> x.key >= ys[m].key
    ensures Ranks([x] + xs, Woven(at, p), Placed(x, ys, p))
  {
    WovenCovers(at, p, |xs|);
    forall m | 0 <= m < |at| + 1
      ensures Woven(at, p)[m] < |xs| + 1 && Placed(x, ys, p)[m] == ([x] + xs)[Woven(at, p)[m]]
    {
    }
    hide RanksBefore;
    forall i, j | 0 <= i < j < |at| + 1
      ensures RanksBefore([x] + xs, Woven(at, p)[i], Woven(at, p)[j])
    {
      WovenOrder(x, xs, at, p, i, j);
    }
  }

  /** The whole meaning of the sort: it lists the positions by key, larger first, and equal keys in order. */
  lemma {:induction false} SortDescRanks<T>(xs: seq<Keyed<T>>) returns (at: seq<nat>)
    ensures Ranks(xs, at, SortDesc(xs))
  {
    if xs == [] {
      return [];
    }
    var rest := xs[1..];
    var before := SortDescRanks(rest);
    SortDescFacts(rest);
    var p := InsertedAt(xs[0], SortDesc(rest));
    InsertRanks(xs[0], rest, before, SortDesc(rest), p);
    assert xs == [xs[0]] + rest;
    at := Woven(before, p);
  }
}
