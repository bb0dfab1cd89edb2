/** The order in which goals are sorted: by a time, ties by id, ids compared character by character. */
module IdOrder {
  import opened Prelude

  type Id = string
  type Times = map<Id, real>

  /** Python's `<` on strings. */
  predicate LexLess(a: string, b: string) {
    if b == "" then false
    else if a == "" then true
    else if a[0] != b[0] then a[0] < b[0]
    else LexLess(a[1..], b[1..])
  }

  lemma {:induction false} LexTotal(a: string, b: string)
    ensures a == b || LexLess(a, b) || LexLess(b, a)
    ensures !(LexLess(a, b) && LexLess(b, a)) && !LexLess(a, a)
  {
    if a != "" {
      LexTotal(a[1..], if b == "" then b else b[1..]);
      if b != "" && a[0] == b[0] && a[1..] == b[1..] {
        assert a == [a[0]] + a[1..] && b == [b[0]] + b[1..];
      }
    }
  }

  lemma {:induction false} LexTransitive(a: string, b: string, c: string)
    requires LexLess(a, b) && LexLess(b, c)
    ensures LexLess(a, c)
  {
    if a != "" && a[0] == b[0] && b[0] == c[0] {
      LexTransitive(a[1..], b[1..], c[1..]);
    }
  }

  function TimeOf(times: Times, a: Id): real {
    if a in times then times[a] else 0.0
  }

  predicate Before(times: Times, a: Id, b: Id) {
    TimeOf(times, a) < TimeOf(times, b) || (TimeOf(times, a) == TimeOf(times, b) && LexLess(a, b))
  }

  lemma BeforeTotal(times: Times, a: Id, b: Id)
    ensures a == b || Before(times, a, b) || Before(times, b, a)
    ensures !(Before(times, a, b) && Before(times, b, a)) && !Before(times, a, a)
  {
    LexTotal(a, b);
    LexTotal(a, a);
  }

  lemma BeforeTransitive(times: Times, a: Id, b: Id, c: Id)
    requires Before(times, a, b) && Before(times, b, c)
    ensures Before(times, a, c)
  {
    if LexLess(a, b) && LexLess(b, c) {
      LexTransitive(a, b, c);
    }
  }

  ghost predicate IsLeast(times: Times, s: set<Id>, m: Id) {
    m in s && forall y :: y in s && y != m ==> Before(times, m, y)
  }

  lemma {:induction false} LeastExists(times: Times, s: set<Id>)
    requires s != {}
    ensures exists m :: IsLeast(times, s, m)
    decreases s
  {
    var x :| x in s;
    if s == {x} {
      assert IsLeast(times, s, x);
    } else {
      var rest := s - {x};
      assert rest != {};
      LeastExists(times, rest);
      var m :| IsLeast(times, rest, m);
      BeforeTotal(times, x, m);
      if Before(times, x, m) {
        forall y | y in s && y != x
          ensures Before(times, x, y)
        {
          if y != m {
            BeforeTransitive(times, x, m, y);
          }
        }
        assert IsLeast(times, s, x);
      } else {
        assert IsLeast(times, s, m);
      }
    }
  }

  ghost function Least(times: Times, s: set<Id>): (m: Id)
    requires s != {}
    ensures IsLeast(times, s, m)
  {
    LeastExists(times, s);
    var m :| IsLeast(times, s, m);
    m
  }

  ghost predicate Ascending(times: Times, xs: seq<Id>) {
    forall i, j :: 0 <= i < j < |xs| ==> Before(times, xs[i], xs[j])
  }

  /** The one ascending listing of a set. */
  ghost function Sorted(times: Times, s: set<Id>): (xs: seq<Id>)
    ensures Elements(xs) == s && Ascending(times, xs)
    decreases s
  {
    if s == {} then []
    else
      var m := Least(times, s);
      var rest := Sorted(times, s - {m});
      assert forall y :: y in rest <==> y in Elements(rest);
      assert forall y :: y in [m] + rest <==> y == m || y in rest;
      [m] + rest
  }

  lemma LeastIsUnique(times: Times, s: set<Id>, m: Id, n: Id)
    requires IsLeast(times, s, m) && IsLeast(times, s, n)
    ensures m == n
  {
    BeforeTotal(times, m, n);
  }

  lemma FirstIsLeast(times: Times, xs: seq<Id>)
    requires xs != [] && Ascending(times, xs)
    ensures IsLeast(times, Elements(xs), xs[0])
  {
    forall y | y in Elements(xs) && y != xs[0]
      ensures Before(times, xs[0], y)
    {
      var i :| 0 <= i < |xs| && xs[i] == y;
    }
  }

  lemma {:induction false} SortedIsUnique(times: Times, xs: seq<Id>, ys: seq<Id>)
    requires Elements(xs) == Elements(ys) && Ascending(times, xs) && Ascending(times, ys)
    ensures xs == ys
  {
    assert xs != [] ==> xs[0] in Elements(xs);
    assert ys != [] ==> ys[0] in Elements(ys);
    if xs != [] {
      FirstIsLeast(times, xs);
      FirstIsLeast(times, ys);
      LeastIsUnique(times, Elements(xs), xs[0], ys[0]);
      TailElements(times, xs);
      TailElements(times, ys);
      SortedIsUnique(times, xs[1..], ys[1..]);
      assert xs == [xs[0]] + xs[1..] && ys == [ys[0]] + ys[1..];
    }
  }

  lemma TailElements(times: Times, xs: seq<Id>)
    requires xs != [] && Ascending(times, xs)
    ensures Elements(xs[1..]) == Elements(xs) - {xs[0]} && Ascending(times, xs[1..])
  {
    BeforeTotal(times, xs[0], xs[0]);
    assert xs == [xs[0]] + xs[1..];
    assert forall i :: 0 < i < |xs| ==> xs[i] != xs[0];
  }

  function Insert(times: Times, x: Id, xs: seq<Id>): seq<Id> {
    if xs == [] then [x]
    else if Before(times, x, xs[0]) then [x] + xs
    else [xs[0]] + Insert(times, x, xs[1..])
  }

  lemma {:induction false} InsertAscending(times: Times, x: Id, xs: seq<Id>)
    requires Ascending(times, xs) && x !in xs
    ensures Ascending(times, Insert(times, x, xs))
    ensures forall y :: y in Insert(times, x, xs) <==> y == x || y in xs
  {
    if xs != [] {
      assert xs == [xs[0]] + xs[1..];
      BeforeTotal(times, x, xs[0]);
      if Before(times, x, xs[0]) {
        forall i | 0 < i < |xs|
          ensures Before(times, x, xs[i])
        {
          BeforeTransitive(times, x, xs[0], xs[i]);
        }
      } else {
        InsertAscending(times, x, xs[1..]);
        var r := Insert(times, x, xs[1..]);
        forall i | 0 <= i < |r|
          ensures Before(times, xs[0], r[i])
        {
          assert r[i] in r;
        }
      }
    }
  }

  /** `list.sort` with the (time, id) key, on a list without duplicates. */
  method SortIds(times: Times, xs: seq<Id>) returns (sorted: seq<Id>)
    requires NoDuplicates(xs)
    ensures sorted == Sorted(times, Elements(xs))
  {
    sorted := [];
    for i := 0 to |xs|
      invariant Ascending(times, sorted) && Elements(sorted) == Elements(xs[..i])
    {
      ElementsOfPrefix(xs, i);
      assert xs[i] !in sorted by {
        assert xs[i] !in Elements(sorted);
      }
      InsertAscending(times, xs[i], sorted);
      var longer := Insert(times, xs[i], sorted);
      assert Elements(longer) == Elements(sorted) + {xs[i]};
      sorted := longer;
    }
    assert xs[..|xs|] == xs;
    SortedIsUnique(times, sorted, Sorted(times, Elements(xs)));
  }
}
