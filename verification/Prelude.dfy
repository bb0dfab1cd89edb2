/** Small shared vocabulary: optional values and facts about sequences without duplicates. */
module Prelude {

  datatype Option<+T> = None | Some(value: T)

  ghost predicate NoDuplicates<T>(s: seq<T>) {
    forall i, j :: 0 <= i < j < |s| ==> s[i] != s[j]
  }

  function Elements<T>(s: seq<T>): set<T> {
    set x | x in s
  }

  /** Python's `list.remove` / `deque.remove`, with the ValueError swallowed. */
  function RemoveFirst<T(==)>(s: seq<T>, x: T): seq<T> {
    if s == [] then []
    else if s[0] == x then s[1..]
    else [s[0]] + RemoveFirst(s[1..], x)
  }

  lemma {:induction false} RemoveFirstFromDistinct<T>(s: seq<T>, x: T)
    requires NoDuplicates(s)
    ensures NoDuplicates(RemoveFirst(s, x))
    ensures forall y :: y in RemoveFirst(s, x) <==> y in s && y != x
  {
    if s != [] {
      var rest := s[1..];
      assert s == [s[0]] + rest;
      assert s[0] !in rest;
      RemoveFirstFromDistinct(rest, x);
    }
  }

  lemma {:induction false} RemoveFirstAbsent<T>(s: seq<T>, x: T)
    requires x !in s
    ensures RemoveFirst(s, x) == s
  {
    if s != [] {
      RemoveFirstAbsent(s[1..], x);
    }
  }

  lemma Assoc<T>(a: seq<T>, b: seq<T>, c: seq<T>)
    ensures a + (b + c) == (a + b) + c
  {
  }

  /** Reading a list from position `i` on: its head and what follows. */
  lemma FromIndex<T>(s: seq<T>, i: nat)
    requires i < |s|
    ensures s[i..] != [] && s[i..][0] == s[i] && s[i..][1..] == s[i + 1..]
  {
  }

  lemma ElementsOfPrefix<T>(s: seq<T>, i: nat)
    requires NoDuplicates(s) && i < |s|
    ensures s[i] in Elements(s) && s[i] !in Elements(s[..i])
    ensures Elements(s[..i + 1]) == Elements(s[..i]) + {s[i]}
  {
    assert s[..i + 1] == s[..i] + [s[i]];
  }

  lemma AppendDistinct<T>(s: seq<T>, x: T)
    requires NoDuplicates(s) && x !in Elements(s)
    ensures NoDuplicates(s + [x]) && Elements(s + [x]) == Elements(s) + {x}
  {
    assert x !in s;
  }

  lemma {:induction false} DistinctLength<T>(s: seq<T>)
    requires NoDuplicates(s)
    ensures |Elements(s)| == |s|
  {
    if s != [] {
      var n := |s| - 1;
      assert s[..n + 1] == s;
      ElementsOfPrefix(s, n);
      DistinctLength(s[..n]);
    }
  }

  /** A sequence without duplicates drawn from a finite set is no longer than the set. */
  lemma DistinctWithinSet<T>(s: seq<T>, universe: set<T>)
    requires NoDuplicates(s) && Elements(s) <= universe
    ensures |s| <= |universe|
  {
    DistinctLength(s);
    assert |universe - Elements(s)| == |universe| - |Elements(s)|;
  }
}
