/**
 * Abstract state of the in-memory contribution store (dispatch/store.py): an LRU order with a retention window.
 * Every public operation is a short list of elementary events; StoreRuns carries what is proved here for lists
 * of events over to histories of operations.
 */
module StoreModel {
  import opened Prelude
  import opened Bundles

  type Key = string

  /** A cap of zero or less is no cap; a retention of zero or less keeps entries for ever. */
  datatype Limits = Limits(maxEntries: int, retention: real)

  /** `order` is the key order of the ordered dictionary, least recently used first. */
  datatype Store = Store(order: seq<Key>, data: map<Key, Contribution>, times: map<Key, real>)

  const EMPTY_STORE := Store([], map[], map[])

  datatype Event = Put(k: Key, v: Contribution, now: real) | Touch(k: Key) | Tick(now: real) | Del(k: Key)

  /** The order without the keys in `gone`. */
  function Drop(order: seq<Key>, gone: set<Key>): seq<Key> {
    if order == [] then []
    else (if order[0] in gone then [] else [order[0]]) + Drop(order[1..], gone)
  }

  function Without(s: Store, gone: set<Key>): Store {
    Store(Drop(s.order, gone), s.data - gone, s.times - gone)
  }

  predicate Stale(l: Limits, written: real, now: real) {
    l.retention > 0.0 && written < now - l.retention
  }

  function StaleKeys(s: Store, l: Limits, now: real): set<Key> {
    set k | k in s.times && Stale(l, s.times[k], now)
  }

  function Expire(s: Store, l: Limits, now: real): Store {
    Without(s, StaleKeys(s, l, now))
  }

  /** Evict from the front until the cap is met. */
  function Trim(s: Store, cap: int): Store
    decreases |s.order|
  {
    if cap <= 0 || |s.order| <= cap then s
    else Trim(Store(s.order[1..], s.data - {s.order[0]}, s.times - {s.order[0]}), cap)
  }

  function MoveToEnd(order: seq<Key>, k: Key): seq<Key> {
    Drop(order, {k}) + [k]
  }

  function Step(s: Store, e: Event, l: Limits): Store {
    match e
    case Put(k, v, now) =>
      if k in s.data then Store(MoveToEnd(s.order, k), s.data[k := v], s.times[k := now])
      else Trim(Expire(Store(s.order + [k], s.data[k := v], s.times[k := now]), l, now), l.maxEntries)
    case Touch(k) => if k in s.data then s.(order := MoveToEnd(s.order, k)) else s
    case Tick(now) => Expire(s, l, now)
    case Del(k) => Without(s, {k})
  }

  function Steps(s: Store, es: seq<Event>, l: Limits): Store {
    if es == [] then s else Step(Steps(s, es[..|es| - 1], l), es[|es| - 1], l)
  }

  /** Histories compose. */
  lemma {:induction false} StepsCompose(s: Store, a: seq<Event>, b: seq<Event>, l: Limits)
    ensures Steps(s, a + b, l) == Steps(Steps(s, a, l), b, l)
    decreases |b|
  {
    hide Step;
    if b == [] {
      assert a + b == a;
    } else {
      var n := |b| - 1;
      assert (a + b)[..|a| + n] == a + b[..n];
      StepsCompose(s, a, b[..n], l);
    }
  }

  // ---- Consistency ----------------------------------------------------------------------------

  ghost predicate Inv(s: Store, l: Limits) {
    && NoDuplicates(s.order)
    && (forall k :: k in s.order <==> k in s.data)
    && s.data.Keys == s.times.Keys
    && (l.maxEntries > 0 ==> |s.order| <= l.maxEntries)
  }

  /** `x` stands before `y`. */
  ghost predicate Before(order: seq<Key>, x: Key, y: Key) {
    exists i, j :: 0 <= i < j < |order| && order[i] == x && order[j] == y
  }

  lemma {:induction false} DropFacts(order: seq<Key>, gone: set<Key>)
    requires NoDuplicates(order)
    ensures NoDuplicates(Drop(order, gone)) && |Drop(order, gone)| <= |order|
    ensures forall k :: k in Drop(order, gone) <==> k in order && k !in gone
  {
    if order != [] {
      assert order == [order[0]] + order[1..];
      assert order[0] !in order[1..];
      DropFacts(order[1..], gone);
    }
  }

  lemma {:induction false} DropTwice(order: seq<Key>, a: set<Key>, b: set<Key>)
    ensures Drop(Drop(order, a), b) == Drop(order, a + b)
  {
    if order != [] {
      DropTwice(order[1..], a, b);
      if order[0] in a {
        assert Drop(order, a) == Drop(order[1..], a) && Drop(order, a + b) == Drop(order[1..], a + b);
      } else {
        assert Drop(order, a)[1..] == Drop(order[1..], a);
      }
    }
  }

  lemma {:induction false} DropNothing(order: seq<Key>)
    ensures Drop(order, {}) == order
  {
    if order != [] {
      DropNothing(order[1..]);
    }
  }

  lemma BeforeOfCons(head: Key, tail: seq<Key>, x: Key, y: Key)
    ensures Before([head] + tail, x, y) <==> Before(tail, x, y) || (head == x && y in tail)
  {
    var order := [head] + tail;
    if i, j :| 0 <= i < j < |order| && order[i] == x && order[j] == y {
      assert tail[j - 1] == y && (i > 0 ==> tail[i - 1] == x);
    }
    if i, j :| 0 <= i < j < |tail| && tail[i] == x && tail[j] == y {
      assert order[i + 1] == x && order[j + 1] == y;
    }
    if head == x && y in tail {
      var j :| 0 <= j < |tail| && tail[j] == y;
      assert order[0] == x && order[j + 1] == y;
    }
  }

  /** Dropping keys reorders nothing. */
  lemma {:induction false} DropKeepsOrder(order: seq<Key>, gone: set<Key>, x: Key, y: Key)
    requires Before(Drop(order, gone), x, y)
    ensures Before(order, x, y)
  {
    var rest := order[1..];
    assert order == [order[0]] + rest;
    BeforeOfCons(order[0], rest, x, y);
    if order[0] in gone {
      DropKeepsOrder(rest, gone, x, y);
    } else {
      BeforeOfCons(order[0], Drop(rest, gone), x, y);
      if Before(Drop(rest, gone), x, y) {
        DropKeepsOrder(rest, gone, x, y);
      } else {
        DropSubset(rest, gone, y);
      }
    }
  }

  lemma {:induction false} DropSubset(order: seq<Key>, gone: set<Key>, k: Key)
    ensures k in Drop(order, gone) ==> k in order && k !in gone
  {
    if order != [] {
      assert order == [order[0]] + order[1..];
      DropSubset(order[1..], gone, k);
    }
  }

  lemma BeforeOfAppend(order: seq<Key>, last: Key, x: Key, y: Key)
    requires Before(order + [last], x, y)
    ensures Before(order, x, y) || y == last
  {
  }

  /** Trimming keeps exactly the most recent entries, as many as the cap allows. */
  lemma {:induction false} TrimKeepsRecent(s: Store, cap: int)
    requires cap > 0 && NoDuplicates(s.order) && (forall k :: k in s.order <==> k in s.data) && s.data.Keys == s.times.Keys
    ensures var t := Trim(s, cap);
      && t.order == (if |s.order| <= cap then s.order else s.order[|s.order| - cap..])
      && NoDuplicates(t.order) && |t.order| <= cap
      && (forall k :: k in t.order <==> k in t.data) && t.data.Keys == t.times.Keys
      && (forall k :: k in t.data ==> k in s.data && t.data[k] == s.data[k] && t.times[k] == s.times[k])
    decreases |s.order|
  {
    if |s.order| > cap {
      var next := Store(s.order[1..], s.data - {s.order[0]}, s.times - {s.order[0]});
      WithoutOldest(s);
      TrimKeepsRecent(next, cap);
      hide NoDuplicates, Trim;
      assert Trim(s, cap) == Trim(next, cap) by {
        TrimUnfold(s, cap);
      }
      assert next.order[|next.order| - cap..] == s.order[|s.order| - cap..];
    }
  }

  lemma TrimUnfold(s: Store, cap: int)
    requires 0 < cap < |s.order|
    ensures Trim(s, cap) == Trim(Store(s.order[1..], s.data - {s.order[0]}, s.times - {s.order[0]}), cap)
  {
  }

  lemma WithoutOldest(s: Store)
    requires s.order != [] && NoDuplicates(s.order)
    requires (forall k :: k in s.order <==> k in s.data) && s.data.Keys == s.times.Keys
    ensures NoDuplicates(s.order[1..]) && (s.data - {s.order[0]}).Keys == (s.times - {s.order[0]}).Keys
    ensures forall k :: k in s.order[1..] <==> k in s.data - {s.order[0]}
  {
    assert s.order == [s.order[0]] + s.order[1..];
    assert s.order[0] !in s.order[1..];
  }

  lemma WithoutKeepsInv(s: Store, gone: set<Key>, l: Limits)
    requires Inv(s, l)
    ensures Inv(Without(s, gone), l)
  {
    DropFacts(s.order, gone);
  }

  lemma TouchKeepsInv(s: Store, k: Key, l: Limits)
    requires Inv(s, l) && k in s.data
    ensures Inv(s.(order := MoveToEnd(s.order, k)), l)
  {
    DropFacts(s.order, {k});
    var kept := Drop(s.order, {k});
    assert |kept| < |s.order| by {
      DistinctWithinSet(kept, Elements(s.order) - {k});
      DistinctLength(s.order);
    }
  }

  /** The store after a new entry went in and expired ones went out, before the cap is applied. */
  function Admitted(s: Store, k: Key, v: Contribution, now: real, l: Limits): Store {
    Expire(Store(s.order + [k], s.data[k := v], s.times[k := now]), l, now)
  }

  lemma AdmittedFacts(s: Store, k: Key, v: Contribution, now: real, l: Limits)
    requires Inv(s, l) && k !in s.data
    ensures var a := Admitted(s, k, v, now, l);
      && NoDuplicates(a.order) && (forall j :: j in a.order <==> j in a.data) && a.data.Keys == a.times.Keys
      && k in a.data && a.data[k] == v && a.times[k] == now
      && a.order != [] && a.order[|a.order| - 1] == k
      && (forall j :: j != k ==> (j in a.data <==> j in s.data && !Stale(l, s.times[j], now)))
      && (forall j :: j in a.data && j != k ==> a.data[j] == s.data[j] && a.times[j] == s.times[j])
  {
    var full := Store(s.order + [k], s.data[k := v], s.times[k := now]);
    AppendDistinct(s.order, k);
    DropFacts(full.order, StaleKeys(full, l, now));
    LastIsKept(s.order, k, StaleKeys(full, l, now));
  }

  lemma {:induction false} LastIsKept(order: seq<Key>, k: Key, gone: set<Key>)
    requires k !in gone
    ensures Drop(order + [k], gone) == Drop(order, gone) + [k]
  {
    if order == [] {
      assert order + [k] == [k];
    } else {
      assert (order + [k])[1..] == order[1..] + [k];
      LastIsKept(order[1..], k, gone);
    }
  }

  lemma AdmitKeepsInv(s: Store, k: Key, v: Contribution, now: real, l: Limits)
    requires Inv(s, l) && k !in s.data
    ensures Inv(Trim(Admitted(s, k, v, now, l), l.maxEntries), l)
  {
    AdmittedFacts(s, k, v, now, l);
    hide Admitted, NoDuplicates, Trim;
    if l.maxEntries > 0 {
      TrimKeepsRecent(Admitted(s, k, v, now, l), l.maxEntries);
    } else {
      NoCapNoTrim(Admitted(s, k, v, now, l), l.maxEntries);
    }
  }

  lemma NoCapNoTrim(s: Store, cap: int)
    requires cap <= 0
    ensures Trim(s, cap) == s
  {
  }

  lemma StepKeepsInv(s: Store, e: Event, l: Limits)
    requires Inv(s, l)
    ensures Inv(Step(s, e, l), l)
  {
    match e
    case Put(k, v, now) =>
      if k in s.data {
        TouchKeepsInv(s, k, l);
      } else {
        AdmitKeepsInv(s, k, v, now, l);
      }
    case Touch(k) =>
      if k in s.data {
        TouchKeepsInv(s, k, l);
      }
    case Tick(now) => WithoutKeepsInv(s, StaleKeys(s, l, now), l);
    case Del(k) => WithoutKeepsInv(s, {k}, l);
  }

  /** After any history: no duplicate key, data and timestamps for the same keys, and the cap respected. */
  lemma {:induction false} StepsKeepInv(es: seq<Event>, l: Limits)
    ensures Inv(Steps(EMPTY_STORE, es, l), l)
  {
    if es != [] {
      var before := es[..|es| - 1];
      StepsKeepInv(before, l);
      StepKeepsInv(Steps(EMPTY_STORE, before, l), es[|es| - 1], l);
    }
  }

  // ---- Never stale ----------------------------------------------------------------------------

  /** The last put of a key and its time, unless the key was deleted since. */
  function LastPut(es: seq<Event>, k: Key): Option<(Contribution, real)> {
    if es == [] then None
    else
      match es[|es| - 1]
      case Put(j, v, now) => if j == k then Some((v, now)) else LastPut(es[..|es| - 1], k)
      case Del(j) => if j == k then None else LastPut(es[..|es| - 1], k)
      case _ => LastPut(es[..|es| - 1], k)
  }

  /** Stepping leaves every other key as it is, or drops it. */
  lemma StepOnOthers(s: Store, e: Event, l: Limits, k: Key)
    requires Inv(s, l) && k in Step(s, e, l).data
    ensures k in Step(s, e, l).times
    ensures e.Put? && e.k == k ==> Step(s, e, l).data[k] == e.v && Step(s, e, l).times[k] == e.now
    ensures !(e.Put? && e.k == k) ==>
      k in s.data && Step(s, e, l).data[k] == s.data[k] && Step(s, e, l).times[k] == s.times[k] && !(e.Del? && e.k == k)
  {
    StepKeepsInv(s, e, l);
    if e.Put? && e.k !in s.data {
      AdmittedFacts(s, e.k, e.v, e.now, l);
      if l.maxEntries > 0 {
        TrimKeepsRecent(Admitted(s, e.k, e.v, e.now, l), l.maxEntries);
      }
    }
  }

  /** Whatever is held is the value of the key's last put, with that put's time. */
  lemma {:induction false} NeverStale(es: seq<Event>, l: Limits, k: Key)
    requires k in Steps(EMPTY_STORE, es, l).data
    ensures var s := Steps(EMPTY_STORE, es, l); k in s.times && LastPut(es, k) == Some((s.data[k], s.times[k]))
  {
    var before := es[..|es| - 1];
    StepsKeepInv(before, l);
    StepOnOthers(Steps(EMPTY_STORE, before, l), es[|es| - 1], l, k);
    var e := es[|es| - 1];
    if !(e.Put? && e.k == k) {
      NeverStale(before, l, k);
    }
  }

  // ---- Survival -------------------------------------------------------------------------------

  /** The distinct other keys put, or touched while held, since `k` was last put or touched while held. */
  ghost function Newer(es: seq<Event>, l: Limits, k: Key): set<Key> {
    if es == [] then {}
    else
      var before := es[..|es| - 1];
      match es[|es| - 1]
      case Put(j, v, now) => if j == k then {} else Newer(before, l, k) + {j}
      case Touch(j) =>
        if j !in Steps(EMPTY_STORE, before, l).data then Newer(before, l, k)
        else if j == k then {} else Newer(before, l, k) + {j}
      case _ => Newer(before, l, k)
  }

  /** Since its last put, no event came at a time when the entry was outside the retention window. */
  predicate InWindow(es: seq<Event>, l: Limits, k: Key, written: real) {
    if es == [] then true
    else
      var before := es[..|es| - 1];
      match es[|es| - 1]
      case Put(j, v, now) => j == k || (!Stale(l, written, now) && InWindow(before, l, k, written))
      case Tick(now) => !Stale(l, written, now) && InWindow(before, l, k, written)
      case _ => InWindow(before, l, k, written)
  }

  /** Everything behind `k` in the eviction order was used more recently. */
  ghost predicate BehindAreNewer(s: Store, k: Key, newer: set<Key>) {
    forall y :: Before(s.order, k, y) ==> y in newer
  }

  lemma NothingBehindLast(order: seq<Key>, k: Key)
    requires k !in order
    ensures forall y :: !Before(order + [k], k, y)
  {
  }

  lemma MoveToEndBehind(order: seq<Key>, j: Key, k: Key, newer: set<Key>)
    requires NoDuplicates(order) && forall y :: Before(order, k, y) ==> y in newer
    ensures j != k ==> forall y :: Before(MoveToEnd(order, j), k, y) ==> y in newer + {j}
    ensures j == k ==> forall y :: !Before(MoveToEnd(order, j), k, y)
  {
    DropFacts(order, {j});
    var kept := Drop(order, {j});
    if j == k {
      NothingBehindLast(kept, k);
    } else {
      forall y | Before(kept + [j], k, y) && y != j
        ensures y in newer
      {
        BeforeOfAppend(kept, j, k, y);
        DropKeepsOrder(order, {j}, k, y);
      }
    }
  }

  lemma DropBehind(order: seq<Key>, gone: set<Key>, k: Key, newer: set<Key>)
    requires forall y :: Before(order, k, y) ==> y in newer
    ensures forall y :: Before(Drop(order, gone), k, y) ==> y in newer
  {
    forall y | Before(Drop(order, gone), k, y)
      ensures y in newer
    {
      DropKeepsOrder(order, gone, k, y);
    }
  }

  lemma AdmittedBehind(s: Store, j: Key, v: Contribution, now: real, l: Limits, k: Key, newer: set<Key>)
    requires Inv(s, l) && j !in s.data && BehindAreNewer(s, k, newer)
    ensures j != k ==> BehindAreNewer(Admitted(s, j, v, now, l), k, newer + {j})
    ensures j == k ==> BehindAreNewer(Admitted(s, j, v, now, l), k, {})
  {
    var gone := StaleKeys(Store(s.order + [j], s.data[j := v], s.times[j := now]), l, now);
    if j == k {
      NothingBehindLast(s.order, k);
      DropBehind(s.order + [j], gone, k, {});
    } else {
      forall y | Before(s.order + [j], k, y) && y != j
        ensures y in newer
      {
        BeforeOfAppend(s.order, j, k, y);
      }
      DropBehind(s.order + [j], gone, k, newer + {j});
    }
  }

  /** A suffix of an order keeps the order. */
  lemma SuffixBehind(order: seq<Key>, n: nat, k: Key, newer: set<Key>)
    requires n <= |order| && forall y :: Before(order, k, y) ==> y in newer
    ensures forall y :: Before(order[n..], k, y) ==> y in newer
  {
    forall y | Before(order[n..], k, y)
      ensures y in newer
    {
      var i, j :| 0 <= i < j < |order[n..]| && order[n..][i] == k && order[n..][j] == y;
      assert order[n + i] == k && order[n + j] == y;
    }
  }

  lemma TrimBehind(s: Store, cap: int, k: Key, newer: set<Key>)
    requires NoDuplicates(s.order) && (forall j :: j in s.order <==> j in s.data) && s.data.Keys == s.times.Keys
    requires BehindAreNewer(s, k, newer)
    ensures BehindAreNewer(Trim(s, cap), k, newer)
  {
    if cap > 0 {
      TrimKeepsRecent(s, cap);
      if |s.order| > cap {
        SuffixBehind(s.order, |s.order| - cap, k, newer);
      }
    }
  }

  /** Over any history: what stands behind a key in the order was used since the key itself was. */
  lemma {:induction false} OrderIsRecency(es: seq<Event>, l: Limits, k: Key)
    ensures BehindAreNewer(Steps(EMPTY_STORE, es, l), k, Newer(es, l, k))
  {
    if es != [] {
      var before := es[..|es| - 1];
      var (s, newer) := (Steps(EMPTY_STORE, before, l), Newer(before, l, k));
      OrderIsRecency(before, l, k);
      StepsKeepInv(before, l);
      match es[|es| - 1] {
        case Put(j, v, now) =>
          if j in s.data {
            MoveToEndBehind(s.order, j, k, newer);
          } else {
            AdmittedBehind(s, j, v, now, l, k, newer);
            AdmittedFacts(s, j, v, now, l);
            TrimBehind(Admitted(s, j, v, now, l), l.maxEntries, k, if j == k then {} else newer + {j});
          }
        case Touch(j) =>
          if j in s.data {
            MoveToEndBehind(s.order, j, k, newer);
          }
        case Tick(now) => DropBehind(s.order, StaleKeys(s, l, now), k, newer);
        case Del(j) => DropBehind(s.order, {j}, k, newer);
      }
    }
  }

  /** A key with fewer keys behind it than the cap is not trimmed. */
  lemma TrimSpares(s: Store, cap: int, k: Key, newer: set<Key>)
    requires NoDuplicates(s.order) && (forall j :: j in s.order <==> j in s.data) && s.data.Keys == s.times.Keys
    requires k in s.data && BehindAreNewer(s, k, newer) && (cap > 0 ==> |newer| < cap)
    ensures k in Trim(s, cap).data
  {
    if cap > 0 {
      TrimKeepsRecent(s, cap);
      var i :| 0 <= i < |s.order| && s.order[i] == k;
      BehindFits(s.order, i, newer);
      hide NoDuplicates, BehindAreNewer, Trim;
      if |s.order| > cap {
        assert s.order[|s.order| - cap..][i - (|s.order| - cap)] == k;
      }
    }
  }

  lemma BehindFits(order: seq<Key>, i: nat, newer: set<Key>)
    requires NoDuplicates(order) && i < |order| && forall y :: Before(order, order[i], y) ==> y in newer
    ensures |order| - 1 - i <= |newer|
  {
    var behind := order[i + 1..];
    forall j | 0 <= j < |behind|
      ensures behind[j] in newer
    {
      assert Before(order, order[i], order[i + 1 + j]);
    }
    DistinctWithinSet(behind, newer);
  }

  /**
   * Survival: an entry put and not deleted, inside its retention window at every event since, and with fewer
   * distinct other keys used since its own last use than the cap, is still held with the value of that put.
   */
  lemma {:induction false} Survives(es: seq<Event>, l: Limits, k: Key)
    requires LastPut(es, k).Some? && InWindow(es, l, k, LastPut(es, k).value.1)
    requires l.maxEntries > 0 ==> |Newer(es, l, k)| < l.maxEntries
    ensures k in Steps(EMPTY_STORE, es, l).data
    ensures Steps(EMPTY_STORE, es, l).data[k] == LastPut(es, k).value.0
  {
    StillHeld(es, l, k);
    NeverStale(es, l, k);
  }

  lemma {:induction false} StillHeld(es: seq<Event>, l: Limits, k: Key)
    requires LastPut(es, k).Some? && InWindow(es, l, k, LastPut(es, k).value.1)
    requires l.maxEntries > 0 ==> |Newer(es, l, k)| < l.maxEntries
    ensures k in Steps(EMPTY_STORE, es, l).data
  {
    var (before, e) := (es[..|es| - 1], es[|es| - 1]);
    var s := Steps(EMPTY_STORE, before, l);
    StepsKeepInv(before, l);
    if e.Put? && e.k == k {
      PutIsHeld(s, k, e.v, e.now, l);
    } else if e.Touch? && e.k == k && k in s.data {
    } else {
      NewerGrows(Newer(before, l, k), if e.Put? || e.Touch? then e.k else k);
      StillHeld(before, l, k);
      NeverStale(before, l, k);
      OrderIsRecency(before, l, k);
      if e.Put? && e.k !in s.data {
        AdmittedFacts(s, e.k, e.v, e.now, l);
        AdmittedBehind(s, e.k, e.v, e.now, l, k, Newer(before, l, k));
        TrimSpares(Admitted(s, e.k, e.v, e.now, l), l.maxEntries, k, Newer(es, l, k));
      }
    }
  }

  lemma NewerGrows(newer: set<Key>, j: Key)
    ensures |newer| <= |newer + {j}|
  {
    assert newer + {j} == newer || |newer + {j}| == |newer| + 1;
  }

  lemma PutIsHeld(s: Store, k: Key, v: Contribution, now: real, l: Limits)
    requires Inv(s, l)
    ensures k in Step(s, Put(k, v, now), l).data
  {
    if k !in s.data {
      var a := Admitted(s, k, v, now, l);
      AdmittedFacts(s, k, v, now, l);
      if l.maxEntries > 0 {
        TrimKeepsRecent(a, l.maxEntries);
        if |a.order| > l.maxEntries {
          assert a.order[|a.order| - l.maxEntries..][l.maxEntries - 1] == k;
        }
      }
    }
  }
}
