/** The in-memory contribution store as the object its callers see (dispatch/store.py). */
module ContextStores {
  import opened Prelude
  import opened Bundles
  import opened StoreModel
  import opened StoreRuns

  lemma OneMoreStep(s: Store, es: seq<Event>, e: Event, l: Limits)
    ensures Steps(s, es + [e], l) == Step(Steps(s, es, l), e, l)
  {
    assert (es + [e])[..|es|] == es;
  }

  lemma OneMoreTouch(s: Store, keys: seq<Key>, i: nat, l: Limits)
    requires i < |keys|
    ensures Steps(s, Touches(keys[..i + 1]), l) == Step(Steps(s, Touches(keys[..i]), l), Touch(keys[i]), l)
  {
    assert keys[..i + 1][..i] == keys[..i];
    OneMoreStep(s, Touches(keys[..i]), Touch(keys[i]), l);
  }

  lemma NoSteps(s: Store, keys: seq<Key>, l: Limits)
    requires keys == []
    ensures Steps(s, Touches(keys), l) == s
  {
  }

  lemma NoDels(s: Store, keys: seq<Key>, l: Limits)
    requires keys == []
    ensures Steps(s, Dels(keys), l) == s
  {
  }

  lemma DelsAre(s: Store, keys: seq<Key>, l: Limits)
    ensures Serve(s, DeleteManyOp(keys), l) == Steps(s, Dels(keys), l)
  {
  }

  lemma OneMoreDel(s: Store, keys: seq<Key>, i: nat, l: Limits)
    requires i < |keys|
    ensures Steps(s, Dels(keys[..i + 1]), l) == Step(Steps(s, Dels(keys[..i]), l), Del(keys[i]), l)
  {
    assert keys[..i + 1][..i] == keys[..i];
    OneMoreStep(s, Dels(keys[..i]), Del(keys[i]), l);
  }

  lemma RemoveOneMore(s: Store, gone: set<Key>, k: Key)
    ensures Without(Without(s, gone), {k}) == Without(s, gone + {k})
  {
    DropTwice(s.order, gone, {k});
  }

  lemma RemoveNothing(s: Store)
    ensures Without(s, {}) == s
  {
    DropNothing(s.order);
  }

  lemma RemoveAbsent(s: Store, k: Key)
    requires k !in s.order && k !in s.data && k !in s.times
    ensures Without(s, {k}) == s
  {
    DropAbsent(s.order, k);
  }

  lemma {:induction false} DropAbsent(order: seq<Key>, k: Key)
    requires k !in order
    ensures Drop(order, {k}) == order
  {
    if order != [] {
      DropAbsent(order[1..], k);
    }
  }

  class InMemoryContextStore {
    const limits: Limits
    var order: seq<Key>
    var data: map<Key, Contribution>
    var times: map<Key, real>
    var closed: bool

    ghost function View(): Store
      reads this
    {
      Store(order, data, times)
    }

    ghost predicate Valid()
      reads this
    {
      Inv(View(), limits)
    }

    constructor (maxEntries: int, retention: real)
      ensures Valid() && !closed && View() == EMPTY_STORE && limits == Limits(maxEntries, retention)
    {
      limits := Limits(maxEntries, retention);
      order, data, times, closed := [], map[], map[], false;
    }

    /** `_evict_expired_locked`. */
    method EvictExpired(now: real)
      modifies this`order, this`data, this`times
      ensures View() == Expire(old(View()), limits, now)
    {
      if limits.retention <= 0.0 {
        RemoveNothing(View());
        assert StaleKeys(View(), limits, now) == {};
        return;
      }
      var expired := set k | k in times && times[k] < now - limits.retention;
      var rest := expired;
      assert expired == StaleKeys(View(), limits, now);
      RemoveNothing(View());
      assert expired - rest == {};
      while rest != {}
        invariant rest <= expired && View() == Without(old(View()), expired - rest)
      {
        var k :| k in rest;
        RemoveOneMore(old(View()), expired - rest, k);
        assert expired - (rest - {k}) == expired - rest + {k};
        rest := rest - {k};
        order, data, times := Drop(order, {k}), data - {k}, times - {k};
      }
      assert expired - {} == expired;
    }

    /** `_evict_if_needed_locked`: time first, then least recently used. */
    method EvictIfNeeded(now: real)
      modifies this`order, this`data, this`times
      ensures View() == Trim(Expire(old(View()), limits, now), limits.maxEntries)
    {
      EvictExpired(now);
      if limits.maxEntries <= 0 {
        return;
      }
      ghost var end := Trim(View(), limits.maxEntries);
      while |order| > limits.maxEntries
        invariant Trim(View(), limits.maxEntries) == end
        decreases |order|
      {
        var oldest := order[0];
        order, data, times := order[1..], data - {oldest}, times - {oldest};
      }
    }

    /** Every operation answers false and does nothing on a closed store, where the source raises. */
    method PutContribution(k: Key, v: Contribution, now: real) returns (ok: bool)
      requires Valid()
      modifies this`order, this`data, this`times
      ensures Valid() && ok == !closed
      ensures View() == if ok then Serve(old(View()), PutOp(k, v, now), limits) else old(View())
    {
      if closed {
        return false;
      }
      StepKeepsInv(View(), Put(k, v, now), limits);
      if k in data {
        order, data, times := MoveToEnd(order, k), data[k := v], times[k := now];
        return true;
      }
      order, data, times := order + [k], data[k := v], times[k := now];
      EvictIfNeeded(now);
      ok := true;
    }

    method Get(k: Key, now: real) returns (ok: bool, found: Option<Contribution>)
      requires Valid()
      modifies this`order, this`data, this`times
      ensures Valid() && ok == !closed
      ensures View() == if ok then Serve(old(View()), GetOp(k, now), limits) else old(View())
      ensures found == if ok && k in old(data) && Within(limits, old(times)[k], now) then Some(old(data)[k]) else None
    {
      if closed {
        return false, None;
      }
      StepKeepsInv(View(), Tick(now), limits);
      StepKeepsInv(Step(View(), Tick(now), limits), Touch(k), limits);
      EvictExpired(now);
      if k !in data {
        return true, None;
      }
      order := MoveToEnd(order, k);
      return true, Some(data[k]);
    }

    method GetMany(keys: seq<Key>, now: real) returns (ok: bool, out: map<Key, Contribution>)
      requires Valid()
      modifies this`order, this`data, this`times
      ensures Valid() && ok == !closed
      ensures View() == if ok then Serve(old(View()), GetManyOp(keys, now), limits) else old(View())
      ensures forall k :: k in out <==> ok && k in keys && k in old(data) && Within(limits, old(times)[k], now)
      ensures forall k :: k in out ==> out[k] == old(data)[k]
    {
      if closed {
        return false, map[];
      }
      StepKeepsInv(View(), Tick(now), limits);
      EvictExpired(now);
      hide Steps, Touches, Inv, Expire;
      out := TouchAll(keys);
      ok := true;
    }

    /** The reading loop: held keys are returned and moved to the end, in list order. */
    method TouchAll(keys: seq<Key>) returns (out: map<Key, Contribution>)
      requires Valid()
      modifies this`order
      ensures Valid() && View() == Steps(old(View()), Touches(keys), limits)
      ensures forall k :: k in out <==> k in keys && k in data
      ensures forall k :: k in out ==> out[k] == data[k]
    {
      ghost var start := View();
      hide *;
      NoSteps(start, keys[..0], limits);
      out := map[];
      for i := 0 to |keys|
        invariant Valid() && View() == Steps(start, Touches(keys[..i]), limits)
        invariant forall k :: k in out <==> k in keys[..i] && k in data
        invariant forall k :: k in out ==> out[k] == data[k]
      {
        OneMoreTouch(start, keys, i, limits);
        assert keys[..i + 1] == keys[..i] + [keys[i]];
        var held := TouchIfHeld(keys[i]);
        if held {
          out := out[keys[i] := data[keys[i]]];
        }
      }
      assert keys[..|keys|] == keys;
    }

    method TouchIfHeld(k: Key) returns (held: bool)
      requires Valid()
      modifies this`order
      ensures Valid() && View() == Step(old(View()), Touch(k), limits) && held == (k in data)
    {
      StepKeepsInv(View(), Touch(k), limits);
      held := k in data;
      if held {
        order := MoveToEnd(order, k);
      }
    }

    method Delete(k: Key) returns (ok: bool, existed: bool)
      requires Valid()
      modifies this`order, this`data, this`times
      ensures Valid() && ok == !closed && existed == (ok && k in old(data))
      ensures View() == if ok then Serve(old(View()), DeleteOp(k), limits) else old(View())
    {
      if closed {
        return false, false;
      }
      StepKeepsInv(View(), Del(k), limits);
      existed := k in data;
      order, data, times := Drop(order, {k}), data - {k}, times - {k};
      ok := true;
    }

    method DeleteMany(keys: seq<Key>) returns (ok: bool, removed: nat)
      requires Valid()
      modifies this`order, this`data, this`times
      ensures Valid() && ok == !closed
      ensures View() == if ok then Serve(old(View()), DeleteManyOp(keys), limits) else old(View())
      ensures removed + |data| == |old(data)|
    {
      removed := 0;
      if closed {
        return false, 0;
      }
      DelsAre(View(), keys, limits);
      hide *;
      NoDels(View(), keys[..0], limits);
      for i := 0 to |keys|
        invariant Valid() && View() == Steps(old(View()), Dels(keys[..i]), limits) && removed + |data| == |old(data)|
      {
        OneMoreDel(old(View()), keys, i, limits);
        var held := DropIfHeld(keys[i]);
        if held {
          removed := removed + 1;
        }
      }
      assert keys[..|keys|] == keys;
      ok := true;
    }

    method DropIfHeld(k: Key) returns (held: bool)
      requires Valid()
      modifies this`order, this`data, this`times
      ensures Valid() && View() == Step(old(View()), Del(k), limits) && held == (k in old(data))
      ensures |data| == |old(data)| - if held then 1 else 0
    {
      StepKeepsInv(View(), Del(k), limits);
      held := k in data;
      if held {
        order, data, times := Drop(order, {k}), data - {k}, times - {k};
      } else {
        RemoveAbsent(View(), k);
      }
    }

    method AllGoalIds(now: real) returns (ok: bool, ids: set<Key>)
      requires Valid()
      modifies this`order, this`data, this`times
      ensures Valid() && ok == !closed
      ensures View() == if ok then Serve(old(View()), ListOp(now), limits) else old(View())
      ensures ids == if ok then set k | k in old(data) && Within(limits, old(times)[k], now) else {}
    {
      if closed {
        return false, {};
      }
      StepKeepsInv(View(), Tick(now), limits);
      EvictExpired(now);
      return true, data.Keys;
    }

    method WrittenAt(k: Key) returns (ok: bool, written: Option<real>)
      ensures ok == !closed && written == if ok && k in times then Some(times[k]) else None
    {
      if closed {
        return false, None;
      }
      return true, if k in times then Some(times[k]) else None;
    }

    method Close()
      modifies this
      ensures closed && View() == EMPTY_STORE && Valid()
    {
      closed := true;
      order, data, times := [], map[], map[];
    }
  }
}
