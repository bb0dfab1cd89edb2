/** The contribution store under any history of its public operations (dispatch/store.py). */
module StoreRuns {
  import opened Prelude
  import opened Bundles
  import opened StoreModel

  datatype Operation =
    | PutOp(k: Key, v: Contribution, now: real)
    | GetOp(k: Key, now: real)
    | GetManyOp(keys: seq<Key>, now: real)
    | DeleteOp(k: Key)
    | DeleteManyOp(keys: seq<Key>)
    | ListOp(now: real)

  /** Events of a list of keys, one after the other. */
  function Touches(keys: seq<Key>): seq<Event> {
    if keys == [] then [] else Touches(keys[..|keys| - 1]) + [Touch(keys[|keys| - 1])]
  }

  function Dels(keys: seq<Key>): seq<Event> {
    if keys == [] then [] else Dels(keys[..|keys| - 1]) + [Del(keys[|keys| - 1])]
  }

  function EventsOf(op: Operation): seq<Event> {
    match op
    case PutOp(k, v, now) => [Put(k, v, now)]
    case GetOp(k, now) => [Tick(now)] + [Touch(k)]
    case GetManyOp(keys, now) => [Tick(now)] + Touches(keys)
    case DeleteOp(k) => [Del(k)]
    case DeleteManyOp(keys) => Dels(keys)
    case ListOp(now) => [Tick(now)]
  }

  function AllEvents(ops: seq<Operation>): seq<Event> {
    if ops == [] then [] else AllEvents(ops[..|ops| - 1]) + EventsOf(ops[|ops| - 1])
  }

  /** The store after one operation: the reading ones let entries expire first. */
  function Serve(s: Store, op: Operation, l: Limits): Store {
    match op
    case PutOp(k, v, now) => Step(s, Put(k, v, now), l)
    case GetOp(k, now) => Step(Expire(s, l, now), Touch(k), l)
    case GetManyOp(keys, now) => Steps(Expire(s, l, now), Touches(keys), l)
    case DeleteOp(k) => Without(s, {k})
    case DeleteManyOp(keys) => Steps(s, Dels(keys), l)
    case ListOp(now) => Expire(s, l, now)
  }

  function ServeAll(ops: seq<Operation>, l: Limits): Store {
    if ops == [] then EMPTY_STORE else Serve(ServeAll(ops[..|ops| - 1], l), ops[|ops| - 1], l)
  }

  lemma OneStep(s: Store, e: Event, l: Limits)
    ensures Steps(s, [e], l) == Step(s, e, l)
  {
    assert [e][..0] == [];
  }

  lemma ServeIsSteps(s: Store, op: Operation, l: Limits)
    ensures Serve(s, op, l) == Steps(s, EventsOf(op), l)
  {
    match op
    case PutOp(k, v, now) => OneStep(s, Put(k, v, now), l);
    case GetOp(k, now) =>
      StepsCompose(s, [Tick(now)], [Touch(k)], l);
      OneStep(s, Tick(now), l);
      OneStep(Expire(s, l, now), Touch(k), l);
    case GetManyOp(keys, now) =>
      StepsCompose(s, [Tick(now)], Touches(keys), l);
      OneStep(s, Tick(now), l);
    case DeleteOp(k) => OneStep(s, Del(k), l);
    case DeleteManyOp(keys) =>
    case ListOp(now) => OneStep(s, Tick(now), l);
  }

  /** A history of operations is the history of their events. */
  lemma {:induction false} ServedIsSteps(ops: seq<Operation>, l: Limits)
    ensures ServeAll(ops, l) == Steps(EMPTY_STORE, AllEvents(ops), l)
  {
    if ops != [] {
      var n := |ops| - 1;
      ServedIsSteps(ops[..n], l);
      hide Serve, Steps, EventsOf;
      StepsCompose(EMPTY_STORE, AllEvents(ops[..n]), EventsOf(ops[n]), l);
      ServeIsSteps(ServeAll(ops[..n], l), ops[n], l);
    } else {
      assert AllEvents(ops) == [];
    }
  }

  lemma ServedKeepInv(ops: seq<Operation>, l: Limits)
    ensures Inv(ServeAll(ops, l), l)
  {
    ServedIsSteps(ops, l);
    StepsKeepInv(AllEvents(ops), l);
  }

  // ---- Never stale ------------------------------------------------------------------------------

  /** What one operation does to the last value put under a key and its time. */
  function Rewritten(before: Option<(Contribution, real)>, op: Operation, k: Key): Option<(Contribution, real)> {
    match op
    case PutOp(j, v, now) => if j == k then Some((v, now)) else before
    case DeleteOp(j) => if j == k then None else before
    case DeleteManyOp(keys) => if k in keys then None else before
    case _ => before
  }

  /** The last value put under a key and its time, unless the key was deleted since. */
  function LastWritten(ops: seq<Operation>, k: Key): Option<(Contribution, real)> {
    if ops == [] then None else Rewritten(LastWritten(ops[..|ops| - 1], k), ops[|ops| - 1], k)
  }

  lemma LastPutOfTouches(es: seq<Event>, keys: seq<Key>, k: Key)
    ensures LastPut(es + Touches(keys), k) == LastPut(es, k)
    decreases |keys|
  {
    if keys == [] {
      assert es + Touches(keys) == es;
    } else {
      var n := |keys| - 1;
      Assoc(es, Touches(keys[..n]), [Touch(keys[n])]);
      LastPutOfOne(es + Touches(keys[..n]), Touch(keys[n]), k);
      LastPutOfTouches(es, keys[..n], k);
    }
  }

  lemma LastPutOfOne(es: seq<Event>, e: Event, k: Key)
    ensures LastPut(es + [e], k) ==
      if e.Put? && e.k == k then Some((e.v, e.now)) else if e.Del? && e.k == k then None else LastPut(es, k)
  {
    assert (es + [e])[..|es|] == es;
  }

  lemma {:induction false} LastPutOfDels(es: seq<Event>, keys: seq<Key>, k: Key)
    ensures LastPut(es + Dels(keys), k) == if k in keys then None else LastPut(es, k)
    decreases |keys|
  {
    if keys == [] {
      assert es + Dels(keys) == es;
    } else {
      var n := |keys| - 1;
      assert keys == keys[..n] + [keys[n]];
      Assoc(es, Dels(keys[..n]), [Del(keys[n])]);
      LastPutOfOne(es + Dels(keys[..n]), Del(keys[n]), k);
      LastPutOfDels(es, keys[..n], k);
    }
  }

  lemma LastPutOfOp(es: seq<Event>, op: Operation, k: Key)
    ensures LastPut(es + EventsOf(op), k) == Rewritten(LastPut(es, k), op, k)
  {
    hide LastPut, Touches, Dels;
    match op
    case PutOp(j, v, now) => LastPutOfOne(es, Put(j, v, now), k);
    case GetOp(j, now) =>
      Assoc(es, [Tick(now)], [Touch(j)]);
      LastPutOfOne(es, Tick(now), k);
      LastPutOfOne(es + [Tick(now)], Touch(j), k);
    case GetManyOp(keys, now) =>
      Assoc(es, [Tick(now)], Touches(keys));
      LastPutOfOne(es, Tick(now), k);
      LastPutOfTouches(es + [Tick(now)], keys, k);
    case DeleteOp(j) => LastPutOfOne(es, Del(j), k);
    case DeleteManyOp(keys) => LastPutOfDels(es, keys, k);
    case ListOp(now) => LastPutOfOne(es, Tick(now), k);
  }

  lemma {:induction false} LastWrittenIsLastPut(ops: seq<Operation>, k: Key)
    ensures LastWritten(ops, k) == LastPut(AllEvents(ops), k)
  {
    if ops != [] {
      var n := |ops| - 1;
      LastWrittenIsLastPut(ops[..n], k);
      LastPutOfOp(AllEvents(ops[..n]), ops[n], k);
    }
  }

  /** After any history, whatever is held is the last value put under its key, not deleted since, and its time. */
  lemma HeldIsLastWritten(ops: seq<Operation>, l: Limits, k: Key)
    requires k in ServeAll(ops, l).data
    ensures var s := ServeAll(ops, l); k in s.times && LastWritten(ops, k) == Some((s.data[k], s.times[k]))
  {
    ServedIsSteps(ops, l);
    NeverStale(AllEvents(ops), l, k);
    LastWrittenIsLastPut(ops, k);
  }

  // ---- Survival -----------------------------------------------------------------------------------

  /** `newer` after reads of the listed keys of which those in `held` are found. */
  function UsedSince(newer: set<Key>, held: set<Key>, keys: seq<Key>, k: Key): set<Key> {
    if keys == [] then newer
    else
      var (j, before) := (keys[|keys| - 1], UsedSince(newer, held, keys[..|keys| - 1], k));
      if j !in held then before else if j == k then {} else before + {j}
  }

  function UsedNext(before: set<Key>, s: Store, op: Operation, l: Limits, k: Key): set<Key> {
    match op
    case PutOp(j, v, now) => if j == k then {} else before + {j}
    case GetOp(j, now) => UsedSince(before, Expire(s, l, now).data.Keys, [j], k)
    case GetManyOp(keys, now) => UsedSince(before, Expire(s, l, now).data.Keys, keys, k)
    case _ => before
  }

  /** The distinct other keys put, or read while held, since `k` was last put or read while held. */
  function UsedAfter(ops: seq<Operation>, l: Limits, k: Key): set<Key> {
    if ops == [] then {}
    else
      var past := ops[..|ops| - 1];
      UsedNext(UsedAfter(past, l, k), ServeAll(past, l), ops[|ops| - 1], l, k)
  }

  /** At `now` an entry last written at `written` is within the retention; a retention of zero or less has no end. */
  predicate Within(l: Limits, written: real, now: real) {
    l.retention <= 0.0 || written >= now - l.retention
  }

  predicate WindowNext(before: bool, op: Operation, l: Limits, k: Key, written: real) {
    match op
    case PutOp(j, v, now) => j == k || (Within(l, written, now) && before)
    case GetOp(j, now) => Within(l, written, now) && before
    case GetManyOp(keys, now) => Within(l, written, now) && before
    case ListOp(now) => Within(l, written, now) && before
    case _ => before
  }

  /** Since its last put, no operation came at a time when the entry was outside the retention window. */
  predicate StaysInWindow(ops: seq<Operation>, l: Limits, k: Key, written: real) {
    if ops == [] then true
    else WindowNext(StaysInWindow(ops[..|ops| - 1], l, k, written), ops[|ops| - 1], l, k, written)
  }

  lemma NewerOfOne(es: seq<Event>, e: Event, l: Limits, k: Key)
    ensures Newer(es + [e], l, k) ==
      if e.Put? || (e.Touch? && e.k in Steps(EMPTY_STORE, es, l).data)
      then (if e.k == k then {} else Newer(es, l, k) + {e.k})
      else Newer(es, l, k)
  {
    assert (es + [e])[..|es|] == es;
  }

  lemma InWindowOfOne(es: seq<Event>, e: Event, l: Limits, k: Key, written: real)
    ensures InWindow(es + [e], l, k, written) ==
      if e.Put? then e.k == k || (!Stale(l, written, e.now) && InWindow(es, l, k, written))
      else if e.Tick? then !Stale(l, written, e.now) && InWindow(es, l, k, written)
      else InWindow(es, l, k, written)
  {
    assert (es + [e])[..|es|] == es;
  }

  /** Touching reorders only. */
  lemma {:induction false} TouchesKeepData(s: Store, keys: seq<Key>, l: Limits)
    ensures Steps(s, Touches(keys), l).data == s.data
    decreases |keys|
  {
    if keys != [] {
      var n := |keys| - 1;
      TouchesKeepData(s, keys[..n], l);
      StepsCompose(s, Touches(keys[..n]), [Touch(keys[n])], l);
      OneStep(Steps(s, Touches(keys[..n]), l), Touch(keys[n]), l);
    }
  }

  lemma {:induction false} NewerOfTouches(es: seq<Event>, keys: seq<Key>, l: Limits, k: Key, written: real)
    ensures Newer(es + Touches(keys), l, k)
      == UsedSince(Newer(es, l, k), Steps(EMPTY_STORE, es, l).data.Keys, keys, k)
    ensures InWindow(es + Touches(keys), l, k, written) == InWindow(es, l, k, written)
    decreases |keys|
  {
    if keys == [] {
      assert es + Touches(keys) == es;
    } else {
      var n := |keys| - 1;
      NewerOfTouches(es, keys[..n], l, k, written);
      StepsCompose(EMPTY_STORE, es, Touches(keys[..n]), l);
      TouchesKeepData(Steps(EMPTY_STORE, es, l), keys[..n], l);
      hide Newer, InWindow, Steps;
      Assoc(es, Touches(keys[..n]), [Touch(keys[n])]);
      NewerOfOne(es + Touches(keys[..n]), Touch(keys[n]), l, k);
      InWindowOfOne(es + Touches(keys[..n]), Touch(keys[n]), l, k, written);
    }
  }

  lemma {:induction false} NewerOfDels(es: seq<Event>, keys: seq<Key>, l: Limits, k: Key, written: real)
    ensures Newer(es + Dels(keys), l, k) == Newer(es, l, k)
    ensures InWindow(es + Dels(keys), l, k, written) == InWindow(es, l, k, written)
    decreases |keys|
  {
    if keys == [] {
      assert es + Dels(keys) == es;
    } else {
      var n := |keys| - 1;
      NewerOfDels(es, keys[..n], l, k, written);
      hide Newer, InWindow;
      Assoc(es, Dels(keys[..n]), [Del(keys[n])]);
      NewerOfOne(es + Dels(keys[..n]), Del(keys[n]), l, k);
      InWindowOfOne(es + Dels(keys[..n]), Del(keys[n]), l, k, written);
    }
  }

  /** A reading operation: expiry, then touches. */
  lemma NewerOfRead(es: seq<Event>, keys: seq<Key>, now: real, l: Limits, k: Key, written: real)
    ensures var s := Steps(EMPTY_STORE, es, l);
      Newer(es + ([Tick(now)] + Touches(keys)), l, k) == UsedSince(Newer(es, l, k), Expire(s, l, now).data.Keys, keys, k)
    ensures InWindow(es + ([Tick(now)] + Touches(keys)), l, k, written)
      == (!Stale(l, written, now) && InWindow(es, l, k, written))
  {
    Assoc(es, [Tick(now)], Touches(keys));
    StepsCompose(EMPTY_STORE, es, [Tick(now)], l);
    OneStep(Steps(EMPTY_STORE, es, l), Tick(now), l);
    hide Newer, InWindow, Steps, UsedSince;
    NewerOfOne(es, Tick(now), l, k);
    InWindowOfOne(es, Tick(now), l, k, written);
    NewerOfTouches(es + [Tick(now)], keys, l, k, written);
  }

  lemma UsesOfOp(es: seq<Event>, op: Operation, l: Limits, k: Key, written: real)
    ensures Newer(es + EventsOf(op), l, k) == UsedNext(Newer(es, l, k), Steps(EMPTY_STORE, es, l), op, l, k)
    ensures InWindow(es + EventsOf(op), l, k, written) == WindowNext(InWindow(es, l, k, written), op, l, k, written)
  {
    assert forall now :: Within(l, written, now) <==> !Stale(l, written, now);
    hide Newer, InWindow, Steps, UsedSince, Expire, Stale, Touches, Dels, Within;
    match op {
      case PutOp(j, v, now) =>
        NewerOfOne(es, Put(j, v, now), l, k);
        InWindowOfOne(es, Put(j, v, now), l, k, written);
      case GetOp(j, now) =>
        OneTouch(j);
        NewerOfRead(es, [j], now, l, k, written);
      case GetManyOp(keys, now) => NewerOfRead(es, keys, now, l, k, written);
      case DeleteOp(j) =>
        NewerOfOne(es, Del(j), l, k);
        InWindowOfOne(es, Del(j), l, k, written);
      case DeleteManyOp(keys) => NewerOfDels(es, keys, l, k, written);
      case ListOp(now) =>
        NewerOfOne(es, Tick(now), l, k);
        InWindowOfOne(es, Tick(now), l, k, written);
    }
  }

  lemma OneTouch(k: Key)
    ensures Touches([k]) == [Touch(k)]
  {
    assert [k][..0] == [];
  }

  lemma {:induction false} UsesAreNewer(ops: seq<Operation>, l: Limits, k: Key, written: real)
    ensures UsedAfter(ops, l, k) == Newer(AllEvents(ops), l, k)
    ensures StaysInWindow(ops, l, k, written) == InWindow(AllEvents(ops), l, k, written)
  {
    if ops == [] {
      assert AllEvents(ops) == [];
    } else {
      var n := |ops| - 1;
      UsesAreNewer(ops[..n], l, k, written);
      ServedIsSteps(ops[..n], l);
      hide Newer, InWindow, Steps, UsedNext, WindowNext, EventsOf, ServeAll;
      UsesOfOp(AllEvents(ops[..n]), ops[n], l, k, written);
    }
  }

  /**
   * Survival: an entry put and not deleted, within its retention window at every operation since, and with fewer
   * distinct other keys put or found since its own last use than the cap, is still held with that value.
   */
  lemma WrittenIsHeld(ops: seq<Operation>, l: Limits, k: Key)
    requires LastWritten(ops, k).Some? && StaysInWindow(ops, l, k, LastWritten(ops, k).value.1)
    requires l.maxEntries > 0 ==> |UsedAfter(ops, l, k)| < l.maxEntries
    ensures k in ServeAll(ops, l).data && ServeAll(ops, l).data[k] == LastWritten(ops, k).value.0
  {
    ServedIsSteps(ops, l);
    LastWrittenIsLastPut(ops, k);
    UsesAreNewer(ops, l, k, LastWritten(ops, k).value.1);
    Survives(AllEvents(ops), l, k);
  }
}
