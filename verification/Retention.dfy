/** What the retention window of the contribution store lets through, told in times alone (dispatch/store.py). */
module Retention {
  import opened Prelude
  import opened Bundles
  import opened StoreModel
  import opened StoreRuns

  /** The time at which an operation lets old entries go; overwriting an entry and deleting let none go. */
  function ExpiresAt(s: Store, op: Operation): Option<real> {
    match op
    case PutOp(k, v, now) => if k in s.data then None else Some(now)
    case GetOp(k, now) => Some(now)
    case GetManyOp(keys, now) => Some(now)
    case ListOp(now) => Some(now)
    case _ => None
  }

  /** Reading touches order only: exactly the entries within the retention stay, as they were. */
  lemma ReadKeepsExactlyRecent(s: Store, op: Operation, l: Limits, k: Key)
    requires Inv(s, l) && (op.GetOp? || op.GetManyOp? || op.ListOp?)
    ensures var (e, now) := (Serve(s, op, l), ExpiresAt(s, op).value);
      && (k in e.data <==> k in s.data && (l.retention <= 0.0 || s.times[k] >= now - l.retention))
      && (k in e.data ==> k in e.times && e.data[k] == s.data[k] && e.times[k] == s.times[k])
  {
    if op.GetManyOp? {
      TouchesKeepEntries(Expire(s, l, op.now), op.keys, l);
    }
  }

  lemma {:induction false} TouchesKeepEntries(s: Store, keys: seq<Key>, l: Limits)
    ensures Steps(s, Touches(keys), l).data == s.data && Steps(s, Touches(keys), l).times == s.times
    decreases |keys|
  {
    if keys != [] {
      var n := |keys| - 1;
      TouchesKeepEntries(s, keys[..n], l);
      StepsCompose(s, Touches(keys[..n]), [Touch(keys[n])], l);
      OneStep(Steps(s, Touches(keys[..n]), l), Touch(keys[n]), l);
    }
  }

  /** A new entry lets go of old ones, and then of the least recently used ones if there are too many. */
  lemma NewEntryKeepsOnlyRecent(s: Store, j: Key, v: Contribution, now: real, l: Limits, k: Key)
    requires Inv(s, l) && j !in s.data && k in Serve(s, PutOp(j, v, now), l).data
    ensures var e := Serve(s, PutOp(j, v, now), l);
      && k in e.times
      && (k == j ==> e.data[k] == v && e.times[k] == now)
      && (k != j ==> k in s.data && e.data[k] == s.data[k] && e.times[k] == s.times[k])
      && (k != j ==> l.retention <= 0.0 || s.times[k] >= now - l.retention)
  {
    StepKeepsInv(s, Put(j, v, now), l);
    AdmittedFacts(s, j, v, now, l);
    hide Admitted, NoDuplicates, Trim;
    if l.maxEntries > 0 {
      TrimKeepsRecent(Admitted(s, j, v, now, l), l.maxEntries);
    } else {
      NoCapNoTrim(Admitted(s, j, v, now, l), l.maxEntries);
    }
  }

  /** With room for one more, a new entry drops no entry within the retention. */
  lemma NewEntryDropsOnlyOld(s: Store, j: Key, v: Contribution, now: real, l: Limits, k: Key)
    requires Inv(s, l) && j !in s.data && k in s.data && (l.maxEntries <= 0 || |s.order| < l.maxEntries)
    requires l.retention <= 0.0 || s.times[k] >= now - l.retention
    ensures k in Serve(s, PutOp(j, v, now), l).data
  {
    AdmittedFacts(s, j, v, now, l);
    DropFacts(s.order + [j], StaleKeys(Store(s.order + [j], s.data[j := v], s.times[j := now]), l, now)) by {
      AppendDistinct(s.order, j);
    }
    var a := Admitted(s, j, v, now, l);
    assert |a.order| <= |s.order| + 1;
    hide Admitted, NoDuplicates;
  }

  /**
   * After any history that ends in a reading operation or a new entry at `now`, every held entry was last
   * written within the retention before `now`.
   */
  lemma HeldIsRecent(ops: seq<Operation>, op: Operation, l: Limits, k: Key)
    requires l.retention > 0.0 && ExpiresAt(ServeAll(ops, l), op).Some? && k in ServeAll(ops + [op], l).data
    ensures var now := ExpiresAt(ServeAll(ops, l), op).value;
      LastWritten(ops + [op], k).Some? && LastWritten(ops + [op], k).value.1 >= now - l.retention
  {
    var (s, now) := (ServeAll(ops, l), ExpiresAt(ServeAll(ops, l), op).value);
    assert (ops + [op])[..|ops|] == ops && (ops + [op])[|ops|] == op;
    ServedKeepInv(ops, l);
    HeldIsLastWritten(ops + [op], l, k);
    hide Serve, ServeAll, LastWritten, Inv;
    assert ServeAll(ops + [op], l) == Serve(s, op, l) by {
      ServedNext(ops, op, l);
    }
    if op.PutOp? {
      NewEntryKeepsOnlyRecent(s, op.k, op.v, op.now, l, k);
    } else {
      ReadKeepsExactlyRecent(s, op, l, k);
    }
  }

  lemma ServedNext(ops: seq<Operation>, op: Operation, l: Limits)
    ensures ServeAll(ops + [op], l) == Serve(ServeAll(ops, l), op, l)
  {
    assert (ops + [op])[..|ops|] == ops;
  }

  /** What a read returns after any history: the last value put, exactly when it is still held and recent. */
  lemma ReadServes(ops: seq<Operation>, now: real, l: Limits, k: Key)
    ensures var (s, e) := (ServeAll(ops, l), ServeAll(ops + [GetOp(k, now)], l));
      && (k in s.data ==> LastWritten(ops, k).Some?)
      && (k in e.data <==> k in s.data && (l.retention <= 0.0 || LastWritten(ops, k).value.1 >= now - l.retention))
      && (k in e.data ==> e.data[k] == LastWritten(ops, k).value.0)
  {
    ServedKeepInv(ops, l);
    ServedNext(ops, GetOp(k, now), l);
    hide Serve, ServeAll, LastWritten, Inv;
    ReadKeepsExactlyRecent(ServeAll(ops, l), GetOp(k, now), l, k);
    if k in ServeAll(ops, l).data {
      HeldIsLastWritten(ops, l, k);
    }
  }
}
