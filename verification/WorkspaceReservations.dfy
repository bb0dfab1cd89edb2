/** Scheduling-time conflict gate over normalized workspace paths (workspace_reservation.py). */
module WorkspaceReservations {
  import opened Prelude

  type GoalId = string

  /** A normalized absolute path as its components; the subtree of `p` is every path with prefix `p`. */
  type Path = seq<string>
  type Reservations = map<GoalId, Path>

  predicate Overlaps(a: Path, b: Path, strict: bool) {
    if a == b then true
    else if !strict then false
    else
      var (short, long) := if |a| < |b| then (a, b) else (b, a);
      short == long[..|short|]
  }

  /** `p` lies in the subtree rooted at `root`. */
  predicate Inside(p: Path, root: Path) {
    root <= p
  }

  /** Strict overlap means exactly that some path lies in both subtrees. */
  lemma StrictOverlapIffSubtreesMeet(a: Path, b: Path)
    ensures Overlaps(a, b, true) <==> exists p :: Inside(p, a) && Inside(p, b)
  {
    if Overlaps(a, b, true) {
      var p := if |a| < |b| then b else a;
      assert Inside(p, a) && Inside(p, b);
    }
    if p :| Inside(p, a) && Inside(p, b) {
      assert a == p[..|a|] && b == p[..|b|];
      if |a| < |b| {
        assert a == b[..|a|];
      } else {
        assert b == a[..|b|];
      }
    }
  }

  ghost predicate ConflictsWith(r: Reservations, ws: Path, g: GoalId, strict: bool) {
    g in r && Overlaps(ws, r[g], strict)
  }

  ghost predicate Blocked(r: Reservations, ws: Path, exclude: Option<GoalId>, strict: bool) {
    exists g :: ConflictsWith(r, ws, g, strict) && Some(g) != exclude
  }

  /** The gate's promise: distinct goals never hold overlapping workspaces. */
  ghost predicate Exclusive(r: Reservations, strict: bool) {
    forall g, h :: g in r && h in r && g != h ==> !Overlaps(r[g], r[h], strict)
  }

  ghost predicate Acquirable(r: Reservations, g: GoalId, ws: Path, strict: bool, enabled: bool) {
    !enabled || (g in r && r[g] == ws) || !Blocked(r, ws, Some(g), strict)
  }

  ghost function AfterAcquire(r: Reservations, g: GoalId, ws: Path, strict: bool, enabled: bool): Reservations {
    if Acquirable(r, g, ws, strict, enabled) then r[g := ws] else r
  }

  class WorkspaceReservation {
    const strict: bool
    const enabled: bool
    var reservations: Reservations

    constructor (strict: bool, enabled: bool)
      ensures this.strict == strict && this.enabled == enabled && reservations == map[]
    {
      this.strict, this.enabled, this.reservations := strict, enabled, map[];
    }

    method ConflictsWithActive(ws: Path, exclude: Option<GoalId>) returns (holder: Option<GoalId>)
      ensures holder.Some? ==>
        enabled && holder != exclude && ConflictsWith(reservations, ws, holder.value, strict)
      ensures holder.None? <==> !enabled || !Blocked(reservations, ws, exclude, strict)
    {
      if !enabled {
        return None;
      }
      var rest := reservations.Keys;
      while rest != {}
        invariant rest <= reservations.Keys
        invariant forall g :: ConflictsWith(reservations, ws, g, strict) && Some(g) != exclude ==> g in rest
      {
        var g :| g in rest;
        rest := rest - {g};
        if Some(g) != exclude && Overlaps(ws, reservations[g], strict) {
          assert ConflictsWith(reservations, ws, g, strict);
          return Some(g);
        }
      }
      return None;
    }

    method Acquire(goal: GoalId, ws: Path) returns (ok: bool)
      modifies this
      ensures ok == old(Acquirable(reservations, goal, ws, strict, enabled))
      ensures reservations == old(AfterAcquire(reservations, goal, ws, strict, enabled))
    {
      if !enabled {
        reservations := reservations[goal := ws];
        return true;
      }
      if goal in reservations && reservations[goal] == ws {
        assert reservations == reservations[goal := ws];
        return true;
      }
      var rest := reservations.Keys;
      while rest != {}
        invariant rest <= reservations.Keys && reservations == old(reservations)
        invariant forall g :: ConflictsWith(reservations, ws, g, strict) && g != goal ==> g in rest
      {
        var g :| g in rest;
        rest := rest - {g};
        if g != goal && Overlaps(ws, reservations[g], strict) {
          assert ConflictsWith(reservations, ws, g, strict) && Some(g) != Some(goal);
          return false;
        }
      }
      assert !Blocked(reservations, ws, Some(goal), strict);
      reservations := reservations[goal := ws];
      return true;
    }

    method Release(goal: GoalId) returns (existed: bool)
      modifies this
      ensures existed == (goal in old(reservations))
      ensures reservations == old(reservations) - {goal}
    {
      existed := goal in reservations;
      reservations := reservations - {goal};
    }
  }

  /** Under the gate's promise, acquiring succeeds exactly when no other active goal conflicts. */
  lemma AcquireIffNoConflict(r: Reservations, g: GoalId, ws: Path, strict: bool)
    requires Exclusive(r, strict)
    ensures Acquirable(r, g, ws, strict, true) <==> !Blocked(r, ws, Some(g), strict)
  {
  }

  lemma AcquireKeepsExclusive(r: Reservations, g: GoalId, ws: Path, strict: bool)
    requires Exclusive(r, strict)
    ensures Exclusive(AfterAcquire(r, g, ws, strict, true), strict)
  {
    OverlapSymmetric();
    var r' := AfterAcquire(r, g, ws, strict, true);
    if Acquirable(r, g, ws, strict, true) && !(g in r && r[g] == ws) {
      forall h | h in r' && h != g
        ensures !Overlaps(r'[g], r'[h], strict)
      {
        assert !(ConflictsWith(r, ws, h, strict) && Some(h) != Some(g));
      }
    }
  }

  lemma OverlapSymmetric()
    ensures forall a: Path, b: Path, strict :: Overlaps(a, b, strict) == Overlaps(b, a, strict)
  {
    forall a: Path, b: Path
      ensures Overlaps(a, b, true) == Overlaps(b, a, true)
    {
      StrictOverlapIffSubtreesMeet(a, b);
      StrictOverlapIffSubtreesMeet(b, a);
    }
  }

  datatype Op = AcquireOp(goal: GoalId, ws: Path) | ReleaseOp(goal: GoalId)

  ghost function Run(r: Reservations, ops: seq<Op>, strict: bool): Reservations
    decreases |ops|
  {
    if ops == [] then r
    else
      var r' := match ops[0]
        case AcquireOp(g, ws) => AfterAcquire(r, g, ws, strict, true)
        case ReleaseOp(g) => r - {g};
      Run(r', ops[1..], strict)
  }

  /** Mutual exclusion over every history of acquire and release calls. */
  lemma {:induction false} RunKeepsExclusive(r: Reservations, ops: seq<Op>, strict: bool)
    requires Exclusive(r, strict)
    ensures Exclusive(Run(r, ops, strict), strict)
    decreases |ops|
  {
    if ops != [] {
      match ops[0]
      case AcquireOp(g, ws) =>
        AcquireKeepsExclusive(r, g, ws, strict);
        RunKeepsExclusive(AfterAcquire(r, g, ws, strict, true), ops[1..], strict);
      case ReleaseOp(g) =>
        RunKeepsExclusive(r - {g}, ops[1..], strict);
    }
  }

  /** Without the strict rule only the same path overlaps. */
  lemma LooseOverlapIffEqual(a: Path, b: Path)
    ensures Overlaps(a, b, false) <==> a == b
  {
  }

  /** An enabled gate lets a goal in exactly when every other holder's workspace is apart, and then holds its path. */
  lemma AcquireMeans(r: Reservations, g: GoalId, ws: Path)
    requires Exclusive(r, true)
    ensures var e := AfterAcquire(r, g, ws, true, true);
      var apart := forall h, p :: h in r && h != g ==> !(Inside(p, ws) && Inside(p, r[h]));
      e == if apart then r[g := ws] else r
  {
    forall h | h in r && h != g
      ensures Overlaps(ws, r[h], true) <==> exists p :: Inside(p, ws) && Inside(p, r[h])
    {
      StrictOverlapIffSubtreesMeet(ws, r[h]);
    }
    AcquireIffNoConflict(r, g, ws, true);
    if Blocked(r, ws, Some(g), true) {
      var h :| ConflictsWith(r, ws, h, true) && Some(h) != Some(g);
      assert h in r && h != g;
    } else {
      forall h | h in r && h != g
        ensures !Overlaps(ws, r[h], true)
      {
        assert !(ConflictsWith(r, ws, h, true) && Some(h) != Some(g));
      }
    }
  }

  /** A disabled gate lets every goal in and remembers its path. */
  lemma DisabledGateAdmitsAll(r: Reservations, g: GoalId, ws: Path, strict: bool)
    ensures Acquirable(r, g, ws, strict, false) && AfterAcquire(r, g, ws, strict, false) == r[g := ws]
  {
  }
}
