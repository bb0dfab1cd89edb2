/** What the removal loop of a health report takes away, in statuses and links (goal_dag_verifier.py). */
module Removals {
  import opened Prelude
  import opened Goals
  import opened GoalTree
  import opened HealthRemoval

  /** Cancelled or failed, with nothing open below it, and no goal depending on it. */
  ghost predicate Clutter(d: Dag, g: GoalId) {
    && g in d && d[g].status in {Cancelled, Failed}
    && (forall x :: x in d && x != g && g != "" && Under(d, x, g) ==> d[x].status in {Completed, Failed, Cancelled})
    && (forall x :: x in d ==> g !in d[x].dependsOn)
  }

  /** One suggestion's turn: the goal goes if it is clutter, and nothing else happens. */
  ghost predicate TurnTaken(d: Dag, g: GoalId, e: Dag) {
    e == if Clutter(d, g) then d - {g} else d
  }

  lemma RemovedIffClutter(d: Dag, g: GoalId)
    ensures TurnTaken(d, g, RemoveOne(d, g))
  {
    assert (forall x :: x in d ==> g !in d[x].dependsOn) <==> Dependents(d, g) == {} by {
      if Dependents(d, g) != {} {
        var x :| x in Dependents(d, g);
        assert x in d && g in d[x].dependsOn;
      } else {
        forall x | x in d
          ensures g !in d[x].dependsOn
        {
          assert x !in Dependents(d, g);
        }
      }
    }
  }

  /** The goals before the first turn, after it, and so on. */
  ghost predicate Trace(states: seq<Dag>, suggestions: seq<GoalId>) {
    && |states| == |suggestions| + 1
    && forall k :: 0 <= k < |suggestions| ==> TurnTaken(states[k], suggestions[k], states[k + 1])
  }

  /** The loop is exactly one turn after the other. */
  lemma {:induction false} RemovalsAreTurns(d: Dag, suggestions: seq<GoalId>) returns (states: seq<Dag>)
    ensures Trace(states, suggestions) && states[0] == d && states[|suggestions|] == RemoveAll(d, suggestions)
  {
    if suggestions == [] {
      return [d];
    }
    var n := |suggestions| - 1;
    var before := RemovalsAreTurns(d, suggestions[..n]);
    hide TurnTaken, RemoveOne;
    RemovedIffClutter(before[n], suggestions[n]);
    states := before + [RemoveOne(before[n], suggestions[n])];
    forall k | 0 <= k < |suggestions|
      ensures TurnTaken(states[k], suggestions[k], states[k + 1])
    {
      if k < n {
        assert TurnTaken(before[k], suggestions[..n][k], before[k + 1]);
      }
    }
  }

  lemma {:induction false} OnlyShrinks(states: seq<Dag>, suggestions: seq<GoalId>, i: nat, j: nat)
    requires Trace(states, suggestions) && i <= j <= |suggestions|
    ensures forall x :: x in states[j] ==> x in states[i] && states[j][x] == states[i][x]
    decreases j - i
  {
    if i < j {
      assert TurnTaken(states[i], suggestions[i], states[i + 1]);
      OnlyShrinks(states, suggestions, i + 1, j);
    }
  }

  lemma {:induction false} GoneWasTaken(states: seq<Dag>, suggestions: seq<GoalId>, x: GoalId, n: nat) returns (k: nat)
    requires Trace(states, suggestions) && n <= |suggestions| && x in states[0] && x !in states[n]
    ensures k < n && suggestions[k] == x && Clutter(states[k], x)
  {
    if x in states[n - 1] {
      assert TurnTaken(states[n - 1], suggestions[n - 1], states[n]);
      return n - 1;
    }
    k := GoneWasTaken(states, suggestions, x, n - 1);
  }

  /**
   * Right after its turn a suggested goal is absent if and only if it was unknown then or clutter. What
   * disappeared by the end was suggested, and was clutter at its turn; all other goals are as they were.
   */
  lemma RemovalsExact(d: Dag, suggestions: seq<GoalId>) returns (states: seq<Dag>)
    ensures Trace(states, suggestions) && states[0] == d && states[|suggestions|] == RemoveAll(d, suggestions)
    ensures forall k :: 0 <= k < |suggestions| ==>
      (suggestions[k] !in states[k + 1] <==> suggestions[k] !in states[k] || Clutter(states[k], suggestions[k]))
    ensures forall x :: x in d && x !in states[|suggestions|] ==>
      exists k :: 0 <= k < |suggestions| && suggestions[k] == x && Clutter(states[k], x)
    ensures forall x :: x in states[|suggestions|] ==> x in d && states[|suggestions|][x] == d[x]
  {
    states := RemovalsAreTurns(d, suggestions);
    var n := |suggestions|;
    hide Clutter, RemoveAll;
    forall k | 0 <= k < n
      ensures suggestions[k] !in states[k + 1] <==> suggestions[k] !in states[k] || Clutter(states[k], suggestions[k])
    {
      assert TurnTaken(states[k], suggestions[k], states[k + 1]);
    }
    forall x | x in d && x !in states[n]
      ensures exists k :: 0 <= k < n && suggestions[k] == x && Clutter(states[k], x)
    {
      var k := GoneWasTaken(states, suggestions, x, n);
    }
    OnlyShrinks(states, suggestions, 0, n);
  }

  /** A lone cancelled goal that is suggested is gone afterwards. */
  lemma LoneClutterGoes(g: Goal)
    requires g.status == Cancelled && g.parentId == None && g.dependsOn == []
    ensures g.id !in RemoveAll(map[g.id := g], [g.id])
  {
    var d := map[g.id := g];
    var states := RemovalsExact(d, [g.id]);
    assert d.Keys == {g.id};
    assert Clutter(states[0], [g.id][0]);
    assert [g.id][0] !in states[1];
  }

  /** The guard, in statuses and links: nothing open below the goal, and nothing open that depends on it. */
  lemma GuardMeans(d: Dag, g: GoalId)
    ensures MayRemove(d, g) <==>
      && g in d && d[g].status in {Cancelled, Failed}
      && (forall x :: x in d && x != g && g != "" && Under(d, x, g) ==> d[x].status in {Completed, Failed, Cancelled})
      && (forall x :: x in d && g in d[x].dependsOn ==> d[x].status in {Completed, Failed, Cancelled})
  {
    assert forall x :: x in Dependents(d, g) <==> x in d && g in d[x].dependsOn;
  }
}
