/** Goal nodes and the goal DAG of the context engine (context/models.py), as far as dispatch reads them. */
module Goals {
  import opened Prelude

  type GoalId = string

  datatype GoalStatus =
    | Pending | Active | Completed | Failed | Suspended | Blocked | Validated | AwaitingClarification | Cancelled
  {
    predicate Terminal() {
      this == Completed || this == Failed || this == Cancelled
    }
  }

  datatype Goal = Goal(
    id: GoalId,
    status: GoalStatus,
    parentId: Option<GoalId>,
    dependsOn: seq<GoalId>,
    informs: seq<GoalId>,
    conflictsWith: seq<GoalId>,
    railBound: bool,
    workspace: seq<string>,
    retryCount: nat,
    assignedLoop: Option<string>,
    createdAt: real,
    updatedAt: real,
    totalTokens: nat,
    description: string)
  {
    /** The parent link as Python's truthiness reads it: an empty id is no parent. */
    function Parent(): Option<GoalId> {
      if parentId.Some? && parentId.value != "" then parentId else None
    }
  }

  type Dag = map<GoalId, Goal>

  ghost predicate WellKeyed(d: Dag) {
    forall k :: k in d ==> d[k].id == k
  }

  /** `listed` enumerates the DAG's goals, each once, in some order. */
  ghost predicate Lists(listed: seq<Goal>, d: Dag) {
    && (forall i, j :: 0 <= i < j < |listed| ==> listed[i].id != listed[j].id)
    && (forall i :: 0 <= i < |listed| ==> listed[i].id in d && d[listed[i].id] == listed[i])
    && (forall k :: k in d ==> d[k] in listed)
  }

  predicate DependenciesMet(d: Dag, g: Goal) {
    forall dep :: dep in g.dependsOn ==> dep in d && d[dep].status.Terminal()
  }

  predicate ConflictFree(d: Dag, g: Goal) {
    forall c :: c in g.conflictsWith && c != g.id ==> !(c in d && d[c].status == Active)
  }

  /** What `claim_goal` re-checks before activating a goal. */
  predicate Claimable(d: Dag, id: GoalId) {
    id in d && d[id].status == Pending && ConflictFree(d, d[id]) && DependenciesMet(d, d[id])
  }

  function Claimed(d: Dag, id: GoalId, lid: string): Dag
    requires id in d
  {
    d[id := d[id].(status := Active, assignedLoop := if lid == "" then d[id].assignedLoop else Some(lid))]
  }

  function Dependents(d: Dag, id: GoalId): set<GoalId> {
    set g | g in d && id in d[g].dependsOn
  }

  /** The goal map as the engine mutates it. */
  class GoalDag {
    var goals: Dag

    constructor (goals: Dag)
      ensures this.goals == goals
    {
      this.goals := goals;
    }

    /** `claim_goal`: pending to active, with the checks repeated at claim time. */
    method ClaimGoal(id: GoalId, lid: string) returns (claimed: bool)
      modifies this
      ensures claimed == old(Claimable(goals, id))
      ensures goals == if claimed then Claimed(old(goals), id, lid) else old(goals)
    {
      if !Claimable(goals, id) {
        return false;
      }
      var goal := goals[id].(status := Active);
      if lid != "" {
        goal := goal.(assignedLoop := Some(lid));
      }
      goals := goals[id := goal];
      return true;
    }

    /** `cancel_goal` on a goal that is not terminal: every live status may move to cancelled. */
    method CancelGoal(id: GoalId)
      requires id in goals && !goals[id].status.Terminal()
      modifies this
      ensures goals == old(goals)[id := old(goals)[id].(status := Cancelled)]
    {
      goals := goals[id := goals[id].(status := Cancelled)];
    }

    /** `remove_goal`: refuses a goal that any other goal still depends on. */
    method RemoveGoal(id: GoalId) returns (removed: bool)
      modifies this
      ensures removed <==> id in old(goals) && Dependents(old(goals), id) == {}
      ensures goals == if removed then old(goals) - {id} else old(goals)
    {
      if id !in goals || Dependents(goals, id) != {} {
        return false;
      }
      goals := goals - {id};
      return true;
    }
  }
}
