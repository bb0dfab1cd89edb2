/** The transcript of a goal's ancestors, over two reads of the contribution store (projector.py, _build_preamble). */
module Transcripts {
  import opened Prelude
  import opened Goals
  import opened LoopIds
  import opened Ranking
  import opened Bundles
  import opened Ancestors

  /** What the store holds, or returns for the ids it is asked for. */
  type Found = map<GoalId, Contribution>

  /** `get_many`: what the store holds of the listed ids. */
  function Asked(store: Found, ids: seq<GoalId>): Found {
    map k | k in ids && k in store :: store[k]
  }

  /** The ids the first read did not return. */
  function Missing(ids: seq<GoalId>, direct: Found): seq<GoalId> {
    if ids == [] then [] else (if ids[0] in direct then [] else [ids[0]]) + Missing(ids[1..], direct)
  }

  lemma {:induction false} MissingExact(ids: seq<GoalId>, direct: Found)
    ensures forall k :: k in Missing(ids, direct) <==> k in ids && k !in direct
  {
    if ids != [] {
      assert ids == [ids[0]] + ids[1..];
      MissingExact(ids[1..], direct);
    }
  }

  /** The first read, updated by a second one for what is still missing; `later` is the store by then. */
  function Completed(ids: seq<GoalId>, direct: Found, later: Found): Found {
    direct + Asked(later, Missing(ids, direct))
  }

  /** The first read stands; the second adds exactly the listed ids it lacks and the store holds by then. */
  lemma CompletedExact(ids: seq<GoalId>, direct: Found, later: Found, k: GoalId)
    ensures k in Completed(ids, direct, later) <==> k in direct || (k in ids && k in later)
    ensures k in direct ==> Completed(ids, direct, later)[k] == direct[k]
    ensures k in Completed(ids, direct, later) && k !in direct ==> Completed(ids, direct, later)[k] == later[k]
  {
    MissingExact(ids, direct);
  }

  function Nodes(d: Dag, ids: seq<GoalId>): seq<Goal>
    requires forall x :: x in ids ==> x in d
  {
    seq(|ids|, i requires 0 <= i < |ids| => d[ids[i]])
  }

  function NodeIds(nodes: seq<Goal>): (ids: seq<GoalId>)
    ensures |ids| == |nodes| && forall i :: 0 <= i < |ids| ==> ids[i] == nodes[i].id
  {
    seq(|nodes|, i requires 0 <= i < |nodes| => nodes[i].id)
  }

  /** The ancestors of a goal in collection order. */
  ghost function AncestorNodes(d: Dag, goal: Goal): seq<Goal> {
    CollectionIsExact(d, goal);
    Nodes(d, Collected(d, goal))
  }

  /** The ancestors one of the two reads found a contribution for. */
  ghost function WithReport(d: Dag, goal: Goal, direct: Found, later: Found): seq<Goal> {
    var nodes := AncestorNodes(d, goal);
    WithContribution(nodes, Completed(NodeIds(nodes), direct, later))
  }

  ghost function Transcript(d: Dag, goal: Goal, direct: Found, later: Found): seq<Turn> {
    Turns(Selected(WithReport(d, goal, direct, later)))
  }

  lemma NoTurns()
    ensures forall more: Found :: Turns(Selected(WithContribution([], more))) == []
  {
  }

  lemma NothingAsked(direct: Found, later: Found)
    ensures direct + Asked(later, []) == direct
  {
    assert Asked(later, []) == map[];
  }

  method BuildPreamble(goal: Goal, d: Dag, direct: Found, later: Found) returns (out: seq<Turn>)
    ensures out == Transcript(d, goal, direct, later)
  {
    hide Ancestor, Missing, WithContribution, Selected, Turns, NodeIds, Collected;
    var ids := CollectAncestors(goal, d);
    CollectionIsExact(d, goal);
    var nodes := Nodes(d, ids);
    assert nodes == AncestorNodes(d, goal);
    if nodes == [] {
      NoTurns();
      return [];
    }
    var contributions := direct;
    var missing := Missing(NodeIds(nodes), direct);
    if missing != [] {
      contributions := contributions + Asked(later, missing);
    } else {
      NothingAsked(direct, later);
    }
    out := BuildPreamblePairs(nodes, contributions);
  }

  // ---- The order of the transcript --------------------------------------------------------------

  lemma WithContributionOfCons(nodes: seq<Goal>, found: Found)
    requires nodes != []
    ensures var kept := WithContribution(nodes[1..], found);
      WithContribution(nodes, found) == if nodes[0].id in found then [nodes[0]] + kept else kept
  {
    assert [] + WithContribution(nodes[1..], found) == WithContribution(nodes[1..], found);
  }

  lemma {:induction false} WithContributionExact(nodes: seq<Goal>, found: Found)
    ensures forall x :: x in WithContribution(nodes, found) <==> x in nodes && x.id in found
  {
    if nodes != [] {
      assert nodes == [nodes[0]] + nodes[1..];
      WithContributionOfCons(nodes, found);
      WithContributionExact(nodes[1..], found);
    }
  }

  lemma IdsOfCons(node: Goal, rest: seq<Goal>)
    ensures NodeIds([node] + rest) == [node.id] + NodeIds(rest)
  {
  }

  lemma IdsWithin(kept: seq<Goal>, rest: seq<Goal>)
    requires forall x :: x in kept ==> x in rest
    ensures forall i :: 0 <= i < |NodeIds(kept)| ==> NodeIds(kept)[i] in NodeIds(rest)
  {
    forall i | 0 <= i < |kept|
      ensures NodeIds(kept)[i] in NodeIds(rest)
    {
      assert kept[i] in rest;
      var k :| 0 <= k < |rest| && rest[k] == kept[i];
      assert NodeIds(rest)[k] == NodeIds(kept)[i];
    }
  }

  /** Leaving goals out keeps parents before children. */
  lemma {:induction false} FilterKeepsParentsFirst(g: Graph, nodes: seq<Goal>, found: Found)
    requires ParentsFirst(g, NodeIds(nodes))
    ensures ParentsFirst(g, NodeIds(WithContribution(nodes, found)))
  {
    if nodes != [] {
      var (head, rest, kept) := (nodes[0], nodes[1..], WithContribution(nodes[1..], found));
      assert nodes == [head] + rest;
      hide *;
      IdsOfCons(head, rest);
      TailParentsFirst(g, head.id, NodeIds(rest));
      FilterKeepsParentsFirst(g, rest, found);
      WithContributionExact(rest, found);
      WithContributionOfCons(nodes, found);
      IdsWithin(kept, rest);
      HeadParentsFirst(g, head.id, NodeIds(rest), NodeIds(kept));
      IdsOfCons(head, kept);
    }
  }

  lemma TailParentsFirst(g: Graph, head: GoalId, rest: seq<GoalId>)
    requires ParentsFirst(g, [head] + rest)
    ensures ParentsFirst(g, rest)
  {
    assert forall i :: 0 <= i < |rest| ==> rest[i] == ([head] + rest)[i + 1];
  }

  lemma CollectedNodeIds(d: Dag, goal: Goal)
    requires WellKeyed(d)
    ensures NodeIds(AncestorNodes(d, goal)) == Collected(d, goal)
    ensures forall x :: x in AncestorNodes(d, goal) ==> x.id in d && d[x.id] == x
  {
    CollectionIsExact(d, goal);
    var (ids, nodes) := (Collected(d, goal), AncestorNodes(d, goal));
    forall i | 0 <= i < |ids|
      ensures NodeIds(nodes)[i] == ids[i] && nodes[i].id in d && d[nodes[i].id] == nodes[i]
    {
      assert ids[i] in ids && nodes[i] == d[ids[i]];
    }
  }

  /** The transcript has a turn pair for each of these goals, in this order. */
  ghost predicate Tells(t: seq<Turn>, nodes: seq<Goal>) {
    |t| == 2 * |nodes| && forall i :: 0 <= i < |nodes| ==> TellsOf(t[2 * i], t[2 * i + 1], nodes[i])
  }

  /** The user's turn gives the goal's description, stripped and cut at 2000 characters; the answer follows. */
  ghost predicate TellsOf(user: Turn, answer: Turn, node: Goal) {
    var text := Strip(node.description);
    user == UserTurn(node.id, if |text| <= 2000 then text else text[..2000]) && answer == AiTurn(node.id)
  }

  lemma TurnsTell(nodes: seq<Goal>)
    ensures Tells(Turns(nodes), nodes)
  {
    TurnsLength(nodes);
    forall i | 0 <= i < |nodes|
      ensures TellsOf(Turns(nodes)[2 * i], Turns(nodes)[2 * i + 1], nodes[i])
    {
      TurnsArePairs(nodes, i);
      var pair := Turns(nodes)[2 * i..2 * i + 2];
      assert pair[0] == Turns(nodes)[2 * i] && pair[1] == Turns(nodes)[2 * i + 1];
    }
  }

  /**
   * End to end, below the cap and on an acyclic ancestor graph: the transcript tells of exactly the ancestors
   * with a contribution, parents before children.
   */
  lemma TranscriptParentsFirst(d: Dag, goal: Goal, direct: Found, later: Found)
    requires WellKeyed(d) && Acyclic(GraphOf(d, goal)) && |WithReport(d, goal, direct, later)| <= 6
    ensures var nodes := WithReport(d, goal, direct, later);
      && Tells(Transcript(d, goal, direct, later), nodes)
      && ParentsFirst(GraphOf(d, goal), NodeIds(nodes))
      && forall x :: x in nodes <==>
        x.id in d && d[x.id] == x && Ancestor(d, goal, x.id) && (x.id in direct || x.id in later)
  {
    ReportedExact(d, goal, direct, later);
    CollectedParentsFirstIff(d, goal);
    CollectedNodeIds(d, goal);
    var nodes := AncestorNodes(d, goal);
    FilterKeepsParentsFirst(GraphOf(d, goal), nodes, Completed(NodeIds(nodes), direct, later));
    TurnsTell(WithReport(d, goal, direct, later));
  }

  lemma ReportedExact(d: Dag, goal: Goal, direct: Found, later: Found)
    requires WellKeyed(d)
    ensures forall x :: x in WithReport(d, goal, direct, later) <==>
      x.id in d && d[x.id] == x && Ancestor(d, goal, x.id) && (x.id in direct || x.id in later)
  {
    var nodes := AncestorNodes(d, goal);
    CollectedNodeIds(d, goal);
    CollectionIsExact(d, goal);
    WithContributionExact(nodes, Completed(NodeIds(nodes), direct, later));
    hide WithContribution, AncestorNodes, Ancestor, WellKeyed, Collected;
    forall x
      ensures x in nodes <==> x.id in d && d[x.id] == x && x.id in NodeIds(nodes)
    {
      if i :| 0 <= i < |nodes| && nodes[i] == x {
        assert NodeIds(nodes)[i] == x.id;
      }
      if i :| 0 <= i < |nodes| && NodeIds(nodes)[i] == x.id {
        assert nodes[i] in nodes && nodes[i].id == x.id;
      }
    }
    forall k: GoalId
      ensures k in NodeIds(nodes) ==> (k in Completed(NodeIds(nodes), direct, later) <==> k in direct || k in later)
    {
      CompletedExact(NodeIds(nodes), direct, later, k);
    }
  }

  /** Every known parent is older than its child. */
  ghost predicate ParentsOlder(d: Dag, g: Graph) {
    forall x, y :: x in g && y in g[x] && x in d && y in d ==> d[y].createdAt < d[x].createdAt
  }

  /**
   * When the cap bites, the survivors are put back by creation time alone, which is parents first as long as every
   * parent is older than its child.
   */
  lemma CappedTranscriptParentsFirst(d: Dag, goal: Goal, direct: Found, later: Found)
    requires WellKeyed(d) && ParentsOlder(d, GraphOf(d, goal)) && |WithReport(d, goal, direct, later)| > 6
    ensures var nodes := Selected(WithReport(d, goal, direct, later));
      && |nodes| == 6 && Tells(Transcript(d, goal, direct, later), nodes)
      && ParentsFirst(GraphOf(d, goal), NodeIds(nodes))
  {
    var all := WithReport(d, goal, direct, later);
    var nodes := Selected(all);
    SelectedSize(all);
    CapKeepsMostRecent(all);
    ReportedExact(d, goal, direct, later);
    TurnsTell(nodes);
    hide Selected, WithReport, Ancestor, Turns, AncestorGraph, OldestFirst, ParentsOlder;
    forall x | x in nodes
      ensures x.id in d && d[x.id] == x
    {
      assert x in multiset(nodes) && x in multiset(all);
    }
    CreationOrderIsParentsFirst(d, GraphOf(d, goal), nodes);
  }

  lemma CreationOrderIsParentsFirst(d: Dag, g: Graph, nodes: seq<Goal>)
    requires ParentsOlder(d, g) && OldestFirst(nodes) && forall x :: x in nodes ==> x.id in d && d[x.id] == x
    ensures ParentsFirst(g, NodeIds(nodes))
  {
    forall i, j | 0 <= i <= j < |nodes| && nodes[i].id in g
      ensures nodes[j].id !in g[nodes[i].id]
    {
      assert nodes[i] in nodes && nodes[j] in nodes;
    }
  }
}
