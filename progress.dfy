/**
 * What the State wrapper does to the node, edge and action states of the running order,
 * as functions of the old lists: the progress trimming of State::SetOrderState, the
 * action-status overwrite of State::SetActionState, and the lists built when an order is
 * accepted or extended. The State class in StateModel is proved against these.
 */
module Progress {
  import opened Messages
  import opened Seqs
  import opened OrderModel

  // ----- Progress trimming (State::SetOrderState) -----

  /** The fields of the state message that the node part of SetOrderState rewrites. */
  datatype NodeProgress = NodeProgress(lastNodeId: string, lastNodeSequenceId: uint32, nodeStates: seq<NodeState>)

  /**
   * SetOrderState reads the front of the stored node list whenever the report carries
   * node states, so the stored list must then be non-empty.
   */
  predicate CanTrimNodes(stored: NodeProgress, report: StateMessage) {
    report.nodeStates != [] ==> stored.nodeStates != []
  }

  /**
   * The node part of SetOrderState for a report of the running order. An empty report
   * clears the list and takes over the last node. Otherwise, when the last node or the
   * front changed: if the stored front is the reported last node, it alone is erased;
   * else everything before the first entry carrying the STORED last sequence id is
   * erased; and if there is no such entry nothing changes.
   */
  function TrimNodes(stored: NodeProgress, report: StateMessage): (r: NodeProgress)
    requires CanTrimNodes(stored, report)
    ensures IsSuffix(r.nodeStates, stored.nodeStates)
    ensures r == stored || (r.lastNodeId == report.lastNodeId && r.lastNodeSequenceId == report.lastNodeSequenceId)
  {
    var nodes := stored.nodeStates;
    if report.nodeStates == [] then
      NodeProgress(report.lastNodeId, report.lastNodeSequenceId, [])
    else if report.lastNodeSequenceId != stored.lastNodeSequenceId
         || nodes[0].sequenceId != report.nodeStates[0].sequenceId then
      if nodes[0].sequenceId == report.lastNodeSequenceId then
        NodeProgress(report.lastNodeId, report.lastNodeSequenceId, nodes[1..])
      else
        match FirstIndex(nodes, NodeStateSequenceId, stored.lastNodeSequenceId)
        case Some(i) => NodeProgress(report.lastNodeId, report.lastNodeSequenceId, nodes[i..])
        case None => stored
    else
      stored
  }

  /** The three outcomes of a report with node states whose last node or front changed. */
  lemma TrimNodesChanged(stored: NodeProgress, report: StateMessage)
    requires report.nodeStates != [] && stored.nodeStates != []
    requires report.lastNodeSequenceId != stored.lastNodeSequenceId
          || stored.nodeStates[0].sequenceId != report.nodeStates[0].sequenceId
    ensures var r := TrimNodes(stored, report);
      && (stored.nodeStates[0].sequenceId == report.lastNodeSequenceId ==>
            r == NodeProgress(report.lastNodeId, report.lastNodeSequenceId, stored.nodeStates[1..]))
      && (stored.nodeStates[0].sequenceId != report.lastNodeSequenceId ==>
            if exists j :: 0 <= j < |stored.nodeStates| && stored.nodeStates[j].sequenceId == stored.lastNodeSequenceId
            then r.lastNodeId == report.lastNodeId && r.lastNodeSequenceId == report.lastNodeSequenceId
              && r.nodeStates != [] && r.nodeStates[0].sequenceId == stored.lastNodeSequenceId
              && forall j :: 0 <= j < |stored.nodeStates| - |r.nodeStates| ==>
                   stored.nodeStates[j].sequenceId != stored.lastNodeSequenceId
            else r == stored)
  {
  }

  /** A report whose last node and front both match the stored ones leaves the nodes alone. */
  lemma TrimNodesUnchanged(stored: NodeProgress, report: StateMessage)
    requires report.nodeStates != [] && stored.nodeStates != []
    requires report.lastNodeSequenceId == stored.lastNodeSequenceId
    requires stored.nodeStates[0].sequenceId == report.nodeStates[0].sequenceId
    ensures TrimNodes(stored, report) == stored
  {
  }

  /** A report without node states clears the list and takes over the reported last node. */
  lemma TrimNodesEmptyReport(stored: NodeProgress, report: StateMessage)
    requires report.nodeStates == []
    ensures TrimNodes(stored, report) == NodeProgress(report.lastNodeId, report.lastNodeSequenceId, [])
  {
  }

  /**
   * Once the stored last node has left the list, a report that neither names the front as
   * its last node nor starts at the front matches nothing: the state stays as it is, the
   * reported last node is not taken over, and every repeat of the report does the same.
   */
  lemma TrimNodesStuck(stored: NodeProgress, report: StateMessage)
    requires report.nodeStates != [] && stored.nodeStates != []
    requires stored.nodeStates[0].sequenceId != report.lastNodeSequenceId
    requires stored.nodeStates[0].sequenceId != report.nodeStates[0].sequenceId
    requires forall j :: 0 <= j < |stored.nodeStates| ==> stored.nodeStates[j].sequenceId != stored.lastNodeSequenceId
    ensures TrimNodes(stored, report) == stored
  {
    assert FirstIndex(stored.nodeStates, NodeStateSequenceId, stored.lastNodeSequenceId).None?;
  }

  /**
   * Reporting the nodes one by one trims at once while the stored last node is the front,
   * and a report that then skips a node gets stuck: nodes 0, 2, 4, 6; the report "last
   * node 0" erases node 0, and the report "last node 4, next node 6" changes nothing.
   */
  lemma TrimNodesSkippedReport()
    ensures var n0, n2, n4, n6 := NodeState("n0", 0, true), NodeState("n2", 2, true),
                                 NodeState("n4", 4, true), NodeState("n6", 6, false);
      var p1 := TrimNodes(NodeProgress("", 0, [n0, n2, n4, n6]), StateMessage("o", "n0", 0, [n2, n4, n6], [], []));
      var skip := StateMessage("o", "n4", 4, [n6], [], []);
      && p1 == NodeProgress("n0", 0, [n2, n4, n6])
      && TrimNodes(p1, skip) == p1
  {
    var n0, n2, n4, n6 := NodeState("n0", 0, true), NodeState("n2", 2, true),
                          NodeState("n4", 4, true), NodeState("n6", 6, false);
    var p1 := NodeProgress("n0", 0, [n2, n4, n6]);
    TrimNodesStuck(p1, StateMessage("o", "n4", 4, [n6], [], []));
  }

  /** Trimming only erases a prefix, so node states in increasing order stay so. */
  lemma TrimNodesKeepsSorted(stored: NodeProgress, report: StateMessage)
    requires CanTrimNodes(stored, report) && Increasing(stored.nodeStates, NodeStateSequenceId)
    ensures Increasing(TrimNodes(stored, report).nodeStates, NodeStateSequenceId)
  {
    IncreasingSuffix(TrimNodes(stored, report).nodeStates, stored.nodeStates, NodeStateSequenceId);
  }

  /**
   * Trimming lags one report behind: repeating the same report can trim further, so the
   * node part of SetOrderState is not idempotent. Nodes 0, 2, 4 with last node 0 and a
   * report "last node 2, next node 4": the first call only takes over the last node,
   * the second erases node 0, the third node 2, and only the fourth changes nothing.
   */
  lemma TrimNodesNotIdempotent()
    ensures var n0, n2, n4 := NodeState("n0", 0, true), NodeState("n2", 2, true), NodeState("n4", 4, true);
      var report := StateMessage("o", "n2", 2, [n4], [], []);
      var p0 := NodeProgress("n0", 0, [n0, n2, n4]);
      var p1 := TrimNodes(p0, report);
      var p2 := TrimNodes(p1, report);
      var p3 := TrimNodes(p2, report);
      && p1 == NodeProgress("n2", 2, [n0, n2, n4])
      && p2 == NodeProgress("n2", 2, [n2, n4])
      && p3 == NodeProgress("n2", 2, [n4])
      && TrimNodes(p3, report) == p3
  {
    var n0, n2, n4 := NodeState("n0", 0, true), NodeState("n2", 2, true), NodeState("n4", 4, true);
    var p0 := NodeProgress("n0", 0, [n0, n2, n4]);
    assert FirstIndex(p0.nodeStates, NodeStateSequenceId, 0) == Some(0);
    assert FirstIndex([n0, n2, n4], NodeStateSequenceId, 2) == Some(1);
  }

  /**
   * The edge part of SetOrderState. A stored empty list stays empty, an empty report
   * clears the list, and when the fronts differ everything before the first stored edge
   * carrying the reported front's sequence id is erased (nothing, when there is none).
   */
  function TrimEdges(stored: seq<EdgeState>, reported: seq<EdgeState>): (r: seq<EdgeState>)
    ensures IsSuffix(r, stored)
    ensures stored == [] ==> r == []
    ensures stored != [] && reported == [] ==> r == []
    ensures reported != [] && r != stored ==> r != [] && r[0].sequenceId == reported[0].sequenceId
    ensures reported != [] ==> forall j :: 0 <= j < |stored| - |r| ==> stored[j].sequenceId != reported[0].sequenceId
  {
    if stored == [] then stored
    else if reported == [] then []
    else if stored[0].sequenceId != reported[0].sequenceId then
      match FirstIndex(stored, EdgeStateSequenceId, reported[0].sequenceId)
      case Some(i) => stored[i..]
      case None => stored
    else stored
  }

  /** When the reported front edge is stored, trimming makes it the new front. */
  lemma TrimEdgesFound(stored: seq<EdgeState>, reported: seq<EdgeState>, k: nat)
    requires reported != [] && k < |stored| && stored[k].sequenceId == reported[0].sequenceId
    ensures var r := TrimEdges(stored, reported);
      r != [] && r[0].sequenceId == reported[0].sequenceId && |r| >= |stored| - k
  {
    if stored[0].sequenceId != reported[0].sequenceId {
      var first := FirstIndex(stored, EdgeStateSequenceId, reported[0].sequenceId);
      assert first.Some? && first.value <= k;
      assert TrimEdges(stored, reported) == stored[first.value..];
    }
  }

  /** Unlike the node part, the edge part of SetOrderState is idempotent. */
  lemma TrimEdgesIdempotent(stored: seq<EdgeState>, reported: seq<EdgeState>)
    ensures TrimEdges(TrimEdges(stored, reported), reported) == TrimEdges(stored, reported)
  {
  }

  // ----- Action states (State::SetActionState) -----

  /** Position i holds the first action state with id actionId: where find_if stops. */
  predicate FirstWithId(actions: seq<ActionState>, i: int, actionId: string) {
    && 0 <= i < |actions|
    && actions[i].actionId == actionId
    && forall j :: 0 <= j < i ==> actions[j].actionId != actionId
  }

  /**
   * The first action state with the given id gets the new status and result description;
   * every other entry, the length and all ids stay as they are. No match, no change.
   */
  function UpdateAction(actions: seq<ActionState>, actionId: string, status: string, description: string)
    : (r: seq<ActionState>)
    ensures |r| == |actions|
    ensures forall j {:trigger r[j]} :: 0 <= j < |r| ==> r[j].actionId == actions[j].actionId && r[j].actionType == actions[j].actionType
    ensures (forall j :: 0 <= j < |actions| ==> actions[j].actionId != actionId) ==> r == actions
  {
    match FirstIndex(actions, ActionStateId, actionId)
    case Some(i) => actions[i := actions[i].(actionStatus := status, resultDescription := description)]
    case None => actions
  }

  /** Only the first entry with the id is rewritten, and it gets the new status and description. */
  lemma UpdateActionFirstOnly(actions: seq<ActionState>, actionId: string, status: string, description: string)
    ensures var r := UpdateAction(actions, actionId, status, description);
      && (forall i :: FirstWithId(actions, i, actionId) ==>
            r[i] == actions[i].(actionStatus := status, resultDescription := description))
      && (forall i :: 0 <= i < |actions| && !FirstWithId(actions, i, actionId) ==> r[i] == actions[i])
  {
    match FirstIndex(actions, ActionStateId, actionId)
    case Some(i) =>
      assert FirstWithId(actions, i, actionId);
    case None =>
  }

  /** The reported action states applied one after the other, as SetOrderState's loop does. */
  function ApplyActionReports(actions: seq<ActionState>, reports: seq<ActionState>): (r: seq<ActionState>)
    ensures |r| == |actions|
    ensures forall j :: 0 <= j < |r| ==> r[j].actionId == actions[j].actionId
  {
    if reports == [] then actions
    else
      var last := reports[|reports| - 1];
      UpdateAction(ApplyActionReports(actions, reports[..|reports| - 1]),
                   last.actionId, last.actionStatus, last.resultDescription)
  }

  /** Reports about untracked actions change nothing. */
  lemma {:induction false} ApplyUnknownReports(actions: seq<ActionState>, reports: seq<ActionState>)
    requires forall i, j :: 0 <= i < |reports| && 0 <= j < |actions| ==> reports[i].actionId != actions[j].actionId
    ensures ApplyActionReports(actions, reports) == actions
  {
    if reports != [] {
      ApplyUnknownReports(actions, reports[..|reports| - 1]);
    }
  }

  /** Lists with the same ids agree on where the first entry with an id is. */
  lemma SameIdsSameFirst(a: seq<ActionState>, b: seq<ActionState>, actionId: string)
    requires |a| == |b| && forall j :: 0 <= j < |a| ==> a[j].actionId == b[j].actionId
    ensures forall i :: FirstWithId(a, i, actionId) <==> FirstWithId(b, i, actionId)
  {
  }

  /**
   * For reports with distinct ids, each tracked reported action ends with the reported
   * status and result description.
   */
  lemma {:induction false} ApplyDistinctReports(actions: seq<ActionState>, reports: seq<ActionState>)
    requires forall p, q :: 0 <= p < q < |reports| ==> reports[p].actionId != reports[q].actionId
    ensures forall k, i :: 0 <= k < |reports| && FirstWithId(actions, i, reports[k].actionId) ==>
      ApplyActionReports(actions, reports)[i]
        == actions[i].(actionStatus := reports[k].actionStatus, resultDescription := reports[k].resultDescription)
  {
    if reports != [] {
      var init, last := reports[..|reports| - 1], reports[|reports| - 1];
      ApplyDistinctReports(actions, init);
      var prev := ApplyActionReports(actions, init);
      var r := ApplyActionReports(actions, reports);
      assert r == UpdateAction(prev, last.actionId, last.actionStatus, last.resultDescription);
      UpdateActionFirstOnly(prev, last.actionId, last.actionStatus, last.resultDescription);
      SameIdsSameFirst(prev, actions, last.actionId);
      forall k, i | 0 <= k < |reports| && FirstWithId(actions, i, reports[k].actionId)
        ensures r[i] == actions[i].(actionStatus := reports[k].actionStatus, resultDescription := reports[k].resultDescription)
      {
        if k < |init| {
          assert init[k] == reports[k];
          assert !FirstWithId(prev, i, last.actionId);
          assert r[i] == prev[i];
        } else {
          assert forall p :: 0 <= p < |init| ==> init[p].actionId != last.actionId by {
            forall p | 0 <= p < |init| ensures init[p].actionId != last.actionId {
              assert init[p] == reports[p];
            }
          }
          ApplyReportsUntouched(actions, init, i);
          assert FirstWithId(prev, i, last.actionId);
        }
      }
    }
  }

  /** An entry that is not the first one with any reported id keeps its status and description. */
  lemma {:induction false} ApplyReportsUntouched(actions: seq<ActionState>, reports: seq<ActionState>, i: nat)
    requires i < |actions|
    requires forall k :: 0 <= k < |reports| ==> !FirstWithId(actions, i, reports[k].actionId)
    ensures ApplyActionReports(actions, reports)[i] == actions[i]
  {
    if reports != [] {
      var init, last := reports[..|reports| - 1], reports[|reports| - 1];
      assert forall k :: 0 <= k < |init| ==> init[k] == reports[k];
      ApplyReportsUntouched(actions, init, i);
      var prev := ApplyActionReports(actions, init);
      UpdateActionFirstOnly(prev, last.actionId, last.actionStatus, last.resultDescription);
      SameIdsSameFirst(prev, actions, last.actionId);
      assert !FirstWithId(prev, i, last.actionId);
    }
  }

  // ----- Building the state lists from an order (State::AcceptNewOrder, State::UpdateOrder) -----

  /** The number of actions the entries of s carry. */
  function ActionCount<T>(s: seq<T>, actionsOf: T -> seq<Action>): (n: nat) {
    if s == [] then 0 else ActionCount(s[..|s| - 1], actionsOf) + |actionsOf(s[|s| - 1])|
  }

  /** Action states for the actions of all entries of s, in order, each WAITING with no result. */
  function ActionStatesOf<T>(s: seq<T>, actionsOf: T -> seq<Action>): (r: seq<ActionState>)
    ensures |r| == ActionCount(s, actionsOf)
    ensures forall j :: 0 <= j < |r| ==> r[j].actionStatus == WAITING && r[j].resultDescription == ""
  {
    if s == [] then []
    else ActionStatesOf(s[..|s| - 1], actionsOf) + Map(actionsOf(s[|s| - 1]), ActionToActionState)
  }

  /** Every action of every entry of s gets a tracked action state. */
  lemma {:induction false} ActionStatesOfTracksAll<T>(s: seq<T>, actionsOf: T -> seq<Action>, i: nat, a: nat)
    requires i < |s| && a < |actionsOf(s[i])|
    ensures exists j :: (0 <= j < |ActionStatesOf(s, actionsOf)|
                         && ActionStatesOf(s, actionsOf)[j] == ActionToActionState(actionsOf(s[i])[a]))
  {
    var init := s[..|s| - 1];
    var tail := Map(actionsOf(s[|s| - 1]), ActionToActionState);
    assert ActionStatesOf(s, actionsOf) == ActionStatesOf(init, actionsOf) + tail;
    if i == |s| - 1 {
      var j := |ActionStatesOf(init, actionsOf)| + a;
      assert ActionStatesOf(s, actionsOf)[j] == tail[a];
    } else {
      assert s[i] == init[i];
      ActionStatesOfTracksAll(init, actionsOf, i, a);
      var j :| 0 <= j < |ActionStatesOf(init, actionsOf)|
        && ActionStatesOf(init, actionsOf)[j] == ActionToActionState(actionsOf(init[i])[a]);
      assert ActionStatesOf(s, actionsOf)[j] == ActionStatesOf(init, actionsOf)[j];
    }
  }

  /** Conversely, every created action state is that of some action of some entry of s. */
  lemma {:induction false} ActionStatesOfFromEntries<T>(s: seq<T>, actionsOf: T -> seq<Action>, j: nat)
    requires j < |ActionStatesOf(s, actionsOf)|
    ensures exists i, a :: (0 <= i < |s| && 0 <= a < |actionsOf(s[i])|
                            && ActionStatesOf(s, actionsOf)[j] == ActionToActionState(actionsOf(s[i])[a]))
  {
    assert s != [];
    var init := s[..|s| - 1];
    var tail := Map(actionsOf(s[|s| - 1]), ActionToActionState);
    assert ActionStatesOf(s, actionsOf) == ActionStatesOf(init, actionsOf) + tail;
    if j < |ActionStatesOf(init, actionsOf)| {
      ActionStatesOfFromEntries(init, actionsOf, j);
      var i, a :| 0 <= i < |init| && 0 <= a < |actionsOf(init[i])|
        && ActionStatesOf(init, actionsOf)[j] == ActionToActionState(actionsOf(init[i])[a]);
      assert init[i] == s[i];
    } else {
      var a := j - |ActionStatesOf(init, actionsOf)|;
      assert ActionStatesOf(s, actionsOf)[j] == tail[a];
      assert ActionStatesOf(s, actionsOf)[j] == ActionToActionState(actionsOf(s[|s| - 1])[a]);
    }
  }

  /** The three lists a newly accepted order starts from: one state per node, edge and action. */
  datatype OrderStates = OrderStates(nodeStates: seq<NodeState>, edgeStates: seq<EdgeState>, actionStates: seq<ActionState>)

  function StatesOfOrder(nodes: seq<Node>, edges: seq<Edge>): (r: OrderStates)
    ensures |r.nodeStates| == |nodes| && |r.edgeStates| == |edges|
    ensures forall j :: 0 <= j < |nodes| ==>
      r.nodeStates[j].nodeId == nodes[j].nodeId && r.nodeStates[j].sequenceId == nodes[j].sequenceId
      && r.nodeStates[j].released == nodes[j].released
    ensures forall j :: 0 <= j < |edges| ==>
      r.edgeStates[j].edgeId == edges[j].edgeId && r.edgeStates[j].sequenceId == edges[j].sequenceId
      && r.edgeStates[j].released == edges[j].released
    ensures forall j :: 0 <= j < |r.actionStates| ==> r.actionStates[j].actionStatus == WAITING
    ensures |r.actionStates| == ActionCount(nodes, NodeActions) + ActionCount(edges, EdgeActions)
  {
    OrderStates(Map(nodes, NodeToNodeState), Map(edges, EdgeToEdgeState),
                ActionStatesOf(nodes, NodeActions) + ActionStatesOf(edges, EdgeActions))
  }

  /** Every action of a node or an edge of a newly accepted order gets a tracked action state. */
  lemma StatesOfOrderTracksAll(nodes: seq<Node>, edges: seq<Edge>)
    ensures var r := StatesOfOrder(nodes, edges).actionStates;
      && (forall i, a :: 0 <= i < |nodes| && 0 <= a < |nodes[i].actions| ==> ActionToActionState(nodes[i].actions[a]) in r)
      && (forall i, a :: 0 <= i < |edges| && 0 <= a < |edges[i].actions| ==> ActionToActionState(edges[i].actions[a]) in r)
  {
    var fromNodes, fromEdges := ActionStatesOf(nodes, NodeActions), ActionStatesOf(edges, EdgeActions);
    var r := StatesOfOrder(nodes, edges).actionStates;
    assert r == fromNodes + fromEdges;
    forall i, a | 0 <= i < |nodes| && 0 <= a < |nodes[i].actions|
      ensures ActionToActionState(nodes[i].actions[a]) in r
    {
      ActionStatesOfTracksAll(nodes, NodeActions, i, a);
      var j :| 0 <= j < |fromNodes| && fromNodes[j] == ActionToActionState(NodeActions(nodes[i])[a]);
      assert r[j] == fromNodes[j];
    }
    forall i, a | 0 <= i < |edges| && 0 <= a < |edges[i].actions|
      ensures ActionToActionState(edges[i].actions[a]) in r
    {
      ActionStatesOfTracksAll(edges, EdgeActions, i, a);
      var j :| 0 <= j < |fromEdges| && fromEdges[j] == ActionToActionState(EdgeActions(edges[i])[a]);
      assert r[|fromNodes| + j] == fromEdges[j];
    }
  }

  /** Every action state of a newly accepted order is that of an action of one of its nodes or edges. */
  lemma StatesOfOrderOnlyItsActions(nodes: seq<Node>, edges: seq<Edge>, j: nat)
    requires j < |StatesOfOrder(nodes, edges).actionStates|
    ensures var r := StatesOfOrder(nodes, edges).actionStates;
      (exists i, a :: 0 <= i < |nodes| && 0 <= a < |nodes[i].actions| && r[j] == ActionToActionState(nodes[i].actions[a]))
      || (exists i, a :: 0 <= i < |edges| && 0 <= a < |edges[i].actions| && r[j] == ActionToActionState(edges[i].actions[a]))
  {
    var fromNodes, fromEdges := ActionStatesOf(nodes, NodeActions), ActionStatesOf(edges, EdgeActions);
    var r := StatesOfOrder(nodes, edges).actionStates;
    assert r == fromNodes + fromEdges;
    if j < |fromNodes| {
      ActionStatesOfFromEntries(nodes, NodeActions, j);
      var i, a :| 0 <= i < |nodes| && 0 <= a < |NodeActions(nodes[i])| && fromNodes[j] == ActionToActionState(NodeActions(nodes[i])[a]);
      assert r[j] == ActionToActionState(nodes[i].actions[a]);
    } else {
      ActionStatesOfFromEntries(edges, EdgeActions, j - |fromNodes|);
      var i, a :| 0 <= i < |edges| && 0 <= a < |EdgeActions(edges[i])|
        && fromEdges[j - |fromNodes|] == ActionToActionState(EdgeActions(edges[i])[a]);
      assert r[j] == ActionToActionState(edges[i].actions[a]);
    }
  }

  /** The last released node state, if any: the end of the base still in the list. */
  function LastReleased(nodeStates: seq<NodeState>): (r: Option<NodeState>)
    ensures r.Some? ==> exists i :: (0 <= i < |nodeStates| && nodeStates[i] == r.value && r.value.released
                                     && forall j :: i < j < |nodeStates| ==> !nodeStates[j].released)
    ensures r.None? ==> forall j :: 0 <= j < |nodeStates| ==> !nodeStates[j].released
  {
    match LastIndex(nodeStates, NodeStateReleased)
    case Some(i) => Some(nodeStates[i])
    case None => None
  }

  /**
   * The node an order update must repeat: the last released node still in the state, or
   * the last traversed node when no released node is left (BaseNodeIsLastReleased).
   */
  function BaseNode(lastNodeId: string, lastNodeSequenceId: uint32, nodeStates: seq<NodeState>): (r: (string, uint32))
    ensures r == (lastNodeId, lastNodeSequenceId)
         || exists j :: (0 <= j < |nodeStates| && nodeStates[j].released
                         && r == (nodeStates[j].nodeId, nodeStates[j].sequenceId))
  {
    match LastReleased(nodeStates)
    case Some(n) => (n.nodeId, n.sequenceId)
    case None => (lastNodeId, lastNodeSequenceId)
  }

  /**
   * The base node is the last traversed node exactly when no node state is released, and
   * otherwise the last released node state: no released node state follows it.
   */
  lemma BaseNodeIsLastReleased(lastNodeId: string, lastNodeSequenceId: uint32, nodeStates: seq<NodeState>)
    ensures (forall j :: 0 <= j < |nodeStates| ==> !nodeStates[j].released) ==>
      BaseNode(lastNodeId, lastNodeSequenceId, nodeStates) == (lastNodeId, lastNodeSequenceId)
    ensures (exists j :: 0 <= j < |nodeStates| && nodeStates[j].released) ==>
      exists i :: (0 <= i < |nodeStates| && nodeStates[i].released
                   && (forall j :: i < j < |nodeStates| ==> !nodeStates[j].released)
                   && BaseNode(lastNodeId, lastNodeSequenceId, nodeStates) == (nodeStates[i].nodeId, nodeStates[i].sequenceId))
  {
    match LastReleased(nodeStates)
    case Some(n) =>
      var i :| (0 <= i < |nodeStates| && nodeStates[i] == n && n.released
                && forall j :: i < j < |nodeStates| ==> !nodeStates[j].released);
      assert BaseNode(lastNodeId, lastNodeSequenceId, nodeStates) == (nodeStates[i].nodeId, nodeStates[i].sequenceId);
    case None =>
  }

  /**
   * On node states in increasing order, the cut at the base node keeps the whole released
   * prefix: the cut drops a released state only from a list that is out of order.
   */
  lemma BaseNodeKeepsReleased(lastNodeId: string, lastNodeSequenceId: uint32, nodeStates: seq<NodeState>)
    requires Increasing(nodeStates, NodeStateSequenceId)
    ensures BaseLength(nodeStates, NodeStateReleased, NodeStateSequenceId,
                       BaseNode(lastNodeId, lastNodeSequenceId, nodeStates).1 as int)
         == PrefixLength(nodeStates, NodeStateReleased)
  {
    var k := PrefixLength(nodeStates, NodeStateReleased);
    if k > 0 {
      assert nodeStates[k - 1].released;
      BaseNodeIsLastReleased(lastNodeId, lastNodeSequenceId, nodeStates);
      var i :| 0 <= i < |nodeStates| && nodeStates[i].released
        && (forall j :: i < j < |nodeStates| ==> !nodeStates[j].released)
        && BaseNode(lastNodeId, lastNodeSequenceId, nodeStates) == (nodeStates[i].nodeId, nodeStates[i].sequenceId);
      assert k - 1 <= i;
      BaseLengthSorted(nodeStates, NodeStateReleased, NodeStateSequenceId, i);
    }
  }

  /** No two action states share an action id. */
  ghost predicate UniqueIds(actions: seq<ActionState>) {
    forall i, j :: 0 <= i < j < |actions| ==> actions[i].actionId != actions[j].actionId
  }

  /** Every entry from position n on has an action id that no earlier entry has. */
  ghost predicate NewIdsFrom(actions: seq<ActionState>, n: nat) {
    forall i, j :: 0 <= i < j < |actions| && n <= j ==> actions[i].actionId != actions[j].actionId
  }

  /**
   * The action states after adding those of an update: the tracked ones stay as they are,
   * in front, and each added state follows unless its action id is tracked already.
   */
  function AddUntracked(tracked: seq<ActionState>, added: seq<ActionState>): (r: seq<ActionState>)
    ensures |tracked| <= |r|
    ensures forall j :: 0 <= j < |tracked| ==> r[j] == tracked[j]
    ensures forall j :: |tracked| <= j < |r| ==> r[j] in added
  {
    if added == [] then tracked
    else
      var prev := AddUntracked(tracked, added[..|added| - 1]);
      var last := added[|added| - 1];
      if FirstIndex(prev, ActionStateId, last.actionId).Some? then prev else prev + [last]
  }

  /** Every added action id is tracked afterwards. */
  lemma {:induction false} AddUntrackedTracksAll(tracked: seq<ActionState>, added: seq<ActionState>, k: nat)
    requires k < |added|
    ensures exists j :: (0 <= j < |AddUntracked(tracked, added)|
                         && AddUntracked(tracked, added)[j].actionId == added[k].actionId)
  {
    var init, last := added[..|added| - 1], added[|added| - 1];
    var prev := AddUntracked(tracked, init);
    var r := AddUntracked(tracked, added);
    if k < |init| {
      assert init[k] == added[k];
      AddUntrackedTracksAll(tracked, init, k);
      var j :| 0 <= j < |prev| && prev[j].actionId == added[k].actionId;
      assert r[j] == prev[j];
    } else {
      match FirstIndex(prev, ActionStateId, last.actionId)
      case Some(j) =>
        assert r[j].actionId == added[k].actionId;
      case None =>
        assert r[|prev|] == last;
    }
  }

  /**
   * An added state never repeats the action id of an earlier entry, so a list whose ids
   * are unique keeps them unique.
   */
  lemma {:induction false} AddUntrackedOnlyNew(tracked: seq<ActionState>, added: seq<ActionState>)
    ensures NewIdsFrom(AddUntracked(tracked, added), |tracked|)
    ensures UniqueIds(tracked) ==> UniqueIds(AddUntracked(tracked, added))
  {
    if added != [] {
      var init, last := added[..|added| - 1], added[|added| - 1];
      AddUntrackedOnlyNew(tracked, init);
      var prev := AddUntracked(tracked, init);
      var r := AddUntracked(tracked, added);
      if FirstIndex(prev, ActionStateId, last.actionId).None? {
        assert r == prev + [last];
        forall i, j | 0 <= i < j < |r| && |tracked| <= j ensures r[i].actionId != r[j].actionId {
          if j < |prev| {
            assert r[i] == prev[i] && r[j] == prev[j];
          } else {
            assert r[i] == prev[i] && r[j] == last;
            assert ActionStateId(prev[i]) != last.actionId;
          }
        }
      }
    }
  }

  /**
   * The lists after State::UpdateOrder. Node and edge states: the released ones up to
   * the base node are kept, so the horizon (everything from the first unreleased entry
   * on) is dropped. States for the update's nodes and edges past the base node follow,
   * and WAITING states for their actions are added unless the action is tracked already.
   */
  function MergeStates(stored: OrderStates, baseSequenceId: uint32, nodes: seq<Node>, edges: seq<Edge>): (r: OrderStates)
    ensures var kn := BaseLength(stored.nodeStates, NodeStateReleased, NodeStateSequenceId, baseSequenceId as int);
      && kn <= |r.nodeStates|
      && (forall j {:trigger r.nodeStates[j]} :: 0 <= j < kn ==>
            r.nodeStates[j] == stored.nodeStates[j] && r.nodeStates[j].released
            && r.nodeStates[j].sequenceId <= baseSequenceId)
      && (forall j {:trigger r.nodeStates[j]} :: kn <= j < |r.nodeStates| ==> r.nodeStates[j].sequenceId > baseSequenceId)
    ensures var ke := BaseLength(stored.edgeStates, EdgeStateReleased, EdgeStateSequenceId, baseSequenceId as int);
      && ke <= |r.edgeStates|
      && (forall j {:trigger r.edgeStates[j]} :: 0 <= j < ke ==>
            r.edgeStates[j] == stored.edgeStates[j] && r.edgeStates[j].released
            && r.edgeStates[j].sequenceId <= baseSequenceId)
      && (forall j {:trigger r.edgeStates[j]} :: ke <= j < |r.edgeStates| ==> r.edgeStates[j].sequenceId > baseSequenceId)
    ensures |stored.actionStates| <= |r.actionStates|
    ensures forall j {:trigger r.actionStates[j]} :: 0 <= j < |stored.actionStates| ==> r.actionStates[j] == stored.actionStates[j]
  {
    var newNodes := Above(nodes, NodeSequenceId, baseSequenceId as int);
    var newEdges := Above(edges, EdgeSequenceId, baseSequenceId as int);
    OrderStates(
      stored.nodeStates[..BaseLength(stored.nodeStates, NodeStateReleased, NodeStateSequenceId, baseSequenceId as int)]
        + Map(newNodes, NodeToNodeState),
      stored.edgeStates[..BaseLength(stored.edgeStates, EdgeStateReleased, EdgeStateSequenceId, baseSequenceId as int)]
        + Map(newEdges, EdgeToEdgeState),
      AddUntracked(stored.actionStates, ActionStatesOf(newNodes, NodeActions) + ActionStatesOf(newEdges, EdgeActions)))
  }

  /**
   * An update whose node list is sorted and repeats the base node at position m: the
   * merged node states are the base followed by states of exactly the nodes behind m.
   */
  lemma MergeStatesSortedUpdate(stored: OrderStates, nodes: seq<Node>, edges: seq<Edge>, m: nat)
    requires Increasing(nodes, NodeSequenceId) && m < |nodes|
    ensures var r := MergeStates(stored, nodes[m].sequenceId, nodes, edges);
      r.nodeStates == stored.nodeStates[..BaseLength(stored.nodeStates, NodeStateReleased, NodeStateSequenceId,
                                                     nodes[m].sequenceId as int)]
                      + Map(nodes[m + 1..], NodeToNodeState)
  {
    AboveIncreasing(nodes, NodeSequenceId, m);
  }

  /**
   * A valid update that repeats the base node at position m: the horizon is replaced by
   * states of exactly the update's nodes after m and edges from m on, and WAITING states
   * of exactly their actions are added to the action states.
   */
  lemma MergeStatesValidUpdate(stored: OrderStates, nodes: seq<Node>, edges: seq<Edge>, m: nat)
    requires ValidOrder(nodes, edges) && m < |nodes|
    ensures MergeStates(stored, nodes[m].sequenceId, nodes, edges)
         == OrderStates(stored.nodeStates[..BaseLength(stored.nodeStates, NodeStateReleased, NodeStateSequenceId,
                                                       nodes[m].sequenceId as int)]
                          + Map(nodes[m + 1..], NodeToNodeState),
                        stored.edgeStates[..BaseLength(stored.edgeStates, EdgeStateReleased, EdgeStateSequenceId,
                                                       nodes[m].sequenceId as int)]
                          + Map(edges[m..], EdgeToEdgeState),
                        AddUntracked(stored.actionStates, ActionStatesOf(nodes[m + 1..], NodeActions)
                                                          + ActionStatesOf(edges[m..], EdgeActions)))
  {
    ValidOrderSplit(nodes, edges, m);
  }

  /** A valid order starts the node states in increasing order. */
  lemma StatesOfOrderSorted(nodes: seq<Node>, edges: seq<Edge>)
    requires ValidOrder(nodes, edges)
    ensures Increasing(StatesOfOrder(nodes, edges).nodeStates, NodeStateSequenceId)
  {
    ValidOrderIncreasing(nodes, edges);
  }

  /**
   * Merging a valid update at its base node keeps node states in increasing order: the
   * kept ones lie at or below the base node and the added ones follow it in the update.
   */
  lemma MergeStatesKeepsSorted(stored: OrderStates, nodes: seq<Node>, edges: seq<Edge>, m: nat)
    requires ValidOrder(nodes, edges) && m < |nodes|
    requires Increasing(stored.nodeStates, NodeStateSequenceId)
    ensures Increasing(MergeStates(stored, nodes[m].sequenceId, nodes, edges).nodeStates, NodeStateSequenceId)
  {
    var r := MergeStates(stored, nodes[m].sequenceId, nodes, edges).nodeStates;
    var k := BaseLength(stored.nodeStates, NodeStateReleased, NodeStateSequenceId, nodes[m].sequenceId as int);
    MergeStatesValidUpdate(stored, nodes, edges, m);
    ValidOrderIncreasing(nodes, edges);
    var added := Map(nodes[m + 1..], NodeToNodeState);
    assert r == stored.nodeStates[..k] + added;
    forall i, j | 0 <= i < j < |r| ensures r[i].sequenceId < r[j].sequenceId {
      if j < k {
        assert r[i] == stored.nodeStates[i] && r[j] == stored.nodeStates[j];
      } else if i >= k {
        assert r[i] == added[i - k] && r[j] == added[j - k];
        assert nodes[m + 1..][i - k] == nodes[m + 1 + i - k] && nodes[m + 1..][j - k] == nodes[m + 1 + j - k];
      }
    }
  }

  /**
   * Scenario, first step: accepting an order with nodes 0 (released) and 2 (horizon) and
   * the edge 1 between them gives one state per node and edge, in order.
   */
  lemma ScenarioAccept()
    ensures var s := StatesOfOrder([Node("n0", 0, true, []), Node("n2", 2, false, [])],
                                   [Edge("e1", 1, false, "n0", "n2", [])]);
      && s.nodeStates == [NodeState("n0", 0, true), NodeState("n2", 2, false)]
      && s.edgeStates == [EdgeState("e1", 1, false)]
      && BaseNode("", 0, s.nodeStates) == ("n0", 0)
  {
    var nodes := [Node("n0", 0, true, []), Node("n2", 2, false, [])];
    var s := StatesOfOrder(nodes, [Edge("e1", 1, false, "n0", "n2", [])]);
    assert nodes[..1] == [Node("n0", 0, true, [])];
    assert s.nodeStates == [NodeState("n0", 0, true), NodeState("n2", 2, false)];
    assert s.nodeStates[..1] == [NodeState("n0", 0, true)];
  }

  /**
   * Scenario, second step: an update repeating base node 0, releasing node 2 and edge 1
   * and adding node 4 and edge 3 to the horizon yields node states 0, 2, 4 and edge
   * states 1, 3, with node 2 and edge 1 now released.
   */
  lemma ScenarioMergeNodes()
    ensures MergeStates(
        OrderStates([NodeState("n0", 0, true), NodeState("n2", 2, false)], [EdgeState("e1", 1, false)], []), 0,
        [Node("n0", 0, true, []), Node("n2", 2, true, []), Node("n4", 4, false, [])],
        [Edge("e1", 1, true, "n0", "n2", []), Edge("e3", 3, false, "n2", "n4", [])]).nodeStates
      == [NodeState("n0", 0, true), NodeState("n2", 2, true), NodeState("n4", 4, false)]
  {
    ScenarioBase();
    ScenarioAdded();
  }

  /** The base of the stored node states of the scenario, up to node 0, is node 0. */
  lemma ScenarioBase()
    ensures var nodeStates := [NodeState("n0", 0, true), NodeState("n2", 2, false)];
      nodeStates[..BaseLength(nodeStates, NodeStateReleased, NodeStateSequenceId, 0)] == [NodeState("n0", 0, true)]
  {
    var nodeStates := [NodeState("n0", 0, true), NodeState("n2", 2, false)];
    assert nodeStates[1..] == [NodeState("n2", 2, false)];
  }

  /** The states added from the update of the scenario are those of nodes 2 and 4. */
  lemma ScenarioAdded()
    ensures Map(Above([Node("n0", 0, true, []), Node("n2", 2, true, []), Node("n4", 4, false, [])], NodeSequenceId, 0),
                NodeToNodeState)
         == [NodeState("n2", 2, true), NodeState("n4", 4, false)]
  {
    var update := [Node("n0", 0, true, []), Node("n2", 2, true, []), Node("n4", 4, false, [])];
    var newNodes := [Node("n2", 2, true, []), Node("n4", 4, false, [])];
    AboveSplit(update, NodeSequenceId, 0, 1);
    assert update[1..] == newNodes;
    assert newNodes[..1] == [Node("n2", 2, true, [])];
  }

  /** Scenario, second step continued: the stored horizon edge is replaced by both update edges. */
  lemma ScenarioMergeEdges()
    ensures MergeStates(
        OrderStates([NodeState("n0", 0, true), NodeState("n2", 2, false)], [EdgeState("e1", 1, false)], []), 0,
        [Node("n0", 0, true, []), Node("n2", 2, true, []), Node("n4", 4, false, [])],
        [Edge("e1", 1, true, "n0", "n2", []), Edge("e3", 3, false, "n2", "n4", [])]).edgeStates
      == [EdgeState("e1", 1, true), EdgeState("e3", 3, false)]
  {
    var stored := OrderStates([NodeState("n0", 0, true), NodeState("n2", 2, false)], [EdgeState("e1", 1, false)], []);
    var updateEdges := [Edge("e1", 1, true, "n0", "n2", []), Edge("e3", 3, false, "n2", "n4", [])];
    assert BaseLength(stored.edgeStates, EdgeStateReleased, EdgeStateSequenceId, 0) == 0;
    assert stored.edgeStates[..0] == [];
    assert Above(updateEdges, EdgeSequenceId, 0) == updateEdges by {
      AboveSplit(updateEdges, EdgeSequenceId, 0, 0);
    }
    assert Map(updateEdges, EdgeToEdgeState) == [EdgeState("e1", 1, true), EdgeState("e3", 3, false)] by {
      assert updateEdges[..1] == [Edge("e1", 1, true, "n0", "n2", [])];
    }
  }

  /**
   * Scenario, second step with an action: the stored horizon node 2 carries action a,
   * which is tracked already; the update re-sends node 2, now released, with the same
   * action, and a stays tracked once, still WAITING.
   */
  lemma ScenarioResentAction()
    ensures MergeStates(
        OrderStates([NodeState("n0", 0, true), NodeState("n2", 2, false)], [EdgeState("e1", 1, false)],
                    [ActionState("a", "pick", WAITING, "")]), 0,
        [Node("n0", 0, true, []), Node("n2", 2, true, [Action("a", "pick", "NONE")]), Node("n4", 4, false, [])],
        [Edge("e1", 1, true, "n0", "n2", []), Edge("e3", 3, false, "n2", "n4", [])]).actionStates
      == [ActionState("a", "pick", WAITING, "")]
  {
    var nodes := [Node("n0", 0, true, []), Node("n2", 2, true, [Action("a", "pick", "NONE")]), Node("n4", 4, false, [])];
    var edges := [Edge("e1", 1, true, "n0", "n2", []), Edge("e3", 3, false, "n2", "n4", [])];
    var tracked := [ActionState("a", "pick", WAITING, "")];
    ScenarioResentNodes();
    ScenarioResentEdges();
    var added := ActionStatesOf(Above(nodes, NodeSequenceId, 0), NodeActions)
               + ActionStatesOf(Above(edges, EdgeSequenceId, 0), EdgeActions);
    assert added == tracked;
    assert AddUntracked(tracked, added) == tracked by {
      assert added[..0] == [];
      assert FirstIndex(tracked, ActionStateId, "a") == Some(0);
    }
  }

  /** The nodes of the scenario update past node 0 carry exactly action a. */
  lemma ScenarioResentNodes()
    ensures ActionStatesOf(
        Above([Node("n0", 0, true, []), Node("n2", 2, true, [Action("a", "pick", "NONE")]), Node("n4", 4, false, [])],
              NodeSequenceId, 0), NodeActions)
      == [ActionState("a", "pick", WAITING, "")]
  {
    var nodes := [Node("n0", 0, true, []), Node("n2", 2, true, [Action("a", "pick", "NONE")]), Node("n4", 4, false, [])];
    var later := [Node("n2", 2, true, [Action("a", "pick", "NONE")]), Node("n4", 4, false, [])];
    AboveSplit(nodes, NodeSequenceId, 0, 1);
    assert nodes[1..] == later;
    assert later[..1] == [later[0]];
    assert later[..1][..0] == [];
  }

  /** The edges of the scenario update carry no action. */
  lemma ScenarioResentEdges()
    ensures ActionStatesOf(
        Above([Edge("e1", 1, true, "n0", "n2", []), Edge("e3", 3, false, "n2", "n4", [])], EdgeSequenceId, 0),
        EdgeActions) == []
  {
    var edges := [Edge("e1", 1, true, "n0", "n2", []), Edge("e3", 3, false, "n2", "n4", [])];
    AboveSplit(edges, EdgeSequenceId, 0, 0);
    assert edges[0..] == edges;
    assert edges[..1] == [edges[0]];
    assert edges[..1][..0] == [];
  }

  /**
   * Scenario, third step: the vehicle reports node 2 as its last node with node 4 ahead.
   * The first report only takes over node 2 as the last node, because the search looks
   * for the stored last node 0, which is the front; a repeat of the report erases node 0.
   */
  lemma ScenarioProgress()
    ensures var nodes := [NodeState("n0", 0, true), NodeState("n2", 2, true), NodeState("n4", 4, false)];
      var report := StateMessage("O1", "n2", 2, [NodeState("n4", 4, false)], [], []);
      var first := TrimNodes(NodeProgress("", 0, nodes), report);
      && first == NodeProgress("n2", 2, nodes)
      && TrimNodes(first, report) == NodeProgress("n2", 2, nodes[1..])
  {
    var nodes := [NodeState("n0", 0, true), NodeState("n2", 2, true), NodeState("n4", 4, false)];
    assert FirstIndex(nodes, NodeStateSequenceId, 0) == Some(0);
    assert FirstIndex(nodes, NodeStateSequenceId, 2) == Some(1);
  }
}
