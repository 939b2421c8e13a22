/**
 * The State wrapper of include/models/State.h: it keeps one vda5050_msgs::State message
 * and one factsheet, and updates their fields in place as orders are accepted and
 * extended and as the vehicle reports progress, action outcomes and errors.
 */
module StateModel {
  import opened Messages
  import opened Seqs
  import opened Progress
  import opened ErrorList
  import opened RangeCheck
  import OrderModel

  class State {
    // Order related fields of the state message.
    var orderId: string
    var orderUpdateId: uint32
    var zoneSetId: string
    var lastNodeId: string
    var lastNodeSequenceId: uint32
    var nodeStates: seq<NodeState>
    var edgeStates: seq<EdgeState>
    var actionStates: seq<ActionState>
    var errors: seq<Error>
    // Vehicle fields of the state message.
    var operatingMode: string
    var batteryCharge: real
    var localizationScore: real
    var driving: bool
    var paused: bool
    var newBaseRequest: bool
    var interactionZones: seq<InteractionZone>
    // Header fields of the state message, copied into the factsheet.
    var version: string
    var manufacturer: string
    var serialNumber: string
    var factsheet: Factsheet

    /** The node part of the message that SetOrderState rewrites. */
    function NodeView(): (r: NodeProgress)
      reads this`lastNodeId, this`lastNodeSequenceId, this`nodeStates
    {
      NodeProgress(lastNodeId, lastNodeSequenceId, nodeStates)
    }

    /** The three lists an order fills. */
    function OrderView(): (r: OrderStates)
      reads this`nodeStates, this`edgeStates, this`actionStates
    {
      OrderStates(nodeStates, edgeStates, actionStates)
    }

    /** State(): every field of the message at its default, so no order is running yet. */
    constructor ()
      ensures GetOrderId() == "" && GetOrderUpdateId() == 0
      ensures lastNodeId == "" && lastNodeSequenceId == 0
      ensures nodeStates == [] && edgeStates == [] && actionStates == [] && errors == []
      ensures operatingMode == "" && !driving && !paused && !newBaseRequest
    {
      orderId, orderUpdateId, zoneSetId := "", 0, "";
      lastNodeId, lastNodeSequenceId := "", 0;
      nodeStates, edgeStates, actionStates, errors := [], [], [], [];
      operatingMode, batteryCharge, localizationScore := "", 0.0, 0.0;
      driving, paused, newBaseRequest := false, false, false;
      interactionZones := [];
      version, manufacturer, serialNumber := "", "", "";
      factsheet := Factsheet("", "", "", "");
    }

    // Getters of the order ids and the driving flag, as stored.
    function GetOrderId(): (r: string) reads this`orderId { orderId }
    function GetOrderUpdateId(): (r: uint32) reads this`orderUpdateId { orderUpdateId }
    function GetDriving(): (r: bool) reads this`driving { driving }

    // ----- Orders -----

    /**
     * The state has an order in execution: the tracked order is current_order and some of
     * its nodes or edges are still to be traversed.
     */
    predicate HasActiveOrder(current_order: OrderModel.Order)
      reads this, current_order
    {
      orderId == current_order.orderId && (nodeStates != [] || edgeStates != [])
    }

    /**
     * Clears the node, edge and action states and refills them from new_order, one state
     * per node, edge and action; the order id and update id are taken over.
     */
    method AcceptNewOrder(new_order: OrderModel.Order)
      modifies this`orderId, this`orderUpdateId, this`nodeStates, this`edgeStates, this`actionStates
      ensures OrderView() == StatesOfOrder(new_order.nodes, new_order.edges)
      ensures GetOrderId() == new_order.GetOrderId() && GetOrderUpdateId() == new_order.GetOrderUpdateId()
      ensures new_order.nodes != [] ==> HasActiveOrder(new_order)
    {
      var states := StatesOfOrder(new_order.nodes, new_order.edges);
      nodeStates, edgeStates, actionStates := states.nodeStates, states.edgeStates, states.actionStates;
      orderId, orderUpdateId := new_order.orderId, new_order.orderUpdateId;
    }

    /** Adds WAITING action states for the actions of an instant-action message. */
    method AddInstantActionStates(actions: seq<Action>)
      modifies this`actionStates
      ensures actionStates == old(actionStates) + Map(actions, ActionToActionState)
    {
      actionStates := actionStates + Map(actions, ActionToActionState);
    }

    /**
     * The last node of the base: the last released node still in the state, when there
     * is one; no released node follows it.
     */
    function GetLastNodeInBase(): (r: Option<NodeState>)
      reads this
      ensures r.Some? ==> exists i :: (0 <= i < |nodeStates| && nodeStates[i] == r.value && r.value.released
                                       && forall j :: i < j < |nodeStates| ==> !nodeStates[j].released)
      ensures r.None? ==> forall j :: 0 <= j < |nodeStates| ==> !nodeStates[j].released
    {
      LastReleased(nodeStates)
    }

    /**
     * Whether order_update continues the running order: one of its nodes must be the last
     * node of the base (GetLastNodeInBase), or, when no released node is left, the last
     * traversed node, with the same node id and sequence id.
     */
    function ValidateUpdateBase(order_update: OrderModel.Order): (ok: bool)
      reads this, order_update
      ensures ok <==> exists j :: (0 <= j < |order_update.nodes| &&
        match GetLastNodeInBase()
        case Some(n) => order_update.nodes[j].nodeId == n.nodeId && order_update.nodes[j].sequenceId == n.sequenceId
        case None => order_update.nodes[j].nodeId == lastNodeId && order_update.nodes[j].sequenceId == lastNodeSequenceId)
    {
      var base := BaseNode(lastNodeId, lastNodeSequenceId, nodeStates);
      exists j :: 0 <= j < |order_update.nodes|
        && (order_update.nodes[j].nodeId, order_update.nodes[j].sequenceId) == base
    }

    /**
     * What accepting an update guarantees: for a valid update that passes ValidateUpdateBase, the
     * lists UpdateOrder produces are the kept base followed by states of exactly the
     * update's nodes after the base node and edges from it on, plus WAITING states of
     * those of their actions not tracked yet.
     */
    lemma AcceptedUpdateMerge(order_update: OrderModel.Order)
      requires ValidateUpdateBase(order_update) && order_update.Validate()
      ensures exists m :: (0 <= m < |order_update.nodes|
        && (order_update.nodes[m].nodeId, order_update.nodes[m].sequenceId)
           == BaseNode(lastNodeId, lastNodeSequenceId, nodeStates)
        && MergeStates(OrderView(), BaseNode(lastNodeId, lastNodeSequenceId, nodeStates).1,
                       order_update.nodes, order_update.edges)
           == OrderStates(nodeStates[..BaseLength(nodeStates, NodeStateReleased, NodeStateSequenceId,
                                                 order_update.nodes[m].sequenceId as int)]
                            + Map(order_update.nodes[m + 1..], NodeToNodeState),
                          edgeStates[..BaseLength(edgeStates, EdgeStateReleased, EdgeStateSequenceId,
                                                  order_update.nodes[m].sequenceId as int)]
                            + Map(order_update.edges[m..], EdgeToEdgeState),
                          AddUntracked(actionStates, ActionStatesOf(order_update.nodes[m + 1..], NodeActions)
                                                     + ActionStatesOf(order_update.edges[m..], EdgeActions))))
    {
      var base := BaseNode(lastNodeId, lastNodeSequenceId, nodeStates);
      var m :| 0 <= m < |order_update.nodes|
        && (order_update.nodes[m].nodeId, order_update.nodes[m].sequenceId) == base;
      MergeStatesValidUpdate(OrderView(), order_update.nodes, order_update.edges, m);
    }

    /**
     * Adds what order_update brings to the running order: the horizon is cleared, states for
     * the update's nodes and edges past the base node are appended, with WAITING states for
     * those of their actions not tracked yet, and the update id is taken over.
     */
    method UpdateOrder(current_order: OrderModel.Order, order_update: OrderModel.Order)
      modifies this`orderUpdateId, this`nodeStates, this`edgeStates, this`actionStates
      ensures OrderView() == MergeStates(old(OrderView()),
                                         BaseNode(old(lastNodeId), old(lastNodeSequenceId), old(nodeStates)).1,
                                         order_update.nodes, order_update.edges)
      ensures GetOrderUpdateId() == order_update.GetOrderUpdateId()
    {
      var before := OrderView();
      var base := BaseNode(lastNodeId, lastNodeSequenceId, nodeStates);
      var merged := MergeStates(before, base.1, order_update.nodes, order_update.edges);
      orderUpdateId := order_update.orderUpdateId;
      nodeStates, edgeStates, actionStates := merged.nodeStates, merged.edgeStates, merged.actionStates;
      assert OrderView() == merged;
    }

    // ----- Progress reports -----

    /**
     * Applies the vehicle's report of the running order. A report for another order id
     * changes nothing (the source only logs it). Otherwise the node list, last node and
     * edge list are trimmed as TrimNodes and TrimEdges say, and every reported action
     * state is applied in turn.
     */
    method SetOrderState(order_state: StateMessage)
      requires orderId == order_state.orderId ==> CanTrimNodes(NodeView(), order_state)
      modifies this`lastNodeId, this`lastNodeSequenceId, this`nodeStates, this`edgeStates, this`actionStates
      ensures orderId != order_state.orderId ==>
        (NodeView() == old(NodeView()) && edgeStates == old(edgeStates) && actionStates == old(actionStates))
      ensures orderId == order_state.orderId ==>
        (&& NodeView() == TrimNodes(old(NodeView()), order_state)
         && edgeStates == TrimEdges(old(edgeStates), order_state.edgeStates)
         && actionStates == ApplyActionReports(old(actionStates), order_state.actionStates))
    {
      if orderId == order_state.orderId {
        TrimNodeStates(order_state);
        TrimEdgeStates(order_state.edgeStates);
        ApplyActionStates(order_state.actionStates);
      }
    }

    /** The node part of SetOrderState. */
    method TrimNodeStates(order_state: StateMessage)
      requires CanTrimNodes(NodeView(), order_state)
      modifies this`lastNodeId, this`lastNodeSequenceId, this`nodeStates
      ensures NodeView() == TrimNodes(old(NodeView()), order_state)
    {
      if order_state.nodeStates != [] {
        // If the last node has changed, remove the old ones.
        if order_state.lastNodeSequenceId != lastNodeSequenceId
           || nodeStates[0].sequenceId != order_state.nodeStates[0].sequenceId {
          if nodeStates[0].sequenceId == order_state.lastNodeSequenceId {
            nodeStates := nodeStates[1..];
            lastNodeId := order_state.lastNodeId;
            lastNodeSequenceId := order_state.lastNodeSequenceId;
          } else {
            var it := FindFirst(nodeStates, NodeStateSequenceId, lastNodeSequenceId);
            if it < |nodeStates| {
              nodeStates := nodeStates[it..];
              lastNodeId := order_state.lastNodeId;
              lastNodeSequenceId := order_state.lastNodeSequenceId;
            }
          }
        }
      } else {
        lastNodeId := order_state.lastNodeId;
        lastNodeSequenceId := order_state.lastNodeSequenceId;
        nodeStates := [];
      }
    }

    /** The edge part of SetOrderState. */
    method TrimEdgeStates(reported: seq<EdgeState>)
      modifies this`edgeStates
      ensures edgeStates == TrimEdges(old(edgeStates), reported)
    {
      if edgeStates != [] {
        if reported != [] {
          if edgeStates[0].sequenceId != reported[0].sequenceId {
            var it := FindFirst(edgeStates, EdgeStateSequenceId, reported[0].sequenceId);
            if it < |edgeStates| {
              edgeStates := edgeStates[it..];
            }
          }
        } else {
          edgeStates := [];
        }
      }
    }

    /** The action loop of SetOrderState: SetActionState for each reported action state. */
    method ApplyActionStates(reports: seq<ActionState>)
      modifies this`actionStates
      ensures actionStates == ApplyActionReports(old(actionStates), reports)
    {
      for a := 0 to |reports|
        invariant actionStates == ApplyActionReports(old(actionStates), reports[..a])
      {
        assert reports[..a + 1][..a] == reports[..a];
        var _ := SetActionState(reports[a]);
      }
      assert reports[..|reports|] == reports;
    }

    /**
     * Overwrites status and result description of the first action state whose id is the
     * reported one; found tells whether there was one (the source logs when not).
     */
    method SetActionState(updated_as: ActionState) returns (found: bool)
      modifies this`actionStates
      ensures actionStates == UpdateAction(old(actionStates), updated_as.actionId,
                                           updated_as.actionStatus, updated_as.resultDescription)
      ensures found <==> exists j :: 0 <= j < |actionStates| && actionStates[j].actionId == updated_as.actionId
    {
      found := SetActionStatus(updated_as.actionId, updated_as.actionStatus, updated_as.resultDescription);
    }

    /** The overload taking id, status and an optional result description (default ""). */
    method SetActionStatus(action_id: string, action_status: string, result_description: string := "")
      returns (found: bool)
      modifies this`actionStates
      ensures actionStates == UpdateAction(old(actionStates), action_id, action_status, result_description)
      ensures found <==> exists j :: 0 <= j < |actionStates| && actionStates[j].actionId == action_id
    {
      var it := FindFirst(actionStates, ActionStateId, action_id);
      found := it < |actionStates|;
      if found {
        actionStates := actionStates[it := actionStates[it].(actionStatus := action_status,
                                                              resultDescription := result_description)];
        assert actionStates[it].actionId == action_id;
      }
    }

    // ----- Errors -----

    /** Lists error, replacing the error of the same type if there is one. */
    method AppendError(error: Error)
      modifies this`errors
      ensures errors == ReplaceOrAppend(old(errors), error)
      ensures UniqueTypes(old(errors)) ==> UniqueTypes(errors)
    {
      errors := ReplaceOrAppend(errors, error);
    }

    /** Removes every error of the given type. */
    method ClearErrorWithType(error_type: string)
      modifies this`errors
      ensures errors == WithoutType(old(errors), error_type)
      ensures UniqueTypes(old(errors)) ==> UniqueTypes(errors)
    {
      if UniqueTypes(errors) {
        WithoutTypeKeepsUnique(errors, error_type);
      }
      errors := WithoutType(errors, error_type);
    }

    /** Removes all errors. */
    method ClearAllErrors()
      modifies this`errors
      ensures errors == []
    {
      errors := [];
    }

    // ----- Guarded setters -----

    /**
     * As written: the guard `(0.0 <= battery_charge) <= 100.0` always holds, so the charge
     * is always stored and the result is always true.
     */
    method SetBatteryCharge(battery_charge: real) returns (ok: bool)
      modifies this`batteryCharge
      ensures ok && batteryCharge == battery_charge
    {
      if ChainedGuard(0.0, battery_charge, 100.0) {
        batteryCharge := battery_charge;
        return true;
      }
      return false;
    }

    /**
     * As written: the guard `(0.0 <= score) <= 1.0` always holds, so the score is always
     * stored and the result is always true.
     */
    method SetLocalizationScore(score: real) returns (ok: bool)
      modifies this`localizationScore
      ensures ok && localizationScore == score
    {
      if ChainedGuard(0.0, score, 1.0) {
        localizationScore := score;
        return true;
      }
      return false;
    }

    /** As the doc comment intends: only a charge in [0, 100] is stored, otherwise false. */
    method SetBatteryChargeInRange(battery_charge: real) returns (ok: bool)
      modifies this`batteryCharge
      ensures ok <==> 0.0 <= battery_charge <= 100.0
      ensures batteryCharge == if ok then battery_charge else old(batteryCharge)
    {
      ok := InRange(0.0, battery_charge, 100.0);
      if ok {
        batteryCharge := battery_charge;
      }
    }

    /** As the doc comment intends: only a score in [0, 1] is stored, otherwise false. */
    method SetLocalizationScoreInRange(score: real) returns (ok: bool)
      modifies this`localizationScore
      ensures ok <==> 0.0 <= score <= 1.0
      ensures localizationScore == if ok then score else old(localizationScore)
    {
      ok := InRange(0.0, score, 1.0);
      if ok {
        localizationScore := score;
      }
    }

    /** Stores the mode and answers true exactly when it is one of the five VDA 5050 modes. */
    method SetOperatingMode(operating_mode: string) returns (ok: bool)
      modifies this`operatingMode
      ensures ok <==> IsOperatingMode(operating_mode)
      ensures operatingMode == if ok then operating_mode else old(operatingMode)
    {
      if operating_mode != AUTOMATIC && operating_mode != SEMIAUTOMATIC && operating_mode != MANUAL
         && operating_mode != SERVICE && operating_mode != TEACHIN {
        return false;
      }
      operatingMode := operating_mode;
      return true;
    }

    // ----- Plain setters -----

    method SetDriving(value: bool)
      modifies this`driving
      ensures GetDriving() == value
    {
      driving := value;
    }

    method SetPaused(value: bool)
      modifies this`paused
      ensures paused == value
    {
      paused := value;
    }

    method SetNewBaseRequest(new_base_req: bool)
      modifies this`newBaseRequest
      ensures newBaseRequest == new_base_req
    {
      newBaseRequest := new_base_req;
    }

    /**
     * Forces every non-zero zone status of a copy of interaction_zones to 1, but the copy
     * is never stored: the state is left as it was.
     */
    method SetInteractionZones(interaction_zones: seq<InteractionZone>)
      ensures interactionZones == old(interactionZones)
    {
      var _ := NormalisedZones(interaction_zones);
    }

    /** The loop of SetInteractionZones: the copy with every non-zero zone status forced to 1. */
    static method NormalisedZones(interaction_zones: seq<InteractionZone>) returns (zones: seq<InteractionZone>)
      ensures |zones| == |interaction_zones|
      ensures forall j :: 0 <= j < |zones| ==>
        zones[j] == interaction_zones[j].(zoneStatus := if interaction_zones[j].zoneStatus != 0 then 1 else 0)
    {
      zones := interaction_zones;
      for i := 0 to |zones|
        invariant |zones| == |interaction_zones|
        invariant forall j :: 0 <= j < i ==>
          zones[j] == interaction_zones[j].(zoneStatus := if interaction_zones[j].zoneStatus != 0 then 1 else 0)
        invariant forall j :: i <= j < |zones| ==> zones[j] == interaction_zones[j]
      {
        if zones[i].zoneStatus != 0 {
          zones := zones[i := zones[i].(zoneStatus := 1)];
        }
      }
    }

    /** Stores factsheet_msg with version, manufacturer and serial number taken from the state. */
    method SetFactsheet(factsheet_msg: Factsheet)
      modifies this`factsheet
      ensures factsheet.seriesName == factsheet_msg.seriesName
      ensures factsheet.version == version && factsheet.manufacturer == manufacturer
      ensures factsheet.serialNumber == serialNumber
    {
      factsheet := factsheet_msg;
      factsheet := factsheet.(version := version);
      factsheet := factsheet.(manufacturer := manufacturer);
      factsheet := factsheet.(serialNumber := serialNumber);
    }
  }
}
