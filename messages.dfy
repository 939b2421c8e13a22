/**
 * Value types of the VDA 5050 messages that the order/state engine reads and writes:
 * the parts of vda5050_msgs::Order, vda5050_msgs::State and their element messages
 * that the core touches. Every message is a plain value, so each is a datatype.
 */
module Messages {

  /** The uint32_t of the message definitions: sequence ids and order update ids. */
  type uint32 = x: int | 0 <= x < 0x1_0000_0000

  datatype Option<T> = None | Some(value: T)

  // ----- Order topic -----

  datatype Action = Action(actionId: string, actionType: string, blockingType: string)

  datatype Node = Node(nodeId: string, sequenceId: uint32, released: bool, actions: seq<Action>)

  datatype Edge = Edge(
    edgeId: string, sequenceId: uint32, released: bool,
    startNodeId: string, endNodeId: string, actions: seq<Action>)

  /** The fields of vda5050_msgs::Order that the Order wrapper keeps. */
  datatype OrderMessage = OrderMessage(
    orderId: string, orderUpdateId: uint32, zoneSetId: string,
    nodes: seq<Node>, edges: seq<Edge>)

  // ----- State topic -----

  datatype NodeState = NodeState(nodeId: string, sequenceId: uint32, released: bool)

  datatype EdgeState = EdgeState(edgeId: string, sequenceId: uint32, released: bool)

  datatype ActionState = ActionState(
    actionId: string, actionType: string, actionStatus: string, resultDescription: string)

  datatype Error = Error(errorType: string, errorLevel: string, errorDescription: string)

  datatype InteractionZone = InteractionZone(zoneId: string, zoneStatus: int)

  datatype Factsheet = Factsheet(
    version: string, manufacturer: string, serialNumber: string, seriesName: string)

  /**
   * The fields of a pre-filled vda5050_msgs::State that SetOrderState reads: the vehicle's
   * own report of how far it has come in the running order.
   */
  datatype StateMessage = StateMessage(
    orderId: string, lastNodeId: string, lastNodeSequenceId: uint32,
    nodeStates: seq<NodeState>, edgeStates: seq<EdgeState>, actionStates: seq<ActionState>)

  // ----- Enumerations of the state message (string constants) -----

  const AUTOMATIC := "AUTOMATIC"
  const SEMIAUTOMATIC := "SEMIAUTOMATIC"
  const MANUAL := "MANUAL"
  const SERVICE := "SERVICE"
  const TEACHIN := "TEACHIN"

  /** The status every freshly created action state starts in. */
  const WAITING := "WAITING"

  /** The five operating modes VDA 5050 defines for the state message. */
  predicate IsOperatingMode(mode: string) {
    mode == AUTOMATIC || mode == SEMIAUTOMATIC || mode == MANUAL || mode == SERVICE || mode == TEACHIN
  }

  // ----- Field selectors, used as keys of searches over message lists -----

  function NodeSequenceId(n: Node): (r: uint32) { n.sequenceId }
  function EdgeSequenceId(e: Edge): (r: uint32) { e.sequenceId }
  function NodeStateSequenceId(n: NodeState): (r: uint32) { n.sequenceId }
  function EdgeStateSequenceId(e: EdgeState): (r: uint32) { e.sequenceId }
  function ActionStateId(a: ActionState): (r: string) { a.actionId }
  function ErrorType(e: Error): (r: string) { e.errorType }

  function NodeReleased(n: Node): (r: bool) { n.released }
  function EdgeReleased(e: Edge): (r: bool) { e.released }
  function NodeStateReleased(n: NodeState): (r: bool) { n.released }
  function EdgeStateReleased(e: EdgeState): (r: bool) { e.released }

  function NodeActions(n: Node): (r: seq<Action>) { n.actions }
  function EdgeActions(e: Edge): (r: seq<Action>) { e.actions }

  // ----- Order element to state element (State::NodeToNodeState and friends) -----
  // The header declares these without a body; each copies what the two messages share.

  /** A node state: the node's id, sequence id and released flag. */
  function NodeToNodeState(n: Node): (r: NodeState) {
    NodeState(n.nodeId, n.sequenceId, n.released)
  }

  /** An edge state: the edge's id, sequence id and released flag. */
  function EdgeToEdgeState(e: Edge): (r: EdgeState) {
    EdgeState(e.edgeId, e.sequenceId, e.released)
  }

  /** An action state: the action's id and type, WAITING, with no result description yet. */
  function ActionToActionState(a: Action): (r: ActionState) {
    ActionState(a.actionId, a.actionType, WAITING, "")
  }
}
