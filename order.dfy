/**
 * The Order wrapper of include/models/Order.h: one vda5050_msgs::Order held in place,
 * const getters over it, and the documented (body-less) operations that replace it
 * by a new order, extend it by an order update, and validate it.
 */
module OrderModel {
  import opened Messages
  import opened Seqs

  /**
   * One step of a well-formed order: node, edge, node with increasing sequence ids,
   * the edge joining exactly those two nodes, and the released flag never switching
   * back on once it is off (node, edge, node, ... is base first, horizon after). An
   * edge is released exactly when the node it leads to is, so the base ends with a node.
   */
  predicate Link(from: Node, e: Edge, to: Node) {
    && from.sequenceId < e.sequenceId < to.sequenceId
    && e.startNodeId == from.nodeId && e.endNodeId == to.nodeId
    && (e.released ==> from.released)
    && (to.released <==> e.released)
  }

  /**
   * The rule Order::Validate checks. Its body is not part of this model; the rule here
   * is the one VDA 5050 states for an order: at least one node, one edge fewer than
   * nodes, and nodes and edges alternating as Link describes.
   */
  predicate ValidOrder(nodes: seq<Node>, edges: seq<Edge>) {
    && |nodes| >= 1
    && |edges| == |nodes| - 1
    && forall i :: 0 <= i < |edges| ==> Link(nodes[i], edges[i], nodes[i + 1])
  }

  /** Along a valid order, node sequence ids increase and released nodes come first. */
  lemma {:induction false} ValidOrderNodesOrdered(nodes: seq<Node>, edges: seq<Edge>, i: nat, j: nat)
    requires ValidOrder(nodes, edges) && i < j < |nodes|
    ensures nodes[i].sequenceId < nodes[j].sequenceId
    ensures nodes[j].released ==> nodes[i].released
  {
    assert Link(nodes[j - 1], edges[j - 1], nodes[j]);
    if i < j - 1 {
      ValidOrderNodesOrdered(nodes, edges, i, j - 1);
    }
  }

  /** Along a valid order, edge sequence ids increase and released edges come first. */
  lemma {:induction false} ValidOrderEdgesOrdered(nodes: seq<Node>, edges: seq<Edge>, i: nat, j: nat)
    requires ValidOrder(nodes, edges) && i < j < |edges|
    ensures edges[i].sequenceId < edges[j].sequenceId
    ensures edges[j].released ==> edges[i].released
  {
    assert Link(nodes[j], edges[j], nodes[j + 1]);
    assert Link(nodes[j - 1], edges[j - 1], nodes[j]);
    if i < j - 1 {
      ValidOrderEdgesOrdered(nodes, edges, i, j - 1);
    }
  }

  /** The node list of a valid order is sorted by sequence id. */
  lemma ValidOrderIncreasing(nodes: seq<Node>, edges: seq<Edge>)
    requires ValidOrder(nodes, edges)
    ensures Increasing(nodes, NodeSequenceId)
    ensures Increasing(edges, EdgeSequenceId)
  {
    forall i, j | 0 <= i < j < |nodes| ensures nodes[i].sequenceId < nodes[j].sequenceId {
      ValidOrderNodesOrdered(nodes, edges, i, j);
    }
    forall i, j | 0 <= i < j < |edges| ensures edges[i].sequenceId < edges[j].sequenceId {
      ValidOrderEdgesOrdered(nodes, edges, i, j);
    }
  }

  /**
   * Sequence id of the last node of the base (the released prefix), or -1 when no node
   * is released: entries of an update above this id are the new ones.
   */
  function BaseCut(nodes: seq<Node>): (cut: int)
    ensures cut == -1 || exists i :: 0 <= i < |nodes| && nodes[i].released && cut == nodes[i].sequenceId as int
  {
    var k := PrefixLength(nodes, NodeReleased);
    if k == 0 then -1 else nodes[k - 1].sequenceId as int
  }

  /**
   * The nodes after Order::UpdateOrder: the current base, up to its last node, is kept as
   * it is, the current horizon is dropped, and the update's nodes past the last base node
   * are appended, so sequence ids increase across the seam.
   */
  function MergeNodes(current: seq<Node>, update: seq<Node>): (r: seq<Node>)
    ensures var k := BaseLength(current, NodeReleased, NodeSequenceId, BaseCut(current));
      && k <= |r|
      && r[..k] == current[..k]
      && (forall j :: 0 <= j < k ==> r[j].released && r[j].sequenceId as int <= BaseCut(current))
      && (forall j :: k <= j < |r| ==> r[j].sequenceId as int > BaseCut(current))
  {
    current[..BaseLength(current, NodeReleased, NodeSequenceId, BaseCut(current))]
      + Above(update, NodeSequenceId, BaseCut(current))
  }

  /**
   * The edges after Order::UpdateOrder, cut at the same base node as MergeNodes: the
   * released edges up to that node are kept, and the update's edges past it follow, so
   * no kept edge is repeated and sequence ids increase across the seam.
   */
  function MergeEdges(current: seq<Edge>, cutNodes: seq<Node>, update: seq<Edge>): (r: seq<Edge>)
    ensures var k := BaseLength(current, EdgeReleased, EdgeSequenceId, BaseCut(cutNodes));
      && k <= |r|
      && r[..k] == current[..k]
      && (forall j :: 0 <= j < k ==> r[j].released && r[j].sequenceId as int <= BaseCut(cutNodes))
      && (forall j :: k <= j < |r| ==> r[j].sequenceId as int > BaseCut(cutNodes))
  {
    current[..BaseLength(current, EdgeReleased, EdgeSequenceId, BaseCut(cutNodes))]
      + Above(update, EdgeSequenceId, BaseCut(cutNodes))
  }

  /** In a valid order the node ids increase, so the cut at the last base node keeps the whole base. */
  lemma ValidOrderBaseNodes(nodes: seq<Node>, edges: seq<Edge>)
    requires ValidOrder(nodes, edges)
    ensures BaseLength(nodes, NodeReleased, NodeSequenceId, BaseCut(nodes)) == PrefixLength(nodes, NodeReleased)
  {
    var k := PrefixLength(nodes, NodeReleased);
    if k > 0 {
      ValidOrderIncreasing(nodes, edges);
      BaseLengthSorted(nodes, NodeReleased, NodeSequenceId, k - 1);
    }
  }

  /**
   * In a valid order every released edge leads into a released node of the base, so
   * cutting the released edges at the last base node keeps all of them.
   */
  lemma ValidOrderBaseEdges(nodes: seq<Node>, edges: seq<Edge>)
    requires ValidOrder(nodes, edges)
    ensures BaseLength(edges, EdgeReleased, EdgeSequenceId, BaseCut(nodes)) == PrefixLength(edges, EdgeReleased)
  {
    var kn := PrefixLength(nodes, NodeReleased);
    forall j | 0 <= j < PrefixLength(edges, EdgeReleased)
      ensures edges[j].sequenceId as int <= BaseCut(nodes)
    {
      assert Link(nodes[j], edges[j], nodes[j + 1]);
      forall i | 0 <= i <= j + 1 ensures nodes[i].released {
        if i < j + 1 {
          ValidOrderNodesOrdered(nodes, edges, i, j + 1);
        }
      }
      assert j + 1 < kn;
      if j + 1 < kn - 1 {
        ValidOrderNodesOrdered(nodes, edges, j + 1, kn - 1);
      }
    }
    BaseLengthWhole(edges, EdgeReleased, EdgeSequenceId, BaseCut(nodes));
  }

  /**
   * In a valid order, the nodes past the sequence id of node m are exactly those after
   * position m, and the edges past it are exactly those from position m on.
   */
  lemma ValidOrderSplit(nodes: seq<Node>, edges: seq<Edge>, m: nat)
    requires ValidOrder(nodes, edges) && m < |nodes|
    ensures Above(nodes, NodeSequenceId, nodes[m].sequenceId as int) == nodes[m + 1..]
    ensures Above(edges, EdgeSequenceId, nodes[m].sequenceId as int) == edges[m..]
  {
    ValidOrderIncreasing(nodes, edges);
    AboveIncreasing(nodes, NodeSequenceId, m);
    var cut := nodes[m].sequenceId as int;
    forall j | 0 <= j < m ensures edges[j].sequenceId as int <= cut {
      assert Link(nodes[j], edges[j], nodes[j + 1]);
      if j + 1 < m {
        ValidOrderNodesOrdered(nodes, edges, j + 1, m);
      }
    }
    forall j | m <= j < |edges| ensures edges[j].sequenceId as int > cut {
      assert Link(nodes[m], edges[m], nodes[m + 1]);
      if m < j {
        ValidOrderEdgesOrdered(nodes, edges, m, j);
      }
    }
    AboveSplit(edges, EdgeSequenceId, cut, m);
  }

  /**
   * Merging a valid update that repeats the current last base node at position m keeps
   * the base and appends exactly the update's nodes and edges behind that node.
   */
  lemma MergeValidUpdate(current: seq<Node>, currentEdges: seq<Edge>, update: seq<Node>, updateEdges: seq<Edge>, m: nat)
    requires ValidOrder(update, updateEdges)
    requires m < |update| && PrefixLength(current, NodeReleased) > 0
    requires update[m].sequenceId as int == BaseCut(current)
    ensures MergeNodes(current, update)
         == current[..BaseLength(current, NodeReleased, NodeSequenceId, BaseCut(current))] + update[m + 1..]
    ensures MergeEdges(currentEdges, current, updateEdges)
         == currentEdges[..BaseLength(currentEdges, EdgeReleased, EdgeSequenceId, BaseCut(current))] + updateEdges[m..]
  {
    ValidOrderSplit(update, updateEdges, m);
  }

  /** An order as the wrapper class holds it; fields mirror vda5050_msgs::Order. */
  class Order {
    var orderId: string
    var orderUpdateId: uint32
    var zoneSetId: string
    var nodes: seq<Node>
    var edges: seq<Edge>

    /** Order(): an empty message. */
    constructor ()
      ensures orderId == "" && orderUpdateId == 0 && zoneSetId == ""
      ensures nodes == [] && edges == []
    {
      orderId, orderUpdateId, zoneSetId := "", 0, "";
      nodes, edges := [], [];
    }

    /** Order(const vda5050_msgs::Order::ConstPtr&): a copy of the received message. */
    constructor FromMessage(order: OrderMessage)
      ensures GetOrderId() == order.orderId && GetOrderUpdateId() == order.orderUpdateId
      ensures GetZoneSetId() == order.zoneSetId
      ensures GetNodes() == order.nodes && GetEdges() == order.edges
    {
      orderId, orderUpdateId, zoneSetId := order.orderId, order.orderUpdateId, order.zoneSetId;
      nodes, edges := order.nodes, order.edges;
    }

    // The const getters: each returns its field as stored and changes nothing.
    function GetOrderId(): (r: string) reads this`orderId { orderId }
    function GetOrderUpdateId(): (r: uint32) reads this`orderUpdateId { orderUpdateId }
    function GetZoneSetId(): (r: string) reads this`zoneSetId { zoneSetId }
    function GetNodes(): (r: seq<Node>) reads this`nodes { nodes }
    function GetEdges(): (r: seq<Edge>) reads this`edges { edges }

    /**
     * Replaces this order by new_order: the old nodes and edges are all discarded and the
     * getters afterwards answer what new_order's getters answered.
     */
    method AcceptNewOrder(new_order: Order)
      modifies this
      ensures GetOrderId() == old(new_order.GetOrderId())
      ensures GetOrderUpdateId() == old(new_order.GetOrderUpdateId())
      ensures GetNodes() == old(new_order.GetNodes()) && GetEdges() == old(new_order.GetEdges())
      ensures GetZoneSetId() == old(GetZoneSetId())
    {
      var newNodes, newEdges := new_order.nodes, new_order.edges;
      var newId, newUpdateId := new_order.orderId, new_order.orderUpdateId;
      nodes, edges := newNodes, newEdges;
      orderId, orderUpdateId := newId, newUpdateId;
    }

    /**
     * Extends this order by order_update: the update id is taken over, the base stays,
     * the horizon is replaced by the update's nodes and edges past the last base node.
     */
    method UpdateOrder(order_update: Order)
      modifies this
      ensures GetOrderUpdateId() == old(order_update.GetOrderUpdateId())
      ensures GetNodes() == MergeNodes(old(nodes), old(order_update.nodes))
      ensures GetEdges() == MergeEdges(old(edges), old(nodes), old(order_update.edges))
      ensures GetOrderId() == old(GetOrderId()) && GetZoneSetId() == old(GetZoneSetId())
    {
      var mergedNodes := MergeNodes(nodes, order_update.nodes);
      var mergedEdges := MergeEdges(edges, nodes, order_update.edges);
      nodes, edges, orderUpdateId := mergedNodes, mergedEdges, order_update.orderUpdateId;
    }

    /** Order::Validate: whether this order is well formed. */
    predicate Validate()
      reads this
    {
      ValidOrder(nodes, edges)
    }
  }
}
