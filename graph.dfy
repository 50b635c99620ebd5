/** The graph component: a list of labelled nodes, a list of directed edges
    between node ids, and a counter, kept at module level in the source, that
    hands out node ids. Screen coordinates are random and not modelled. */
module Graph {
  import opened Wrappers

  /** A node: its id and its `label` (`label` is a keyword in Dafny). */
  datatype GraphNode = GraphNode(id: nat, text: string)

  /** Endpoints are whatever `parseInt` made of the two text fields; they
      need not name existing nodes. */
  datatype Edge = Edge(from: int, to: int)

  /** The edge list after `addEdge`; an endpoint `None` stands for `NaN`. The
      edge is refused when an endpoint is missing or it would be a self-loop. */
  function WithEdge(edges: seq<Edge>, from: Option<int>, to: Option<int>): (r: seq<Edge>)
    ensures (from.None? || to.None? || from == to) ==> r == edges
    ensures !(from.None? || to.None? || from == to) ==>
      |r| == |edges| + 1 && r[..|edges|] == edges && r[|edges|] == Edge(from.value, to.value)
  {
    if from.None? || to.None? || from.value == to.value then edges
    else edges + [Edge(from.value, to.value)]
  }

  /** `nodes.filter(node => node.id !== id)` */
  function WithoutNode(nodes: seq<GraphNode>, id: int): (r: seq<GraphNode>)
    ensures forall n :: n in r <==> n in nodes && n.id != id
    ensures |r| <= |nodes|
  {
    if nodes == [] then []
    else (if nodes[0].id != id then [nodes[0]] else []) + WithoutNode(nodes[1..], id)
  }

  /** `edges.filter(edge => edge.from !== id && edge.to !== id)` */
  function WithoutIncidentEdges(edges: seq<Edge>, id: int): (r: seq<Edge>)
    ensures forall e :: e in r <==> e in edges && e.from != id && e.to != id
    ensures |r| <= |edges|
  {
    if edges == [] then []
    else (if edges[0].from != id && edges[0].to != id then [edges[0]] else [])
         + WithoutIncidentEdges(edges[1..], id)
  }

  /** `edges.filter((_, i) => i !== index)`, one position at a time. */
  function WithoutEdgeAt(edges: seq<Edge>, index: int): (r: seq<Edge>)
    ensures 0 <= index < |edges| ==> r == edges[..index] + edges[index + 1..]
    ensures !(0 <= index < |edges|) ==> r == edges
  {
    if edges == [] then []
    else (if index != 0 then [edges[0]] else []) + WithoutEdgeAt(edges[1..], index - 1)
  }

  /** The filters keep the order of what they keep: filtering a concatenation
      is concatenating the filtered parts. */
  lemma {:induction false} WithoutNodeKeepsOrder(a: seq<GraphNode>, b: seq<GraphNode>, id: int)
    ensures WithoutNode(a + b, id) == WithoutNode(a, id) + WithoutNode(b, id)
    decreases |a|
  {
    if a != [] {
      assert (a + b)[1..] == a[1..] + b;
      WithoutNodeKeepsOrder(a[1..], b, id);
    } else {
      assert a + b == b;
    }
  }

  lemma {:induction false} WithoutIncidentEdgesKeepsOrder(a: seq<Edge>, b: seq<Edge>, id: int)
    ensures WithoutIncidentEdges(a + b, id) == WithoutIncidentEdges(a, id) + WithoutIncidentEdges(b, id)
    decreases |a|
  {
    if a != [] {
      assert (a + b)[1..] == a[1..] + b;
      WithoutIncidentEdgesKeepsOrder(a[1..], b, id);
    } else {
      assert a + b == b;
    }
  }

  ghost predicate DistinctIds(nodes: seq<GraphNode>) {
    forall i, j :: 0 <= i < j < |nodes| ==> nodes[i].id != nodes[j].id
  }

  ghost function Ids(nodes: seq<GraphNode>): set<int> {
    set n | n in nodes :: n.id
  }

  lemma DistinctTail(nodes: seq<GraphNode>)
    requires nodes != [] && DistinctIds(nodes)
    ensures DistinctIds(nodes[1..]) && nodes[0].id !in Ids(nodes[1..])
  {
    var tail := nodes[1..];
    forall i, j | 0 <= i < j < |tail| ensures tail[i].id != tail[j].id {
      assert tail[i] == nodes[i + 1] && tail[j] == nodes[j + 1];
    }
  }

  /** Filtering out an id that no node has changes nothing. */
  lemma {:induction false} WithoutAbsentNode(nodes: seq<GraphNode>, id: int)
    requires id !in Ids(nodes)
    ensures WithoutNode(nodes, id) == nodes
    decreases |nodes|
  {
    if nodes != [] {
      assert nodes[0] in nodes;
      assert Ids(nodes[1..]) <= Ids(nodes) by {
        forall x | x in Ids(nodes[1..]) ensures x in Ids(nodes) {
          var n :| n in nodes[1..] && n.id == x;
          assert n in nodes;
        }
      }
      WithoutAbsentNode(nodes[1..], id);
    }
  }

  /** The ids of a non-empty list: the first node's and the tail's. */
  lemma IdsCons(nodes: seq<GraphNode>)
    requires nodes != []
    ensures Ids(nodes) == {nodes[0].id} + Ids(nodes[1..])
  {
    var tail := nodes[1..];
    assert nodes == [nodes[0]] + tail;
    forall x | x in Ids(nodes) ensures x in {nodes[0].id} + Ids(tail) {
      var n :| n in nodes && n.id == x;
      if n != nodes[0] { assert n in tail; }
    }
    forall x | x in Ids(tail) ensures x in Ids(nodes) {
      var n :| n in tail && n.id == x;
      assert n in nodes;
    }
  }

  /** A node put before distinct nodes whose ids it does not share. */
  lemma DistinctCons(x: GraphNode, rest: seq<GraphNode>, tail: seq<GraphNode>)
    requires DistinctIds(rest) && x.id !in Ids(tail)
    requires forall n :: n in rest ==> n in tail
    ensures DistinctIds([x] + rest)
  {
    var r := [x] + rest;
    forall i, j | 0 <= i < j < |r| ensures r[i].id != r[j].id {
      if i == 0 {
        assert r[j] in rest && r[j] in tail;
        assert r[j].id in Ids(tail);
      } else {
        assert r[i] == rest[i - 1] && r[j] == rest[j - 1];
      }
    }
  }

  /** Removing a node keeps the ids distinct, and, the ids being distinct,
      removes exactly one node if the id is present and none otherwise. */
  lemma {:induction false} WithoutNodeRemovesOne(nodes: seq<GraphNode>, id: int)
    requires DistinctIds(nodes)
    ensures DistinctIds(WithoutNode(nodes, id))
    ensures |WithoutNode(nodes, id)| == |nodes| - (if id in Ids(nodes) then 1 else 0)
    decreases |nodes|
  {
    if nodes != [] {
      var tail := nodes[1..];
      DistinctTail(nodes);
      WithoutNodeRemovesOne(tail, id);
      IdsCons(nodes);
      if nodes[0].id == id {
        WithoutAbsentNode(tail, id);
      } else {
        DistinctCons(nodes[0], WithoutNode(tail, id), tail);
      }
    }
  }

  /** The component's state plus the module-level id counter `nodeId`. */
  class GraphVisualizer {
    var nodes: seq<GraphNode>
    var edges: seq<Edge>
    var nodeId: nat

    /** Every id handed out is below the counter, so ids are pairwise distinct. */
    ghost predicate Valid()
      reads this
    {
      && (forall i :: 0 <= i < |nodes| ==> nodes[i].id < nodeId)
      && DistinctIds(nodes)
    }

    constructor ()
      ensures Valid() && nodes == [] && edges == [] && nodeId == 0
    {
      nodes, edges, nodeId := [], [], 0;
    }

    /** `addNode`: an empty label is ignored; otherwise the node gets the
        current counter value as id and the counter moves on. */
    method AddNode(nodeLabel: string)
      requires Valid()
      modifies this
      ensures Valid() && edges == old(edges)
      ensures nodeLabel == "" ==> nodes == old(nodes) && nodeId == old(nodeId)
      ensures nodeLabel != "" ==> nodes == old(nodes) + [GraphNode(old(nodeId), nodeLabel)] && nodeId == old(nodeId) + 1
      ensures forall i :: 0 <= i < |old(nodes)| ==> old(nodes)[i].id != old(nodeId)
    {
      if nodeLabel == "" {
        return;
      }
      nodes := nodes + [GraphNode(nodeId, nodeLabel)];
      nodeId := nodeId + 1;
    }

    /** `addEdge` */
    method AddEdge(from: Option<int>, to: Option<int>)
      requires Valid()
      modifies this`edges
      ensures Valid() && edges == WithEdge(old(edges), from, to)
    {
      edges := WithEdge(edges, from, to);
    }

    /** `removeNode`: the node and every edge that touches its id. */
    method RemoveNode(id: int)
      requires Valid()
      modifies this`nodes, this`edges
      ensures Valid()
      ensures nodes == WithoutNode(old(nodes), id) && edges == WithoutIncidentEdges(old(edges), id)
    {
      WithoutNodeRemovesOne(nodes, id);
      nodes := WithoutNode(nodes, id);
      edges := WithoutIncidentEdges(edges, id);
    }

    /** `removeEdge` */
    method RemoveEdge(index: int)
      requires Valid()
      modifies this`edges
      ensures Valid() && edges == WithoutEdgeAt(old(edges), index)
    {
      edges := WithoutEdgeAt(edges, index);
    }
  }
}
