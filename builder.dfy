/**
 * The graph-building half of is_directed_acyclic_graph (backend/main.py):
 * every node id becomes a key of the adjacency map, and an edge is kept
 * only when both of its endpoints are known ids.
 */
module Builder {
  import opened Digraph

  /** An edge of the request; its id and port handles play no part in the search. */
  datatype Edge = Edge(source: NodeId, target: NodeId)

  /** The distinct ids of a node list. */
  function NodeSet(nodes: seq<NodeId>): set<NodeId> {
    set u | u in nodes
  }

  /**
   * The targets of the kept edges leaving u, in edge order. An edge is kept
   * when its target is a known id; its source is u itself.
   */
  function Targets(ids: set<NodeId>, edges: seq<Edge>, u: NodeId): (ts: seq<NodeId>)
    ensures forall v :: v in ts <==> v in ids && Edge(u, v) in edges
  {
    if |edges| == 0 then []
    else
      var e := edges[|edges| - 1];
      var ts := Targets(ids, edges[..|edges| - 1], u);
      assert edges == edges[..|edges| - 1] + [e];
      if e.source == u && e.target in ids then ts + [e.target] else ts
  }

  /** Reading one more edge appends its target to its source's entry, when both endpoints are known. */
  lemma TargetsOfLonger(ids: set<NodeId>, edges: seq<Edge>, i: nat, u: NodeId)
    requires i < |edges|
    ensures Targets(ids, edges[..i + 1], u)
            == if edges[i].source == u && edges[i].target in ids
               then Targets(ids, edges[..i], u) + [edges[i].target]
               else Targets(ids, edges[..i], u)
  {
    assert edges[..i + 1][..i] == edges[..i];
  }

  /**
   * The adjacency map the builder produces: one key per distinct node id,
   * its entry the targets of that node's kept edges. Its edges are exactly
   * the input edges whose two endpoints are node ids.
   */
  function Filtered(nodes: seq<NodeId>, edges: seq<Edge>): (g: Graph)
    ensures g.Keys == NodeSet(nodes)
    ensures forall u, v :: Arc(g, u, v) <==> u in nodes && v in nodes && Edge(u, v) in edges
    ensures Closed(g)
  {
    var ids := NodeSet(nodes);
    map u | u in ids :: Targets(ids, edges, u)
  }

  /**
   * The two loops of the builder: register every node with an empty entry
   * (a repeated id is reset, not appended to), then append the target of
   * each edge whose source and target are both registered.
   */
  method BuildGraph(nodes: seq<NodeId>, edges: seq<Edge>) returns (graph: Graph, ids: set<NodeId>)
    ensures ids == NodeSet(nodes)
    ensures graph == Filtered(nodes, edges)
  {
    graph, ids := map[], {};
    for i := 0 to |nodes|
      invariant ids == NodeSet(nodes[..i])
      invariant graph.Keys == ids
      invariant forall u | u in graph :: graph[u] == []
    {
      graph := graph[nodes[i] := []];
      ids := ids + {nodes[i]};
      assert nodes[..i + 1] == nodes[..i] + [nodes[i]];
    }
    assert nodes[..|nodes|] == nodes;
    for i := 0 to |edges|
      invariant graph.Keys == ids
      invariant forall u | u in graph :: graph[u] == Targets(ids, edges[..i], u)
    {
      var e := edges[i];
      if e.source in graph && e.target in ids {
        graph := graph[e.source := graph[e.source] + [e.target]];
      }
      forall u | u in graph
        ensures graph[u] == Targets(ids, edges[..i + 1], u)
      {
        TargetsOfLonger(ids, edges, i, u);
      }
    }
    assert edges[..|edges|] == edges;
    assert graph.Keys == Filtered(nodes, edges).Keys;
  }

  /**
   * Only the set of node ids matters: all nodes are registered before any
   * edge is read, so repeating an id anywhere in the list, or listing the
   * ids in another order, builds the same graph.
   */
  lemma NodeSetDeterminesGraph(nodes1: seq<NodeId>, nodes2: seq<NodeId>, edges: seq<Edge>)
    requires NodeSet(nodes1) == NodeSet(nodes2)
    ensures Filtered(nodes1, edges) == Filtered(nodes2, edges)
  {
  }

  /** In particular, a repeated id collapses onto its first occurrence. */
  lemma DuplicateIdsCollapse(nodes: seq<NodeId>, edges: seq<Edge>, x: NodeId)
    requires x in nodes
    ensures Filtered(nodes + [x], edges) == Filtered(nodes, edges)
  {
    assert NodeSet(nodes + [x]) == NodeSet(nodes);
  }

  /**
   * An edge with an unknown endpoint is dropped: appending one to the edge
   * list leaves the graph unchanged.
   */
  lemma DanglingEdgeDropped(nodes: seq<NodeId>, edges: seq<Edge>, e: Edge)
    requires e.source !in nodes || e.target !in nodes
    ensures Filtered(nodes, edges + [e]) == Filtered(nodes, edges)
  {
  }
}
