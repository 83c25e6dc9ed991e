/**
 * The request handler parse_pipeline (backend/main.py): node and edge
 * counts over the raw request, and the acyclicity flag; with the properties
 * the flag has on the kinds of input the handler must tolerate.
 */
module Pipeline {
  import opened Digraph
  import opened Builder
  import opened Detector

  /** The parts of a request the handler reads: the node ids and the edges' endpoints. */
  datatype PipelineRequest = PipelineRequest(nodes: seq<NodeId>, edges: seq<Edge>)

  datatype PipelineResponse = PipelineResponse(numNodes: nat, numEdges: nat, isDag: bool)

  /**
   * The counts are the lengths of the raw lists, dropped edges included;
   * the flag says whether the filtered graph is free of cycles.
   */
  method ParsePipeline(request: PipelineRequest) returns (response: PipelineResponse)
    ensures response.numNodes == |request.nodes|
    ensures response.numEdges == |request.edges|
    ensures response.isDag <==> !HasCycle(Filtered(request.nodes, request.edges))
  {
    var numNodes := |request.nodes|;
    var numEdges := |request.edges|;
    var isDag := IsDirectedAcyclicGraph(request.nodes, request.edges);
    response := PipelineResponse(numNodes, numEdges, isDag);
  }

  /** A self-loop on a known node is a cycle. */
  lemma SelfLoopIsCycle(nodes: seq<NodeId>, edges: seq<Edge>, u: NodeId)
    requires u in nodes && Edge(u, u) in edges
    ensures HasCycle(Filtered(nodes, edges))
  {
    var g := Filtered(nodes, edges);
    assert Arc(g, u, u);
    assert IsCycle(g, [u, u]);
  }

  /** Without edges there is no cycle, whatever the nodes. */
  lemma NoEdgesNoCycle(nodes: seq<NodeId>)
    ensures !HasCycle(Filtered(nodes, []))
  {
    var g := Filtered(nodes, []);
    RankedAcyclic(g, map u | u in g :: 0);
  }

  /** Reordering the node list or the edge list does not change whether there is a cycle. */
  lemma OrderIrrelevant(nodes1: seq<NodeId>, edges1: seq<Edge>, nodes2: seq<NodeId>, edges2: seq<Edge>)
    requires multiset(nodes1) == multiset(nodes2) && multiset(edges1) == multiset(edges2)
    ensures HasCycle(Filtered(nodes1, edges1)) <==> HasCycle(Filtered(nodes2, edges2))
  {
    forall u
      ensures u in nodes1 <==> u in nodes2
    {
      assert u in nodes1 <==> u in multiset(nodes1);
      assert u in nodes2 <==> u in multiset(nodes2);
    }
    forall e
      ensures e in edges1 <==> e in edges2
    {
      assert e in edges1 <==> e in multiset(edges1);
      assert e in edges2 <==> e in multiset(edges2);
    }
    assert NodeSet(nodes1) == NodeSet(nodes2);
    SameArcsSameCycles(Filtered(nodes1, edges1), Filtered(nodes2, edges2));
  }

  /**
   * A cycle stated on the raw request: a sequence of node ids, starting and
   * ending at the same id, each consecutive pair joined by a request edge.
   */
  ghost predicate IsRequestCycle(nodes: seq<NodeId>, edges: seq<Edge>, p: seq<NodeId>) {
    && |p| >= 2
    && p[0] == p[|p| - 1]
    && (forall i | 0 <= i < |p| :: p[i] in nodes)
    && (forall i | 0 <= i < |p| - 1 :: Edge(p[i], p[i + 1]) in edges)
  }

  /** The cycles of the filtered graph are exactly the cycles of the request among known ids. */
  lemma FilteredCyclesAreRequestCycles(nodes: seq<NodeId>, edges: seq<Edge>, p: seq<NodeId>)
    ensures IsCycle(Filtered(nodes, edges), p) <==> IsRequestCycle(nodes, edges, p)
  {
  }

  /**
   * A numbering of the known ids that every kept edge strictly lowers
   * shows the request has no cycle.
   */
  lemma EdgeRankingAcyclic(nodes: seq<NodeId>, edges: seq<Edge>, rank: map<NodeId, nat>)
    requires forall u | u in nodes :: u in rank
    requires forall e | e in edges && e.source in nodes && e.target in nodes :: rank[e.target] < rank[e.source]
    ensures !HasCycle(Filtered(nodes, edges))
  {
    var g := Filtered(nodes, edges);
    forall u, v | u in rank && Arc(g, u, v)
      ensures v in rank && rank[v] < rank[u]
    {
      assert Edge(u, v) in edges;
    }
    RankedAcyclic(g, rank);
  }

  /** The triangle A -> B -> C -> A is a cycle. */
  lemma TriangleHasCycle()
    ensures HasCycle(Filtered(["A", "B", "C"], [Edge("A", "B"), Edge("B", "C"), Edge("C", "A")]))
  {
    var nodes, edges := ["A", "B", "C"], [Edge("A", "B"), Edge("B", "C"), Edge("C", "A")];
    var p := ["A", "B", "C", "A"];
    assert IsRequestCycle(nodes, edges, p);
    FilteredCyclesAreRequestCycles(nodes, edges, p);
  }

  /** The chain A -> B -> C has no cycle. */
  lemma ChainIsAcyclic()
    ensures !HasCycle(Filtered(["A", "B", "C"], [Edge("A", "B"), Edge("B", "C")]))
  {
    EdgeRankingAcyclic(["A", "B", "C"], [Edge("A", "B"), Edge("B", "C")], map["A" := 2, "B" := 1, "C" := 0]);
  }

  /** The diamond A -> B, A -> C, B -> D, C -> D has no cycle: a shared descendant is not one. */
  lemma DiamondIsAcyclic()
    ensures !HasCycle(Filtered(["A", "B", "C", "D"],
                               [Edge("A", "B"), Edge("A", "C"), Edge("B", "D"), Edge("C", "D")]))
  {
    EdgeRankingAcyclic(["A", "B", "C", "D"], [Edge("A", "B"), Edge("A", "C"), Edge("B", "D"), Edge("C", "D")],
                       map["A" := 2, "B" := 1, "C" := 1, "D" := 0]);
  }

  /** The edge A -> Z, with Z unknown, is dropped: the chain A -> B -> C stays acyclic. */
  lemma DanglingEdgeOnChain()
    ensures !HasCycle(Filtered(["A", "B", "C"], [Edge("A", "B"), Edge("B", "C"), Edge("A", "Z")]))
  {
    EdgeRankingAcyclic(["A", "B", "C"], [Edge("A", "B"), Edge("B", "C"), Edge("A", "Z")],
                       map["A" := 2, "B" := 1, "C" := 0]);
  }
}
