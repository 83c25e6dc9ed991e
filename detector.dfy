/**
 * The cycle-detecting half of is_directed_acyclic_graph (backend/main.py):
 * a three-colour depth-first search over the adjacency map the builder
 * produced, and the driver that runs it from every node id.
 */
module Detector {
  import opened Digraph
  import opened Builder

  /** The colours of the search. */
  const Unvisited := 0
  const InProgress := 1
  const Done := 2

  /**
   * The search invariant, for the colours `color`, the ghost numbering
   * `rank` of finished nodes (all below `nextRank`) and the recursion stack
   * `path` (the nodes whose visits have started and not returned, outermost
   * first): colours are 0, 1 or 2 and cover exactly the graph's keys; the
   * in-progress nodes are exactly those on the stack, and the stack is a
   * walk; the finished nodes are exactly the numbered ones, and every edge
   * out of a finished node goes to a node finished earlier.
   */
  ghost predicate SearchInvariant(graph: Graph, color: map<NodeId, int>, rank: map<NodeId, nat>,
                                  nextRank: nat, path: seq<NodeId>)
  {
    && ColoursCoverGraph(graph, color)
    && InProgressIsStack(graph, color, path)
    && DoneIsRanked(graph, color, rank, nextRank)
  }

  /** Every key of a closed graph has a colour, and colours are 0, 1 or 2. */
  ghost predicate ColoursCoverGraph(graph: Graph, color: map<NodeId, int>) {
    && Closed(graph)
    && color.Keys == graph.Keys
    && (forall u | u in color :: Unvisited <= color[u] <= Done)
  }

  /** The nodes coloured 1 are exactly those on the stack, and the stack is a walk. */
  ghost predicate InProgressIsStack(graph: Graph, color: map<NodeId, int>, path: seq<NodeId>) {
    && (forall u | u in color :: color[u] == InProgress <==> u in path)
    && IsWalk(graph, path)
  }

  /** The nodes coloured 2 are exactly the numbered ones, numbered in finishing order. */
  ghost predicate DoneIsRanked(graph: Graph, color: map<NodeId, int>, rank: map<NodeId, nat>, nextRank: nat) {
    && (forall u :: u in rank <==> u in color && color[u] == Done)
    && Descending(graph, rank)
    && (forall u | u in rank :: rank[u] < nextRank)
  }

  /** The nodes still coloured 0. */
  function UnvisitedNodes(color: map<NodeId, int>): set<NodeId> {
    set u | u in color && color[u] == Unvisited
  }

  /** Colours only move forward: same keys, no colour decreases. */
  ghost predicate Progressed(before: map<NodeId, int>, after: map<NodeId, int>) {
    && before.Keys == after.Keys
    && forall u | u in before :: before[u] <= after[u]
  }

  /** Every colour that differs between `before` and `after` belongs to a node reachable from `origin`. */
  ghost predicate ChangesReachableFrom(graph: Graph, origin: NodeId, before: map<NodeId, int>, after: map<NodeId, int>) {
    forall u | u in before && u in after && after[u] != before[u] :: Reaches(graph, origin, u)
  }

  /** Recolouring the origin itself changes only a node the origin reaches. */
  lemma RecolourOrigin(graph: Graph, origin: NodeId, color: map<NodeId, int>, c: int)
    requires origin in graph
    ensures ChangesReachableFrom(graph, origin, color, color[origin := c])
  {
    ReachesItself(graph, origin);
  }

  /**
   * Changes reachable from `origin` followed by changes reachable from
   * `next`, one edge away from `origin`, are changes reachable from `origin`.
   */
  lemma ChangesCompose(graph: Graph, origin: NodeId, next: NodeId,
                       c0: map<NodeId, int>, c1: map<NodeId, int>, c2: map<NodeId, int>)
    requires c0.Keys == c1.Keys
    requires origin == next || Arc(graph, origin, next)
    requires ChangesReachableFrom(graph, origin, c0, c1) && ChangesReachableFrom(graph, next, c1, c2)
    ensures ChangesReachableFrom(graph, origin, c0, c2)
  {
    forall u | u in c0 && u in c2 && c2[u] != c0[u]
      ensures Reaches(graph, origin, u)
    {
      if c2[u] != c1[u] && origin != next {
        ReachesThroughArc(graph, origin, next, u);
      }
    }
  }

  /** Moving forward never brings a node back to colour 0. */
  lemma ProgressShrinksUnvisited(before: map<NodeId, int>, after: map<NodeId, int>)
    requires Progressed(before, after)
    requires forall u | u in before :: Unvisited <= before[u]
    ensures UnvisitedNodes(after) <= UnvisitedNodes(before)
  {
  }

  /** Raising one node's colour moves forward. */
  /** Raising one node's colour is progress. */
  lemma RaiseIsProgress(color: map<NodeId, int>, u: NodeId, c: int)
    requires u in color && color[u] <= c
    ensures Progressed(color, color[u := c])
  {
  }

  /** Progress followed by progress is progress. */
  lemma ProgressIsTransitive(a: map<NodeId, int>, b: map<NodeId, int>, c: map<NodeId, int>)
    requires Progressed(a, b) && Progressed(b, c)
    ensures Progressed(a, c)
  {
  }

  /**
   * Colouring an unvisited node 1 and pushing it on the stack keeps the
   * invariant, when the node is reached by an edge from the top of the stack.
   */
  lemma StartVisit(graph: Graph, color: map<NodeId, int>, rank: map<NodeId, nat>, nextRank: nat,
                   path: seq<NodeId>, node: NodeId)
    requires SearchInvariant(graph, color, rank, nextRank, path)
    requires node in color && color[node] == Unvisited
    requires path == [] || Arc(graph, path[|path| - 1], node)
    ensures SearchInvariant(graph, color[node := InProgress], rank, nextRank, path + [node])
  {
  }

  /**
   * Colouring the top of the stack 2, once all its successors are coloured
   * 2, and giving it the next number, keeps the invariant for the stack below it.
   */
  lemma FinishVisit(graph: Graph, color: map<NodeId, int>, rank: map<NodeId, nat>, nextRank: nat,
                    path: seq<NodeId>, node: NodeId)
    requires SearchInvariant(graph, color, rank, nextRank, path + [node])
    requires node !in path
    requires forall v | Arc(graph, node, v) :: v in color && color[v] == Done
    ensures SearchInvariant(graph, color[node := Done], rank[node := nextRank], nextRank + 1, path)
  {
    var path' := path + [node];
    forall i | 0 <= i < |path| - 1
      ensures Arc(graph, path[i], path[i + 1])
    {
      assert path[i] == path'[i] && path[i + 1] == path'[i + 1];
    }
    forall i | 0 <= i < |path|
      ensures path[i] in graph
    {
      assert path[i] == path'[i];
    }
    assert path'[|path|] == node && node in graph;
  }

  /**
   * Everything reachable from a node coloured 2 is coloured 2: a visit that
   * returns false has finished every node it can reach.
   */
  lemma FinishedIsClosed(graph: Graph, color: map<NodeId, int>, rank: map<NodeId, nat>, nextRank: nat,
                         path: seq<NodeId>, p: seq<NodeId>)
    requires SearchInvariant(graph, color, rank, nextRank, path)
    requires IsWalk(graph, p) && |p| > 0 && p[0] in color && color[p[0]] == Done
    ensures forall k | 0 <= k < |p| :: p[k] in color && color[p[k]] == Done
  {
    forall k | 0 <= k < |p|
      ensures p[k] in color && color[p[k]] == Done
    {
      DescendingAlongWalk(graph, rank, p, k);
    }
  }

  /**
   * The state of one search: the adjacency map it walks and the colour of
   * every node. The ghost numbering records the order in which nodes were
   * finished; it is what shows that finished nodes lie on no cycle.
   */
  class CycleSearch {
    const graph: Graph
    var color: map<NodeId, int>
    ghost var rank: map<NodeId, nat>
    ghost var nextRank: nat

    /** The search invariant for the recursion stack `path`. */
    ghost predicate Valid(path: seq<NodeId>)
      reads this
    {
      SearchInvariant(graph, color, rank, nextRank, path)
    }

    /** A fresh search: every known id coloured 0. */
    constructor (graph: Graph, ids: set<NodeId>)
      requires graph.Keys == ids && Closed(graph)
      ensures this.graph == graph
      ensures color == map u | u in ids :: Unvisited
      ensures Valid([])
    {
      this.graph := graph;
      color := map u | u in ids :: Unvisited;
      rank := map[];
      nextRank := 0;
    }

    /**
     * has_cycle_dfs: visit `node`, reached from the top of the stack `path`
     * (or from the driver, when `path` is empty). An in-progress node means
     * a cycle; a finished node is returned from at once; otherwise the node
     * is marked in progress, its successors are visited in order, and it is
     * marked finished when none of them found a cycle. Only nodes reachable
     * from `node` change colour.
     */
    method Visit(node: NodeId, ghost path: seq<NodeId>) returns (found: bool)
      requires Valid(path) && node in graph
      requires path == [] || Arc(graph, path[|path| - 1], node)
      modifies this
      decreases UnvisitedNodes(color), 0
      ensures found ==> HasCycle(graph)
      ensures old(color[node]) == InProgress ==> found
      ensures old(color[node]) == Done ==> !found && color == old(color)
      ensures Progressed(old(color), color)
      ensures ChangesReachableFrom(graph, node, old(color), color)
      ensures !found ==> Valid(path) && color[node] == Done
    {
      if color[node] == InProgress {
        BackEdgeCloses(graph, path, node);
        return true;
      }
      if color[node] == Done {
        return false;
      }
      StartVisit(graph, color, rank, nextRank, path, node);
      RecolourOrigin(graph, node, color, InProgress);
      RaiseIsProgress(color, node, InProgress);
      color := color[node := InProgress];
      ProgressShrinksUnvisited(old(color), color);
      assert node in old(UnvisitedNodes(color)) && node !in UnvisitedNodes(color);
      ghost var started := color;
      found := VisitSuccessors(node, path + [node]);
      ChangesCompose(graph, node, node, old(color), started, color);
      ProgressIsTransitive(old(color), started, color);
      if !found {
        FinishVisit(graph, color, rank, nextRank, path, node);
        ghost var visited := color;
        RecolourOrigin(graph, node, color, Done);
        RaiseIsProgress(color, node, Done);
        color := color[node := Done];
        ChangesCompose(graph, node, node, old(color), visited, color);
        ProgressIsTransitive(old(color), visited, color);
        rank := rank[node := nextRank];
        nextRank := nextRank + 1;
      }
    }

    /**
     * The loop of has_cycle_dfs: visit the successors of the in-progress
     * node on top of the stack `inner`, in adjacency order, stopping at the
     * first visit that finds a cycle. Only nodes reachable from `node`
     * change colour; when no visit finds a cycle, every successor is
     * coloured 2 afterwards.
     */
    method VisitSuccessors(node: NodeId, ghost inner: seq<NodeId>) returns (found: bool)
      requires Valid(inner) && |inner| > 0 && inner[|inner| - 1] == node
      modifies this
      decreases UnvisitedNodes(color), 1
      ensures found ==> HasCycle(graph)
      ensures Progressed(old(color), color)
      ensures ChangesReachableFrom(graph, node, old(color), color)
      ensures !found ==> Valid(inner)
      ensures !found ==> forall v | Arc(graph, node, v) :: v in color && color[v] == Done
    {
      assert node in graph;
      var successors := graph[node];
      for i := 0 to |successors|
        invariant Valid(inner)
        invariant Progressed(old(color), color)
        invariant ChangesReachableFrom(graph, node, old(color), color)
        invariant forall j | 0 <= j < i :: successors[j] in color && color[successors[j]] == Done
      {
        assert Arc(graph, node, successors[i]);
        ProgressShrinksUnvisited(old(color), color);
        ghost var before := color;
        found := Visit(successors[i], inner);
        ChangesCompose(graph, node, successors[i], old(color), before, color);
        ProgressIsTransitive(old(color), before, color);
        if found {
          return;
        }
        forall j | 0 <= j <= i
          ensures successors[j] in color && color[successors[j]] == Done
        {
          if j < i {
            assert before[successors[j]] == Done;
          }
        }
      }
      found := false;
    }
  }

  /**
   * is_directed_acyclic_graph: true exactly when the graph left after
   * dropping edges with an unknown endpoint has no directed cycle. The
   * driver starts a visit from every id still coloured 0, in no particular
   * order, and stops at the first cycle.
   */
  method IsDirectedAcyclicGraph(nodes: seq<NodeId>, edges: seq<Edge>) returns (isDag: bool)
    ensures isDag <==> !HasCycle(Filtered(nodes, edges))
    ensures |nodes| == 0 ==> isDag
  {
    if |nodes| == 0 {
      RankedAcyclic(Filtered(nodes, edges), map[]);
      return true;
    }
    var graph, ids := BuildGraph(nodes, edges);
    var search := new CycleSearch(graph, ids);
    var pending := ids;
    while pending != {}
      invariant search.graph == graph && search.Valid([])
      invariant pending <= ids
      invariant forall u | u in ids - pending :: search.color[u] == Done
      decreases pending
    {
      var id :| id in pending;
      if search.color[id] == Unvisited {
        var found := search.Visit(id, []);
        if found {
          return false;
        }
      }
      pending := pending - {id};
    }
    RankedAcyclic(graph, search.rank);
    return true;
  }
}
