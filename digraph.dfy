/**
 * Directed graphs as adjacency maps (a node id mapped to the ids its edges
 * point at), walks and cycles in them, and rankings: the vocabulary in which
 * the cycle search of backend/main.py is specified.
 */
module Digraph {

  type NodeId = string

  /** An adjacency map: each known id and the targets of its outgoing edges, in order. */
  type Graph = map<NodeId, seq<NodeId>>

  /** There is an edge from u to v. */
  predicate Arc(g: Graph, u: NodeId, v: NodeId) {
    u in g && v in g[u]
  }

  /** Every adjacency entry names a key, so following an edge never leaves the map. */
  ghost predicate Closed(g: Graph) {
    forall u, v | Arc(g, u, v) :: v in g
  }

  /** p is a sequence of known nodes, each joined to the next by an edge. */
  ghost predicate IsWalk(g: Graph, p: seq<NodeId>) {
    && (forall i | 0 <= i < |p| :: p[i] in g)
    && (forall i | 0 <= i < |p| - 1 :: Arc(g, p[i], p[i + 1]))
  }

  /** A walk of at least one edge that ends where it starts. */
  ghost predicate IsCycle(g: Graph, p: seq<NodeId>) {
    |p| >= 2 && IsWalk(g, p) && p[0] == p[|p| - 1]
  }

  /** There is a walk from a to b (of no edges when a == b). */
  ghost predicate Reaches(g: Graph, a: NodeId, b: NodeId) {
    exists p :: IsWalk(g, p) && |p| > 0 && p[0] == a && p[|p| - 1] == b
  }

  /** Every known node reaches itself. */
  lemma ReachesItself(g: Graph, a: NodeId)
    requires a in g
    ensures Reaches(g, a, a)
  {
    assert IsWalk(g, [a]);
  }

  /** An edge followed by a walk is a walk. */
  lemma ReachesThroughArc(g: Graph, a: NodeId, b: NodeId, c: NodeId)
    requires Arc(g, a, b) && Reaches(g, b, c)
    ensures Reaches(g, a, c)
  {
    var p :| IsWalk(g, p) && |p| > 0 && p[0] == b && p[|p| - 1] == c;
    var q := [a] + p;
    forall i | 0 <= i < |q| - 1
      ensures Arc(g, q[i], q[i + 1])
    {
      if i > 0 {
        assert q[i] == p[i - 1] && q[i + 1] == p[i];
      }
    }
    assert IsWalk(g, q) && q[|q| - 1] == c;
  }

  /** The graph has a directed cycle (a self-loop counts). */
  ghost predicate HasCycle(g: Graph) {
    exists p :: IsCycle(g, p)
  }

  /**
   * A partial numbering of the nodes in which every edge out of a numbered
   * node goes to a numbered node with a smaller number.
   */
  ghost predicate Descending(g: Graph, rank: map<NodeId, nat>) {
    forall u, v | u in rank && Arc(g, u, v) :: v in rank && rank[v] < rank[u]
  }

  /** Along a walk that starts at a numbered node, every step lowers the number. */
  lemma {:induction false} DescendingAlongWalk(g: Graph, rank: map<NodeId, nat>, p: seq<NodeId>, k: nat)
    requires Descending(g, rank) && IsWalk(g, p)
    requires k < |p| && p[0] in rank
    ensures p[k] in rank && rank[p[k]] + k <= rank[p[0]]
  {
    if k > 0 {
      DescendingAlongWalk(g, rank, p, k - 1);
      assert Arc(g, p[k - 1], p[k]);
    }
  }

  /** A graph whose every node is numbered by a descending numbering has no cycle. */
  lemma RankedAcyclic(g: Graph, rank: map<NodeId, nat>)
    requires Descending(g, rank) && g.Keys <= rank.Keys
    ensures !HasCycle(g)
  {
    if HasCycle(g) {
      var p :| IsCycle(g, p);
      DescendingAlongWalk(g, rank, p, |p| - 1);
    }
  }

  /**
   * An edge from the end of a walk back to a node already on it closes a
   * cycle: this is what meeting an in-progress node during the search means.
   */
  lemma BackEdgeCloses(g: Graph, path: seq<NodeId>, v: NodeId)
    requires IsWalk(g, path) && v in path
    requires Arc(g, path[|path| - 1], v)
    ensures HasCycle(g)
  {
    var k :| 0 <= k < |path| && path[k] == v;
    var c := path[k..] + [v];
    forall i | 0 <= i < |c| - 1
      ensures Arc(g, c[i], c[i + 1])
    {
      if i < |c| - 2 {
        assert c[i] == path[k + i] && c[i + 1] == path[k + i + 1];
      }
    }
    assert IsCycle(g, c);
  }

  /** Two graphs with the same nodes and the same edges agree on having a cycle. */
  lemma SameArcsSameCycles(g1: Graph, g2: Graph)
    requires g1.Keys == g2.Keys
    requires forall u, v :: Arc(g1, u, v) <==> Arc(g2, u, v)
    ensures HasCycle(g1) <==> HasCycle(g2)
  {
    if HasCycle(g1) {
      var p :| IsCycle(g1, p);
      assert IsCycle(g2, p);
    }
    if HasCycle(g2) {
      var p :| IsCycle(g2, p);
      assert IsCycle(g1, p);
    }
  }
}
