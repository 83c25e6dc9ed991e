# Pipeline DAG check — a verified Dafny model

The backend of the visual pipeline builder accepts a pipeline (a list of
nodes and a list of directed edges). It answers with the number of nodes,
the number of edges, and whether the graph is a directed acyclic graph.
This project models the one piece of real logic in that backend:
`is_directed_acyclic_graph` and the counts computed by `parse_pipeline`,
both in `backend/main.py`.

- `digraph.dfy`, module `Digraph`: adjacency maps (`Graph`), walks, cycles,
  and descending numberings. This is the vocabulary the search is specified in.
- `builder.dfy`, module `Builder`: the first half of
  `is_directed_acyclic_graph`. Every node id is registered with an empty
  entry. Then each edge's target is appended to its source's entry, but only
  when both endpoints are known ids. `Filtered` is the specification of the
  resulting map, and `BuildGraph` is the two loops, proved to produce it.
- `detector.dfy`, module `Detector`: the three-colour depth-first search.
  The colour dictionary that the nested `has_cycle_dfs` updates is the
  `color` field of the class `CycleSearch`. The recursive visit is `Visit`.
  Its loop over the successors is the mutually recursive `VisitSuccessors`;
  splitting it off keeps each proof small, and the order of the calls is
  unchanged. `IsDirectedAcyclicGraph` is the whole function: the empty-list
  shortcut, the builder, and the driver loop with early exit. It is proved to
  return true exactly when the filtered graph has no directed cycle.
- `pipeline.dfy`, module `Pipeline`: `parse_pipeline`'s response. It also
  holds the properties of the flag on degenerate inputs (self-loops, dropped
  edges, reordering) and on small example graphs: a triangle, a chain, a
  diamond, and a chain with a dangling edge.

How the search is proved correct:
- The ghost stack `path` is the list of visits that have started and not
  returned. The nodes coloured 1 are exactly the nodes on it, and it is a walk.
  Meeting a node coloured 1 is therefore an edge back onto the stack, which
  closes a cycle (`BackEdgeCloses`).
- The ghost numbering `rank` numbers nodes in the order they are coloured 2.
  Every edge out of a node coloured 2 goes to a node with a smaller number, so
  no node coloured 2 lies on a cycle (`RankedAcyclic`). When the driver has
  finished every id, that covers the whole graph.
- Termination follows because every visit that recurses first removes its node
  from the set of nodes coloured 0 (`decreases UnvisitedNodes(color)`).

The driver picks the next id with `:|`, an arbitrary choice. That models
Python's unspecified set iteration order: the result is proved the same
whatever order is chosen.

## Model

| member | source | states |
|---|---|---|
| `Builder.Targets` | backend/main.py:56-58 | the entry built for a node lists v exactly when v is a known id and the edge from that node to v is in the request |
| `Builder.Filtered` | backend/main.py:47-58 | the built map has one key per distinct node id; it has an edge u -> v exactly when u and v are node ids and the request has that edge; every entry names a key, so lookups in the search never miss |
| `Builder.BuildGraph` | backend/main.py:47-58 | the two builder loops produce exactly `Filtered(nodes, edges)` and the id set of the node list |
| `Builder.NodeSetDeterminesGraph` | backend/main.py:51-53 | two node lists with the same set of ids build the same graph, whatever the repetitions and the order |
| `Builder.DuplicateIdsCollapse` | backend/main.py:51-53 | repeating a node id that is already in the list leaves the built graph unchanged |
| `Builder.DanglingEdgeDropped` | backend/main.py:56-58 | appending an edge whose source or target is not a node id leaves the built graph unchanged |
| `Digraph.DescendingAlongWalk` | backend/main.py:75 | along a walk from a finished (numbered) node, every step lowers the number, so everything reached is finished too |
| `Digraph.RankedAcyclic` | backend/main.py:79-84 | when every node is numbered and every edge lowers the number, the graph has no cycle; this is why the driver may answer true after finishing every node |
| `Digraph.BackEdgeCloses` | backend/main.py:64-65 | an edge from the top of the stack back to a node on it closes a cycle, which justifies returning True on colour 1 |
| `Digraph.ReachesThroughArc` | backend/main.py:71-73 | an edge followed by a walk is a walk, so whatever a successor reaches the node reaches too |
| `Digraph.SameArcsSameCycles` | backend/main.py:56-58 | two maps with the same keys and the same edges agree on having a cycle, whatever the order inside the entries |
| `Detector.StartVisit` | backend/main.py:69 | colouring an unvisited node 1 and pushing it on the stack keeps the search invariant when it was reached by an edge from the top of the stack |
| `Detector.FinishVisit` | backend/main.py:75 | colouring the top of the stack 2, once all its successors are 2, keeps the search invariant for the stack below it |
| `Detector.FinishedIsClosed` | backend/main.py:66-67 | every node reachable from a node coloured 2 is coloured 2 |
| `Detector.ChangesCompose` | backend/main.py:71-73 | the recolourings done by a successor's visit stay within what the node reaches, so a sequence of visits changes only nodes reachable from the node |
| `Detector.CycleSearch.constructor` | backend/main.py:61 | the search starts with every known id coloured 0 and the invariant established |
| `Detector.CycleSearch.Visit` | backend/main.py:63-76 | true only when the graph has a cycle; true whenever the node was coloured 1; a node coloured 2 returns false and changes nothing; colours never decrease; only nodes reachable from the node change colour; on false the node is 2 and the invariant holds again |
| `Detector.CycleSearch.VisitSuccessors` | backend/main.py:71-73 | true only when the graph has a cycle; colours never decrease; only nodes reachable from the node change colour; on false every successor of the node is coloured 2 and the invariant holds |
| `Detector.IsDirectedAcyclicGraph` | backend/main.py:38-84 | true exactly when the graph left after dropping edges with an unknown endpoint has no directed cycle; true for an empty node list whatever the edges |
| `Pipeline.ParsePipeline` | backend/main.py:96-104 | the counts are the raw list lengths, dropped edges included; the flag is true exactly when the filtered graph has no cycle |
| `Pipeline.FilteredCyclesAreRequestCycles` | backend/main.py:56-58 | a cycle of the built graph is the same thing as a cycle through request edges whose ids are all node ids |
| `Pipeline.EdgeRankingAcyclic` | backend/main.py:56-58 | a numbering of the node ids that every kept edge lowers shows there is no cycle |
| `Pipeline.SelfLoopIsCycle` | backend/main.py:57-58 | a self-loop on a node id is a cycle, so the flag is false |
| `Pipeline.NoEdgesNoCycle` | backend/main.py:56-58 | with no edges there is no cycle, for any node list |
| `Pipeline.OrderIrrelevant` | backend/main.py:51-58 | permuting the node list or the edge list does not change whether there is a cycle |
| `Pipeline.TriangleHasCycle` | backend/main.py:63-84 | A -> B -> C -> A is a cycle |
| `Pipeline.ChainIsAcyclic` | backend/main.py:63-84 | A -> B -> C has no cycle |
| `Pipeline.DiamondIsAcyclic` | backend/main.py:63-84 | A -> B, A -> C, B -> D, C -> D has no cycle |
| `Pipeline.DanglingEdgeOnChain` | backend/main.py:56-58 | adding A -> Z, with Z not a node id, to the chain A -> B -> C leaves it acyclic |

## Left out

- The FastAPI application, the CORS middleware and the `GET /` ping route (backend/main.py:6-14, 86-88): HTTP wiring with no logic.
- Schema validation and the node fields `type`, `position` (floating point) and `data`, and the edge fields `id`, `sourceHandle` and `targetHandle` (backend/main.py:16-36): no part of the logic reads them. A node is its id; an edge is its source and target.
- The exception handler, its `print` and the HTTP 500 response (backend/main.py:106-108): the modelled computation always terminates with a value, so that path is taken only through the recursion limit below.
- Python's recursion-depth limit: the model has unbounded recursion. In Python, `has_cycle_dfs` recurses once per node along a path, so a chain of roughly 1000 nodes exceeds the default limit and raises `RecursionError`. That is an `Exception`, so the handler at backend/main.py:106-108 catches it and the client gets HTTP 500 instead of an answer. The model answers such a graph normally.
- Python's set iteration order for the driver loop: modelled as an arbitrary choice of the next pending id.
