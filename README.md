# Prim's algorithm over edge sets, in Dafny

This project models the module `alg` (`alg/__init__.py`), which grows a
minimum spanning tree with Prim's algorithm. Edges are Python frozensets of
vertices. A graph is a collection of edges, and a weighted graph is a dict from
edge to weight. The module has three operations:

- `fringe(subgraph, graph)`: the graph edges that share a vertex with the
  subgraph, without the subgraph's own edges.
- `farfringe(subgraph, graph)`: the graph edges with exactly one vertex on the
  subgraph, without the subgraph's own edges. Adding one of these to a tree
  never closes a cycle.
- `prim(graph)`: start from a lightest edge of the graph, then append a
  lightest far-fringe edge of the tree built so far, until the tree has one
  edge fewer than the graph has vertices.

Files:

- `results.dfy` (module `Results`): `Option` and `Result`.
- `graphs.dfy` (module `Graphs`): how the model speaks of graphs.
  - Edges are `set<V>`, and `Vertices` is the union of the edges.
  - A graph is `Connected` when every cut of its vertices (a nonempty proper
    subset) is crossed by an edge with exactly one end on the cut's side.
  - It also holds the lemmas about growing a tree one vertex at a time.
- `alg.dfy` (module `Alg`): the module's behaviour.
  - `Fringe` and `FarFringe` are pure functions. Their failures are `Err`
    values.
  - `Lightest` models `min(..., key=graph.get)` as a scan over a set.
  - `Prim` is a method whose loop appends to a sequence, as the Python code
    appends to a list. It is proved against the ghost predicates `GreedyTree` (each
    edge is a lightest far-fringe edge of the edges before it) and
    `SpanningTree`.
- `examples.dfy` (module `AlgExamples`): the docstring examples.
  - `fringe` and `farfringe` on the five-edge graph.
  - `prim` on the seven-vertex graph. Every greedy run there is worked out:
    there are two, because edges ad and ce both weigh 5.

Python's exceptions become error values:

- `fringe`/`farfringe` raise a `ValueError` when the subgraph is not part of
  the graph. This is `NotSubgraph`, and it is checked first.
- `frozenset.union(*subgraph)` raises a `TypeError` on an empty subgraph
  (there is nothing to take the union of). This is `EmptySubgraph`.
- `prim` fails in two places:
  - `min` over an empty dict, when the graph is empty: `EmptyGraph`;
  - `min` over an empty far fringe, which happens exactly when the graph is
    disconnected: `EmptyFrontier`.

## Model

| member | source | states |
|---|---|---|
| Alg.Fringe | alg/__init__.py:21-26 | Fails with NotSubgraph exactly when the subgraph is not contained in the graph. Fails with EmptySubgraph exactly when it is contained but empty. Otherwise the result lies in graph minus subgraph, and an edge of graph minus subgraph is in it exactly when it shares a vertex with some subgraph edge. |
| Alg.TouchesVertices | alg/__init__.py:24-25 | An edge meets the union of the subgraph's edges exactly when it shares a vertex with one of those edges (both directions). |
| Alg.FarFringe | alg/__init__.py:47-52 | Has the same two failures as Fringe. Otherwise the result lies in graph minus subgraph, and an edge of graph minus subgraph is in it exactly when it has exactly one vertex in the union of the subgraph's edges. |
| Alg.FarFringeEndpoints | alg/__init__.py:50-52 | A two-ended graph edge is in the far fringe exactly when it is {u, v}, where u lies on a subgraph edge and v does not. |
| Alg.FarFringeInFringe | alg/__init__.py:25-26 | Every far-fringe edge is a fringe edge. |
| Alg.FringeNotFar | alg/__init__.py:25-26 | A two-ended graph edge outside the subgraph is in the fringe but not the far fringe exactly when both of its ends are already subgraph vertices. |
| Alg.FarFringeWithinFringe | alg/__init__.py:21-26 | Fringe and FarFringe reject the same arguments with the same error. The far fringe is a subset of the fringe. On a simple graph, what the fringe adds is exactly the edges with both ends on the subgraph. |
| Alg.Lightest | alg/__init__.py:82-84 | Returns None exactly when the candidates are empty (Python's ValueError). Otherwise it returns a candidate whose weight is at most every candidate's weight. |
| Alg.GreedyPrefix | alg/__init__.py:83-84 | Every nonempty prefix of a greedy run is a greedy run. |
| Alg.GreedyExtend | alg/__init__.py:84 | Appending a lightest far-fringe edge of the tree extends a greedy run. |
| Alg.OneEdgeTree | alg/__init__.py:82 | The one-edge starting tree touches two vertices, has no repeated edge and is connected. |
| Alg.GrownTreeExtend | alg/__init__.py:84 | Appending a new two-ended edge that crosses out of the tree's vertices adds one vertex and keeps the tree connected, with no repeated edge. |
| Alg.GreedyIsChain | alg/__init__.py:82-84 | Every step of a greedy run on a simple graph appends a two-ended graph edge. That edge is not yet in the run and has exactly one end on the vertices of the edges before it. |
| Alg.ChainGrows | alg/__init__.py:83-84 | A sequence of such steps, started from a two-ended graph edge, uses only graph edges and has no repeated edge. It touches exactly one vertex more than it has edges, and it is connected. |
| Alg.GreedyTreeGrows | alg/__init__.py:82-84 | A greedy run on a simple graph uses only graph edges and has no repeated edge. It touches exactly one vertex more than it has edges, and it is connected. |
| Alg.GreedyPrefixSpans | alg/__init__.py:83-84 | On a simple graph, each prefix of length k of a greedy run touches exactly k + 1 vertices: each step adds exactly one new vertex. |
| Alg.NoEdgeCrosses | alg/__init__.py:51-52 | On a simple graph, when the far fringe is empty, no graph edge crosses the subgraph's vertices. |
| Alg.StuckMeansDisconnected | alg/__init__.py:84 | On a simple graph, when the far fringe of a partial tree is empty while the tree misses some vertex, the graph is not connected. |
| Alg.Prim | alg/__init__.py:82-85 | On a graph of two-ended edges: fails with EmptyGraph exactly when the graph is empty, and succeeds exactly when it is nonempty and connected. On success: the first edge is a lightest graph edge, and each later edge is a lightest far-fringe edge of the ones before it. The result is a spanning tree with distinct graph edges, one fewer than the graph's vertices, that touches every vertex and is connected. Each prefix of length k touches k + 1 vertices. |
| Graphs.Vertices | alg/__init__.py:24 | The union of the edges contains every edge, and every vertex in it lies on some edge. |
| Graphs.VerticesAdd | alg/__init__.py:24 | Adding an edge adds exactly its own vertices to the union. |
| Graphs.AddCrossingEdge | alg/__init__.py:84 | A two-ended edge with exactly one end on the covered vertices adds exactly that other end, one vertex more. |
| Graphs.ConnectedExtend | alg/__init__.py:84 | Adding such an edge to a connected graph keeps it connected. |
| Graphs.ConnectedBySpanningPart | alg/__init__.py:83-85 | A graph with a connected part that touches all its vertices is connected. |
| Graphs.UncrossedCut | alg/__init__.py:84 | A cut of the vertices that no edge crosses shows the graph is not connected. |
| AlgExamples.FringeDocExample | alg/__init__.py:7-19 | fringe({ab, bc}, {ab, bc, bd, ac, de}) is {ac, bd}. |
| AlgExamples.FarFringeDocExample | alg/__init__.py:33-45 | farfringe({ab, bc}, {ab, bc, bd, ac, de}) is {bd}. |
| AlgExamples.FirstEdges | alg/__init__.py:59-71 | The only lightest edges of the example graph are ad and ce. |
| AlgExamples.DocTreesAreGreedy | alg/__init__.py:72-80 | The docstring's tree ad, df, ab, be, ce, eg is a greedy run. So is the run ce, be, ab, ad, df, eg that starts from the other lightest edge. |
| AlgExamples.GreedyFollows | alg/__init__.py:84 | A greedy run that starts like a path, where each step of the path is the only lightest crossing edge, is that path. |
| AlgExamples.DocGreedyRuns | alg/__init__.py:59-80 | Every six-edge greedy run on the example graph is one of those two trees, and its total weight is 39. |
| AlgExamples.WeightsConnected | alg/__init__.py:59-80 | The example graph is connected, and the docstring's tree is a spanning tree of it. |
| AlgExamples.PrimDocExample | alg/__init__.py:59-80 | prim on the example graph succeeds with the docstring's tree or its tie, of total weight 39. |

## Left out

- Python's iteration order over sets and dicts is not modelled. It is what breaks ties in `min(..., key=graph.get)`. `Lightest` may return any lightest edge, and `Prim` is proved for every choice.
- AlgExamples.PrimDocExample: states that the result is the docstring's tree or the tied run from ce. `prim`, following the dict's insertion order, picks ad first and so returns the docstring's tree. The model does not fix that order.
- The text of the `ValueError` message is not modelled; only which error occurs is.
- Weights are `int`. Python accepts any comparable weights, floats included.
- Alg.Prim: requires every edge to have exactly two distinct ends. On self-loops or hyperedges the Python code returns something that is not a spanning tree, or raises ValueError, and this model does not describe it. `Fringe` and `FarFringe` do accept arbitrary edges.
- `fringe` and `farfringe` accept any re-iterable collection (list, set, dict) for `subgraph` and `graph`, and `prim` passes its list `tree`. The model takes sets: the Python code converts `subgraph` with `set(...)`, and reads `graph` once through `set(graph)` and once more by iterating over it, so duplicates and order do not matter.
- A one-shot iterator passed as `graph` is not modelled. `set(graph)` uses it up, so the comprehension that follows sees no edge and the Python code returns an empty set where `Fringe`/`FarFringe` return the fringe or far-fringe edges.
- `graph.get` returning `None` for a missing key cannot happen in `prim`, because every candidate is a key of `graph`. `Lightest` requires this.
- That the greedy tree has the least total weight of all spanning trees is not proved. The Python code claims it only through the algorithm's name. What is proved is each step's minimality, the spanning-tree shape, and both runs of the docstring example.
