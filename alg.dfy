/** The module alg: the fringe and far fringe of a subgraph, and Prim's
    algorithm that grows a spanning tree from far-fringe edges. */
module Alg {
  import opened Results
  import opened Graphs

  /** Why fringe and farfringe reject their arguments. */
  datatype FringeError =
    | NotSubgraph    // some subgraph edge is not an edge of the graph (ValueError)
    | EmptySubgraph  // the union of the vertices of no edges is undefined (TypeError)

  /** fringe(subgraph, graph): the graph edges that share a vertex with the
      subgraph, other than the subgraph's own edges. */
  function Fringe<V>(subgraph: set<Edge<V>>, graph: set<Edge<V>>): (r: Result<set<Edge<V>>, FringeError>)
    ensures r == Err(NotSubgraph) <==> !(subgraph <= graph)
    ensures r == Err(EmptySubgraph) <==> subgraph <= graph && subgraph == {}
    ensures r.Ok? ==> r.value <= graph - subgraph
    ensures r.Ok? ==> forall e :: e in graph - subgraph ==> (e in r.value <==> Touches(e, subgraph))
  {
    if !(subgraph <= graph) then Err(NotSubgraph)
    else if subgraph == {} then Err(EmptySubgraph)
    else
      var vertices := Vertices(subgraph);
      var near := set e | e in graph && e * vertices != {};
      TouchesVertices(subgraph);
      Ok(near - subgraph)
  }

  /** Sharing a vertex with some edge is meeting the union of the edges. */
  lemma TouchesVertices<V>(subgraph: set<Edge<V>>)
    ensures forall e: Edge<V> :: e * Vertices(subgraph) != {} <==> Touches(e, subgraph)
  {
    var vs := Vertices(subgraph);
    forall e: Edge<V> | e * vs != {} ensures Touches(e, subgraph) {
      var v :| v in e * vs;
      var s :| s in subgraph && v in s;
      assert v in e * s;
    }
    forall e: Edge<V> | Touches(e, subgraph) ensures e * vs != {} {
      var s :| s in subgraph && e * s != {};
      var v :| v in e * s;
      assert v in e * vs;
    }
  }

  /** farfringe(subgraph, graph): the graph edges with exactly one vertex
      among the subgraph's vertices, other than the subgraph's own edges. */
  function FarFringe<V>(subgraph: set<Edge<V>>, graph: set<Edge<V>>): (r: Result<set<Edge<V>>, FringeError>)
    ensures r == Err(NotSubgraph) <==> !(subgraph <= graph)
    ensures r == Err(EmptySubgraph) <==> subgraph <= graph && subgraph == {}
    ensures r.Ok? ==> r.value <= graph - subgraph
    ensures r.Ok? ==> forall e :: e in graph - subgraph ==> (e in r.value <==> Crosses(e, Vertices(subgraph)))
  {
    if !(subgraph <= graph) then Err(NotSubgraph)
    else if subgraph == {} then Err(EmptySubgraph)
    else
      var vertices := Vertices(subgraph);
      var near := set e | e in graph && |e * vertices| == 1;
      Ok(near - subgraph)
  }

  /** For an edge with two ends, being in the far fringe is having one end on
      a subgraph edge and the other end on none; in particular no subgraph
      edge is in the far fringe. */
  lemma FarFringeEndpoints<V>(subgraph: set<Edge<V>>, graph: set<Edge<V>>, e: Edge<V>)
    requires FarFringe(subgraph, graph).Ok?
    requires e in graph && |e| == 2
    ensures e in FarFringe(subgraph, graph).value <==>
              exists u, v :: e == {u, v} && Covered(u, subgraph) && !Covered(v, subgraph)
  {
    var vs := Vertices(subgraph);
    var y :| y in e;
    var x := PairWith(e, y);
    PairMeets(x, y, vs);
    if e in FarFringe(subgraph, graph).value {
      if y in vs {
        assert e == {y, x} && Covered(y, subgraph) && !Covered(x, subgraph);
      } else {
        assert e == {x, y} && Covered(x, subgraph) && !Covered(y, subgraph);
      }
    }
    if exists u, v :: e == {u, v} && Covered(u, subgraph) && !Covered(v, subgraph) {
      var u, v :| e == {u, v} && Covered(u, subgraph) && !Covered(v, subgraph);
      assert u in vs && v !in vs;
      assert e * vs == {u};
      assert e !in subgraph;
    }
  }

  /** Every far-fringe edge is a fringe edge. */
  lemma FarFringeInFringe<V>(subgraph: set<Edge<V>>, graph: set<Edge<V>>, e: Edge<V>)
    requires FarFringe(subgraph, graph).Ok?
    requires e in FarFringe(subgraph, graph).value
    ensures Fringe(subgraph, graph).Ok? && e in Fringe(subgraph, graph).value
  {
    TouchesVertices(subgraph);
    assert e * Vertices(subgraph) != {};
  }

  /** A two-ended fringe edge is left out of the far fringe exactly when both
      of its ends lie on the subgraph. */
  lemma FringeNotFar<V>(subgraph: set<Edge<V>>, graph: set<Edge<V>>, e: Edge<V>)
    requires FarFringe(subgraph, graph).Ok?
    requires e in graph - subgraph && |e| == 2
    ensures Fringe(subgraph, graph).Ok?
    ensures e in Fringe(subgraph, graph).value - FarFringe(subgraph, graph).value <==> e <= Vertices(subgraph)
  {
    var vs := Vertices(subgraph);
    TouchesVertices(subgraph);
    var y :| y in e;
    var x := PairWith(e, y);
    PairMeets(x, y, vs);
    if e <= vs {
      assert Touches(e, subgraph);
    }
  }

  /** The far fringe refines the fringe: both reject the same arguments, every
      far-fringe edge is a fringe edge, and for edges with two ends the fringe
      edges left out are exactly those with both ends on the subgraph (the
      edges that would close a cycle). */
  lemma FarFringeWithinFringe<V>(subgraph: set<Edge<V>>, graph: set<Edge<V>>)
    ensures FarFringe(subgraph, graph).Err? ==> FarFringe(subgraph, graph) == Fringe(subgraph, graph)
    ensures FarFringe(subgraph, graph).Ok? ==> Fringe(subgraph, graph).Ok?
    ensures FarFringe(subgraph, graph).Ok? ==> FarFringe(subgraph, graph).value <= Fringe(subgraph, graph).value
    ensures FarFringe(subgraph, graph).Ok? && Simple(graph) ==>
              forall e :: e in graph - subgraph ==>
                (e in Fringe(subgraph, graph).value - FarFringe(subgraph, graph).value <==> e <= Vertices(subgraph))
  {
    if FarFringe(subgraph, graph).Ok? {
      forall e | e in FarFringe(subgraph, graph).value
        ensures e in Fringe(subgraph, graph).value
      {
        FarFringeInFringe(subgraph, graph, e);
      }
      if Simple(graph) {
        forall e | e in graph - subgraph
          ensures e in Fringe(subgraph, graph).value - FarFringe(subgraph, graph).value <==> e <= Vertices(subgraph)
        {
          assert IsPair(e);
          FringeNotFar(subgraph, graph, e);
        }
      }
    }
  }

  /** Why prim fails. */
  datatype PrimError =
    | EmptyGraph     // min() over a graph with no edges (ValueError)
    | EmptyFrontier  // min() over an empty far fringe: the graph is disconnected (ValueError)

  /** set(tree): the edges of a sequence of edges. */
  function Elems<V>(tree: seq<Edge<V>>): set<Edge<V>> {
    set e | e in tree
  }

  /** Edge e is a candidate of least weight. */
  ghost predicate IsLightest<V>(weight: map<Edge<V>, int>, e: Edge<V>, candidates: set<Edge<V>>) {
    e in candidates && candidates <= weight.Keys &&
    forall f :: f in candidates ==> weight[e] <= weight[f]
  }

  /** min(candidates, key=weight.get): a scan that keeps the lightest edge met
      so far and fails when there is no candidate. */
  method Lightest<V>(candidates: set<Edge<V>>, weight: map<Edge<V>, int>) returns (r: Option<Edge<V>>)
    requires candidates <= weight.Keys
    ensures r.None? <==> candidates == {}
    ensures r.Some? ==> IsLightest(weight, r.value, candidates)
  {
    if candidates == {} {
      return None;
    }
    var best :| best in candidates;
    var rest := candidates - {best};
    while rest != {}
      invariant rest <= candidates && best in candidates
      invariant forall f :: f in candidates - rest ==> weight[best] <= weight[f]
      decreases rest
    {
      var f :| f in rest;
      if weight[f] < weight[best] {
        best := f;
      }
      rest := rest - {f};
    }
    return Some(best);
  }

  /** Step k of a greedy run: tree[k] is a lightest edge of the far fringe of
      the edges before it. */
  ghost predicate GreedyStep<V>(weight: map<Edge<V>, int>, tree: seq<Edge<V>>, k: nat)
    requires 1 <= k < |tree|
  {
    var frontier := FarFringe(Elems(tree[..k]), weight.Keys);
    frontier.Ok? && IsLightest(weight, tree[k], frontier.value)
  }

  /** A run of Prim's algorithm: the first edge is a lightest edge of the whole
      graph and every later edge is a greedy step. */
  ghost predicate GreedyTree<V>(weight: map<Edge<V>, int>, tree: seq<Edge<V>>) {
    |tree| >= 1 && IsLightest(weight, tree[0], weight.Keys) &&
    forall k :: 1 <= k < |tree| ==> GreedyStep(weight, tree, k)
  }

  /** No edge occurs twice. */
  ghost predicate Distinct<V>(tree: seq<Edge<V>>) {
    forall i, j :: 0 <= i < j < |tree| ==> tree[i] != tree[j]
  }

  /** tree is a spanning tree of graph: distinct graph edges, one fewer than
      the graph's vertices, touching every vertex and connected. */
  ghost predicate SpanningTree<V>(tree: seq<Edge<V>>, graph: set<Edge<V>>) {
    Elems(tree) <= graph && Distinct(tree) &&
    Vertices(Elems(tree)) == Vertices(graph) &&
    |tree| == |Vertices(graph)| - 1 &&
    Connected(Elems(tree))
  }

  /** Every nonempty prefix of a greedy run is a greedy run. */
  lemma GreedyPrefix<V>(weight: map<Edge<V>, int>, tree: seq<Edge<V>>, m: nat)
    requires GreedyTree(weight, tree)
    requires 1 <= m <= |tree|
    ensures GreedyTree(weight, tree[..m])
  {
    forall k | 1 <= k < m
      ensures GreedyStep(weight, tree[..m], k)
    {
      assert GreedyStep(weight, tree, k);
      assert tree[..m][..k] == tree[..k];
    }
  }

  /** Appending a lightest far-fringe edge extends a greedy run. */
  lemma GreedyExtend<V>(weight: map<Edge<V>, int>, tree: seq<Edge<V>>, e: Edge<V>)
    requires GreedyTree(weight, tree)
    requires FarFringe(Elems(tree), weight.Keys).Ok?
    requires IsLightest(weight, e, FarFringe(Elems(tree), weight.Keys).value)
    ensures GreedyTree(weight, tree + [e])
  {
    var grown := tree + [e];
    forall k | 1 <= k < |grown|
      ensures GreedyStep(weight, grown, k)
    {
      if k < |tree| {
        assert GreedyStep(weight, tree, k);
        assert grown[..k] == tree[..k];
      } else {
        assert grown[..k] == tree;
      }
    }
  }

  /** A sequence of distinct edges that touches one vertex more than it has
      edges and is connected: a tree. */
  ghost predicate GrownTree<V>(tree: seq<Edge<V>>) {
    |Vertices(Elems(tree))| == |tree| + 1 && Distinct(tree) && Connected(Elems(tree))
  }

  /** A single two-ended edge is a tree. */
  lemma OneEdgeTree<V>(tree: seq<Edge<V>>)
    requires |tree| == 1 && |tree[0]| == 2
    ensures Elems(tree) == {tree[0]}
    ensures GrownTree(tree)
  {
    assert Elems(tree) == {tree[0]};
    SingleEdgeConnected(tree[0]);
  }

  /** Appending an edge that is not yet in the sequence keeps its edges distinct. */
  lemma DistinctAppend<V>(tree: seq<Edge<V>>, e: Edge<V>)
    requires Distinct(tree) && e !in Elems(tree)
    ensures Distinct(tree + [e])
  {
    var grown := tree + [e];
    forall i, j | 0 <= i < j < |grown|
      ensures grown[i] != grown[j]
    {
      if j == |tree| {
        assert grown[i] == tree[i] && tree[i] in Elems(tree);
      } else {
        assert grown[i] == tree[i] && grown[j] == tree[j];
      }
    }
  }

  /** Appending an edge from the tree's vertices to a new vertex keeps it a tree. */
  lemma GrownTreeExtend<V>(tree: seq<Edge<V>>, e: Edge<V>)
    requires GrownTree(tree)
    requires |e| == 2 && Crosses(e, Vertices(Elems(tree))) && e !in Elems(tree)
    ensures GrownTree(tree + [e])
  {
    var grown := tree + [e];
    assert Elems(grown) == Elems(tree) + {e};
    var x, y := AddCrossingEdge(Elems(tree), e);
    ConnectedExtend(Elems(tree), e);
    DistinctAppend(tree, e);
  }

  /** Step m of a growth chain: tree[m] is a two-ended graph edge, new to the
      sequence, with exactly one end on the vertices of the edges before it. */
  ghost predicate ChainStep<V>(graph: set<Edge<V>>, tree: seq<Edge<V>>, m: nat)
    requires 1 <= m < |tree|
  {
    tree[m] in graph && |tree[m]| == 2 &&
    Crosses(tree[m], Vertices(Elems(tree[..m]))) && tree[m] !in Elems(tree[..m])
  }

  /** A sequence of graph edges that starts with a two-ended edge and whose
      every later edge brings one new vertex. */
  ghost predicate GrowthChain<V>(graph: set<Edge<V>>, tree: seq<Edge<V>>) {
    |tree| >= 1 && tree[0] in graph && |tree[0]| == 2 &&
    forall m | 1 <= m < |tree| :: ChainStep(graph, tree, m)
  }

  /** Every step of a greedy run over a simple graph brings one new vertex. */
  lemma GreedyIsChain<V>(weight: map<Edge<V>, int>, tree: seq<Edge<V>>)
    requires Simple(weight.Keys)
    requires GreedyTree(weight, tree)
    ensures GrowthChain(weight.Keys, tree)
  {
    assert IsPair(tree[0]);
    forall m | 1 <= m < |tree|
      ensures ChainStep(weight.Keys, tree, m)
    {
      assert GreedyStep(weight, tree, m);
      assert IsPair(tree[m]);
    }
  }

  /** Every nonempty prefix of a growth chain is a growth chain. */
  lemma ChainPrefix<V>(graph: set<Edge<V>>, tree: seq<Edge<V>>, m: nat)
    requires GrowthChain(graph, tree)
    requires 1 <= m <= |tree|
    ensures GrowthChain(graph, tree[..m])
  {
    forall k | 1 <= k < m
      ensures ChainStep(graph, tree[..m], k)
    {
      assert tree[..m][..k] == tree[..k];
      assert ChainStep(graph, tree, k);
    }
  }

  /** Appending a graph edge that leads to a new vertex keeps a tree of graph
      edges a tree of graph edges. */
  lemma GrowByGraphEdge<V>(graph: set<Edge<V>>, tree: seq<Edge<V>>, e: Edge<V>)
    requires Elems(tree) <= graph && GrownTree(tree)
    requires e in graph && |e| == 2 && Crosses(e, Vertices(Elems(tree))) && e !in Elems(tree)
    ensures Elems(tree + [e]) <= graph && GrownTree(tree + [e])
  {
    assert Elems(tree + [e]) == Elems(tree) + {e};
    GrownTreeExtend(tree, e);
  }

  /** A growth chain is a tree of graph edges. */
  lemma {:induction false} ChainGrows<V>(graph: set<Edge<V>>, tree: seq<Edge<V>>)
    requires GrowthChain(graph, tree)
    ensures Elems(tree) <= graph
    ensures GrownTree(tree)
    decreases |tree|
  {
    if |tree| == 1 {
      OneEdgeTree(tree);
    } else {
      var m := |tree| - 1;
      assert tree == tree[..m] + [tree[m]];
      ChainPrefix(graph, tree, m);
      ChainGrows(graph, tree[..m]);
      assert ChainStep(graph, tree, m);
      GrowByGraphEdge(graph, tree[..m], tree[m]);
    }
  }

  /** A greedy run over a simple graph is a tree of graph edges. */
  lemma GreedyTreeGrows<V>(weight: map<Edge<V>, int>, tree: seq<Edge<V>>)
    requires Simple(weight.Keys)
    requires GreedyTree(weight, tree)
    ensures Elems(tree) <= weight.Keys
    ensures GrownTree(tree)
  {
    GreedyIsChain(weight, tree);
    ChainGrows(weight.Keys, tree);
  }

  /** Each prefix of length k of a greedy run touches exactly k + 1 vertices:
      every step brings one new vertex, so no step closes a cycle. */
  lemma GreedyPrefixSpans<V>(weight: map<Edge<V>, int>, tree: seq<Edge<V>>)
    requires Simple(weight.Keys)
    requires GreedyTree(weight, tree)
    ensures forall k :: 1 <= k <= |tree| ==> |Vertices(Elems(tree[..k]))| == k + 1
  {
    forall k | 1 <= k <= |tree|
      ensures |Vertices(Elems(tree[..k]))| == k + 1
    {
      GreedyPrefix(weight, tree, k);
      GreedyTreeGrows(weight, tree[..k]);
    }
  }

  /** When the far fringe of a subgraph of two-ended edges is empty, no graph
      edge crosses from the subgraph's vertices to the rest. */
  lemma NoEdgeCrosses<V>(graph: set<Edge<V>>, tree: set<Edge<V>>)
    requires Simple(graph)
    requires FarFringe(tree, graph) == Ok({})
    ensures forall e :: e in graph ==> !Crosses(e, Vertices(tree))
  {
    var cut := Vertices(tree);
    forall e | e in graph
      ensures !Crosses(e, cut)
    {
      if e in tree {
        assert IsPair(e);
        assert e * cut == e;
      } else {
        assert e !in FarFringe(tree, graph).value;
      }
    }
  }

  /** When a partial tree touches some but not all of the graph's vertices and
      its far fringe is empty, the graph is disconnected. */
  lemma StuckMeansDisconnected<V>(graph: set<Edge<V>>, tree: set<Edge<V>>)
    requires Simple(graph)
    requires FarFringe(tree, graph) == Ok({})
    requires ProperCut(Vertices(tree), Vertices(graph))
    ensures !Connected(graph)
  {
    NoEdgeCrosses(graph, tree);
    UncrossedCut(graph, Vertices(tree));
  }

  /** prim(graph): start from a lightest edge of the graph and append, once
      for every vertex after the second, a lightest edge of the far fringe of
      the tree so far. On a graph of two-ended edges it succeeds exactly when
      the graph has an edge and is connected, and then returns a greedy run
      that is a spanning tree. */
  method Prim<V>(graph: map<Edge<V>, int>) returns (r: Result<seq<Edge<V>>, PrimError>)
    requires Simple(graph.Keys)
    ensures r == Err(EmptyGraph) <==> graph.Keys == {}
    ensures r.Ok? <==> graph.Keys != {} && Connected(graph.Keys)
    ensures r.Ok? ==> GreedyTree(graph, r.value)
    ensures r.Ok? ==> SpanningTree(r.value, graph.Keys)
    ensures r.Ok? ==> forall k :: 1 <= k <= |r.value| ==> |Vertices(Elems(r.value[..k]))| == k + 1
  {
    var first := Lightest(graph.Keys, graph);
    if first.None? {
      return Err(EmptyGraph);
    }
    var tree := [first.value];
    var n := |Vertices(graph.Keys)|;
    assert IsPair(first.value);
    SubsetCard(first.value, Vertices(graph.Keys));
    for i := 2 to n
      invariant |tree| == i - 1
      invariant GreedyTree(graph, tree)
    {
      GreedyTreeGrows(graph, tree);
      var frontier := FarFringe(Elems(tree), graph.Keys);
      var next := Lightest(frontier.value, graph);
      if next.None? {
        VerticesMonotone(Elems(tree), graph.Keys);
        StuckMeansDisconnected(graph.Keys, Elems(tree));
        return Err(EmptyFrontier);
      }
      GreedyExtend(graph, tree, next.value);
      tree := tree + [next.value];
    }
    GreedyTreeGrows(graph, tree);
    VerticesMonotone(Elems(tree), graph.Keys);
    SubsetCard(Vertices(Elems(tree)), Vertices(graph.Keys));
    ConnectedBySpanningPart(Elems(tree), graph.Keys);
    GreedyPrefixSpans(graph, tree);
    return Ok(tree);
  }
}
