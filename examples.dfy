/** The examples in the docstrings of the module alg: fringe and farfringe
    on a five-edge graph, and prim on the seven-vertex weighted graph. */
module AlgExamples {
  import opened Results
  import opened Graphs
  import opened Alg

  // The fringe example: the path a-b-d-e with the extra edges b-c and a-c.
  const AB: Edge<char> := {'a', 'b'}
  const BC: Edge<char> := {'b', 'c'}
  const BD: Edge<char> := {'b', 'd'}
  const AC: Edge<char> := {'a', 'c'}
  const DE: Edge<char> := {'d', 'e'}

  lemma FringeDocVertices()
    ensures Vertices({AB, BC}) == {'a', 'b', 'c'}
  {
    VerticesAdd({}, AB);
    VerticesAdd({AB}, BC);
    assert {} + {AB} == {AB};
    assert {AB} + {BC} == {AB, BC};
  }

  lemma FringeDocOutside()
    ensures {AB, BC, BD, AC, DE} - {AB, BC} == {BD, AC, DE}
  {
    assert 'd' in BD && 'd' !in AB && 'd' !in BC;
    assert 'c' in AC && 'c' !in AB;
    assert 'a' in AC && 'a' !in BC;
    assert 'e' in DE && 'e' !in AB && 'e' !in BC;
  }

  /** fringe({ab, bc}, {ab, bc, bd, ac, de}) is {ac, bd}: ac joins two vertices
      of the subgraph and bd one, while de misses it. */
  lemma FringeDocExample()
    ensures Fringe({AB, BC}, {AB, BC, BD, AC, DE}) == Ok({AC, BD})
  {
    var sub, graph := {AB, BC}, {AB, BC, BD, AC, DE};
    var r := Fringe(sub, graph).value;
    FringeDocOutside();
    assert 'b' in BD * AB;
    assert 'a' in AC * AB;
    assert DE * AB == {} && DE * BC == {};
    assert Touches(AC, sub) && Touches(BD, sub) && !Touches(DE, sub);
    assert AC in r && BD in r && DE !in r;
    assert r <= {BD, AC, DE};
    assert r == {AC, BD};
  }

  /** farfringe({ab, bc}, {ab, bc, bd, ac, de}) is {bd} alone: both ends of ac
      are already on the subgraph. */
  lemma FarFringeDocExample()
    ensures FarFringe({AB, BC}, {AB, BC, BD, AC, DE}) == Ok({BD})
  {
    var sub, graph := {AB, BC}, {AB, BC, BD, AC, DE};
    var r := FarFringe(sub, graph).value;
    FringeDocOutside();
    FringeDocVertices();
    var vs := Vertices(sub);
    PairMeets('b', 'd', vs);
    PairMeets('a', 'c', vs);
    PairMeets('d', 'e', vs);
    assert BD in r && AC !in r && DE !in r;
    assert r <= {BD, AC, DE};
    assert r == {BD};
  }

  // The prim example: seven vertices a..g and eleven weighted edges; ab and
  // de are the edges of the same names above.
  const AD: Edge<char> := {'a', 'd'}
  const BE: Edge<char> := {'b', 'e'}
  const CE: Edge<char> := {'c', 'e'}
  const DF: Edge<char> := {'d', 'f'}
  const EF: Edge<char> := {'e', 'f'}
  const EG: Edge<char> := {'e', 'g'}
  const FG: Edge<char> := {'f', 'g'}

  const Weights: map<Edge<char>, int> :=
    map[AD := 5, BD := 9, DE := 15, DF := 6, AB := 7, BE := 7, BC := 8, CE := 5, EF := 8, EG := 9, FG := 11]

  /** The tree the docstring shows: ad, df, ab, be, ce, eg. */
  const DocTree: seq<Edge<char>> := [AD, DF, AB, BE, CE, EG]

  /** The run that starts from ce, which weighs as little as ad. */
  const TiedTree: seq<Edge<char>> := [CE, BE, AB, AD, DF, EG]

  /** The sum of the weights of the edges of a tree. */
  function TotalWeight<V>(weight: map<Edge<V>, int>, tree: seq<Edge<V>>): int
    requires forall e :: e in tree ==> e in weight
  {
    if tree == [] then 0 else weight[tree[0]] + TotalWeight(weight, tree[1..])
  }

  lemma WeightTable()
    ensures Weights.Keys == {AD, BD, DE, DF, AB, BE, BC, CE, EF, EG, FG}
    ensures Weights[AD] == 5 && Weights[BD] == 9 && Weights[DE] == 15 && Weights[DF] == 6
    ensures Weights[AB] == 7 && Weights[BE] == 7 && Weights[BC] == 8 && Weights[CE] == 5
    ensures Weights[EF] == 8 && Weights[EG] == 9 && Weights[FG] == 11
  {
  }

  lemma KeyWeight(f: Edge<char>)
    requires f in Weights.Keys
    ensures || (f == AD && Weights[f] == 5) || (f == BD && Weights[f] == 9)
            || (f == DE && Weights[f] == 15) || (f == DF && Weights[f] == 6)
            || (f == AB && Weights[f] == 7) || (f == BE && Weights[f] == 7)
            || (f == BC && Weights[f] == 8) || (f == CE && Weights[f] == 5)
            || (f == EF && Weights[f] == 8) || (f == EG && Weights[f] == 9)
            || (f == FG && Weights[f] == 11)
  {
    WeightTable();
  }

  /** e leaves the subgraph's vertices and every other edge outside the
      subgraph that weighs no more than e does not: e is the one lightest
      far-fringe edge. */
  ghost predicate OnlyLightestCrossing<V>(weight: map<Edge<V>, int>, subgraph: set<Edge<V>>, e: Edge<V>) {
    subgraph != {} && subgraph <= weight.Keys &&
    e in weight.Keys - subgraph && Crosses(e, Vertices(subgraph)) &&
    forall f :: f in weight.Keys - subgraph && f != e && weight[f] <= weight[e] ==> !Crosses(f, Vertices(subgraph))
  }

  /** The parts of OnlyLightestCrossing, with the subgraph's vertices named. */
  lemma OnlyLightestCrossingIntro<V>(weight: map<Edge<V>, int>, subgraph: set<Edge<V>>, e: Edge<V>, vs: set<V>)
    requires subgraph != {} && subgraph <= weight.Keys && e in weight.Keys - subgraph
    requires Vertices(subgraph) == vs && Crosses(e, vs)
    requires forall f :: f in weight.Keys - subgraph && f != e && weight[f] <= weight[e] ==> !Crosses(f, vs)
    ensures OnlyLightestCrossing(weight, subgraph, e)
  {
  }

  /** Appending the one lightest crossing edge is a greedy step. */
  lemma GreedyStepByCrossing<V>(weight: map<Edge<V>, int>, tree: seq<Edge<V>>, k: nat)
    requires 1 <= k < |tree|
    requires OnlyLightestCrossing(weight, Elems(tree[..k]), tree[k])
    ensures GreedyStep(weight, tree, k)
  {
  }

  /** A greedy step can only append the one lightest crossing edge. */
  lemma GreedyStepIsOnly<V>(weight: map<Edge<V>, int>, tree: seq<Edge<V>>, k: nat, e: Edge<V>)
    requires 1 <= k < |tree|
    requires GreedyStep(weight, tree, k)
    requires OnlyLightestCrossing(weight, Elems(tree[..k]), e)
    ensures tree[k] == e
  {
    var sub := Elems(tree[..k]);
    assert e in FarFringe(sub, weight.Keys).value;
  }

  /** A greedy run that starts like a path whose every step is the one
      lightest crossing edge is that path. */
  lemma {:induction false} GreedyFollows<V>(weight: map<Edge<V>, int>, tree: seq<Edge<V>>, path: seq<Edge<V>>, m: nat)
    requires GreedyTree(weight, tree) && |tree| == |path|
    requires 1 <= m <= |path| && tree[0] == path[0]
    requires forall k :: 1 <= k < |path| ==> OnlyLightestCrossing(weight, Elems(path[..k]), path[k])
    ensures tree[..m] == path[..m]
  {
    if m > 1 {
      assert GreedyStep(weight, tree, m - 1);
      GreedyFollows(weight, tree, path, m - 1);
      GreedyStepIsOnly(weight, tree, m - 1, path[m - 1]);
      PrefixStep(tree, path, m);
    }
  }

  /** Prefixes that agree and are followed by the same element agree one further. */
  lemma PrefixStep<T>(a: seq<T>, b: seq<T>, m: nat)
    requires 1 <= m <= |a| && m <= |b|
    requires a[..m - 1] == b[..m - 1] && a[m - 1] == b[m - 1]
    ensures a[..m] == b[..m]
  {
    assert a[..m] == a[..m - 1] + [a[m - 1]];
    assert b[..m] == b[..m - 1] + [b[m - 1]];
  }

  lemma DocVertices1()
    ensures Vertices({AD}) == {'a', 'd'}
  {
    VerticesAdd({}, AD);
    assert {} + {AD} == {AD};
  }

  lemma DocVertices2()
    ensures Vertices({AD, DF}) == {'a', 'd', 'f'}
  {
    DocVertices1();
    VerticesAdd({AD}, DF);
    assert {AD} + {DF} == {AD, DF};
  }

  lemma DocVertices3()
    ensures Vertices({AD, DF, AB}) == {'a', 'b', 'd', 'f'}
  {
    DocVertices2();
    VerticesAdd({AD, DF}, AB);
    assert {AD, DF} + {AB} == {AD, DF, AB};
  }

  lemma DocVertices4()
    ensures Vertices({AD, DF, AB, BE}) == {'a', 'b', 'd', 'e', 'f'}
  {
    DocVertices3();
    VerticesAdd({AD, DF, AB}, BE);
    assert {AD, DF, AB} + {BE} == {AD, DF, AB, BE};
  }

  lemma DocVertices5()
    ensures Vertices({AD, DF, AB, BE, CE}) == {'a', 'b', 'c', 'd', 'e', 'f'}
  {
    DocVertices4();
    VerticesAdd({AD, DF, AB, BE}, CE);
    assert {AD, DF, AB, BE} + {CE} == {AD, DF, AB, BE, CE};
  }

  lemma TiedVertices1()
    ensures Vertices({CE}) == {'c', 'e'}
  {
    VerticesAdd({}, CE);
    assert {} + {CE} == {CE};
  }

  lemma TiedVertices2()
    ensures Vertices({CE, BE}) == {'b', 'c', 'e'}
  {
    TiedVertices1();
    VerticesAdd({CE}, BE);
    assert {CE} + {BE} == {CE, BE};
  }

  lemma TiedVertices3()
    ensures Vertices({CE, BE, AB}) == {'a', 'b', 'c', 'e'}
  {
    TiedVertices2();
    VerticesAdd({CE, BE}, AB);
    assert {CE, BE} + {AB} == {CE, BE, AB};
  }

  lemma TiedVertices4()
    ensures Vertices({CE, BE, AB, AD}) == {'a', 'b', 'c', 'd', 'e'}
  {
    TiedVertices3();
    VerticesAdd({CE, BE, AB}, AD);
    assert {CE, BE, AB} + {AD} == {CE, BE, AB, AD};
  }

  lemma TiedVertices5()
    ensures Vertices({CE, BE, AB, AD, DF}) == {'a', 'b', 'c', 'd', 'e', 'f'}
  {
    TiedVertices4();
    VerticesAdd({CE, BE, AB, AD}, DF);
    assert {CE, BE, AB, AD} + {DF} == {CE, BE, AB, AD, DF};
  }

  lemma DocOthers1(f: Edge<char>)
    requires f in Weights.Keys - {AD} && f != DF && Weights[f] <= Weights[DF]
    ensures !Crosses(f, {'a', 'd'})
  {
    var vs := {'a', 'd'};
    KeyWeight(f);
    PairMeets('c', 'e', vs);
  }

  lemma DocStep1()
    ensures OnlyLightestCrossing(Weights, {AD}, DF)
  {
    DocVertices1();
    var vs := {'a', 'd'};
    PairMeets('d', 'f', vs);
    forall f | f in Weights.Keys - {AD} && f != DF && Weights[f] <= Weights[DF]
      ensures !Crosses(f, vs)
    {
      DocOthers1(f);
    }
    assert {AD} <= Weights.Keys && DF in Weights.Keys - {AD} by { WeightTable(); }
    OnlyLightestCrossingIntro(Weights, {AD}, DF, vs);
  }

  lemma DocOthers2(f: Edge<char>)
    requires f in Weights.Keys - {AD, DF} && f != AB && Weights[f] <= Weights[AB]
    ensures !Crosses(f, {'a', 'd', 'f'})
  {
    var vs := {'a', 'd', 'f'};
    KeyWeight(f);
    PairMeets('c', 'e', vs);
    PairMeets('b', 'e', vs);
  }

  lemma DocStep2()
    ensures OnlyLightestCrossing(Weights, {AD, DF}, AB)
  {
    DocVertices2();
    var vs := {'a', 'd', 'f'};
    PairMeets('a', 'b', vs);
    forall f | f in Weights.Keys - {AD, DF} && f != AB && Weights[f] <= Weights[AB]
      ensures !Crosses(f, vs)
    {
      DocOthers2(f);
    }
    assert {AD, DF} <= Weights.Keys && AB in Weights.Keys - {AD, DF} by { WeightTable(); }
    OnlyLightestCrossingIntro(Weights, {AD, DF}, AB, vs);
  }

  lemma DocOthers3(f: Edge<char>)
    requires f in Weights.Keys - {AD, DF, AB} && f != BE && Weights[f] <= Weights[BE]
    ensures !Crosses(f, {'a', 'b', 'd', 'f'})
  {
    var vs := {'a', 'b', 'd', 'f'};
    KeyWeight(f);
    PairMeets('c', 'e', vs);
  }

  lemma DocStep3()
    ensures OnlyLightestCrossing(Weights, {AD, DF, AB}, BE)
  {
    DocVertices3();
    var vs := {'a', 'b', 'd', 'f'};
    PairMeets('b', 'e', vs);
    forall f | f in Weights.Keys - {AD, DF, AB} && f != BE && Weights[f] <= Weights[BE]
      ensures !Crosses(f, vs)
    {
      DocOthers3(f);
    }
    assert {AD, DF, AB} <= Weights.Keys && BE in Weights.Keys - {AD, DF, AB} by { WeightTable(); }
    OnlyLightestCrossingIntro(Weights, {AD, DF, AB}, BE, vs);
  }

  lemma DocOthers4(f: Edge<char>)
    requires f in Weights.Keys - {AD, DF, AB, BE} && f != CE
    ensures Weights[f] > Weights[CE]
  {
    KeyWeight(f);
  }

  lemma DocStep4()
    ensures OnlyLightestCrossing(Weights, {AD, DF, AB, BE}, CE)
  {
    DocVertices4();
    var vs := {'a', 'b', 'd', 'e', 'f'};
    PairMeets('c', 'e', vs);
    forall f | f in Weights.Keys - {AD, DF, AB, BE} && f != CE
      ensures Weights[f] > Weights[CE]
    {
      DocOthers4(f);
    }
    assert {AD, DF, AB, BE} <= Weights.Keys && CE in Weights.Keys - {AD, DF, AB, BE} by { WeightTable(); }
    OnlyLightestCrossingIntro(Weights, {AD, DF, AB, BE}, CE, vs);
  }

  lemma DocOthers5(f: Edge<char>)
    requires f in Weights.Keys - {AD, DF, AB, BE, CE} && f != EG && Weights[f] <= Weights[EG]
    ensures !Crosses(f, {'a', 'b', 'c', 'd', 'e', 'f'})
  {
    var vs := {'a', 'b', 'c', 'd', 'e', 'f'};
    KeyWeight(f);
    PairMeets('b', 'd', vs);
    PairMeets('b', 'c', vs);
    PairMeets('e', 'f', vs);
  }

  lemma DocStep5()
    ensures OnlyLightestCrossing(Weights, {AD, DF, AB, BE, CE}, EG)
  {
    DocVertices5();
    var vs := {'a', 'b', 'c', 'd', 'e', 'f'};
    PairMeets('e', 'g', vs);
    forall f | f in Weights.Keys - {AD, DF, AB, BE, CE} && f != EG && Weights[f] <= Weights[EG]
      ensures !Crosses(f, vs)
    {
      DocOthers5(f);
    }
    assert {AD, DF, AB, BE, CE} <= Weights.Keys && EG in Weights.Keys - {AD, DF, AB, BE, CE} by { WeightTable(); }
    OnlyLightestCrossingIntro(Weights, {AD, DF, AB, BE, CE}, EG, vs);
  }

  lemma TiedOthers1(f: Edge<char>)
    requires f in Weights.Keys - {CE} && f != BE && Weights[f] <= Weights[BE]
    ensures !Crosses(f, {'c', 'e'})
  {
    var vs := {'c', 'e'};
    KeyWeight(f);
    PairMeets('a', 'd', vs);
    PairMeets('d', 'f', vs);
    PairMeets('a', 'b', vs);
  }

  lemma TiedStep1()
    ensures OnlyLightestCrossing(Weights, {CE}, BE)
  {
    TiedVertices1();
    var vs := {'c', 'e'};
    PairMeets('b', 'e', vs);
    forall f | f in Weights.Keys - {CE} && f != BE && Weights[f] <= Weights[BE]
      ensures !Crosses(f, vs)
    {
      TiedOthers1(f);
    }
    assert {CE} <= Weights.Keys && BE in Weights.Keys - {CE} by { WeightTable(); }
    OnlyLightestCrossingIntro(Weights, {CE}, BE, vs);
  }

  lemma TiedOthers2(f: Edge<char>)
    requires f in Weights.Keys - {CE, BE} && f != AB && Weights[f] <= Weights[AB]
    ensures !Crosses(f, {'b', 'c', 'e'})
  {
    var vs := {'b', 'c', 'e'};
    KeyWeight(f);
    PairMeets('a', 'd', vs);
    PairMeets('d', 'f', vs);
  }

  lemma TiedStep2()
    ensures OnlyLightestCrossing(Weights, {CE, BE}, AB)
  {
    TiedVertices2();
    var vs := {'b', 'c', 'e'};
    PairMeets('a', 'b', vs);
    forall f | f in Weights.Keys - {CE, BE} && f != AB && Weights[f] <= Weights[AB]
      ensures !Crosses(f, vs)
    {
      TiedOthers2(f);
    }
    assert {CE, BE} <= Weights.Keys && AB in Weights.Keys - {CE, BE} by { WeightTable(); }
    OnlyLightestCrossingIntro(Weights, {CE, BE}, AB, vs);
  }

  lemma TiedOthers3(f: Edge<char>)
    requires f in Weights.Keys - {CE, BE, AB} && f != AD
    ensures Weights[f] > Weights[AD]
  {
    KeyWeight(f);
  }

  lemma TiedStep3()
    ensures OnlyLightestCrossing(Weights, {CE, BE, AB}, AD)
  {
    TiedVertices3();
    var vs := {'a', 'b', 'c', 'e'};
    PairMeets('a', 'd', vs);
    forall f | f in Weights.Keys - {CE, BE, AB} && f != AD
      ensures Weights[f] > Weights[AD]
    {
      TiedOthers3(f);
    }
    assert {CE, BE, AB} <= Weights.Keys && AD in Weights.Keys - {CE, BE, AB} by { WeightTable(); }
    OnlyLightestCrossingIntro(Weights, {CE, BE, AB}, AD, vs);
  }

  lemma TiedOthers4(f: Edge<char>)
    requires f in Weights.Keys - {CE, BE, AB, AD} && f != DF
    ensures Weights[f] > Weights[DF]
  {
    KeyWeight(f);
  }

  lemma TiedStep4()
    ensures OnlyLightestCrossing(Weights, {CE, BE, AB, AD}, DF)
  {
    TiedVertices4();
    var vs := {'a', 'b', 'c', 'd', 'e'};
    PairMeets('d', 'f', vs);
    forall f | f in Weights.Keys - {CE, BE, AB, AD} && f != DF
      ensures Weights[f] > Weights[DF]
    {
      TiedOthers4(f);
    }
    assert {CE, BE, AB, AD} <= Weights.Keys && DF in Weights.Keys - {CE, BE, AB, AD} by { WeightTable(); }
    OnlyLightestCrossingIntro(Weights, {CE, BE, AB, AD}, DF, vs);
  }

  lemma TiedOthers5(f: Edge<char>)
    requires f in Weights.Keys - {CE, BE, AB, AD, DF} && f != EG && Weights[f] <= Weights[EG]
    ensures !Crosses(f, {'a', 'b', 'c', 'd', 'e', 'f'})
  {
    var vs := {'a', 'b', 'c', 'd', 'e', 'f'};
    KeyWeight(f);
    PairMeets('b', 'd', vs);
    PairMeets('b', 'c', vs);
    PairMeets('e', 'f', vs);
  }

  lemma TiedStep5()
    ensures OnlyLightestCrossing(Weights, {CE, BE, AB, AD, DF}, EG)
  {
    TiedVertices5();
    var vs := {'a', 'b', 'c', 'd', 'e', 'f'};
    PairMeets('e', 'g', vs);
    forall f | f in Weights.Keys - {CE, BE, AB, AD, DF} && f != EG && Weights[f] <= Weights[EG]
      ensures !Crosses(f, vs)
    {
      TiedOthers5(f);
    }
    assert {CE, BE, AB, AD, DF} <= Weights.Keys && EG in Weights.Keys - {CE, BE, AB, AD, DF} by { WeightTable(); }
    OnlyLightestCrossingIntro(Weights, {CE, BE, AB, AD, DF}, EG, vs);
  }

  lemma DocPrefix(k: nat)
    requires 1 <= k < |DocTree|
    ensures OnlyLightestCrossing(Weights, Elems(DocTree[..k]), DocTree[k])
  {
    if k == 1 {
      assert DocTree[..1] == [AD];
      assert Elems([AD]) == {AD};
      DocStep1();
    } else if k == 2 {
      assert DocTree[..2] == [AD, DF];
      assert Elems([AD, DF]) == {AD, DF};
      DocStep2();
    } else if k == 3 {
      assert DocTree[..3] == [AD, DF, AB];
      assert Elems([AD, DF, AB]) == {AD, DF, AB};
      DocStep3();
    } else if k == 4 {
      assert DocTree[..4] == [AD, DF, AB, BE];
      assert Elems([AD, DF, AB, BE]) == {AD, DF, AB, BE};
      DocStep4();
    } else {
      assert DocTree[..5] == [AD, DF, AB, BE, CE];
      assert Elems([AD, DF, AB, BE, CE]) == {AD, DF, AB, BE, CE};
      DocStep5();
    }
  }

  lemma TiedPrefix(k: nat)
    requires 1 <= k < |TiedTree|
    ensures OnlyLightestCrossing(Weights, Elems(TiedTree[..k]), TiedTree[k])
  {
    if k == 1 {
      assert TiedTree[..1] == [CE];
      assert Elems([CE]) == {CE};
      TiedStep1();
    } else if k == 2 {
      assert TiedTree[..2] == [CE, BE];
      assert Elems([CE, BE]) == {CE, BE};
      TiedStep2();
    } else if k == 3 {
      assert TiedTree[..3] == [CE, BE, AB];
      assert Elems([CE, BE, AB]) == {CE, BE, AB};
      TiedStep3();
    } else if k == 4 {
      assert TiedTree[..4] == [CE, BE, AB, AD];
      assert Elems([CE, BE, AB, AD]) == {CE, BE, AB, AD};
      TiedStep4();
    } else {
      assert TiedTree[..5] == [CE, BE, AB, AD, DF];
      assert Elems([CE, BE, AB, AD, DF]) == {CE, BE, AB, AD, DF};
      TiedStep5();
    }
  }

  /** da and ce are the lightest edges of the whole graph. */
  lemma FirstEdges(e: Edge<char>)
    requires IsLightest(Weights, e, Weights.Keys)
    ensures e == AD || e == CE
  {
    WeightTable();
    KeyWeight(e);
  }

  lemma FirstEdgesLightest()
    ensures IsLightest(Weights, AD, Weights.Keys) && IsLightest(Weights, CE, Weights.Keys)
  {
    WeightTable();
    forall f | f in Weights.Keys
      ensures Weights[AD] <= Weights[f]
    {
      KeyWeight(f);
    }
  }

  /** The tree of the docstring, and the one that starts from the tied edge
      ce, are both runs of Prim's algorithm on the example graph. */
  lemma DocTreesAreGreedy()
    ensures GreedyTree(Weights, DocTree)
    ensures GreedyTree(Weights, TiedTree)
  {
    FirstEdgesLightest();
    forall k | 1 <= k < |DocTree|
      ensures GreedyStep(Weights, DocTree, k)
    {
      DocPrefix(k);
      GreedyStepByCrossing(Weights, DocTree, k);
    }
    forall k | 1 <= k < |TiedTree|
      ensures GreedyStep(Weights, TiedTree, k)
    {
      TiedPrefix(k);
      GreedyStepByCrossing(Weights, TiedTree, k);
    }
  }

  lemma RunFromAD(tree: seq<Edge<char>>)
    requires GreedyTree(Weights, tree) && |tree| == 6 && tree[0] == AD
    ensures tree == DocTree
  {
    forall k | 1 <= k < |DocTree|
      ensures OnlyLightestCrossing(Weights, Elems(DocTree[..k]), DocTree[k])
    {
      DocPrefix(k);
    }
    GreedyFollows(Weights, tree, DocTree, 6);
    assert tree == tree[..6];
  }

  lemma RunFromCE(tree: seq<Edge<char>>)
    requires GreedyTree(Weights, tree) && |tree| == 6 && tree[0] == CE
    ensures tree == TiedTree
  {
    forall k | 1 <= k < |TiedTree|
      ensures OnlyLightestCrossing(Weights, Elems(TiedTree[..k]), TiedTree[k])
    {
      TiedPrefix(k);
    }
    GreedyFollows(Weights, tree, TiedTree, 6);
    assert tree == tree[..6];
  }

  /** Both trees weigh 5 + 6 + 7 + 7 + 5 + 9 = 39. */
  lemma DocTreeWeights()
    ensures forall e :: e in DocTree ==> e in Weights
    ensures forall e :: e in TiedTree ==> e in Weights
    ensures TotalWeight(Weights, DocTree) == 39
    ensures TotalWeight(Weights, TiedTree) == 39
  {
    WeightTable();
    assert [EG][1..] == [];
    assert TotalWeight(Weights, [EG]) == 9;
    assert TotalWeight(Weights, [CE, EG]) == 14 by { assert [CE, EG][1..] == [EG]; }
    assert TotalWeight(Weights, [BE, CE, EG]) == 21 by { assert [BE, CE, EG][1..] == [CE, EG]; }
    assert TotalWeight(Weights, [AB, BE, CE, EG]) == 28 by { assert [AB, BE, CE, EG][1..] == [BE, CE, EG]; }
    assert TotalWeight(Weights, [DF, AB, BE, CE, EG]) == 34 by { assert [DF, AB, BE, CE, EG][1..] == [AB, BE, CE, EG]; }
    assert DocTree[1..] == [DF, AB, BE, CE, EG];
    assert TotalWeight(Weights, [DF, EG]) == 15 by { assert [DF, EG][1..] == [EG]; }
    assert TotalWeight(Weights, [AD, DF, EG]) == 20 by { assert [AD, DF, EG][1..] == [DF, EG]; }
    assert TotalWeight(Weights, [AB, AD, DF, EG]) == 27 by { assert [AB, AD, DF, EG][1..] == [AD, DF, EG]; }
    assert TotalWeight(Weights, [BE, AB, AD, DF, EG]) == 34 by { assert [BE, AB, AD, DF, EG][1..] == [AB, AD, DF, EG]; }
    assert TiedTree[1..] == [BE, AB, AD, DF, EG];
  }

  /** Every run of Prim's algorithm with six edges on the example graph is the
      docstring's tree or the one that starts from ce; both weigh 39. */
  lemma DocGreedyRuns(tree: seq<Edge<char>>)
    requires GreedyTree(Weights, tree) && |tree| == 6
    ensures tree == DocTree || tree == TiedTree
    ensures forall e :: e in tree ==> e in Weights
    ensures TotalWeight(Weights, tree) == 39
  {
    FirstEdges(tree[0]);
    if tree[0] == AD {
      RunFromAD(tree);
    } else {
      RunFromCE(tree);
    }
    DocTreeWeights();
  }

  /** Every edge of the example graph has two ends. */
  lemma WeightsSimple()
    ensures Simple(Weights.Keys)
  {
    forall e | e in Weights.Keys
      ensures IsPair(e)
    {
      KeyWeight(e);
    }
  }

  lemma DocTreeVertices()
    ensures Vertices(Elems(DocTree)) == {'a', 'b', 'c', 'd', 'e', 'f', 'g'}
  {
    DocVertices5();
    VerticesAdd({AD, DF, AB, BE, CE}, EG);
    assert {AD, DF, AB, BE, CE} + {EG} == Elems(DocTree);
  }

  lemma WeightsVerticesWithin()
    ensures Vertices(Weights.Keys) <= {'a', 'b', 'c', 'd', 'e', 'f', 'g'}
  {
    forall v | v in Vertices(Weights.Keys)
      ensures v in {'a', 'b', 'c', 'd', 'e', 'f', 'g'}
    {
      var e :| e in Weights.Keys && v in e;
      KeyWeight(e);
    }
  }

  /** The example graph's vertices are a..g, and the docstring's tree meets
      all of them. */
  lemma WeightsVertices()
    ensures Vertices(Weights.Keys) == {'a', 'b', 'c', 'd', 'e', 'f', 'g'}
    ensures Vertices(Elems(DocTree)) == Vertices(Weights.Keys)
  {
    DocTreeVertices();
    WeightsVerticesWithin();
    assert Elems(DocTree) <= Weights.Keys by { WeightTable(); }
    VerticesMonotone(Elems(DocTree), Weights.Keys);
  }

  /** The docstring's tree spans the example graph, so the graph is connected. */
  lemma WeightsConnected()
    ensures Connected(Weights.Keys)
    ensures SpanningTree(DocTree, Weights.Keys)
  {
    WeightsSimple();
    DocTreesAreGreedy();
    GreedyTreeGrows(Weights, DocTree);
    WeightsVertices();
    ConnectedBySpanningPart(Elems(DocTree), Weights.Keys);
  }

  /** prim on the docstring's graph succeeds and returns the docstring's tree
      or its tie, six edges of total weight 39. */
  method PrimDocExample() returns (r: Result<seq<Edge<char>>, PrimError>)
    ensures r.Ok? && (r.value == DocTree || r.value == TiedTree)
    ensures forall e :: e in r.value ==> e in Weights
    ensures TotalWeight(Weights, r.value) == 39
  {
    WeightsSimple();
    WeightsConnected();
    WeightsVertices();
    WeightTable();
    r := Prim(Weights);
    DocGreedyRuns(r.value);
  }
}
