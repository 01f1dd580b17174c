/** Edges, vertex sets and connectivity of undirected graphs given as sets of
    edges. An edge is the frozenset of the vertices it joins. */
module Graphs {

  /** An edge: the set of vertices it joins (a Python frozenset). */
  type Edge<V> = set<V>

  /** An edge with exactly two distinct ends. */
  predicate IsPair<V>(e: Edge<V>) {
    |e| == 2
  }

  /** A simple graph: every edge joins two distinct vertices. The trigger makes
      the solver apply this only to edges whose two-endedness is asked about,
      not to every edge it comes across. */
  ghost predicate Simple<V>(graph: set<Edge<V>>) {
    forall e {:trigger IsPair(e)} :: e in graph ==> IsPair(e)
  }

  /** The vertices touched by a collection of edges: the union of the edges. */
  function Vertices<V>(edges: set<Edge<V>>): (vs: set<V>)
    ensures forall e :: e in edges ==> e <= vs
    ensures forall v :: v in vs ==> Covered(v, edges)
  {
    set e, v | e in edges && v in e :: v
  }

  /** Vertex v lies on some edge of the collection. */
  ghost predicate Covered<V>(v: V, edges: set<Edge<V>>) {
    exists e :: e in edges && v in e
  }

  /** Edge e shares a vertex with some edge of the collection. */
  ghost predicate Touches<V>(e: Edge<V>, edges: set<Edge<V>>) {
    exists s :: s in edges && e * s != {}
  }

  /** A cut of a vertex set: a part that is neither empty nor everything. */
  ghost predicate ProperCut<V>(cut: set<V>, vs: set<V>) {
    cut <= vs && cut != {} && cut != vs
  }

  /** Edge e has exactly one endpoint on the given side of a cut. */
  ghost predicate Crosses<V>(e: Edge<V>, side: set<V>) {
    |e * side| == 1
  }

  /** A graph is connected when every cut of its vertices is crossed by one
      of its edges (for finite graphs whose edges have two ends this is
      equivalent to the existence of a path between any two vertices). */
  ghost predicate Connected<V>(edges: set<Edge<V>>) {
    var vs := Vertices(edges);
    forall cut | cut <= vs && cut != {} && cut != vs :: exists e :: e in edges && Crosses(e, cut)
  }

  lemma VerticesMonotone<V>(small: set<Edge<V>>, big: set<Edge<V>>)
    requires small <= big
    ensures Vertices(small) <= Vertices(big)
  {
  }

  lemma SubsetCard<V>(a: set<V>, b: set<V>)
    requires a <= b
    ensures |a| <= |b|
    ensures |a| == |b| ==> a == b
  {
    assert b == a + (b - a);
    if |a| == |b| {
      assert |b - a| == 0;
    }
  }

  /** Adding an edge adds exactly its own vertices. */
  lemma VerticesAdd<V>(edges: set<Edge<V>>, e: Edge<V>)
    ensures Vertices(edges + {e}) == Vertices(edges) + e
  {
  }

  /** A set of one element is that element's singleton. */
  lemma Singleton<V>(s: set<V>, y: V)
    requires |s| == 1 && y in s
    ensures s == {y}
  {
    SubsetCard({y}, s);
  }

  /** A two-element set is the pair of any of its elements and another one. */
  lemma PairWith<V>(e: set<V>, y: V) returns (x: V)
    requires |e| == 2 && y in e
    ensures x != y && e == {x, y}
  {
    assert e == (e - {y}) + {y};
    assert |e - {y}| == 1;
    x :| x in e - {y};
    Singleton(e - {y}, x);
  }

  /** How many ends of a two-ended edge lie in a vertex set. */
  lemma PairMeets<V>(x: V, y: V, vs: set<V>)
    requires x != y
    ensures |{x, y} * vs| == (if x in vs then 1 else 0) + (if y in vs then 1 else 0)
  {
    if x in vs && y in vs {
      assert {x, y} * vs == {x, y};
    } else if x in vs {
      assert {x, y} * vs == {x};
    } else if y in vs {
      assert {x, y} * vs == {y};
    } else {
      assert {x, y} * vs == {};
    }
  }

  /** An edge with one endpoint inside the covered vertices and one outside
      brings exactly one new vertex. */
  lemma {:induction false} AddCrossingEdge<V>(edges: set<Edge<V>>, e: Edge<V>) returns (x: V, y: V)
    requires |e| == 2
    requires Crosses(e, Vertices(edges))
    ensures x in e && x !in Vertices(edges) && y in e && y in Vertices(edges) && e == {x, y}
    ensures Vertices(edges + {e}) == Vertices(edges) + {x}
    ensures |Vertices(edges + {e})| == |Vertices(edges)| + 1
  {
    var vs := Vertices(edges);
    VerticesAdd(edges, e);
    y :| y in e * vs;
    Singleton(e * vs, y);
    x := PairWith(e, y);
    assert x !in e * vs;
    assert vs + e == vs + {x};
  }

  /** One edge with two ends is a connected graph. */
  lemma SingleEdgeConnected<V>(e: Edge<V>)
    requires |e| == 2
    ensures Vertices({e}) == e
    ensures Connected({e})
  {
    assert Vertices({e}) == e;
    forall cut | cut <= e && cut != {} && cut != e
      ensures exists f :: f in {e} && Crosses(f, cut)
    {
      SubsetCard(cut, e);
      assert e * cut == cut;
      assert Crosses(e, cut);
    }
  }

  /** A cut of a vertex set grown by one vertex x, that does not split the
      old vertices, is crossed by any edge from x to an old vertex y. */
  lemma CutAtNewVertex<V>(t: set<V>, x: V, y: V, cut: set<V>)
    requires x !in t && y in t
    requires ProperCut(cut, t + {x})
    requires cut * t == {} || cut * t == t
    ensures Crosses({x, y}, cut)
  {
    if cut * t == {} {
      assert cut == {x};
      assert {x, y} * cut == {x};
    } else {
      assert x !in cut;
      assert {x, y} * cut == {y};
    }
  }

  /** An edge inside t that crosses the part of a cut lying in t crosses the cut. */
  lemma CrossesWithin<V>(f: Edge<V>, t: set<V>, cut: set<V>)
    requires f <= t
    requires Crosses(f, cut * t)
    ensures Crosses(f, cut)
  {
    assert f * cut == f * (cut * t);
  }

  /** The cut step of ConnectedExtend: a cut of the grown vertex set is
      crossed by an old edge or by the new one. */
  lemma CutOfExtension<V>(edges: set<Edge<V>>, e: Edge<V>, x: V, y: V, cut: set<V>)
    requires Connected(edges)
    requires e == {x, y} && x !in Vertices(edges) && y in Vertices(edges)
    requires ProperCut(cut, Vertices(edges) + {x})
    ensures exists f :: f in edges + {e} && Crosses(f, cut)
  {
    var t := Vertices(edges);
    if cut * t == {} || cut * t == t {
      CutAtNewVertex(t, x, y, cut);
      assert e in edges + {e};
    } else {
      var inner := cut * t;
      assert inner <= t && inner != {} && inner != t;
      var f :| f in edges && Crosses(f, inner);
      CrossesWithin(f, t, cut);
      assert f in edges + {e};
    }
  }

  /** Adding an edge that crosses from the covered vertices to a new vertex
      keeps a connected graph connected. */
  lemma {:induction false} ConnectedExtend<V>(edges: set<Edge<V>>, e: Edge<V>)
    requires Connected(edges)
    requires |e| == 2
    requires Crosses(e, Vertices(edges))
    ensures Connected(edges + {e})
  {
    var x, y := AddCrossingEdge(edges, e);
    var grown := Vertices(edges + {e});
    forall cut | cut <= grown && cut != {} && cut != grown
      ensures exists f :: f in edges + {e} && Crosses(f, cut)
    {
      CutOfExtension(edges, e, x, y, cut);
    }
  }

  /** A graph that contains a connected part that touches all of its vertices is
      itself connected. */
  lemma ConnectedBySpanningPart<V>(part: set<Edge<V>>, edges: set<Edge<V>>)
    requires part <= edges
    requires Vertices(part) == Vertices(edges)
    requires Connected(part)
    ensures Connected(edges)
  {
    var vs := Vertices(edges);
    forall cut | cut <= vs && cut != {} && cut != vs
      ensures exists f :: f in edges && Crosses(f, cut)
    {
      var f :| f in part && Crosses(f, cut);
    }
  }

  /** A cut that no edge crosses shows that a graph is disconnected. */
  lemma UncrossedCut<V>(edges: set<Edge<V>>, cut: set<V>)
    requires ProperCut(cut, Vertices(edges))
    requires forall e :: e in edges ==> !Crosses(e, cut)
    ensures !Connected(edges)
  {
  }
}
