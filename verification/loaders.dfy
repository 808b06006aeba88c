/** The graph-building rules of the edge-table loaders, over rows that are
    already parsed into (source, target, weight) triples. */
module Loaders {
  import opened Graphs

  /** `graph[source].append((target, weight))` for every row, in row order. */
  function BuildAdjacency(es: seq<Edge>): Adjacency
    decreases |es|
  {
    if |es| == 0 then map[]
    else
      var g := BuildAdjacency(es[..|es| - 1]);
      var e := es[|es| - 1];
      g[e.src := Arcs(g, e.src) + [Arc(e.dst, e.w)]]
  }

  /** Reference definition: the arcs of `u` are the rows whose source is `u`,
      in row order. */
  function ArcsOf(es: seq<Edge>, u: int): seq<Arc>
    decreases |es|
  {
    if |es| == 0 then []
    else (if es[0].src == u then [Arc(es[0].dst, es[0].w)] else []) + ArcsOf(es[1..], u)
  }

  lemma {:induction false} ArcsOfSnoc(es: seq<Edge>, e: Edge, u: int)
    ensures ArcsOf(es + [e], u) == ArcsOf(es, u) + (if e.src == u then [Arc(e.dst, e.w)] else [])
    decreases |es|
  {
    var tail := if e.src == u then [Arc(e.dst, e.w)] else [];
    if |es| == 0 {
      assert (es + [e])[1..] == [];
      assert ArcsOf(es + [e], u) == tail + ArcsOf([], u);
    } else {
      var head := if es[0].src == u then [Arc(es[0].dst, es[0].w)] else [];
      assert (es + [e])[0] == es[0];
      assert (es + [e])[1..] == es[1..] + [e];
      calc {
        ArcsOf(es + [e], u);
        head + ArcsOf(es[1..] + [e], u);
        { ArcsOfSnoc(es[1..], e, u); }
        head + (ArcsOf(es[1..], u) + tail);
        (head + ArcsOf(es[1..], u)) + tail;
        ArcsOf(es, u) + tail;
      }
    }
  }

  lemma {:induction false} ArcsOfMember(es: seq<Edge>, u: int, a: Arc)
    ensures a in ArcsOf(es, u) <==> Edge(u, a.dst, a.w) in es
    decreases |es|
  {
    if |es| > 0 {
      ArcsOfMember(es[1..], u, a);
      assert es == [es[0]] + es[1..];
    }
  }

  /** One more row extends only its source's list, at the end. */
  lemma BuildAdjacencySnoc(es: seq<Edge>, e: Edge, u: int)
    ensures Arcs(BuildAdjacency(es + [e]), u)
         == Arcs(BuildAdjacency(es), u) + (if e.src == u then [Arc(e.dst, e.w)] else [])
    ensures u in BuildAdjacency(es + [e]) <==> u in BuildAdjacency(es) || u == e.src
  {
    assert (es + [e])[..|es + [e]| - 1] == es;
  }

  /** The loader keeps, for every source vertex, its rows' (target, weight)
      pairs in row order. */
  lemma {:induction false} AdjacencyKeepsRowOrder(es: seq<Edge>)
    ensures forall u :: Arcs(BuildAdjacency(es), u) == ArcsOf(es, u)
    decreases |es|
  {
    if |es| > 0 {
      var init, e := es[..|es| - 1], es[|es| - 1];
      assert es == init + [e];
      AdjacencyKeepsRowOrder(init);
      forall u
        ensures Arcs(BuildAdjacency(es), u) == ArcsOf(es, u)
      {
        BuildAdjacencySnoc(init, e, u);
        ArcsOfSnoc(init, e, u);
      }
    }
  }

  /** The dictionary has a key exactly for the vertices that are the source of
      some row. */
  lemma {:induction false} AdjacencyKeys(es: seq<Edge>)
    ensures forall u :: u in BuildAdjacency(es) <==> exists e :: e in es && e.src == u
    decreases |es|
  {
    if |es| > 0 {
      var init, e := es[..|es| - 1], es[|es| - 1];
      assert es == init + [e];
      AdjacencyKeys(init);
      forall u
        ensures u in BuildAdjacency(es) <==> exists e' :: e' in es && e'.src == u
      {
        BuildAdjacencySnoc(init, e, u);
        if u in BuildAdjacency(init) {
          var e' :| e' in init && e'.src == u;
          assert e' in es;
        }
        if e' :| e' in es && e'.src == u {
          if e' != e {
            assert e' in init;
          }
        }
      }
    }
  }

  /** The adjacency dictionary stands for exactly the rows of the table. */
  lemma AdjacencyEdges(es: seq<Edge>)
    ensures AdjEdgeSet(BuildAdjacency(es)) == EdgeSet(es)
  {
    AdjacencyKeepsRowOrder(es);
    forall e
      ensures e in AdjEdgeSet(BuildAdjacency(es)) <==> e in EdgeSet(es)
    {
      AdjEdgeSetMember(BuildAdjacency(es), e);
      ArcsOfMember(es, e.src, Arc(e.dst, e.w));
    }
  }

  lemma AdjacencyWithin(es: seq<Edge>, n: int)
    requires EdgesWithin(es, n)
    ensures ArcsWithin(BuildAdjacency(es), n)
    ensures EdgesNonNegative(es) ==> ArcsNonNegative(BuildAdjacency(es))
  {
    var g := BuildAdjacency(es);
    AdjacencyKeepsRowOrder(es);
    forall u, a: Arc | u in g && a in g[u]
      ensures 0 <= a.dst < n && (EdgesNonNegative(es) ==> a.w >= 0)
    {
      assert a in Arcs(g, u);
      ArcsOfMember(es, u, a);
    }
  }

  /** The largest vertex id named by a non-empty table. */
  function MaxEndpoint(es: seq<Edge>): (m: int)
    requires |es| > 0
    ensures forall e :: e in es ==> e.src <= m && e.dst <= m
    ensures exists e :: e in es && (e.src == m || e.dst == m)
    decreases |es|
  {
    var here := if es[0].src < es[0].dst then es[0].dst else es[0].src;
    if |es| == 1 then here
    else
      var rest := MaxEndpoint(es[1..]);
      assert forall e :: e in es ==> e == es[0] || e in es[1..];
      if here < rest then rest else here
  }

  /** `max(vertices) + 1 if vertices else 0`: the vertex count of the
      array-scan engine's loader and of the edge-list engine's loader. */
  function VertexCount(es: seq<Edge>): (n: int)
    ensures |es| == 0 ==> n == 0
    ensures forall e :: e in es ==> e.src < n && e.dst < n
    ensures |es| > 0 ==> exists e :: e in es && (e.src == n - 1 || e.dst == n - 1)
  {
    if |es| == 0 then 0 else MaxEndpoint(es) + 1
  }

  predicate NonNegativeIds(es: seq<Edge>)
  {
    forall e :: e in es ==> e.src >= 0 && e.dst >= 0
  }

  /** With non-negative ids every row fits the arrays that `VertexCount` sizes. */
  lemma VertexCountFits(es: seq<Edge>)
    requires NonNegativeIds(es)
    ensures EdgesWithin(es, VertexCount(es))
  {
  }

  /** The set of vertex ids named by the table. */
  function Endpoints(es: seq<Edge>): set<int>
  {
    (set e | e in es :: e.src) + (set e | e in es :: e.dst)
  }

  /** `len(vertices)`: the vertex count of the metadata-aware loaders. */
  function DistinctCount(es: seq<Edge>): nat
  {
    |Endpoints(es)|
  }

  /** The ids `0 .. n-1`. */
  function RangeSet(n: int): (r: set<int>)
    ensures forall x :: x in r <==> 0 <= x < n
    decreases n
  {
    if n <= 0 then {} else RangeSet(n - 1) + {n - 1}
  }

  lemma {:induction false} RangeSetSize(n: nat)
    ensures |RangeSet(n)| == n
    decreases n
  {
    if n > 0 {
      RangeSetSize(n - 1);
    }
  }

  lemma SubsetSameSize(a: set<int>, b: set<int>)
    requires a <= b && |a| == |b|
    ensures a == b
  {
    assert b == a + (b - a);
    assert a * (b - a) == {};
  }

  /** Counting distinct endpoints sizes the arrays correctly exactly when the
      ids are `0 .. V-1` with none missing. */
  lemma DistinctCountFitsIffDense(es: seq<Edge>)
    ensures EdgesWithin(es, DistinctCount(es)) <==> Endpoints(es) == RangeSet(DistinctCount(es))
  {
    var n := DistinctCount(es);
    RangeSetSize(n);
    if EdgesWithin(es, n) {
      assert Endpoints(es) <= RangeSet(n);
      SubsetSameSize(Endpoints(es), RangeSet(n));
    }
    if Endpoints(es) == RangeSet(n) {
      forall e | e in es
        ensures 0 <= e.src < n && 0 <= e.dst < n
      {
        assert e.src in Endpoints(es) && e.dst in Endpoints(es);
      }
    }
  }

  /** For non-negative ids the two vertex-count rules agree exactly when the
      ids are dense. */
  lemma CountsAgreeIffDense(es: seq<Edge>)
    requires NonNegativeIds(es)
    ensures DistinctCount(es) == VertexCount(es) <==> Endpoints(es) == RangeSet(VertexCount(es))
  {
    var n := VertexCount(es);
    RangeSetSize(n);
    assert Endpoints(es) <= RangeSet(n);
    if DistinctCount(es) == n {
      SubsetSameSize(Endpoints(es), RangeSet(n));
    }
  }
}
