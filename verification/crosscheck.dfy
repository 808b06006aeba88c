/** The demonstration's correctness comparison: both engines run from the
    same edge table and the same source must report the same distances. */
module CrossCheck {
  import opened Graphs
  import Loaders
  import Dijkstra
  import BellmanFord

  /** With non-negative weights the array-scan engine, run on the adjacency
      dictionary built from the table, and the edge-list engine, run on the
      table itself, give identical distance arrays, and the edge-list engine
      raises no negative-cycle flag. */
  lemma EnginesAgree(es: seq<Edge>, n: nat, s: int)
    requires 0 <= s < n && EdgesWithin(es, n) && EdgesNonNegative(es)
    ensures var g := Loaders.BuildAdjacency(es);
      ArcsWithin(g, n) && Dijkstra.Run(g, n, s).dist == BellmanFord.Run(es, n, s).dist
    ensures !BellmanFord.Run(es, n, s).hasNegativeCycle
  {
    var g := Loaders.BuildAdjacency(es);
    var E := EdgeSet(es);
    Loaders.AdjacencyEdges(es);
    Loaders.AdjacencyWithin(es, n);
    NonNegativeNoCycle(E, s);
    BellmanFord.RunNegativeCycle(es, n, s);
    var d := Dijkstra.Run(g, n, s).dist;
    var b := BellmanFord.Run(es, n, s).dist;
    forall v | 0 <= v < n
      ensures d[v] == b[v]
    {
      Dijkstra.RunShortest(g, n, s, v);
      BellmanFord.RunShortest(es, n, s, v);
      ShortestUnique(E, s, v, d[v], b[v]);
    }
  }
}
