/** The array-scan engine written the way the `DijkstraAlgorithm` class runs
    it: one loop over the vertex ids for the scan, one loop over the rounds,
    one loop over the arcs of the picked vertex. Each method is proved equal
    to the functional model in `Dijkstra`, and so inherits its properties. */
module DijkstraAlgorithm {
  import opened Graphs
  import opened Dijkstra

  /** `find_min_distance_vertex`: a strict `<` scan starting from the
      "unreached" sentinel, so ties go to the lowest id and an unreached
      vertex is never picked. */
  method FindMinDistanceVertex(dist: seq<Dist>, visited: seq<int>) returns (minVertex: int)
    ensures minVertex == -1 <==> NothingLeft(dist, visited)
    ensures minVertex != -1 ==> IsLowestMin(dist, visited, minVertex)
    ensures minVertex == FindMin(dist, visited)
  {
    var minDistance := Inf;
    minVertex := -1;
    var vertex := 0;
    while vertex < |dist|
      invariant vertex <= |dist|
      invariant Scan(dist, visited, vertex, minVertex, minDistance) == FindMin(dist, visited)
      decreases |dist| - vertex
    {
      if vertex !in visited && Less(dist[vertex], minDistance) {
        minDistance := dist[vertex];
        minVertex := vertex;
      }
      vertex := vertex + 1;
    }
    FindMinSpec(dist, visited);
  }

  /** The relaxation loop of one round, over the arcs of `current`. */
  method RelaxArcs(g: Adjacency, dist: seq<Dist>, pred: seq<int>, visited: seq<int>, current: int)
    returns (dist': seq<Dist>, pred': seq<int>)
    requires Sized(State(dist, pred, visited), |dist|) && ArcsWithin(g, |dist|)
    requires 0 <= current < |dist| && current !in visited && dist[current].Fin?
    ensures dist' == Visit(g, State(dist, pred, visited), current).dist
    ensures pred' == Visit(g, State(dist, pred, visited), current).pred
  {
    var done := visited + [current];
    var base := dist[current].val;
    var arcs := Arcs(g, current);
    ghost var start := State(dist, pred, done);
    dist', pred' := dist, pred;
    var i := 0;
    while i < |arcs|
      invariant i <= |arcs| && |dist'| == |dist| && |pred'| == |pred|
      invariant Relax(State(dist', pred', done), current, base, arcs[i..]) == Relax(start, current, base, arcs)
      decreases |arcs| - i
    {
      assert arcs[i..] == [arcs[i]] + arcs[i + 1..];
      var neighbor, weight := arcs[i].dst, arcs[i].w;
      if neighbor !in done {
        var newDistance := Fin(base + weight);
        if Less(newDistance, dist'[neighbor]) {
          dist' := dist'[neighbor := newDistance];
          pred' := pred'[neighbor := current];
        }
      }
      i := i + 1;
    }
    assert arcs[i..] == [];
  }

  /** `shortest_path(source)` on a graph with `n` vertices: the distances and
      predecessors of the functional model, hence shortest distances whenever
      the weights are non-negative. */
  method ShortestPath(g: Adjacency, n: nat, source: int) returns (dist: seq<Dist>, pred: seq<int>)
    requires 0 <= source < n && ArcsWithin(g, n)
    ensures dist == Run(g, n, source).dist && pred == Run(g, n, source).pred
    ensures |dist| == n && |pred| == n && dist[source] == Fin(0) && pred[source] == -1
    ensures forall v :: 0 <= v < n ==> (dist[v] == Inf <==> !Reaches(AdjEdgeSet(g), source, v))
    ensures ArcsNonNegative(g) ==> forall v :: 0 <= v < n ==> IsShortest(AdjEdgeSet(g), source, v, dist[v])
  {
    dist := seq(n, _ => Inf);
    dist := dist[source := Fin(0)];
    var visited: seq<int> := [];
    pred := seq(n, _ => -1);
    assert State(dist, pred, visited) == Init(n, source);
    ghost var st := State(dist, pred, visited);
    var remaining := n;
    while remaining > 0
      invariant st == State(dist, pred, visited) && Sized(st, n)
      invariant Loop(g, st, remaining) == Run(g, n, source)
    {
      var current := FindMinDistanceVertex(dist, visited);
      if current == -1 {
        break;
      }
      LoopUnfold(g, st, remaining, current);
      dist, pred := RelaxArcs(g, dist, pred, visited, current);
      visited := visited + [current];
      st := Visit(g, st, current);
      remaining := remaining - 1;
    }
    RunBasics(g, n, source);
    RunAll(g, n, source);
  }
}

/** `basic_dijkstra`, the copy of the engine with the scan written inline. */
module CompareBasic {
  import opened Graphs
  import opened Dijkstra
  import DijkstraAlgorithm

  /** The same rounds as `DijkstraAlgorithm.ShortestPath` with the scan
      inlined; it returns the same tables. */
  method BasicDijkstra(g: Adjacency, n: nat, source: int) returns (dist: seq<Dist>, pred: seq<int>)
    requires 0 <= source < n && ArcsWithin(g, n)
    ensures dist == Run(g, n, source).dist && pred == Run(g, n, source).pred
    ensures ArcsNonNegative(g) ==> forall v :: 0 <= v < n ==> IsShortest(AdjEdgeSet(g), source, v, dist[v])
  {
    dist := seq(n, _ => Inf);
    dist := dist[source := Fin(0)];
    pred := seq(n, _ => -1);
    var visited: seq<int> := [];
    assert State(dist, pred, visited) == Init(n, source);
    ghost var st := State(dist, pred, visited);
    var remaining := n;
    while remaining > 0
      invariant st == State(dist, pred, visited) && Sized(st, n)
      invariant Loop(g, st, remaining) == Run(g, n, source)
    {
      var current := -1;
      var minDist := Inf;
      var v := 0;
      while v < n
        invariant v <= n
        invariant Scan(dist, visited, v, current, minDist) == FindMin(dist, visited)
        decreases n - v
      {
        if v !in visited && Less(dist[v], minDist) {
          minDist := dist[v];
          current := v;
        }
        v := v + 1;
      }
      if current == -1 {
        break;
      }
      LoopUnfold(g, st, remaining, current);
      dist, pred := DijkstraAlgorithm.RelaxArcs(g, dist, pred, visited, current);
      visited := visited + [current];
      st := Visit(g, st, current);
      remaining := remaining - 1;
    }
    RunAll(g, n, source);
  }
}

/** The edge-list engine written the way the `BellmanFordAlgorithm` class runs
    it: a loop over the passes with an inner loop over the rows and an early
    exit, then the negative-cycle scan with its own early exit. */
module BellmanFordAlgorithm {
  import opened Graphs
  import opened BellmanFord

  /** One pass of the relaxation loop over every row, in order: the arrays
      and the `updated` flag of the functional pass. */
  method RelaxAll(dist0: seq<Dist>, pred0: seq<int>, es: seq<Edge>) returns (dist: seq<Dist>, pred: seq<int>, updated: bool)
    requires |pred0| == |dist0| && EdgesWithin(es, |dist0|)
    ensures Pass(Tables(dist, pred), updated) == RelaxEdges(Tables(dist0, pred0), es, false)
  {
    dist, pred, updated := dist0, pred0, false;
    var i := 0;
    while i < |es|
      invariant i <= |es| && |dist| == |dist0| && |pred| == |dist0|
      invariant RelaxEdges(Tables(dist, pred), es[i..], updated) == RelaxEdges(Tables(dist0, pred0), es, false)
      decreases |es| - i
    {
      assert es[i..] == [es[i]] + es[i + 1..];
      var e := es[i];
      if dist[e.src].Fin? {
        var newDistance := Fin(dist[e.src].val + e.w);
        if Less(newDistance, dist[e.dst]) {
          dist := dist[e.dst := newDistance];
          pred := pred[e.dst := e.src];
          updated := true;
        }
      }
      i := i + 1;
    }
    assert es[i..] == [];
  }

  /** The negative-cycle scan: true exactly when some row could still be
      relaxed. */
  method ScanCycles(dist: seq<Dist>, es: seq<Edge>) returns (found: bool)
    requires EdgesWithin(es, |dist|)
    ensures found == CycleScan(dist, es)
    ensures found <==> exists e :: e in es && Improves(dist, e)
  {
    found := false;
    var j := 0;
    while j < |es|
      invariant j <= |es| && !found
      invariant CycleScan(dist, es[j..]) == CycleScan(dist, es)
      decreases |es| - j
    {
      assert es[j..] == [es[j]] + es[j + 1..];
      var e := es[j];
      if dist[e.src].Fin? && Less(Fin(dist[e.src].val + e.w), dist[e.dst]) {
        found := true;
        return;
      }
      j := j + 1;
    }
  }

  /** `shortest_path(source)`: the functional model's outcome, hence exact
      reachability, a negative-cycle flag raised exactly when a negative
      cycle can be reached, and shortest distances when none can. */
  method ShortestPath(es: seq<Edge>, n: nat, source: int) returns (dist: seq<Dist>, pred: seq<int>, hasNegativeCycle: bool)
    requires 0 <= source < n && EdgesWithin(es, n)
    ensures Outcome(dist, pred, hasNegativeCycle) == Run(es, n, source)
    ensures |dist| == n && |pred| == n
    ensures forall v :: 0 <= v < n ==> (dist[v] == Inf <==> !Reaches(EdgeSet(es), source, v))
    ensures hasNegativeCycle <==> !NoNegativeCycleFrom(EdgeSet(es), source)
    ensures !hasNegativeCycle ==> forall v :: 0 <= v < n ==> IsShortest(EdgeSet(es), source, v, dist[v])
  {
    dist := seq(n, _ => Inf);
    dist := dist[source := Fin(0)];
    pred := seq(n, _ => -1);
    assert Tables(dist, pred) == Init(n, source);
    var iteration := 0;
    while iteration < n - 1
      invariant 0 <= iteration <= n - 1 && |dist| == n && |pred| == n
      invariant Passes(Tables(dist, pred), es, n - 1 - iteration) == Passes(Init(n, source), es, n - 1)
    {
      var updated;
      dist, pred, updated := RelaxAll(dist, pred, es);
      if !updated {
        break;
      }
      iteration := iteration + 1;
    }
    hasNegativeCycle := ScanCycles(dist, es);
    RunNegativeCycle(es, n, source);
    forall v | 0 <= v < n
      ensures dist[v] == Inf <==> !Reaches(EdgeSet(es), source, v)
      ensures !hasNegativeCycle ==> IsShortest(EdgeSet(es), source, v, dist[v])
    {
      RunReach(es, n, source, v);
      if !hasNegativeCycle {
        RunShortest(es, n, source, v);
      }
    }
  }
}
