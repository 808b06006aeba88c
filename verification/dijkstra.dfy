/** The array-scan greedy engine as a pure function of (adjacency, V, source):
    the same scan, the same relaxation and the same stopping rule as the
    imperative engines, which are proved equal to it. */
module Dijkstra {
  import opened Graphs
  import Paths

  /** The engine's working state. `visited` holds the finalised vertices in
      the order they were finalised; the engine itself only asks whether a
      vertex is in it. */
  datatype State = State(dist: seq<Dist>, pred: seq<int>, visited: seq<int>)

  predicate Sized(st: State, n: int)
  {
    |st.dist| == n && |st.pred| == n && (forall v :: v in st.visited ==> 0 <= v < n)
  }

  /** Every vertex unreached and without predecessor, except `dist[s] = 0`. */
  function Init(n: nat, s: int): State
    requires 0 <= s < n
  {
    State(seq(n, v => if v == s then Fin(0) else Inf), seq(n, _ => -1), [])
  }

  /** `r` is what the strict `<` scan keeps: the unvisited vertex of least
      finite distance, and among those the lowest id. */
  ghost predicate IsLowestMin(dist: seq<Dist>, visited: seq<int>, r: int)
  {
    && 0 <= r < |dist| && r !in visited && dist[r].Fin?
    && (forall u :: 0 <= u < |dist| && u !in visited ==> AtMost(dist[r], dist[u]))
    && (forall u :: 0 <= u < r && u !in visited ==> Less(dist[r], dist[u]))
  }

  ghost predicate NothingLeft(dist: seq<Dist>, visited: seq<int>)
  {
    forall u :: 0 <= u < |dist| && u !in visited ==> dist[u] == Inf
  }

  /** What the scan knows after looking at vertices `0 .. v-1`. */
  ghost predicate ScanState(dist: seq<Dist>, visited: seq<int>, v: nat, best: int, bestDist: Dist)
  {
    && v <= |dist|
    && (best == -1 ==> bestDist == Inf && forall u :: 0 <= u < v && u !in visited ==> dist[u] == Inf)
    && (best != -1 ==>
         && 0 <= best < v && best !in visited && bestDist == dist[best] && bestDist.Fin?
         && (forall u :: 0 <= u < v && u !in visited ==> AtMost(bestDist, dist[u]))
         && (forall u :: 0 <= u < best && u !in visited ==> Less(bestDist, dist[u])))
  }

  /** The strict `<` scan over the ids `v .. |dist|-1`, carrying the best
      vertex and distance found so far. */
  function Scan(dist: seq<Dist>, visited: seq<int>, v: nat, best: int, bestDist: Dist): int
    decreases |dist| - v
  {
    if v >= |dist| then best
    else if v !in visited && Less(dist[v], bestDist) then Scan(dist, visited, v + 1, v, dist[v])
    else Scan(dist, visited, v + 1, best, bestDist)
  }

  /** Finishing the scan from any consistent intermediate state yields `-1`
      exactly when nothing is left, otherwise the lowest-id minimum. */
  lemma {:induction false} ScanFacts(dist: seq<Dist>, visited: seq<int>, v: nat, best: int, bestDist: Dist)
    requires ScanState(dist, visited, v, best, bestDist)
    ensures var r := Scan(dist, visited, v, best, bestDist);
      && (r == -1 <==> NothingLeft(dist, visited))
      && (r != -1 ==> IsLowestMin(dist, visited, r))
    decreases |dist| - v
  {
    if v < |dist| {
      if v !in visited && Less(dist[v], bestDist) {
        ScanFacts(dist, visited, v + 1, v, dist[v]);
      } else {
        ScanFacts(dist, visited, v + 1, best, bestDist);
      }
    }
  }

  /** `find_min_distance_vertex`: `-1` or an unvisited vertex with a finite
      distance; `FindMinSpec` says which one. */
  function FindMin(dist: seq<Dist>, visited: seq<int>): (r: int)
    ensures r == -1 || (0 <= r < |dist| && r !in visited && dist[r].Fin?)
  {
    ScanFacts(dist, visited, 0, -1, Inf);
    Scan(dist, visited, 0, -1, Inf)
  }

  /** The scan answers `-1` exactly when no unvisited vertex has a finite
      distance, and otherwise the lowest-id unvisited vertex of least
      distance. */
  lemma FindMinSpec(dist: seq<Dist>, visited: seq<int>)
    ensures FindMin(dist, visited) == -1 <==> NothingLeft(dist, visited)
    ensures FindMin(dist, visited) != -1 ==> IsLowestMin(dist, visited, FindMin(dist, visited))
  {
    ScanFacts(dist, visited, 0, -1, Inf);
  }

  /** The relaxation loop over the arcs of the vertex `cur` just finalised,
      whose distance is `base`; `RelaxFacts` states what it does. */
  function Relax(st: State, cur: int, base: int, arcs: seq<Arc>): (r: State)
    requires |st.dist| == |st.pred|
    requires forall a :: a in arcs ==> 0 <= a.dst < |st.dist|
    ensures |r.dist| == |st.dist| && |r.pred| == |st.pred| && r.visited == st.visited
    decreases |arcs|
  {
    if |arcs| == 0 then st
    else
      var a := arcs[0];
      var next :=
        if a.dst !in st.visited && Less(Fin(base + a.w), st.dist[a.dst])
        then st.(dist := st.dist[a.dst := Fin(base + a.w)], pred := st.pred[a.dst := cur])
        else st;
      Relax(next, cur, base, arcs[1..])
  }

  /** Relaxation only ever lowers a distance. */
  lemma {:induction false} RelaxLowers(st: State, cur: int, base: int, arcs: seq<Arc>)
    requires |st.dist| == |st.pred|
    requires forall a :: a in arcs ==> 0 <= a.dst < |st.dist|
    ensures var r := Relax(st, cur, base, arcs);
      forall v :: 0 <= v < |st.dist| ==> AtMost(r.dist[v], st.dist[v])
    decreases |arcs|
  {
    if |arcs| > 0 {
      var a := arcs[0];
      var next :=
        if a.dst !in st.visited && Less(Fin(base + a.w), st.dist[a.dst])
        then st.(dist := st.dist[a.dst := Fin(base + a.w)], pred := st.pred[a.dst := cur])
        else st;
      RelaxLowers(next, cur, base, arcs[1..]);
    }
  }

  /** Relaxation leaves visited vertices alone. */
  lemma {:induction false} RelaxKeepsVisited(st: State, cur: int, base: int, arcs: seq<Arc>)
    requires |st.dist| == |st.pred|
    requires forall a :: a in arcs ==> 0 <= a.dst < |st.dist|
    ensures var r := Relax(st, cur, base, arcs);
      forall v :: 0 <= v < |st.dist| && v in st.visited ==> r.dist[v] == st.dist[v] && r.pred[v] == st.pred[v]
    decreases |arcs|
  {
    if |arcs| > 0 {
      var a := arcs[0];
      var next :=
        if a.dst !in st.visited && Less(Fin(base + a.w), st.dist[a.dst])
        then st.(dist := st.dist[a.dst := Fin(base + a.w)], pred := st.pred[a.dst := cur])
        else st;
      RelaxKeepsVisited(next, cur, base, arcs[1..]);
    }
  }

  /** An entry that relaxation changes records `cur` as predecessor and
      `base` plus the weight of an arc into it. */
  lemma {:induction false} RelaxChanged(st: State, cur: int, base: int, arcs: seq<Arc>)
    requires |st.dist| == |st.pred|
    requires forall a :: a in arcs ==> 0 <= a.dst < |st.dist|
    ensures var r := Relax(st, cur, base, arcs);
      forall v :: 0 <= v < |st.dist| && (r.dist[v] != st.dist[v] || r.pred[v] != st.pred[v]) ==>
        r.pred[v] == cur && exists a :: a in arcs && a.dst == v && r.dist[v] == Fin(base + a.w)
    decreases |arcs|
  {
    if |arcs| > 0 {
      var a := arcs[0];
      var next :=
        if a.dst !in st.visited && Less(Fin(base + a.w), st.dist[a.dst])
        then st.(dist := st.dist[a.dst := Fin(base + a.w)], pred := st.pred[a.dst := cur])
        else st;
      assert forall b :: b in arcs ==> b == a || b in arcs[1..];
      RelaxChanged(next, cur, base, arcs[1..]);
    }
  }

  /** After relaxation no arc into an unvisited vertex can lower its
      target further. */
  lemma {:induction false} RelaxSettles(st: State, cur: int, base: int, arcs: seq<Arc>)
    requires |st.dist| == |st.pred|
    requires forall a :: a in arcs ==> 0 <= a.dst < |st.dist|
    ensures var r := Relax(st, cur, base, arcs);
      forall a :: a in arcs && a.dst !in st.visited ==> AtMost(r.dist[a.dst], Fin(base + a.w))
    decreases |arcs|
  {
    if |arcs| > 0 {
      var a := arcs[0];
      var next :=
        if a.dst !in st.visited && Less(Fin(base + a.w), st.dist[a.dst])
        then st.(dist := st.dist[a.dst := Fin(base + a.w)], pred := st.pred[a.dst := cur])
        else st;
      assert forall b :: b in arcs ==> b == a || b in arcs[1..];
      RelaxSettles(next, cur, base, arcs[1..]);
      RelaxLowers(next, cur, base, arcs[1..]);
    }
  }

  /** Relaxation touches only unvisited neighbours, a distance only ever goes
      down, every changed entry now records `cur` as predecessor and `base`
      plus the weight of one of the arcs, and afterwards no arc into an
      unvisited vertex can lower its target further. */
  lemma RelaxFacts(st: State, cur: int, base: int, arcs: seq<Arc>)
    requires |st.dist| == |st.pred|
    requires forall a :: a in arcs ==> 0 <= a.dst < |st.dist|
    ensures var r := Relax(st, cur, base, arcs);
      && (forall v :: 0 <= v < |st.dist| ==> AtMost(r.dist[v], st.dist[v]))
      && (forall v :: 0 <= v < |st.dist| && v in st.visited ==> r.dist[v] == st.dist[v] && r.pred[v] == st.pred[v])
      && (forall v :: 0 <= v < |st.dist| && (r.dist[v] != st.dist[v] || r.pred[v] != st.pred[v]) ==>
            r.pred[v] == cur && exists a :: a in arcs && a.dst == v && r.dist[v] == Fin(base + a.w))
      && (forall a :: a in arcs && a.dst !in st.visited ==> AtMost(r.dist[a.dst], Fin(base + a.w)))
  {
    RelaxLowers(st, cur, base, arcs);
    RelaxKeepsVisited(st, cur, base, arcs);
    RelaxChanged(st, cur, base, arcs);
    RelaxSettles(st, cur, base, arcs);
  }

  /** One round: mark `c` visited, then relax its arcs. */
  function Visit(g: Adjacency, st: State, c: int): (r: State)
    requires Sized(st, |st.dist|) && ArcsWithin(g, |st.dist|)
    requires 0 <= c < |st.dist| && st.dist[c].Fin?
    ensures Sized(r, |st.dist|)
    ensures r.visited == st.visited + [c]
  {
    Relax(st.(visited := st.visited + [c]), c, st.dist[c].val, Arcs(g, c))
  }

  /** The entries of `c` and of every earlier visited vertex stay frozen;
      any entry that changes belongs to an unvisited neighbour of `c` and now
      records `c` as predecessor and `dist[c]` plus that arc's weight;
      afterwards no arc of `c` into an unvisited vertex can lower it further. */
  lemma VisitFacts(g: Adjacency, st: State, c: int)
    requires Sized(st, |st.dist|) && ArcsWithin(g, |st.dist|)
    requires 0 <= c < |st.dist| && st.dist[c].Fin?
    ensures var r := Visit(g, st, c);
      && (forall v :: 0 <= v < |st.dist| ==> AtMost(r.dist[v], st.dist[v]))
      && (forall v :: v in r.visited ==> r.dist[v] == st.dist[v] && r.pred[v] == st.pred[v])
      && (forall v :: 0 <= v < |st.dist| && (r.dist[v] != st.dist[v] || r.pred[v] != st.pred[v]) ==>
            && v !in r.visited && r.pred[v] == c
            && exists a :: a in Arcs(g, c) && a.dst == v && r.dist[v] == Plus(st.dist[c], a.w))
      && (forall a :: a in Arcs(g, c) && a.dst !in r.visited ==> AtMost(r.dist[a.dst], Plus(st.dist[c], a.w)))
  {
    RelaxFacts(st.(visited := st.visited + [c]), c, st.dist[c].val, Arcs(g, c));
  }

  /** At most `rounds` further rounds, stopping as soon as the scan finds
      nothing. */
  function Loop(g: Adjacency, st: State, rounds: nat): (r: State)
    requires Sized(st, |st.dist|) && ArcsWithin(g, |st.dist|)
    ensures Sized(r, |st.dist|)
    decreases rounds
  {
    if rounds == 0 then st
    else
      var c := FindMin(st.dist, st.visited);
      if c == -1 then st else Loop(g, Visit(g, st, c), rounds - 1)
  }

  /** One round of the loop, when the scan finds `c`. */
  lemma LoopUnfold(g: Adjacency, st: State, rounds: nat, c: int)
    requires Sized(st, |st.dist|) && ArcsWithin(g, |st.dist|)
    requires rounds > 0 && c == FindMin(st.dist, st.visited) && c != -1
    ensures Loop(g, st, rounds) == Loop(g, Visit(g, st, c), rounds - 1)
  {
  }

  /** `shortest_path(source)` over `num_vertices = n` rounds. */
  function Run(g: Adjacency, n: nat, s: int): State
    requires 0 <= s < n && ArcsWithin(g, n)
  {
    Loop(g, Init(n, s), n)
  }

  // ---------------------------------------------------------------------
  // Invariants of the rounds.

  ghost predicate Distinct(xs: seq<int>)
  {
    forall i, j :: 0 <= i < j < |xs| ==> xs[i] != xs[j]
  }

  /** Position of the first occurrence of `x`. */
  function IndexOf(xs: seq<int>, x: int): (k: nat)
    requires x in xs
    ensures k < |xs| && xs[k] == x && x !in xs[..k]
  {
    if xs[0] == x then 0 else 1 + IndexOf(xs[1..], x)
  }

  lemma {:induction false} IndexOfSnoc(xs: seq<int>, y: int, x: int)
    requires x in xs + [y]
    ensures x in xs ==> IndexOf(xs + [y], x) == IndexOf(xs, x)
    ensures x !in xs ==> IndexOf(xs + [y], x) == |xs|
    decreases |xs|
  {
    if |xs| > 0 && xs[0] != x {
      assert (xs + [y])[1..] == xs[1..] + [y];
      IndexOfSnoc(xs[1..], y, x);
    }
  }

  /** The recorded predecessor of `v` is finalised, has an arc to `v` whose
      weight explains `dist[v]`, and was finalised before `v`. */
  ghost predicate PredOk(g: Adjacency, st: State, v: int)
    requires Sized(st, |st.dist|) && 0 <= v < |st.dist|
  {
    var p := st.pred[v];
    && p in st.visited
    && (exists a :: a in Arcs(g, p) && a.dst == v && st.dist[v] == Plus(st.dist[p], a.w))
    && (v in st.visited ==> IndexOf(st.visited, p) < IndexOf(st.visited, v))
  }

  /** What holds of each vertex between rounds: finalised vertices have a
      finite distance, a distance is infinite exactly when there is no
      predecessor (the source aside), and a recorded predecessor is valid. */
  ghost predicate VertexInv(g: Adjacency, s: int, st: State, v: int)
    requires Sized(st, |st.dist|) && 0 <= v < |st.dist|
  {
    && (v in st.visited ==> st.dist[v].Fin?)
    && (st.dist[v] == Inf <==> st.pred[v] == -1 && v != s)
    && (st.pred[v] != -1 ==> PredOk(g, st, v))
  }

  ghost predicate Inv(g: Adjacency, n: int, s: int, st: State)
  {
    && Sized(st, n) && 0 <= s < n && ArcsWithin(g, n)
    && Distinct(st.visited)
    && st.dist[s] == Fin(0) && st.pred[s] == -1
    && (|st.visited| == 0 ==> forall v :: 0 <= v < n && v != s ==> st.dist[v] == Inf)
    && (|st.visited| > 0 ==> s in st.visited)
    && (forall v :: 0 <= v < n ==> VertexInv(g, s, st, v))
  }

  /** A finite distance is the weight of a walk from the source. */
  ghost predicate WitnessAt(g: Adjacency, s: int, st: State, v: int)
    requires 0 <= v < |st.dist|
  {
    st.dist[v].Fin? ==> exists p :: IsWalk(AdjEdgeSet(g), p, s, v) && Weight(p) == st.dist[v].val
  }

  ghost predicate Witnessed(g: Adjacency, s: int, st: State)
  {
    forall v :: 0 <= v < |st.dist| ==> WitnessAt(g, s, st, v)
  }

  /** Every arc from the finalised vertex `u` to an unfinalised one has been
      relaxed. */
  ghost predicate FrontierAt(g: Adjacency, st: State, u: int)
    requires 0 <= u < |st.dist|
  {
    u in st.visited ==>
      forall a :: a in Arcs(g, u) && 0 <= a.dst < |st.dist| && a.dst !in st.visited ==>
        AtMost(st.dist[a.dst], Plus(st.dist[u], a.w))
  }

  ghost predicate Frontier(g: Adjacency, st: State)
  {
    forall u :: 0 <= u < |st.dist| ==> FrontierAt(g, st, u)
  }

  /** A finalised distance is at most the weight of every walk. */
  ghost predicate SettledAt(g: Adjacency, s: int, st: State, v: int)
    requires 0 <= v < |st.dist|
  {
    v in st.visited ==> forall p :: IsWalk(AdjEdgeSet(g), p, s, v) ==> AtMost(st.dist[v], Fin(Weight(p)))
  }

  ghost predicate Settled(g: Adjacency, s: int, st: State)
  {
    forall v :: 0 <= v < |st.dist| ==> SettledAt(g, s, st, v)
  }

  ghost predicate Good(g: Adjacency, n: int, s: int, st: State)
  {
    Inv(g, n, s, st) && Witnessed(g, s, st) && Frontier(g, st)
  }

  lemma InitGood(g: Adjacency, n: nat, s: int)
    requires 0 <= s < n && ArcsWithin(g, n)
    ensures Good(g, n, s, Init(n, s)) && Settled(g, s, Init(n, s))
  {
    var st := Init(n, s);
    forall v | 0 <= v < n
      ensures VertexInv(g, s, st, v) && WitnessAt(g, s, st, v)
    {
      if v == s {
        assert IsWalk(AdjEdgeSet(g), [], s, s) && Weight([]) == 0;
      }
    }
  }

  /** In the first round the scan can only pick the source. */
  lemma FirstPickIsSource(g: Adjacency, n: int, s: int, st: State, c: int)
    requires Inv(g, n, s, st) && IsLowestMin(st.dist, st.visited, c)
    ensures s in st.visited + [c]
  {
  }

  lemma VisitKeepsVertexInv(g: Adjacency, n: int, s: int, st: State, c: int, v: int)
    requires Inv(g, n, s, st) && IsLowestMin(st.dist, st.visited, c) && 0 <= v < n
    ensures VertexInv(g, s, Visit(g, st, c), v)
  {
    var r := Visit(g, st, c);
    VisitFacts(g, st, c);
    assert VertexInv(g, s, st, v);
    var p := r.pred[v];
    if r.dist[v] != st.dist[v] || r.pred[v] != st.pred[v] {
      var a :| a in Arcs(g, c) && a.dst == v && r.dist[v] == Plus(st.dist[c], a.w);
      assert r.dist[c] == st.dist[c];
    } else if p != -1 {
      assert PredOk(g, st, v);
      var a :| a in Arcs(g, p) && a.dst == v && st.dist[v] == Plus(st.dist[p], a.w);
      assert r.dist[p] == st.dist[p];
      if v in r.visited {
        IndexOfSnoc(st.visited, c, p);
        IndexOfSnoc(st.visited, c, v);
      }
    }
  }

  lemma VisitKeepsInv(g: Adjacency, n: int, s: int, st: State, c: int)
    requires Inv(g, n, s, st) && IsLowestMin(st.dist, st.visited, c)
    ensures Inv(g, n, s, Visit(g, st, c))
  {
    var r := Visit(g, st, c);
    VisitFacts(g, st, c);
    FirstPickIsSource(g, n, s, st, c);
    assert r.dist[s] == st.dist[s] && r.pred[s] == st.pred[s];
    forall v | 0 <= v < n
      ensures VertexInv(g, s, r, v)
    {
      VisitKeepsVertexInv(g, n, s, st, c, v);
    }
  }

  /** A walk to `c` followed by one of `c`'s arcs is a walk to its target. */
  lemma ExtendWalk(g: Adjacency, s: int, p: seq<Edge>, c: int, a: Arc)
    requires IsWalk(AdjEdgeSet(g), p, s, c) && a in Arcs(g, c)
    ensures IsWalk(AdjEdgeSet(g), p + [Edge(c, a.dst, a.w)], s, a.dst)
    ensures Weight(p + [Edge(c, a.dst, a.w)]) == Weight(p) + a.w
  {
    AdjEdgeSetMember(g, Edge(c, a.dst, a.w));
    WalkAppend(AdjEdgeSet(g), p, s, Edge(c, a.dst, a.w));
  }

  lemma VisitWitness(g: Adjacency, n: int, s: int, st: State, c: int, v: int)
    requires Sized(st, n) && ArcsWithin(g, n) && Witnessed(g, s, st) && IsLowestMin(st.dist, st.visited, c)
    requires 0 <= v < n
    ensures WitnessAt(g, s, Visit(g, st, c), v)
  {
    var r := Visit(g, st, c);
    VisitFacts(g, st, c);
    if r.dist[v] != st.dist[v] {
      var a :| a in Arcs(g, c) && a.dst == v && r.dist[v] == Plus(st.dist[c], a.w);
      assert WitnessAt(g, s, st, c);
      var p :| IsWalk(AdjEdgeSet(g), p, s, c) && Weight(p) == st.dist[c].val;
      ExtendWalk(g, s, p, c, a);
    } else {
      assert WitnessAt(g, s, st, v);
    }
  }

  lemma VisitKeepsWitnessed(g: Adjacency, n: int, s: int, st: State, c: int)
    requires Sized(st, n) && ArcsWithin(g, n) && Witnessed(g, s, st) && IsLowestMin(st.dist, st.visited, c)
    ensures Witnessed(g, s, Visit(g, st, c))
  {
    forall v | 0 <= v < n
      ensures WitnessAt(g, s, Visit(g, st, c), v)
    {
      VisitWitness(g, n, s, st, c, v);
    }
  }

  lemma VisitFrontier(g: Adjacency, n: int, st: State, c: int, u: int)
    requires Sized(st, n) && ArcsWithin(g, n) && Frontier(g, st) && IsLowestMin(st.dist, st.visited, c)
    requires 0 <= u < n
    ensures FrontierAt(g, Visit(g, st, c), u)
  {
    var r := Visit(g, st, c);
    VisitFacts(g, st, c);
    if u in r.visited {
      assert r.dist[u] == st.dist[u];
      forall a | a in Arcs(g, u) && 0 <= a.dst < n && a.dst !in r.visited
        ensures AtMost(r.dist[a.dst], Plus(r.dist[u], a.w))
      {
        if u != c {
          assert FrontierAt(g, st, u);
          AtMostTrans(r.dist[a.dst], st.dist[a.dst], Plus(st.dist[u], a.w));
        }
      }
    }
  }

  lemma VisitKeepsFrontier(g: Adjacency, n: int, st: State, c: int)
    requires Sized(st, n) && ArcsWithin(g, n) && Frontier(g, st) && IsLowestMin(st.dist, st.visited, c)
    ensures Frontier(g, Visit(g, st, c))
  {
    forall u | 0 <= u < n
      ensures FrontierAt(g, Visit(g, st, c), u)
    {
      VisitFrontier(g, n, st, c, u);
    }
  }

  /** The greedy step: with non-negative weights, the vertex the scan picks
      is already at its shortest distance. */
  lemma PickIsSettled(g: Adjacency, n: int, s: int, st: State, c: int, p: seq<Edge>)
    requires Inv(g, n, s, st) && Frontier(g, st) && Settled(g, s, st) && ArcsNonNegative(g)
    requires IsLowestMin(st.dist, st.visited, c)
    requires IsWalk(AdjEdgeSet(g), p, s, c)
    ensures AtMost(st.dist[c], Fin(Weight(p)))
  {
    var E := AdjEdgeSet(g);
    AdjEdgeSetProps(g, n);
    if s !in st.visited {
      assert c == s;
      NonNegativeWeight(E, p, s, c);
    } else {
      var k := FirstExit(E, p, s, c, st.visited);
      var x, e := At(p, s, k), p[k];
      WalkSplit(E, p, s, c, k);
      var pre, rest := p[..k], p[k..];
      WalkEdges(E, p, s, c);
      AdjEdgeSetMember(g, e);
      assert rest[0] == e;
      assert IsWalk(E, rest[1..], e.dst, c);
      NonNegativeWeight(E, rest[1..], e.dst, c);
      assert Weight(rest) >= e.w;
      WalkVertices(E, p, s, c, n, k);
      WalkVertices(E, p, s, c, n, k + 1);
      assert At(p, s, k + 1) == e.dst;
      assert SettledAt(g, s, st, x);
      assert AtMost(st.dist[x], Fin(Weight(pre)));
      assert FrontierAt(g, st, x);
      assert AtMost(st.dist[e.dst], Plus(st.dist[x], e.w));
      assert AtMost(st.dist[c], st.dist[e.dst]);
    }
  }

  lemma VisitKeepsSettled(g: Adjacency, n: int, s: int, st: State, c: int)
    requires Inv(g, n, s, st) && Frontier(g, st) && Settled(g, s, st) && ArcsNonNegative(g)
    requires IsLowestMin(st.dist, st.visited, c)
    ensures Settled(g, s, Visit(g, st, c))
  {
    var r := Visit(g, st, c);
    VisitFacts(g, st, c);
    forall v | 0 <= v < n
      ensures SettledAt(g, s, r, v)
    {
      if v in r.visited {
        assert r.dist[v] == st.dist[v];
        forall p | IsWalk(AdjEdgeSet(g), p, s, v)
          ensures AtMost(r.dist[v], Fin(Weight(p)))
        {
          if v == c {
            PickIsSettled(g, n, s, st, c, p);
          } else {
            assert SettledAt(g, s, st, v);
          }
        }
      }
    }
  }

  lemma VisitKeepsGood(g: Adjacency, n: int, s: int, st: State, c: int)
    requires Good(g, n, s, st) && IsLowestMin(st.dist, st.visited, c)
    ensures Good(g, n, s, Visit(g, st, c))
    ensures ArcsNonNegative(g) && Settled(g, s, st) ==> Settled(g, s, Visit(g, st, c))
  {
    VisitKeepsInv(g, n, s, st, c);
    VisitKeepsWitnessed(g, n, s, st, c);
    VisitKeepsFrontier(g, n, st, c);
    if ArcsNonNegative(g) && Settled(g, s, st) {
      VisitKeepsSettled(g, n, s, st, c);
    }
  }

  /** A repetition-free list of vertex ids below `n` has at most `n` entries. */
  lemma DistinctBound(xs: seq<int>, n: nat)
    requires Distinct(xs) && forall v :: v in xs ==> 0 <= v < n
    ensures |xs| <= n
  {
    if |xs| > n {
      assert forall i :: 0 <= i < |xs| ==> xs[i] in xs;
      Pigeonhole(xs, n);
    }
  }

  /** Rounds keep every invariant. */
  lemma {:induction false} LoopKeepsGood(g: Adjacency, n: int, s: int, st: State, rounds: nat)
    requires Good(g, n, s, st)
    ensures Good(g, n, s, Loop(g, st, rounds))
    ensures ArcsNonNegative(g) && Settled(g, s, st) ==> Settled(g, s, Loop(g, st, rounds))
    decreases rounds
  {
    FindMinSpec(st.dist, st.visited);
    if rounds > 0 && FindMin(st.dist, st.visited) != -1 {
      var next := Visit(g, st, FindMin(st.dist, st.visited));
      VisitKeepsGood(g, n, s, st, FindMin(st.dist, st.visited));
      LoopKeepsGood(g, n, s, next, rounds - 1);
      assert Loop(g, st, rounds) == Loop(g, next, rounds - 1);
    }
  }

  /** Enough rounds leave no unvisited vertex with a finite distance. */
  lemma {:induction false} LoopFinishes(g: Adjacency, n: nat, st: State, rounds: nat)
    requires Sized(st, n) && ArcsWithin(g, n) && Distinct(st.visited) && rounds + |st.visited| >= n
    ensures NothingLeft(Loop(g, st, rounds).dist, Loop(g, st, rounds).visited)
    decreases rounds
  {
    var c := FindMin(st.dist, st.visited);
    FindMinSpec(st.dist, st.visited);
    if rounds == 0 || c == -1 {
      if c != -1 {
        DistinctBound(st.visited + [c], n);
      }
    } else {
      var next := Visit(g, st, c);
      LoopFinishes(g, n, next, rounds - 1);
    }
  }

  /** The state `shortest_path` ends in. */
  lemma RunGood(g: Adjacency, n: nat, s: int)
    requires 0 <= s < n && ArcsWithin(g, n)
    ensures Good(g, n, s, Run(g, n, s)) && NothingLeft(Run(g, n, s).dist, Run(g, n, s).visited)
    ensures ArcsNonNegative(g) ==> Settled(g, s, Run(g, n, s))
  {
    InitGood(g, n, s);
    LoopKeepsGood(g, n, s, Init(n, s), n);
    LoopFinishes(g, n, Init(n, s), n);
  }

  // ---------------------------------------------------------------------
  // What `shortest_path` returns.

  /** The source keeps distance 0 and no predecessor; both arrays have one
      entry per vertex. */
  lemma RunBasics(g: Adjacency, n: nat, s: int)
    requires 0 <= s < n && ArcsWithin(g, n)
    ensures var r := Run(g, n, s);
      |r.dist| == n && |r.pred| == n && r.dist[s] == Fin(0) && r.pred[s] == -1
  {
    RunGood(g, n, s);
  }

  /** A distance stays infinite exactly for the vertices other than the source
      that never got a predecessor, and a recorded predecessor `u` of `v` has
      an arc to `v` whose weight is the difference of their distances. */
  lemma RunPredecessor(g: Adjacency, n: nat, s: int, v: int)
    requires 0 <= s < n && ArcsWithin(g, n) && 0 <= v < n
    ensures var r := Run(g, n, s);
      && (r.dist[v] == Inf <==> r.pred[v] == -1 && v != s)
      && (r.pred[v] != -1 ==> 0 <= r.pred[v] < n && TreeArc(g, r.dist, r.pred[v], v))
  {
    var r := Run(g, n, s);
    RunGood(g, n, s);
    assert VertexInv(g, s, r, v);
  }

  /** An arc from a finalised vertex to an unfinalised one gives its target a
      finite distance. */
  lemma CrossingIsFinite(g: Adjacency, n: int, s: int, st: State, x: int, a: Arc)
    requires Inv(g, n, s, st) && Frontier(g, st)
    requires 0 <= x < n && x in st.visited && a in Arcs(g, x) && 0 <= a.dst < n && a.dst !in st.visited
    ensures st.dist[a.dst].Fin?
  {
    assert FrontierAt(g, st, x) && VertexInv(g, s, st, x);
  }

  /** No walk leaves the finalised vertices once nothing is left to scan:
      its first exit would cross a relaxed arc into a finite unvisited
      vertex. */
  lemma NoEscape(g: Adjacency, n: int, s: int, st: State, p: seq<Edge>, v: int)
    requires Inv(g, n, s, st) && Frontier(g, st) && NothingLeft(st.dist, st.visited)
    requires IsWalk(AdjEdgeSet(g), p, s, v) && 0 <= v < n
    ensures st.dist[v].Fin?
  {
    var E := AdjEdgeSet(g);
    AdjEdgeSetProps(g, n);
    if v in st.visited {
      assert VertexInv(g, s, st, v);
    } else {
      var k := FirstExit(E, p, s, v, st.visited);
      var x, e := At(p, s, k), p[k];
      WalkSplit(E, p, s, v, k);
      assert p[k..][0] == e;
      assert e in E && e.src == x;
      AdjEdgeSetMember(g, e);
      WalkVertices(E, p, s, v, n, k + 1);
      assert At(p, s, k + 1) == e.dst;
      CrossingIsFinite(g, n, s, st, x, Arc(e.dst, e.w));
      assert false;
    }
  }

  /** Whatever the signs of the weights, a distance is finite exactly when
      the vertex is reachable from the source. */
  lemma RunReach(g: Adjacency, n: nat, s: int, v: int)
    requires 0 <= s < n && ArcsWithin(g, n) && 0 <= v < n
    ensures Run(g, n, s).dist[v] == Inf <==> !Reaches(AdjEdgeSet(g), s, v)
  {
    var r := Run(g, n, s);
    RunGood(g, n, s);
    if r.dist[v].Fin? {
      assert WitnessAt(g, s, r, v);
    } else if p :| IsWalk(AdjEdgeSet(g), p, s, v) {
      NoEscape(g, n, s, r, p, v);
    }
  }

  /** With non-negative weights every reported distance is the shortest one:
      infinite exactly for the unreachable vertices, otherwise the weight of
      some walk and at most the weight of every walk. */
  lemma RunShortest(g: Adjacency, n: nat, s: int, v: int)
    requires 0 <= s < n && ArcsWithin(g, n) && ArcsNonNegative(g) && 0 <= v < n
    ensures IsShortest(AdjEdgeSet(g), s, v, Run(g, n, s).dist[v])
  {
    var r := Run(g, n, s);
    RunGood(g, n, s);
    RunReach(g, n, s, v);
    if r.dist[v].Fin? {
      assert WitnessAt(g, s, r, v);
      assert SettledAt(g, s, r, v);
    }
  }

  /** Following predecessors back from a vertex that has one reaches the
      sentinel within its finalisation position, since every predecessor was
      finalised earlier. */
  lemma {:induction false} ChainFromVisited(g: Adjacency, n: int, s: int, st: State, v: int)
    requires Inv(g, n, s, st) && NothingLeft(st.dist, st.visited)
    requires 0 <= v < n && v in st.visited && st.pred[v] != -1
    ensures Paths.ChainEnds(st.pred, v, IndexOf(st.visited, v) + 1)
    decreases IndexOf(st.visited, v)
  {
    assert VertexInv(g, s, st, v);
    var p := st.pred[v];
    assert p in st.visited;
    if st.pred[p] == -1 {
      assert Paths.ChainEnds(st.pred, p, 1);
      Paths.ChainEndsMoreFuel(st.pred, p, 1, IndexOf(st.visited, v));
    } else {
      ChainFromVisited(g, n, s, st, p);
      Paths.ChainEndsMoreFuel(st.pred, p, IndexOf(st.visited, p) + 1, IndexOf(st.visited, v));
    }
  }

  /** `get_path` is defined for every vertex of the final table: the backward
      walk always reaches the sentinel within `V` steps. */
  lemma RunChainEnds(g: Adjacency, n: nat, s: int, v: int)
    requires 0 <= s < n && ArcsWithin(g, n) && 0 <= v < n
    ensures Paths.ChainEnds(Run(g, n, s).pred, v, n)
  {
    var r := Run(g, n, s);
    RunGood(g, n, s);
    if r.pred[v] == -1 {
      assert Paths.ChainEnds(r.pred, v, 1);
      Paths.ChainEndsMoreFuel(r.pred, v, 1, n);
    } else {
      assert VertexInv(g, s, r, v);
      ChainFromVisited(g, n, s, r, v);
      DistinctBound(r.visited, n);
      Paths.ChainEndsMoreFuel(r.pred, v, IndexOf(r.visited, v) + 1, n);
    }
  }

  /** `u` has an arc to `v` whose weight is exactly the increase in
      distance from `u` to `v`. */
  ghost predicate TreeArc(g: Adjacency, dist: seq<Dist>, u: int, v: int)
  {
    0 <= u < |dist| && 0 <= v < |dist| && exists a :: a in Arcs(g, u) && a.dst == v && dist[v] == Plus(dist[u], a.w)
  }

  /** A vertex with a recorded predecessor in the final table is one arc
      away from it, and the predecessor has a finite distance. */
  lemma TreeStep(g: Adjacency, n: int, s: int, st: State, v: int)
    requires Inv(g, n, s, st) && 0 <= v < n && st.pred[v] != -1
    ensures 0 <= st.pred[v] < n && st.dist[st.pred[v]].Fin?
    ensures TreeArc(g, st.dist, st.pred[v], v)
  {
    assert VertexInv(g, s, st, v);
    assert VertexInv(g, s, st, st.pred[v]);
  }

  /** A chain of predecessor links that ends at a finite vertex and starts at
      a vertex without predecessor starts at the source, and each of its
      steps is an arc that accounts exactly for the increase in distance. */
  lemma TreePath(g: Adjacency, n: int, s: int, st: State, path: seq<int>)
    requires Inv(g, n, s, st) && path != [] && (forall i :: 0 <= i < |path| ==> 0 <= path[i] < n)
    requires Paths.Linked(st.pred, path) && st.pred[path[0]] == -1 && st.dist[path[|path| - 1]].Fin?
    ensures path[0] == s
    ensures forall i, j :: 0 <= i < j < |path| && j == i + 1 ==>
      TreeArc(g, st.dist, path[i], path[j])
  {
    forall i, j | 0 <= i < j < |path| && j == i + 1
      ensures TreeArc(g, st.dist, path[i], path[j])
    {
      assert st.pred[path[j]] == path[i];
      TreeStep(g, n, s, st, path[j]);
    }
    var f := path[0];
    if |path| > 1 {
      assert st.pred[path[1]] == f;
      TreeStep(g, n, s, st, path[1]);
    }
    assert st.dist[f].Fin? && st.pred[f] == -1;
    assert VertexInv(g, s, st, f);
    assert !(st.dist[f] == Inf);
  }

  /** The path `get_path` rebuilds from the final table: empty for an
      unreached vertex; otherwise it starts at the source, ends at the
      vertex, and each step follows an arc whose weight is exactly the
      increase in distance. */
  lemma RunPath(g: Adjacency, n: nat, s: int, v: int)
    requires 0 <= s < n && ArcsWithin(g, n) && 0 <= v < n
    ensures Paths.ChainEnds(Run(g, n, s).pred, v, n)
    ensures var r := Run(g, n, s);
      var path := Paths.PathTo(r.pred, s, v);
      && (r.dist[v] == Inf <==> path == [])
      && (forall i :: 0 <= i < |path| ==> 0 <= path[i] < n)
      && (path != [] ==>
            && path[0] == s && path[|path| - 1] == v
            && forall i, j :: 0 <= i < j < |path| && j == i + 1 ==>
                 TreeArc(g, r.dist, path[i], path[j]))
  {
    var r := Run(g, n, s);
    RunGood(g, n, s);
    RunChainEnds(g, n, s, v);
    var path := Paths.PathTo(r.pred, s, v);
    Paths.PathToShape(r.pred, s, v);
    assert VertexInv(g, s, r, v);
    if path != [] {
      TreePath(g, n, s, r, path);
    }
  }

  /** `RunReach` and `RunShortest` for every vertex at once. */
  lemma RunAll(g: Adjacency, n: nat, s: int)
    requires 0 <= s < n && ArcsWithin(g, n)
    ensures forall v :: 0 <= v < n ==> (Run(g, n, s).dist[v] == Inf <==> !Reaches(AdjEdgeSet(g), s, v))
    ensures ArcsNonNegative(g) ==> forall v :: 0 <= v < n ==> IsShortest(AdjEdgeSet(g), s, v, Run(g, n, s).dist[v])
  {
    forall v | 0 <= v < n
      ensures Run(g, n, s).dist[v] == Inf <==> !Reaches(AdjEdgeSet(g), s, v)
    {
      RunReach(g, n, s, v);
    }
    if ArcsNonNegative(g) {
      forall v | 0 <= v < n
        ensures IsShortest(AdjEdgeSet(g), s, v, Run(g, n, s).dist[v])
      {
        RunShortest(g, n, s, v);
      }
    }
  }
}
