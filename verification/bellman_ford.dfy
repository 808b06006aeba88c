/** The edge-list engine of `BellmanFordAlgorithm`: up to `n - 1` passes of
    relaxation over the edge rows in order, stopping early after a pass that
    changes nothing, then one more scan that flags a negative cycle. */
module BellmanFord {
  import opened Graphs
  import Paths

  /** The distance and predecessor arrays. */
  datatype Tables = Tables(dist: seq<Dist>, pred: seq<int>)

  /** The arrays after one pass, with the pass's `updated` flag. */
  datatype Pass = Pass(tables: Tables, updated: bool)

  /** What `shortest_path` returns. */
  datatype Outcome = Outcome(dist: seq<Dist>, pred: seq<int>, hasNegativeCycle: bool)

  predicate Sized(t: Tables, n: int)
  {
    |t.dist| == n && |t.pred| == n
  }

  /** Every vertex unreached and without predecessor, except the source at 0. */
  function Init(n: nat, s: int): (t: Tables)
    requires 0 <= s < n
    ensures Sized(t, n)
  {
    Tables(seq(n, _ => Inf)[s := Fin(0)], seq(n, _ => -1))
  }

  /** The relaxation test of both loops: the source of the row is reached and
      going through the row is strictly shorter. */
  predicate Improves(dist: seq<Dist>, e: Edge)
    requires 0 <= e.src < |dist| && 0 <= e.dst < |dist|
  {
    dist[e.src].Fin? && Less(Fin(dist[e.src].val + e.w), dist[e.dst])
  }

  /** Improving along a row: its target gets the new distance and the row's
      source as predecessor. */
  function Step(t: Tables, e: Edge): (r: Tables)
    requires Sized(t, |t.dist|) && 0 <= e.src < |t.dist| && 0 <= e.dst < |t.dist|
    requires t.dist[e.src].Fin?
    ensures Sized(r, |t.dist|)
  {
    Tables(t.dist[e.dst := Fin(t.dist[e.src].val + e.w)], t.pred[e.dst := e.src])
  }

  /** One pass over the rows `es`, in order; `updated` is the flag carried in. */
  function RelaxEdges(t: Tables, es: seq<Edge>, updated: bool): (r: Pass)
    requires Sized(t, |t.dist|) && EdgesWithin(es, |t.dist|)
    ensures Sized(r.tables, |t.dist|)
    decreases |es|
  {
    if |es| == 0 then Pass(t, updated)
    else if Improves(t.dist, es[0]) then RelaxEdges(Step(t, es[0]), es[1..], true)
    else RelaxEdges(t, es[1..], updated)
  }

  /** At most `remaining` passes, stopping after the first one that updates
      nothing. */
  function Passes(t: Tables, es: seq<Edge>, remaining: nat): (r: Tables)
    requires Sized(t, |t.dist|) && EdgesWithin(es, |t.dist|)
    ensures Sized(r, |t.dist|)
    decreases remaining
  {
    if remaining == 0 then t
    else
      var p := RelaxEdges(t, es, false);
      if !p.updated then p.tables else Passes(p.tables, es, remaining - 1)
  }

  /** The negative-cycle check: a scan for a row that still improves, stopping
      at the first one. */
  function CycleScan(dist: seq<Dist>, es: seq<Edge>): (r: bool)
    requires EdgesWithin(es, |dist|)
    ensures r <==> exists e :: e in es && Improves(dist, e)
    decreases |es|
  {
    if |es| == 0 then false
    else if Improves(dist, es[0]) then true
    else CycleScan(dist, es[1..])
  }

  /** `shortest_path(source)` over the rows `es` and `n` vertices. */
  function Run(es: seq<Edge>, n: nat, s: int): (r: Outcome)
    requires 0 <= s < n && EdgesWithin(es, n)
    ensures |r.dist| == n && |r.pred| == n
  {
    var t := Passes(Init(n, s), es, n - 1);
    Outcome(t.dist, t.pred, CycleScan(t.dist, es))
  }

  /** A vertex's recorded predecessor `u` has a row `(u, v, w)` that the
      current distances satisfy with `dist[u] + w <= dist[v]`. */
  ghost predicate PredArc(E: set<Edge>, dist: seq<Dist>, u: int, v: int)
  {
    && 0 <= u < |dist| && 0 <= v < |dist|
    && exists e :: e in E && e.src == u && e.dst == v && AtMost(Plus(dist[u], e.w), dist[v])
  }

  /** What the arrays say about one vertex: a finite distance is the weight
      of a walk from the source; away from the source, a vertex is unreached
      exactly when it has no predecessor; and a predecessor is justified by
      a row. */
  ghost predicate VertexInv(E: set<Edge>, s: int, t: Tables, v: int)
    requires Sized(t, |t.dist|) && 0 <= v < |t.dist|
  {
    && (t.dist[v].Fin? ==> exists p :: IsWalk(E, p, s, v) && Weight(p) == t.dist[v].val)
    && (v != s ==> (t.dist[v] == Inf <==> t.pred[v] == -1))
    && (t.pred[v] != -1 ==> t.dist[v].Fin? && PredArc(E, t.dist, t.pred[v], v))
  }

  ghost predicate Inv(es: seq<Edge>, n: int, s: int, t: Tables)
  {
    && Sized(t, n) && 0 <= s < n && EdgesWithin(es, n)
    && AtMost(t.dist[s], Fin(0))
    && forall v :: 0 <= v < n ==> VertexInv(EdgeSet(es), s, t, v)
  }

  /** After `k` passes: no walk from the source of at most `k` edges is
      shorter than the distance of its end. */
  ghost predicate ShortBound(E: set<Edge>, s: int, dist: seq<Dist>, k: int)
  {
    forall p, v :: IsWalk(E, p, s, v) && |p| <= k && 0 <= v < |dist| ==> AtMost(dist[v], Fin(Weight(p)))
  }

  lemma EdgeSetWithin(es: seq<Edge>, n: int)
    requires EdgesWithin(es, n)
    ensures TargetsWithin(EdgeSet(es), n)
  {
  }

  lemma InitInv(es: seq<Edge>, n: nat, s: int)
    requires 0 <= s < n && EdgesWithin(es, n)
    ensures Inv(es, n, s, Init(n, s))
    ensures ShortBound(EdgeSet(es), s, Init(n, s).dist, 0)
  {
    var t := Init(n, s);
    assert IsWalk(EdgeSet(es), [], s, s) && Weight([]) == 0;
    forall p, v | IsWalk(EdgeSet(es), p, s, v) && |p| <= 0 && 0 <= v < n
      ensures AtMost(t.dist[v], Fin(Weight(p)))
    {
      assert p == [];
    }
  }

  lemma StepKeepsVertexInv(es: seq<Edge>, n: int, s: int, t: Tables, e: Edge, v: int)
    requires Inv(es, n, s, t) && e in es && Improves(t.dist, e) && 0 <= v < n
    ensures VertexInv(EdgeSet(es), s, Step(t, e), v)
  {
    var E := EdgeSet(es);
    var r := Step(t, e);
    assert VertexInv(E, s, t, e.src);
    assert VertexInv(E, s, t, v);
    if v == e.dst {
      var p :| IsWalk(E, p, s, e.src) && Weight(p) == t.dist[e.src].val;
      WalkAppend(E, p, s, e);
      assert AtMost(Plus(r.dist[e.src], e.w), r.dist[v]);
      assert PredArc(E, r.dist, r.pred[v], v);
    } else if r.pred[v] != -1 {
      var e' :| e' in E && e'.src == t.pred[v] && e'.dst == v && AtMost(Plus(t.dist[t.pred[v]], e'.w), t.dist[v]);
      assert AtMost(Plus(r.dist[r.pred[v]], e'.w), r.dist[v]);
    }
  }

  /** One improving step keeps every invariant. */
  lemma StepKeepsInv(es: seq<Edge>, n: int, s: int, t: Tables, e: Edge)
    requires Inv(es, n, s, t) && e in es && Improves(t.dist, e)
    ensures Inv(es, n, s, Step(t, e))
  {
    forall v | 0 <= v < n
      ensures VertexInv(EdgeSet(es), s, Step(t, e), v)
    {
      StepKeepsVertexInv(es, n, s, t, e, v);
    }
  }

  /** A pass over any rows of the table keeps every invariant. */
  lemma {:induction false} PassKeepsInv(es: seq<Edge>, n: int, s: int, t: Tables, rest: seq<Edge>, flag: bool)
    requires Inv(es, n, s, t) && forall e :: e in rest ==> e in es
    ensures Inv(es, n, s, RelaxEdges(t, rest, flag).tables)
    decreases |rest|
  {
    if |rest| > 0 {
      if Improves(t.dist, rest[0]) {
        StepKeepsInv(es, n, s, t, rest[0]);
        PassKeepsInv(es, n, s, Step(t, rest[0]), rest[1..], true);
      } else {
        PassKeepsInv(es, n, s, t, rest[1..], flag);
      }
    }
  }

  /** A pass only lowers distances, and afterwards no row it went over can
      lower its target below what the distances before the pass allowed. */
  lemma {:induction false} PassBound(t: Tables, rest: seq<Edge>, flag: bool)
    requires Sized(t, |t.dist|) && EdgesWithin(rest, |t.dist|)
    ensures var r := RelaxEdges(t, rest, flag).tables;
      && (forall v :: 0 <= v < |t.dist| ==> AtMost(r.dist[v], t.dist[v]))
      && (forall e :: e in rest ==> AtMost(r.dist[e.dst], Plus(t.dist[e.src], e.w)))
    decreases |rest|
  {
    if |rest| > 0 {
      var e := rest[0];
      var r := RelaxEdges(t, rest, flag).tables;
      if Improves(t.dist, e) {
        var t' := Step(t, e);
        PassBound(t', rest[1..], true);
        assert forall v :: 0 <= v < |t.dist| ==> AtMost(t'.dist[v], t.dist[v]);
      } else {
        PassBound(t, rest[1..], flag);
      }
      assert forall e' :: e' in rest ==> e' == e || e' in rest[1..];
    }
  }

  /** The pass's flag is raised exactly when some distance went down (or it
      was already raised), and an unflagged pass changes nothing. */
  lemma {:induction false} PassFlag(t: Tables, rest: seq<Edge>, flag: bool)
    requires Sized(t, |t.dist|) && EdgesWithin(rest, |t.dist|)
    ensures var r := RelaxEdges(t, rest, flag);
      && (r.updated <==> flag || exists v :: 0 <= v < |t.dist| && Less(r.tables.dist[v], t.dist[v]))
      && (!r.updated ==> r.tables == t)
    decreases |rest|
  {
    if |rest| > 0 {
      var e := rest[0];
      var r := RelaxEdges(t, rest, flag);
      PassBound(t, rest, flag);
      if Improves(t.dist, e) {
        var t' := Step(t, e);
        PassBound(t', rest[1..], true);
        PassFlag(t', rest[1..], true);
        assert Less(r.tables.dist[e.dst], t.dist[e.dst]);
      } else {
        PassFlag(t, rest[1..], flag);
      }
    }
  }

  /** A pass raises its flag exactly when the negative-cycle scan would fire
      on the distances it started from: the first row that improves is met
      before anything has changed. */
  lemma {:induction false} PassFlagIsScan(t: Tables, rest: seq<Edge>)
    requires Sized(t, |t.dist|) && EdgesWithin(rest, |t.dist|)
    ensures RelaxEdges(t, rest, false).updated <==> CycleScan(t.dist, rest)
    decreases |rest|
  {
    if |rest| > 0 {
      if Improves(t.dist, rest[0]) {
        PassFlag(Step(t, rest[0]), rest[1..], true);
      } else {
        PassFlagIsScan(t, rest[1..]);
      }
    }
  }

  /** The passes stop early, at a pass that updates nothing. */
  predicate EndsQuiet(t: Tables, es: seq<Edge>, remaining: nat)
    requires Sized(t, |t.dist|) && EdgesWithin(es, |t.dist|)
    decreases remaining
  {
    remaining > 0 && (!RelaxEdges(t, es, false).updated || EndsQuiet(RelaxEdges(t, es, false).tables, es, remaining - 1))
  }

  lemma {:induction false} QuietPassesScanClean(t: Tables, es: seq<Edge>, remaining: nat)
    requires Sized(t, |t.dist|) && EdgesWithin(es, |t.dist|) && EndsQuiet(t, es, remaining)
    ensures !CycleScan(Passes(t, es, remaining).dist, es)
    decreases remaining
  {
    var p := RelaxEdges(t, es, false);
    if !p.updated {
      PassFlag(t, es, false);
      PassFlagIsScan(t, es);
    } else {
      QuietPassesScanClean(p.tables, es, remaining - 1);
    }
  }

  /** When the passes stop early, the negative-cycle flag stays down. */
  lemma EarlyExitNoCycle(es: seq<Edge>, n: nat, s: int)
    requires 0 <= s < n && EdgesWithin(es, n) && EndsQuiet(Init(n, s), es, n - 1)
    ensures !Run(es, n, s).hasNegativeCycle
  {
    QuietPassesScanClean(Init(n, s), es, n - 1);
  }

  /** Exactly `k` passes, without the early exit. */
  function PassesFull(t: Tables, es: seq<Edge>, k: nat): (r: Tables)
    requires Sized(t, |t.dist|) && EdgesWithin(es, |t.dist|)
    ensures Sized(r, |t.dist|)
    decreases k
  {
    if k == 0 then t else PassesFull(RelaxEdges(t, es, false).tables, es, k - 1)
  }

  /** Repeating a pass that updates nothing changes nothing. */
  lemma {:induction false} QuietFixed(t: Tables, es: seq<Edge>, k: nat)
    requires Sized(t, |t.dist|) && EdgesWithin(es, |t.dist|) && !RelaxEdges(t, es, false).updated
    ensures PassesFull(t, es, k) == t
    decreases k
  {
    if k > 0 {
      PassFlag(t, es, false);
      QuietFixed(t, es, k - 1);
    }
  }

  /** The early exit after a quiet pass never changes the result: stopping
      gives the same arrays as running every pass. */
  lemma {:induction false} EarlyExitSame(t: Tables, es: seq<Edge>, k: nat)
    requires Sized(t, |t.dist|) && EdgesWithin(es, |t.dist|)
    ensures Passes(t, es, k) == PassesFull(t, es, k)
    decreases k
  {
    if k > 0 {
      var p := RelaxEdges(t, es, false);
      if !p.updated {
        PassFlag(t, es, false);
        QuietFixed(t, es, k - 1);
      } else {
        EarlyExitSame(p.tables, es, k - 1);
      }
    }
  }

  /** One more pass extends the walk bound by one edge. */
  lemma BoundStep(E: set<Edge>, s: int, d0: seq<Dist>, d1: seq<Dist>, k: int)
    requires TargetsWithin(E, |d0|) && |d1| == |d0| && 0 <= s < |d0|
    requires ShortBound(E, s, d0, k) && AtMost(d1[s], Fin(0))
    requires forall e :: e in E && 0 <= e.src < |d0| && 0 <= e.dst < |d0| ==> AtMost(d1[e.dst], Plus(d0[e.src], e.w))
    ensures ShortBound(E, s, d1, k + 1)
  {
    forall p: seq<Edge>, v: int | IsWalk(E, p, s, v) && |p| <= k + 1 && 0 <= v < |d1|
      ensures AtMost(d1[v], Fin(Weight(p)))
    {
      WalkEdges(E, p, s, v);
      if |p| > 0 {
        var j := |p| - 1;
        WalkSplit(E, p, s, v, j);
        var u := At(p, s, j);
        WalkVertices(E, p, s, v, |d0|, j);
        var e := p[j];
        assert p[j..] == [e];
        assert e.src == u && Weight(p[j..]) == e.w;
        assert AtMost(d0[u], Fin(Weight(p[..j])));
      }
    }
  }

  /** At a fixed point every walk from the source is bounded, whatever its
      length. */
  lemma FixedPointShortBound(E: set<Edge>, s: int, dist: seq<Dist>, k: int)
    requires TargetsWithin(E, |dist|) && 0 <= s < |dist| && AtMost(dist[s], Fin(0)) && Relaxed(E, dist)
    ensures ShortBound(E, s, dist, k)
  {
    forall p, v | IsWalk(E, p, s, v) && |p| <= k && 0 <= v < |dist|
      ensures AtMost(dist[v], Fin(Weight(p)))
    {
      FixedPointWalk(E, dist, p, s, v);
    }
  }

  /** An unflagged pass leaves the distances at a fixed point of relaxation. */
  lemma UnflaggedIsRelaxed(es: seq<Edge>, t: Tables)
    requires Sized(t, |t.dist|) && EdgesWithin(es, |t.dist|) && !RelaxEdges(t, es, false).updated
    ensures Relaxed(EdgeSet(es), t.dist)
  {
    PassFlag(t, es, false);
    PassBound(t, es, false);
  }

  /** The passes keep the invariants, and `k` passes bound every walk of at
      most `k` edges. */
  lemma {:induction false} PassesFacts(es: seq<Edge>, n: int, s: int, t: Tables, remaining: nat, k: int)
    requires Inv(es, n, s, t) && ShortBound(EdgeSet(es), s, t.dist, k)
    ensures Inv(es, n, s, Passes(t, es, remaining))
    ensures ShortBound(EdgeSet(es), s, Passes(t, es, remaining).dist, k + remaining)
    decreases remaining
  {
    var E := EdgeSet(es);
    EdgeSetWithin(es, n);
    if remaining > 0 {
      var p := RelaxEdges(t, es, false);
      PassKeepsInv(es, n, s, t, es, false);
      if !p.updated {
        UnflaggedIsRelaxed(es, t);
        PassFlag(t, es, false);
        FixedPointShortBound(E, s, t.dist, k + remaining);
      } else {
        PassBound(t, es, false);
        BoundStep(E, s, t.dist, p.tables.dist, k);
        PassesFacts(es, n, s, p.tables, remaining - 1, k + 1);
      }
    }
  }

  /** The final arrays keep the invariants and bound every walk of fewer than
      `n` edges. */
  lemma RunFacts(es: seq<Edge>, n: nat, s: int)
    requires 0 <= s < n && EdgesWithin(es, n)
    ensures Inv(es, n, s, Passes(Init(n, s), es, n - 1))
    ensures ShortBound(EdgeSet(es), s, Passes(Init(n, s), es, n - 1).dist, n - 1)
  {
    InitInv(es, n, s);
    PassesFacts(es, n, s, Init(n, s), n - 1, 0);
  }

  /** A vertex ends unreached exactly when no walk from the source reaches it,
      whatever the sign of the weights. */
  lemma RunReach(es: seq<Edge>, n: nat, s: int, v: int)
    requires 0 <= s < n && EdgesWithin(es, n) && 0 <= v < n
    ensures Run(es, n, s).dist[v] == Inf <==> !Reaches(EdgeSet(es), s, v)
  {
    var E := EdgeSet(es);
    var t := Passes(Init(n, s), es, n - 1);
    RunFacts(es, n, s);
    EdgeSetWithin(es, n);
    assert VertexInv(E, s, t, v);
    if p :| IsWalk(E, p, s, v) {
      var q := ShortWalk(E, p, s, v, n);
      assert AtMost(t.dist[v], Fin(Weight(q)));
    }
  }

  /** With no negative cycle reachable from the source, every distance is the
      shortest-walk distance. */
  lemma RunShortest(es: seq<Edge>, n: nat, s: int, v: int)
    requires 0 <= s < n && EdgesWithin(es, n) && 0 <= v < n
    requires NoNegativeCycleFrom(EdgeSet(es), s)
    ensures IsShortest(EdgeSet(es), s, v, Run(es, n, s).dist[v])
  {
    var E := EdgeSet(es);
    var t := Passes(Init(n, s), es, n - 1);
    RunFacts(es, n, s);
    RunReach(es, n, s, v);
    EdgeSetWithin(es, n);
    assert VertexInv(E, s, t, v);
    forall p | IsWalk(E, p, s, v)
      ensures AtMost(t.dist[v], Fin(Weight(p)))
    {
      var q := ShortenWalk(E, p, s, v, n);
      assert AtMost(t.dist[v], Fin(Weight(q)));
    }
  }

  /** The negative-cycle flag is raised exactly when a closed walk of negative
      weight can be reached from the source. */
  lemma RunNegativeCycle(es: seq<Edge>, n: nat, s: int)
    requires 0 <= s < n && EdgesWithin(es, n)
    ensures Run(es, n, s).hasNegativeCycle <==> !NoNegativeCycleFrom(EdgeSet(es), s)
  {
    var E := EdgeSet(es);
    var t := Passes(Init(n, s), es, n - 1);
    RunFacts(es, n, s);
    EdgeSetWithin(es, n);
    if Run(es, n, s).hasNegativeCycle {
      var e :| e in es && Improves(t.dist, e);
      if NoNegativeCycleFrom(E, s) {
        RunShortest(es, n, s, e.src);
        RunShortest(es, n, s, e.dst);
        ShortestTriangle(E, s, e, t.dist[e.src], t.dist[e.dst]);
        assert false;
      }
    } else {
      assert Relaxed(E, t.dist);
      forall c, x | IsWalk(E, c, x, x) && Reaches(E, s, x)
        ensures Weight(c) >= 0
      {
        var p :| IsWalk(E, p, s, x);
        WalkEdges(E, p, s, x);
        WalkVertices(E, p, s, x, n, |p|);
        RunReach(es, n, s, x);
        FixedPointWalk(E, t.dist, c, x, x);
      }
    }
  }

  /** The source's distance is at most 0; away from the source, a vertex is
      unreached exactly when it has no predecessor; and a recorded predecessor
      is the source of a row into the vertex whose weight the final distances
      respect. */
  lemma RunPredecessor(es: seq<Edge>, n: nat, s: int, v: int)
    requires 0 <= s < n && EdgesWithin(es, n) && 0 <= v < n
    ensures var r := Run(es, n, s);
      && AtMost(r.dist[s], Fin(0))
      && (v != s ==> (r.dist[v] == Inf <==> r.pred[v] == -1))
      && (r.pred[v] != -1 ==>
            && r.dist[v].Fin? && 0 <= r.pred[v] < n
            && exists e :: e in es && e.src == r.pred[v] && e.dst == v && AtMost(Plus(r.dist[e.src], e.w), r.dist[v]))
  {
    var t := Passes(Init(n, s), es, n - 1);
    RunFacts(es, n, s);
    assert VertexInv(EdgeSet(es), s, t, v);
  }

  /** With no negative cycle reachable from the source, the source stays at 0
      and every recorded predecessor lies on a shortest walk: the row from it
      weighs exactly the difference of the two distances. */
  lemma RunTightPredecessor(es: seq<Edge>, n: nat, s: int, v: int)
    requires 0 <= s < n && EdgesWithin(es, n) && 0 <= v < n
    requires NoNegativeCycleFrom(EdgeSet(es), s)
    ensures Run(es, n, s).dist[s] == Fin(0)
    ensures var r := Run(es, n, s);
      r.pred[v] != -1 ==> exists e :: e in es && e.src == r.pred[v] && e.dst == v && r.dist[v] == Plus(r.dist[e.src], e.w)
  {
    var E := EdgeSet(es);
    var t := Passes(Init(n, s), es, n - 1);
    RunFacts(es, n, s);
    RunShortest(es, n, s, s);
    assert IsWalk(E, [], s, s);
    if t.pred[v] != -1 {
      assert VertexInv(E, s, t, v);
      var u := t.pred[v];
      var e :| e in E && e.src == u && e.dst == v && AtMost(Plus(t.dist[u], e.w), t.dist[v]);
      RunShortest(es, n, s, u);
      RunShortest(es, n, s, v);
      ShortestTriangle(E, s, e, t.dist[u], t.dist[v]);
    }
  }

  /** Following recorded predecessors back from `x` until `d` retraces a walk
      from `d` to `x` weighing at most the difference of their distances. */
  lemma {:induction false} ChainWalk(es: seq<Edge>, n: int, s: int, t: Tables, x: int, d: int, fuel: nat)
    returns (p: seq<Edge>)
    requires Inv(es, n, s, t) && 0 <= x < n && t.dist[x].Fin?
    requires Paths.ChainEnds(t.pred, x, fuel) && d in Paths.ChainSet(t.pred, x, fuel)
    ensures 0 <= d < n && t.dist[d].Fin? && IsWalk(EdgeSet(es), p, d, x) && Weight(p) <= t.dist[x].val - t.dist[d].val
    decreases fuel
  {
    var E := EdgeSet(es);
    if d == x {
      p := [];
    } else {
      var y := t.pred[x];
      assert VertexInv(E, s, t, x);
      var e :| e in E && e.src == y && e.dst == x && AtMost(Plus(t.dist[y], e.w), t.dist[x]);
      var q := ChainWalk(es, n, s, t, y, d, fuel - 1);
      WalkAppend(E, q, d, e);
      p := q + [e];
    }
  }

  /** An improving row whose source already leads back to its target through
      recorded predecessors closes a negative cycle reachable from the
      source. */
  lemma ChainCycle(es: seq<Edge>, n: int, s: int, t: Tables, e: Edge)
    requires Inv(es, n, s, t) && e in es && Improves(t.dist, e)
    requires Paths.ChainEnds(t.pred, e.src, n) && e.dst in Paths.ChainSet(t.pred, e.src, n)
    ensures !NoNegativeCycleFrom(EdgeSet(es), e.src) && !NoNegativeCycleFrom(EdgeSet(es), s)
  {
    var E := EdgeSet(es);
    var p := ChainWalk(es, n, s, t, e.src, e.dst, n);
    var c := [e] + p;
    assert c[0] == e && c[1..] == p;
    assert IsWalk(E, c, e.src, e.src);
    assert Weight(c) < 0;
    assert VertexInv(E, s, t, e.src);
    assert IsWalk(E, [], e.src, e.src);
    assert Reaches(E, e.src, e.src);
  }

  /** Walking back along recorded predecessors always reaches the sentinel
      within `n` steps. */
  predicate Acyclic(t: Tables)
  {
    forall v :: 0 <= v < |t.pred| ==> Paths.ChainEnds(t.pred, v, |t.pred|)
  }

  /** With no negative cycle reachable from the source, an improving step
      never closes a cycle of predecessors. */
  lemma StepKeepsAcyclic(es: seq<Edge>, n: int, s: int, t: Tables, e: Edge)
    requires Inv(es, n, s, t) && Acyclic(t) && e in es && Improves(t.dist, e)
    requires NoNegativeCycleFrom(EdgeSet(es), s)
    ensures Acyclic(Step(t, e))
  {
    assert Paths.ChainEnds(t.pred, e.src, n);
    if e.dst in Paths.ChainSet(t.pred, e.src, n) {
      ChainCycle(es, n, s, t, e);
      assert false;
    }
    forall x | 0 <= x < n
      ensures Paths.ChainEnds(Step(t, e).pred, x, n)
    {
      Paths.Redirect(t.pred, e.dst, e.src, x);
    }
  }

  lemma {:induction false} PassKeepsAcyclic(es: seq<Edge>, n: int, s: int, t: Tables, rest: seq<Edge>, flag: bool)
    requires Inv(es, n, s, t) && Acyclic(t) && forall e :: e in rest ==> e in es
    requires NoNegativeCycleFrom(EdgeSet(es), s)
    ensures Acyclic(RelaxEdges(t, rest, flag).tables)
    decreases |rest|
  {
    if |rest| > 0 {
      if Improves(t.dist, rest[0]) {
        StepKeepsInv(es, n, s, t, rest[0]);
        StepKeepsAcyclic(es, n, s, t, rest[0]);
        PassKeepsAcyclic(es, n, s, Step(t, rest[0]), rest[1..], true);
      } else {
        PassKeepsAcyclic(es, n, s, t, rest[1..], flag);
      }
    }
  }

  lemma {:induction false} PassesKeepAcyclic(es: seq<Edge>, n: int, s: int, t: Tables, remaining: nat)
    requires Inv(es, n, s, t) && Acyclic(t) && NoNegativeCycleFrom(EdgeSet(es), s)
    ensures Acyclic(Passes(t, es, remaining))
    decreases remaining
  {
    if remaining > 0 {
      var p := RelaxEdges(t, es, false);
      PassKeepsInv(es, n, s, t, es, false);
      PassKeepsAcyclic(es, n, s, t, es, false);
      if p.updated {
        PassesKeepAcyclic(es, n, s, p.tables, remaining - 1);
      }
    }
  }

  /** With no negative cycle reachable from the source, `get_path` is defined
      on the final table: the walk back from every vertex reaches the sentinel
      within `V` steps. */
  lemma RunChainEnds(es: seq<Edge>, n: nat, s: int, v: int)
    requires 0 <= s < n && EdgesWithin(es, n) && 0 <= v < n
    requires NoNegativeCycleFrom(EdgeSet(es), s)
    ensures Paths.ChainEnds(Run(es, n, s).pred, v, n)
  {
    var t0 := Init(n, s);
    InitInv(es, n, s);
    forall x | 0 <= x < n
      ensures Paths.ChainEnds(t0.pred, x, n)
    {
      assert Paths.ChainEnds(t0.pred, t0.pred[x], n - 1);
    }
    PassesKeepAcyclic(es, n, s, t0, n - 1);
  }

  /** A row `(u, v, w)` of the table whose weight is exactly the increase in
      distance from `u` to `v`. */
  ghost predicate TightRow(es: seq<Edge>, dist: seq<Dist>, u: int, v: int)
  {
    0 <= u < |dist| && 0 <= v < |dist| && exists e :: e in es && e.src == u && e.dst == v && dist[v] == Plus(dist[u], e.w)
  }

  /** With no negative cycle reachable from the source, the path `get_path`
      rebuilds from the final table is empty exactly for an unreached vertex;
      otherwise it starts at the source, ends at the vertex, and each step is
      a row whose weight is exactly the increase in distance, so the path
      weighs the reported distance. */
  lemma RunPath(es: seq<Edge>, n: nat, s: int, v: int)
    requires 0 <= s < n && EdgesWithin(es, n) && 0 <= v < n
    requires NoNegativeCycleFrom(EdgeSet(es), s)
    ensures Paths.ChainEnds(Run(es, n, s).pred, v, n)
    ensures var r := Run(es, n, s);
      var path := Paths.PathTo(r.pred, s, v);
      && (r.dist[v] == Inf <==> path == [])
      && (forall i :: 0 <= i < |path| ==> 0 <= path[i] < n)
      && (path != [] ==>
            && path[0] == s && path[|path| - 1] == v
            && forall i, j :: 0 <= i < j < |path| && j == i + 1 ==> TightRow(es, r.dist, path[i], path[j]))
  {
    var E := EdgeSet(es);
    var t := Passes(Init(n, s), es, n - 1);
    RunFacts(es, n, s);
    RunChainEnds(es, n, s, v);
    var path := Paths.PathTo(t.pred, s, v);
    Paths.PathToShape(t.pred, s, v);
    assert VertexInv(E, s, t, v);
    if path != [] {
      forall i, j | 0 <= i < j < |path| && j == i + 1
        ensures TightRow(es, t.dist, path[i], path[j])
      {
        assert t.pred[path[j]] == path[i];
        RunTightPredecessor(es, n, s, path[j]);
      }
      var f := path[0];
      if |path| > 1 {
        assert t.pred[path[1]] == f;
        assert VertexInv(E, s, t, path[1]);
      }
      assert VertexInv(E, s, t, f);
    }
  }
}
