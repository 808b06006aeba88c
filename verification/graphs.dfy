/** Shared vocabulary of the shortest-path engines: distances with an explicit
    "unreached" value, weighted edges, adjacency lists, walks and their weights,
    and what it means for a distance to be the shortest one. */
module Graphs {

  /** A tentative distance. `Inf` stands for the "unreached" sentinel that the
      source writes as `sys.maxsize`; modelling it as its own value keeps it out
      of every addition. */
  datatype Dist = Inf | Fin(val: int)

  /** Strict order on distances: every finite distance is below `Inf`. */
  predicate Less(a: Dist, b: Dist)
  {
    match (a, b)
    case (Fin(x), Fin(y)) => x < y
    case (Fin(_), Inf) => true
    case (Inf, _) => false
  }

  predicate AtMost(a: Dist, b: Dist)
  {
    !Less(b, a)
  }

  /** `d + w`, where an unreached distance stays unreached. */
  function Plus(d: Dist, w: int): Dist
  {
    match d
    case Inf => Inf
    case Fin(x) => Fin(x + w)
  }

  lemma AtMostTrans(a: Dist, b: Dist, c: Dist)
    requires AtMost(a, b) && AtMost(b, c)
    ensures AtMost(a, c)
  {
  }

  /** A directed edge (source, target, weight), as one row of an edge table. */
  datatype Edge = Edge(src: int, dst: int, w: int)

  /** One entry of an adjacency list: (neighbour, weight). */
  datatype Arc = Arc(dst: int, w: int)

  /** The adjacency dictionary `{vertex: [(neighbour, weight), ...]}`. */
  type Adjacency = map<int, seq<Arc>>

  /** The arcs leaving `u`; a vertex that is not a key has none. */
  function Arcs(g: Adjacency, u: int): seq<Arc>
  {
    if u in g then g[u] else []
  }

  predicate EdgesWithin(es: seq<Edge>, n: int)
  {
    forall e :: e in es ==> 0 <= e.src < n && 0 <= e.dst < n
  }

  predicate ArcsWithin(g: Adjacency, n: int)
  {
    forall u, a :: u in g && a in g[u] ==> 0 <= a.dst < n
  }

  predicate ArcsNonNegative(g: Adjacency)
  {
    forall u, a :: u in g && a in g[u] ==> a.w >= 0
  }

  predicate EdgesNonNegative(es: seq<Edge>)
  {
    forall e :: e in es ==> e.w >= 0
  }

  ghost function EdgeSet(es: seq<Edge>): set<Edge>
  {
    set e | e in es
  }

  /** The edges an adjacency dictionary stands for. */
  ghost function AdjEdgeSet(g: Adjacency): set<Edge>
  {
    set u, a | u in g && a in g[u] :: Edge(u, a.dst, a.w)
  }

  lemma AdjEdgeSetMember(g: Adjacency, e: Edge)
    ensures e in AdjEdgeSet(g) <==> Arc(e.dst, e.w) in Arcs(g, e.src)
  {
    if Arc(e.dst, e.w) in Arcs(g, e.src) {
      assert e.src in g;
      assert e == Edge(e.src, Arc(e.dst, e.w).dst, Arc(e.dst, e.w).w);
    }
  }

  /** `p` is a walk in `E` from `s` to `v`: consecutive edges chain up. */
  ghost predicate IsWalk(E: set<Edge>, p: seq<Edge>, s: int, v: int)
    decreases |p|
  {
    if |p| == 0 then s == v
    else p[0] in E && p[0].src == s && IsWalk(E, p[1..], p[0].dst, v)
  }

  /** Total weight of a sequence of edges. */
  function Weight(p: seq<Edge>): int
  {
    if |p| == 0 then 0 else p[0].w + Weight(p[1..])
  }

  /** The vertex reached after the first `k` edges of a walk that starts at `s`. */
  function At(p: seq<Edge>, s: int, k: int): int
    requires 0 <= k <= |p|
  {
    if k == 0 then s else p[k - 1].dst
  }

  ghost predicate Reaches(E: set<Edge>, s: int, v: int)
  {
    exists p :: IsWalk(E, p, s, v)
  }

  /** `d` is the shortest-walk distance from `s` to `v`: `Inf` exactly when no
      walk exists, otherwise the weight of some walk and at most the weight of
      every walk. */
  ghost predicate IsShortest(E: set<Edge>, s: int, v: int, d: Dist)
  {
    match d
    case Inf => !Reaches(E, s, v)
    case Fin(x) =>
      && (exists p :: IsWalk(E, p, s, v) && Weight(p) == x)
      && (forall p :: IsWalk(E, p, s, v) ==> x <= Weight(p))
  }

  /** Every closed walk through a vertex reachable from `s` has non-negative
      weight: no negative cycle can be reached from `s`. */
  ghost predicate NoNegativeCycleFrom(E: set<Edge>, s: int)
  {
    forall p, x :: IsWalk(E, p, x, x) && Reaches(E, s, x) ==> Weight(p) >= 0
  }

  /** Following an edge out of a reached vertex cannot lower the distance of
      its target: a fixed point of relaxation. */
  ghost predicate Relaxed(E: set<Edge>, dist: seq<Dist>)
  {
    forall e :: e in E && 0 <= e.src < |dist| && 0 <= e.dst < |dist| ==> AtMost(dist[e.dst], Plus(dist[e.src], e.w))
  }

  ghost predicate NonNegative(E: set<Edge>)
  {
    forall e :: e in E ==> e.w >= 0
  }

  /** Every edge ends at a vertex below `n`; with the source below `n` too,
      so does every walk. */
  ghost predicate TargetsWithin(E: set<Edge>, n: int)
  {
    forall e :: e in E ==> 0 <= e.dst < n
  }

  /** The edge set of an adjacency map inherits its range and sign. */
  lemma AdjEdgeSetProps(g: Adjacency, n: int)
    ensures ArcsWithin(g, n) ==> TargetsWithin(AdjEdgeSet(g), n)
    ensures ArcsNonNegative(g) ==> NonNegative(AdjEdgeSet(g))
  {
    forall e | e in AdjEdgeSet(g)
      ensures ArcsWithin(g, n) ==> 0 <= e.dst < n
      ensures ArcsNonNegative(g) ==> e.w >= 0
    {
      AdjEdgeSetMember(g, e);
      assert e.src in g && Arc(e.dst, e.w) in g[e.src];
    }
  }

  lemma ShortestUnique(E: set<Edge>, s: int, v: int, d1: Dist, d2: Dist)
    requires IsShortest(E, s, v, d1) && IsShortest(E, s, v, d2)
    ensures d1 == d2
  {
  }

  /** Shortest distances obey the triangle inequality along every edge. */
  lemma ShortestTriangle(E: set<Edge>, s: int, e: Edge, du: Dist, dv: Dist)
    requires e in E && IsShortest(E, s, e.src, du) && IsShortest(E, s, e.dst, dv)
    ensures AtMost(dv, Plus(du, e.w))
  {
    if du.Fin? {
      var p :| IsWalk(E, p, s, e.src) && Weight(p) == du.val;
      WalkAppend(E, p, s, e);
    }
  }

  lemma {:induction false} WeightConcat(p: seq<Edge>, q: seq<Edge>)
    ensures Weight(p + q) == Weight(p) + Weight(q)
    decreases |p|
  {
    if |p| == 0 {
      assert p + q == q;
    } else {
      assert (p + q)[1..] == p[1..] + q;
      WeightConcat(p[1..], q);
    }
  }

  lemma {:induction false} WalkConcat(E: set<Edge>, p: seq<Edge>, q: seq<Edge>, s: int, m: int, v: int)
    requires IsWalk(E, p, s, m) && IsWalk(E, q, m, v)
    ensures IsWalk(E, p + q, s, v)
    decreases |p|
  {
    if |p| == 0 {
      assert p + q == q;
    } else {
      assert (p + q)[1..] == p[1..] + q;
      WalkConcat(E, p[1..], q, p[0].dst, m, v);
    }
  }

  lemma WalkAppend(E: set<Edge>, p: seq<Edge>, s: int, e: Edge)
    requires IsWalk(E, p, s, e.src) && e in E
    ensures IsWalk(E, p + [e], s, e.dst)
    ensures Weight(p + [e]) == Weight(p) + e.w
  {
    assert IsWalk(E, [e][1..], e.dst, e.dst);
    WalkConcat(E, p, [e], s, e.src, e.dst);
    WeightConcat(p, [e]);
  }

  /** Cutting a walk after `k` edges gives two walks that meet at `At(p, s, k)`. */
  lemma {:induction false} WalkSplit(E: set<Edge>, p: seq<Edge>, s: int, v: int, k: int)
    requires IsWalk(E, p, s, v) && 0 <= k <= |p|
    ensures IsWalk(E, p[..k], s, At(p, s, k))
    ensures IsWalk(E, p[k..], At(p, s, k), v)
    ensures Weight(p) == Weight(p[..k]) + Weight(p[k..])
    decreases |p|
  {
    assert p == p[..k] + p[k..];
    WeightConcat(p[..k], p[k..]);
    if k > 0 {
      WalkSplit(E, p[1..], p[0].dst, v, k - 1);
      assert p[1..][..k - 1] == p[..k][1..];
      assert p[1..][k - 1..] == p[k..];
      assert At(p[1..], p[0].dst, k - 1) == At(p, s, k);
    }
  }

  lemma {:induction false} WalkEdges(E: set<Edge>, p: seq<Edge>, s: int, v: int)
    requires IsWalk(E, p, s, v)
    ensures forall i :: 0 <= i < |p| ==> p[i] in E
    ensures |p| > 0 ==> p[0].src == s && p[|p| - 1].dst == v
    decreases |p|
  {
    if |p| > 0 {
      WalkEdges(E, p[1..], p[0].dst, v);
      assert forall i :: 1 <= i < |p| ==> p[i] == p[1..][i - 1];
    }
  }

  lemma {:induction false} NonNegativeWeight(E: set<Edge>, p: seq<Edge>, s: int, v: int)
    requires NonNegative(E) && IsWalk(E, p, s, v)
    ensures Weight(p) >= 0
    decreases |p|
  {
    if |p| > 0 {
      NonNegativeWeight(E, p[1..], p[0].dst, v);
    }
  }

  lemma NonNegativeNoCycle(E: set<Edge>, s: int)
    requires NonNegative(E)
    ensures NoNegativeCycleFrom(E, s)
  {
    forall p, x | IsWalk(E, p, x, x) && Reaches(E, s, x)
      ensures Weight(p) >= 0
    {
      NonNegativeWeight(E, p, x, x);
    }
  }

  /** A walk from a vertex of a set `S` to a vertex outside it leaves `S` along
      some edge: the edge after `k` steps starts in `S` and ends outside. */
  lemma {:induction false} FirstExit(E: set<Edge>, p: seq<Edge>, s: int, v: int, S: seq<int>) returns (k: int)
    requires IsWalk(E, p, s, v) && s in S && v !in S
    ensures 0 <= k < |p|
    ensures At(p, s, k) in S && p[k].dst !in S
    decreases |p|
  {
    assert |p| > 0;
    if p[0].dst !in S {
      k := 0;
    } else {
      var k' := FirstExit(E, p[1..], p[0].dst, v, S);
      k := k' + 1;
      assert p[1..][k'] == p[k];
      assert At(p[1..], p[0].dst, k') == At(p, s, k);
    }
  }

  /** Any sequence of more than `n` values drawn from `[0, n)` repeats a value. */
  lemma {:induction false} Pigeonhole(xs: seq<int>, n: nat)
    requires forall i :: 0 <= i < |xs| ==> 0 <= xs[i] < n
    requires |xs| > n
    ensures exists i, j :: 0 <= i < j < |xs| && xs[i] == xs[j]
    decreases n
  {
    var last := xs[|xs| - 1];
    if i :| 0 <= i < |xs| - 1 && xs[i] == last {
      assert xs[i] == xs[|xs| - 1];
    } else {
      var ys := seq(|xs| - 1, i requires 0 <= i < |xs| - 1 => if xs[i] > last then xs[i] - 1 else xs[i]);
      Pigeonhole(ys, n - 1);
      var i, j :| 0 <= i < j < |ys| && ys[i] == ys[j];
      assert xs[i] == xs[j];
    }
  }

  lemma {:induction false} WalkVertices(E: set<Edge>, p: seq<Edge>, s: int, v: int, n: int, k: int)
    requires IsWalk(E, p, s, v) && TargetsWithin(E, n) && 0 <= s < n && 0 <= k <= |p|
    ensures 0 <= At(p, s, k) < n
  {
    WalkEdges(E, p, s, v);
  }

  /** A walk of at least `n` edges over `n` vertices visits some vertex `m`
      twice; cutting out the closed walk between the two visits leaves a
      shorter walk with the same ends. */
  lemma CutLoop(E: set<Edge>, p: seq<Edge>, s: int, v: int, n: int)
    returns (pre: seq<Edge>, loop: seq<Edge>, post: seq<Edge>, m: int)
    requires IsWalk(E, p, s, v) && TargetsWithin(E, n) && 0 <= s < n && |p| >= n
    ensures IsWalk(E, pre, s, m) && IsWalk(E, loop, m, m) && IsWalk(E, post, m, v)
    ensures IsWalk(E, pre + post, s, v) && |pre + post| < |p|
    ensures Weight(p) == Weight(pre + post) + Weight(loop)
  {
    var xs := seq(|p| + 1, k requires 0 <= k <= |p| => At(p, s, k));
    forall i | 0 <= i < |xs|
      ensures 0 <= xs[i] < n
    {
      WalkVertices(E, p, s, v, n, i);
    }
    Pigeonhole(xs, n);
    var i, j :| 0 <= i < j < |xs| && xs[i] == xs[j];
    m := At(p, s, i);
    WalkSplit(E, p, s, v, i);
    var rest := p[i..];
    pre := p[..i];
    WalkSplit(E, rest, m, v, j - i);
    assert At(rest, m, j - i) == m by {
      assert rest[j - i - 1] == p[j - 1];
    }
    loop, post := rest[..j - i], rest[j - i..];
    WalkConcat(E, pre, post, s, m, v);
    WeightConcat(pre, post);
  }

  /** Anything reachable from `s` is reachable by a walk of fewer than `n`
      edges. */
  lemma {:induction false} ShortWalk(E: set<Edge>, p: seq<Edge>, s: int, v: int, n: int) returns (q: seq<Edge>)
    requires IsWalk(E, p, s, v) && TargetsWithin(E, n) && 0 <= s < n
    ensures IsWalk(E, q, s, v) && |q| < n
    decreases |p|
  {
    if |p| < n {
      q := p;
    } else {
      var pre, loop, post, m := CutLoop(E, p, s, v, n);
      q := ShortWalk(E, pre + post, s, v, n);
    }
  }

  /** With no negative cycle reachable from `s`, every walk from `s` over `n`
      vertices can be replaced by one of fewer than `n` edges with the same
      ends and no larger weight. */
  lemma {:induction false} ShortenWalk(E: set<Edge>, p: seq<Edge>, s: int, v: int, n: int) returns (q: seq<Edge>)
    requires IsWalk(E, p, s, v) && TargetsWithin(E, n) && 0 <= s < n && NoNegativeCycleFrom(E, s)
    ensures IsWalk(E, q, s, v) && |q| < n && Weight(q) <= Weight(p)
    decreases |p|
  {
    if |p| < n {
      q := p;
    } else {
      var pre, loop, post, m := CutLoop(E, p, s, v, n);
      assert Reaches(E, s, m);
      assert Weight(loop) >= 0;
      q := ShortenWalk(E, pre + post, s, v, n);
    }
  }

  /** At a fixed point of relaxation, the distance of the end of any walk is
      at most the distance of its start plus the walk's weight. */
  lemma {:induction false} FixedPointWalk(E: set<Edge>, dist: seq<Dist>, p: seq<Edge>, x: int, y: int)
    requires TargetsWithin(E, |dist|) && 0 <= x < |dist| && Relaxed(E, dist) && IsWalk(E, p, x, y)
    ensures 0 <= y < |dist| && AtMost(dist[y], Plus(dist[x], Weight(p)))
    decreases |p|
  {
    WalkVertices(E, p, x, y, |dist|, |p|);
    WalkEdges(E, p, x, y);
    if |p| > 0 {
      var k := |p| - 1;
      WalkSplit(E, p, x, y, k);
      var e := p[k];
      assert p[k..] == [e];
      var u := At(p, x, k);
      WalkVertices(E, p, x, y, |dist|, k);
      FixedPointWalk(E, dist, p[..k], x, u);
      assert e.src == u && e in E;
      assert Weight(p[k..]) == e.w;
    }
  }
}
