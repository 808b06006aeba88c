/** Path reconstruction: the backward walk over a predecessor table shared by
    both engines, in its two flavours (`[]` or `None` for "no path"). */
module Paths {
  import opened Options

  /** Following predecessor links from `v` reaches the `-1` sentinel within
      `fuel` steps, never leaving the table. */
  predicate ChainEnds(pred: seq<int>, v: int, fuel: nat)
    decreases fuel
  {
    v == -1 || (0 <= v < |pred| && fuel > 0 && ChainEnds(pred, pred[v], fuel - 1))
  }

  lemma {:induction false} ChainEndsMoreFuel(pred: seq<int>, v: int, fuel: nat, more: nat)
    requires ChainEnds(pred, v, fuel) && fuel <= more
    ensures ChainEnds(pred, v, more)
    decreases fuel
  {
    if v != -1 {
      ChainEndsMoreFuel(pred, pred[v], fuel - 1, more - 1);
    }
  }

  /** The vertices met while walking back from `v`. */
  ghost function ChainSet(pred: seq<int>, v: int, fuel: nat): set<int>
    requires ChainEnds(pred, v, fuel)
    decreases fuel
  {
    if v == -1 then {} else {v} + ChainSet(pred, pred[v], fuel - 1)
  }

  lemma {:induction false} ChainSetFuel(pred: seq<int>, v: int, f1: nat, f2: nat)
    requires ChainEnds(pred, v, f1) && ChainEnds(pred, v, f2)
    ensures ChainSet(pred, v, f1) == ChainSet(pred, v, f2)
    decreases f1
  {
    if v != -1 {
      ChainSetFuel(pred, pred[v], f1 - 1, f2 - 1);
    }
  }

  /** The walk from any vertex met on the walk from `v` ends within the same
      fuel. */
  lemma {:induction false} ChainSetSuffix(pred: seq<int>, v: int, fuel: nat, y: int)
    requires ChainEnds(pred, v, fuel) && y in ChainSet(pred, v, fuel)
    ensures ChainEnds(pred, y, fuel)
    decreases fuel
  {
    if y != v {
      ChainSetSuffix(pred, pred[v], fuel - 1, y);
      ChainEndsMoreFuel(pred, y, fuel - 1, fuel);
    }
  }

  /** A walk that ends never comes back to the vertex it started from. */
  lemma {:induction false} ChainNoReturn(pred: seq<int>, v: int, fuel: nat)
    requires ChainEnds(pred, v, fuel) && v != -1
    ensures v !in ChainSet(pred, pred[v], fuel - 1)
    decreases fuel
  {
    if v in ChainSet(pred, pred[v], fuel - 1) {
      ChainSetSuffix(pred, pred[v], fuel - 1, v);
      ChainSetFuel(pred, pred[v], fuel - 1, fuel - 2);
      ChainNoReturn(pred, v, fuel - 1);
      assert false;
    }
  }

  /** A set of ids below `n` has at most `n` members. */
  lemma {:induction false} SmallSet(S: set<int>, n: nat)
    requires forall y :: y in S ==> 0 <= y < n
    ensures |S| <= n
    decreases n
  {
    if n == 0 {
      assert forall y :: y !in S;
    } else {
      SmallSet(S - {n - 1}, n - 1);
    }
  }

  /** The walk back from `v` meets distinct vertices of the table, one step
      per vertex. */
  lemma {:induction false} ChainSetSize(pred: seq<int>, v: int, fuel: nat)
    requires ChainEnds(pred, v, fuel)
    ensures ChainEnds(pred, v, |ChainSet(pred, v, fuel)|)
    ensures forall y :: y in ChainSet(pred, v, fuel) ==> 0 <= y < |pred|
    decreases fuel
  {
    if v != -1 {
      ChainSetSize(pred, pred[v], fuel - 1);
      ChainNoReturn(pred, v, fuel);
      assert |ChainSet(pred, v, fuel)| == 1 + |ChainSet(pred, pred[v], fuel - 1)|;
    }
  }

  /** A walk back that ends at all ends within `|pred|` steps. */
  lemma ChainShrink(pred: seq<int>, v: int, fuel: nat)
    requires ChainEnds(pred, v, fuel)
    ensures ChainEnds(pred, v, |pred|)
  {
    ChainSetSize(pred, v, fuel);
    SmallSet(ChainSet(pred, v, fuel), |pred|);
    ChainEndsMoreFuel(pred, v, |ChainSet(pred, v, fuel)|, |pred|);
  }

  /** A walk that never meets `d` is not affected by re-pointing `d`. */
  lemma {:induction false} RedirectAvoiding(pred: seq<int>, d: int, u: int, y: int, fuel: nat)
    requires 0 <= d < |pred| && ChainEnds(pred, y, fuel) && d !in ChainSet(pred, y, fuel)
    ensures ChainEnds(pred[d := u], y, fuel)
    decreases fuel
  {
    if y != -1 {
      RedirectAvoiding(pred, d, u, pred[y], fuel - 1);
    }
  }

  lemma {:induction false} RedirectLonger(pred: seq<int>, d: int, u: int, x: int, fuel: nat)
    requires 0 <= d < |pred| && ChainEnds(pred, u, |pred|) && d !in ChainSet(pred, u, |pred|)
    requires ChainEnds(pred, x, fuel)
    ensures ChainEnds(pred[d := u], x, fuel + |pred|)
    decreases fuel
  {
    if x != -1 {
      if x == d {
        RedirectAvoiding(pred, d, u, u, |pred|);
        ChainEndsMoreFuel(pred[d := u], u, |pred|, fuel - 1 + |pred|);
      } else {
        RedirectLonger(pred, d, u, pred[x], fuel - 1);
      }
    }
  }

  /** Re-pointing `d` at `u`, when the walk back from `u` does not meet `d`,
      keeps every walk back finite. */
  lemma Redirect(pred: seq<int>, d: int, u: int, x: int)
    requires 0 <= d < |pred| && ChainEnds(pred, u, |pred|) && d !in ChainSet(pred, u, |pred|)
    requires ChainEnds(pred, x, |pred|)
    ensures ChainEnds(pred[d := u], x, |pred|)
  {
    RedirectLonger(pred, d, u, x, |pred|);
    ChainShrink(pred[d := u], x, 2 * |pred|);
  }

  /** Every adjacent pair `(a, b)` of `path` has `pred[b] == a`. */
  ghost predicate Linked(pred: seq<int>, path: seq<int>)
  {
    forall i, j :: 0 <= i < j < |path| && j == i + 1 ==> 0 <= path[j] < |pred| && pred[path[j]] == path[i]
  }

  /** The vertices met while walking back from `v`: `v`, `pred[v]`, ...,
      up to the last one before the sentinel. */
  function BackChain(pred: seq<int>, v: int, fuel: nat): seq<int>
    requires ChainEnds(pred, v, fuel)
    decreases fuel
  {
    if v == -1 then [] else [v] + BackChain(pred, pred[v], fuel - 1)
  }

  /** The backward walk starts at `v`, stays in the table, follows
      predecessor links and stops at a vertex without predecessor. */
  lemma {:induction false} BackChainShape(pred: seq<int>, v: int, fuel: nat)
    requires ChainEnds(pred, v, fuel)
    ensures var c := BackChain(pred, v, fuel);
      && (c == [] <==> v == -1)
      && (forall i :: 0 <= i < |c| ==> 0 <= c[i] < |pred|)
      && (c != [] ==> c[0] == v && pred[c[|c| - 1]] == -1)
      && (forall i, j :: 0 <= i < j < |c| && j == i + 1 ==> pred[c[i]] == c[j])
    decreases fuel
  {
    if v != -1 {
      BackChainShape(pred, pred[v], fuel - 1);
      var c := BackChain(pred, v, fuel);
      assert c == [v] + BackChain(pred, pred[v], fuel - 1);
    }
  }

  function Reverse(xs: seq<int>): (r: seq<int>)
    ensures |r| == |xs|
    ensures forall i :: 0 <= i < |xs| ==> r[i] == xs[|xs| - 1 - i]
    decreases |xs|
  {
    if |xs| == 0 then [] else Reverse(xs[1..]) + [xs[0]]
  }

  /** `get_path`: the empty list when the target has no predecessor and is
      not the source, otherwise the reversed backward walk. */
  function PathTo(pred: seq<int>, s: int, d: int): seq<int>
    requires 0 <= d < |pred| && ChainEnds(pred, d, |pred|)
  {
    if pred[d] == -1 && d != s then [] else Reverse(BackChain(pred, d, |pred|))
  }

  /** The shape of a reconstructed path: empty exactly for an unrecorded
      target other than the source; otherwise it ends at the target, starts at
      a vertex without predecessor, and each vertex's predecessor is the one
      before it. */
  lemma PathToShape(pred: seq<int>, s: int, d: int)
    requires 0 <= d < |pred| && ChainEnds(pred, d, |pred|)
    ensures PathTo(pred, s, d) == [] <==> pred[d] == -1 && d != s
    ensures var r := PathTo(pred, s, d);
      && (forall i :: 0 <= i < |r| ==> 0 <= r[i] < |pred|)
      && (r != [] ==> r[|r| - 1] == d && pred[r[0]] == -1 && Linked(pred, r))
  {
    var c := BackChain(pred, d, |pred|);
    BackChainShape(pred, d, |pred|);
    if !(pred[d] == -1 && d != s) {
      var r := Reverse(c);
      assert PathTo(pred, s, d) == r;
      assert |r| == |c| > 0;
      assert r[|r| - 1] == c[0] == d;
      assert r[0] == c[|c| - 1];
      forall i, j | 0 <= i < j < |r| && j == i + 1
        ensures 0 <= r[j] < |pred| && pred[r[j]] == r[i]
      {
        var k := |c| - 1 - j;
        assert r[j] == c[k] && r[i] == c[k + 1];
      }
    }
  }

  /** The imperative backward walk: append, step to the predecessor, stop at
      the sentinel, reverse. */
  method GetPath(pred: seq<int>, s: int, d: int) returns (path: seq<int>)
    requires 0 <= d < |pred| && ChainEnds(pred, d, |pred|)
    ensures path == PathTo(pred, s, d)
  {
    if pred[d] == -1 && d != s {
      return [];
    }
    var back: seq<int> := [];
    var current := d;
    ghost var fuel: nat := |pred|;
    while current != -1
      invariant ChainEnds(pred, current, fuel)
      invariant back + BackChain(pred, current, fuel) == BackChain(pred, d, |pred|)
      decreases fuel
    {
      assert BackChain(pred, current, fuel) == [current] + BackChain(pred, pred[current], fuel - 1);
      assert back + [current] + BackChain(pred, pred[current], fuel - 1)
          == back + ([current] + BackChain(pred, pred[current], fuel - 1));
      back := back + [current];
      current := pred[current];
      fuel := fuel - 1;
    }
    path := Reverse(back);
  }

  /** The variant that answers `None` instead of `[]` when there is no path. */
  function PathToOrNone(pred: seq<int>, s: int, d: int): (r: Option<seq<int>>)
    requires 0 <= d < |pred| && ChainEnds(pred, d, |pred|)
    ensures r.None? <==> PathTo(pred, s, d) == []
    ensures r.Some? ==> r.value == PathTo(pred, s, d)
  {
    if pred[d] == -1 && d != s then None else Some(Reverse(BackChain(pred, d, |pred|)))
  }

  method GetPathOrNone(pred: seq<int>, s: int, d: int) returns (r: Option<seq<int>>)
    requires 0 <= d < |pred| && ChainEnds(pred, d, |pred|)
    ensures r == PathToOrNone(pred, s, d)
  {
    if pred[d] == -1 && d != s {
      return None;
    }
    var path := GetPath(pred, s, d);
    r := Some(path);
  }
}
