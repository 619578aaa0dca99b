/**
 * Shortest-path vocabulary shared by both passes of the oracle: the sentinel,
 * relaxed (feasible) distance vectors, and what it means for a vector to hold
 * shortest distances from a source or to a destination.
 */
module Shortest {
  import opened Estadio
  import opened Paths

  /** The "unreachable" sentinel (`LLONG_MAX`). */
  const INF: int := 0x7fff_ffff_ffff_ffff

  /** No finite distance exceeds this: at most `INT_MAX` settled locations, each adding one `int` weight. */
  const MAX_DIST: int := 0x7fff_ffff * 0x7fff_ffff

  /** Every distance is either the sentinel or a non-negative value no larger than `MAX_DIST`. */
  ghost predicate Bounded(ds: seq<int>)
  {
    forall x :: 0 <= x < |ds| ==> ds[x] == INF || 0 <= ds[x] <= MAX_DIST
  }

  /** No entry leaving a reached location `x` can improve the distance of its neighbour. */
  ghost predicate Relaxed(adj: Adj, ds: seq<int>, x: int)
    requires |ds| == |adj| && InRange(adj) && 0 <= x < |adj|
  {
    forall k :: 0 <= k < |adj[x]| ==> ds[adj[x][k].nb - 1] <= ds[x] + adj[x][k].w
  }

  /** Every reached location is relaxed: `ds` satisfies the triangle inequality. */
  ghost predicate Feasible(adj: Adj, ds: seq<int>)
    requires |ds| == |adj| && InRange(adj)
  {
    forall x :: 0 <= x < |adj| && ds[x] != INF ==> Relaxed(adj, ds, x)
  }

  /**
   * `ds[x]` is the length of a shortest walk of `adj` from `src` to `x`, and the
   * sentinel exactly when there is no walk at all.
   */
  ghost predicate IsShortestFrom(adj: Adj, src: int, ds: seq<int>)
  {
    && |ds| == |adj| && 0 <= src < |adj|
    && (forall x :: 0 <= x < |adj| && ds[x] != INF ==> Reaches(adj, src, x, ds[x]))
    && (forall x, p :: IsWalk(adj, src, p, x) ==> ds[x] != INF && ds[x] <= Length(p))
  }

  /** `ds[x]` is the length of a shortest walk of `adj` from `x` to `dst` (the sentinel when none exists). */
  ghost predicate IsShortestTo(adj: Adj, dst: int, ds: seq<int>)
  {
    && |ds| == |adj| && 0 <= dst < |adj|
    && (forall x :: 0 <= x < |adj| && ds[x] != INF ==> Reaches(adj, x, dst, ds[x]))
    && (forall x, p :: IsWalk(adj, x, p, dst) ==> ds[x] != INF && ds[x] <= Length(p))
  }

  /** A feasible, bounded distance vector bounds every walk leaving a reached location from below. */
  lemma {:induction false} WalkLowerBound(adj: Adj, ds: seq<int>, a: int, p: seq<Entry>, b: int)
    requires |ds| == |adj| && InRange(adj) && WeightsOk(adj)
    requires Bounded(ds) && Feasible(adj, ds)
    requires IsWalk(adj, a, p, b) && ds[a] != INF
    ensures ds[b] != INF && ds[b] <= ds[a] + Length(p)
    decreases |p|
  {
    if p != [] {
      var k :| 0 <= k < |adj[a]| && adj[a][k] == p[0];
      assert Relaxed(adj, ds, a);
      var a1 := p[0].nb - 1;
      assert ds[a1] <= ds[a] + p[0].w;
      WalkLowerBound(adj, ds, a1, p[1..], b);
    }
  }

  /**
   * The conditions Dijkstra establishes -- source at zero, every finite value
   * achieved by a walk, triangle inequality -- make a vector of shortest distances.
   */
  lemma ShortestFromFeasible(adj: Adj, src: int, ds: seq<int>)
    requires |ds| == |adj| && 0 <= src < |adj| && InRange(adj) && WeightsOk(adj)
    requires ds[src] == 0 && Bounded(ds) && Feasible(adj, ds)
    requires forall x :: 0 <= x < |adj| && ds[x] != INF ==> Reaches(adj, src, x, ds[x])
    ensures IsShortestFrom(adj, src, ds)
  {
    forall x, p | IsWalk(adj, src, p, x)
      ensures ds[x] != INF && ds[x] <= Length(p)
    {
      WalkLowerBound(adj, ds, src, p, x);
    }
  }

  /** Shortest distances from `dst` over the transposed view are shortest distances to `dst` over `uv`. */
  lemma ShortestToFromTransposed(uv: Adj, vu: Adj, dst: int, ds: seq<int>)
    requires Transposed(uv, vu)
    requires IsShortestFrom(vu, dst, ds)
    ensures IsShortestTo(uv, dst, ds)
  {
    forall x | 0 <= x < |uv| && ds[x] != INF
      ensures Reaches(uv, x, dst, ds[x])
    {
      ReachesTransposed(uv, vu, x, dst, ds[x]);
    }
    forall x, p | IsWalk(uv, x, p, dst)
      ensures ds[x] != INF && ds[x] <= Length(p)
    {
      TransposedSym(uv, vu);
      ReverseWalk(vu, uv, x, p, dst);
      assert IsWalk(vu, dst, Reverse(x, p), x);
    }
  }

  /** Shortest distances from a source are determined by the view: two such vectors are equal. */
  lemma ShortestFromUnique(adj: Adj, src: int, d1: seq<int>, d2: seq<int>)
    requires IsShortestFrom(adj, src, d1) && IsShortestFrom(adj, src, d2)
    ensures d1 == d2
  {
    forall x | 0 <= x < |adj|
      ensures d1[x] == d2[x]
    {
      if d1[x] != INF {
        var p :| IsWalk(adj, src, p, x) && Length(p) == d1[x];
      }
      if d2[x] != INF {
        var p :| IsWalk(adj, src, p, x) && Length(p) == d2[x];
      }
    }
  }

  /** Shortest distances to a destination are determined by the view: two such vectors are equal. */
  lemma ShortestToUnique(adj: Adj, dst: int, d1: seq<int>, d2: seq<int>)
    requires IsShortestTo(adj, dst, d1) && IsShortestTo(adj, dst, d2)
    ensures d1 == d2
  {
    forall x | 0 <= x < |adj|
      ensures d1[x] == d2[x]
    {
      if d1[x] != INF {
        var p :| IsWalk(adj, x, p, dst) && Length(p) == d1[x];
      }
      if d2[x] != INF {
        var p :| IsWalk(adj, x, p, dst) && Length(p) == d2[x];
      }
    }
  }

  /**
   * The two passes agree: the distance from the entry to the exit equals the
   * distance to the exit from the entry, and both are the length of a walk.
   */
  lemma {:induction false} PassesAgree(uv: Adj, s: int, t: int, d: seq<int>, dT: seq<int>)
    requires IsShortestFrom(uv, s, d) && IsShortestTo(uv, t, dT)
    requires d[t] != INF
    ensures dT[s] == d[t]
  {
    var p :| IsWalk(uv, s, p, t) && Length(p) == d[t];
    assert dT[s] != INF && dT[s] <= d[t];
    var q :| IsWalk(uv, s, q, t) && Length(q) == dT[s];
    assert d[t] <= dT[s];
  }
}
