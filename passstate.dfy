/**
 * The state of one lazy-deletion pass as the proofs see it: queue records, the
 * seeded queue, and the invariants that hold between pops and while the entries
 * of a popped location are being relaxed.
 */
module PassState {
  import opened Estadio
  import opened Paths
  import opened Shortest

  /**
   * A queue record `(vertex, priority)`. The source pushes the 1-based vertex and
   * subtracts one on every pop; the record here holds the 0-based index directly.
   */
  datatype Rec = Rec(vertex: int, dist: int)

  /** The multiset of records `(i, ds[i])`, one per location: the seeded queue. */
  ghost function Seeds(ds: seq<int>): multiset<Rec>
    decreases |ds|
  {
    if ds == [] then multiset{} else Seeds(ds[..|ds| - 1]) + multiset{Rec(|ds| - 1, ds[|ds| - 1])}
  }

  /**
   * The frame every pass state shares: one distance and one recorded walk per
   * location, neighbours in range, and the source at distance zero.
   */
  ghost predicate Shape(adj: Adj, src: int, ds: seq<int>, paths: seq<seq<Entry>>)
  {
    |ds| == |adj| && |paths| == |adj| && InRange(adj) && 0 <= src < |adj| && ds[src] == 0
  }

  /**
   * What a pass knows about location `x`: its distance is the sentinel or lies in
   * `0 .. bound + slack`; a finite distance is the length of the walk `paths[x]` from
   * `src`; at most one queued record carries it; when `x` is settled it is
   * finite, at most `top`, relaxed, and its current record is gone; when `x` is
   * reached, unsettled and not `skip`, a queued record carries it.
   */
  ghost predicate VertexOk(adj: Adj, src: int, ds: seq<int>, q: multiset<Rec>, S: set<int>, paths: seq<seq<Entry>>,
                           bound: int, slack: int, skip: int, top: int, x: int)
    requires Shape(adj, src, ds, paths) && 0 <= x < |ds|
  {
    && (ds[x] == INF || 0 <= ds[x] <= bound + slack)
    && (ds[x] != INF ==> IsWalk(adj, src, paths[x], x) && Length(paths[x]) == ds[x])
    && q[Rec(x, ds[x])] <= 1
    && (x in S ==> ds[x] != INF && ds[x] <= top && Rec(x, ds[x]) !in q && Relaxed(adj, ds, x))
    && (x !in S && x != skip && ds[x] != INF ==> Rec(x, ds[x]) in q)
  }

  /**
   * A queued record names a location, never undercuts that location's distance,
   * and is no smaller than `low` nor than any settled distance.
   */
  ghost predicate RecOk(ds: seq<int>, S: set<int>, r: Rec, low: int)
  {
    && 0 <= r.vertex < |ds| && ds[r.vertex] <= r.dist && low <= r.dist
    && forall x :: x in S && 0 <= x < |ds| ==> ds[x] <= r.dist
  }

  /**
   * The invariant between two pops of a pass: `S` holds the settled locations,
   * every location satisfies `VertexOk` with bound `B`, and every record `RecOk`.
   */
  ghost predicate OuterInv(adj: Adj, src: int, ds: seq<int>, q: multiset<Rec>, S: set<int>, paths: seq<seq<Entry>>, B: int)
  {
    && Shape(adj, src, ds, paths)
    && (forall x :: x in S ==> 0 <= x < |ds|)
    && (forall x :: 0 <= x < |ds| ==> VertexOk(adj, src, ds, q, S, paths, B, 0, -1, B, x))
    && (forall r {:trigger RecOk(ds, S, r, 0)} :: r in q ==> RecOk(ds, S, r, 0))
  }

  /**
   * What holds while the entries of the freshly popped location `u` are being
   * relaxed: `u` is reached but not yet settled and its record is gone, no
   * settled distance and no queued record is below `u`'s, and new distances may
   * exceed `B` by one weight.
   */
  ghost predicate Settling(adj: Adj, src: int, ds: seq<int>, q: multiset<Rec>, S: set<int>, paths: seq<seq<Entry>>, u: int, B: int)
  {
    && Shape(adj, src, ds, paths)
    && 0 <= u < |ds| && u !in S && ds[u] != INF && 0 <= ds[u] <= B
    && (forall x :: x in S ==> 0 <= x < |ds|)
    && (forall x :: 0 <= x < |ds| ==> VertexOk(adj, src, ds, q, S, paths, B, INT_MAX, u, ds[u], x))
    && Rec(u, ds[u]) !in q
    && (forall r {:trigger RecOk(ds, S, r, ds[u])} :: r in q ==> RecOk(ds, S, r, ds[u]))
  }

  /** The first `i` entries of `u`'s list are relaxed. */
  ghost predicate Prefix(adj: Adj, ds: seq<int>, u: int, i: int)
    requires |ds| == |adj| && InRange(adj) && 0 <= u < |adj|
  {
    && 0 <= i <= |adj[u]|
    && forall j :: 0 <= j < i ==> ds[adj[u][j].nb - 1] <= ds[u] + adj[u][j].w
  }

  /** The invariant of the inner loop: settling `u`, with `i` of its entries relaxed. */
  ghost predicate MidInv(adj: Adj, src: int, ds: seq<int>, q: multiset<Rec>, S: set<int>, paths: seq<seq<Entry>>, u: int, i: int, B: int)
  {
    Settling(adj, src, ds, q, S, paths, u, B) && Prefix(adj, ds, u, i)
  }
}
