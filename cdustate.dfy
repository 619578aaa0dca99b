/**
 * The state of the iterative depth-first search of `encontraCDU` as the proofs
 * see it. `Dfs` holds the procedure's own locals: the six work arrays, the
 * stack height `posV`, the current location `u` and the flag `k` (0 while `u`
 * is about to be visited for the first time, 1 while its list is being read).
 * `Book` holds ghost bookkeeping the procedure does not keep: the discovery
 * order, the locations not yet visited, each location's stack position, a walk
 * from the start to each visited location, why each low-link has its value, and
 * the child locations whose tree edge has been recognised as a bridge.
 */
module CduState {
  import opened Estadio
  import opened Paths

  /** Why `l[x]` has its value: the own discovery time, entry `j` of `x`'s list, or the low-link of child `c`. */
  datatype Why = Own | Back(j: int) | Child(c: int)

  datatype Dfs = Dfs(visited: seq<bool>, caminho: seq<int>, d: seq<int>, l: seq<int>, p: seq<int>, ite: seq<int>,
                     posV: int, u: int, k: int)

  datatype Book = Book(order: seq<int>, unv: set<int>, sidx: seq<int>, walks: seq<seq<Entry>>, why: seq<Why>,
                       bridges: set<int>)

  /** `std::min` on two `int`s: the second when it is strictly smaller, else the first. */
  function Min(a: int, b: int): (m: int)
    ensures m <= a && m <= b && (m == a || m == b)
  {
    if b < a then b else a
  }

  /** Every corridor id in the view fits the marking vector of length `m`. */
  ghost predicate IdsWithin(adj: Adj, m: int)
  {
    forall x, j :: 0 <= x < |adj| && 0 <= j < |adj[x]| ==> 1 <= adj[x][j].id <= m
  }

  /** Entry `j` of `row` leads to location `v` and carries corridor id `i + 1`. */
  ghost predicate RowHit(row: seq<Entry>, v: int, i: int)
  {
    exists j :: 0 <= j < |row| && row[j].nb == v + 1 && row[j].id == i + 1
  }

  /** Some tree edge `(p[x], x)` with `x` in `B` is carried by corridor `i + 1`. */
  ghost predicate Hit(adj: Adj, p: seq<int>, B: set<int>, i: int)
  {
    exists x :: x in B && 0 <= x < |p| && 0 <= p[x] < |adj| && RowHit(adj[p[x]], x, i)
  }

  /** Some entry of `row` leads to location `v`. */
  ghost predicate RowHas(row: seq<Entry>, v: int)
  {
    exists j :: 0 <= j < |row| && row[j].nb == v + 1
  }

  /** The sizes and ranges of the locals: one slot per location, `u` a location, `k` a flag. */
  ghost predicate Shape(adj: Adj, s: Dfs)
  {
    && 1 <= |adj| && InRange(adj)
    && |s.visited| == |adj| && |s.caminho| == |adj| && |s.d| == |adj| && |s.l| == |adj|
    && |s.p| == |adj| && |s.ite| == |adj|
    && 0 <= s.u < |adj| && (s.k == 0 || s.k == 1) && 0 <= s.posV <= |adj|
  }

  /** The sizes every state shares: the locals' and the bookkeeping's. */
  ghost predicate Sized(adj: Adj, s: Dfs, g: Book)
  {
    && Shape(adj, s)
    && |g.sidx| == |adj| && |g.walks| == |adj| && |g.why| == |adj|
    && s.posV <= |g.order|
  }

  /** `x` sits on the stack `caminho[..posV]`, at the position `sidx` records. */
  ghost predicate OnStack(adj: Adj, s: Dfs, g: Book, x: int)
    requires Sized(adj, s, g) && 0 <= x < |adj|
  {
    0 <= g.sidx[x] < s.posV && s.caminho[g.sidx[x]] == x
  }

  /** `x` has been visited and left the stack: its list has been read to the end. */
  ghost predicate Finished(adj: Adj, s: Dfs, g: Book, x: int)
    requires Sized(adj, s, g) && 0 <= x < |adj|
  {
    s.visited[x] && !OnStack(adj, s, g, x)
  }

  /**
   * Entry `j` of `x` is the last one read and led the search down to `w`, a child
   * of `x` that is still on the stack or is about to be visited.
   */
  ghost predicate Pending(adj: Adj, s: Dfs, g: Book, x: int, j: int)
    requires Sized(adj, s, g) && 0 <= x < |adj| && 0 <= j < |adj[x]|
  {
    var w := adj[x][j].nb - 1;
    && j == s.ite[x] - 1 && w != 0 && s.p[w] == x
    && if s.visited[w] then OnStack(adj, s, g, w) else s.k == 0 && w == s.u
  }

  /**
   * What is known of a read entry `j` of `x`: it leads to a visited location (or
   * to the one about to be visited), and unless it leads back to the parent or
   * down to a child still being explored, `l[x]` is at most that location's
   * discovery time.
   */
  ghost predicate ScanOk(adj: Adj, s: Dfs, g: Book, x: int, j: int)
    requires Sized(adj, s, g) && 0 <= x < |adj| && 0 <= j < |adj[x]|
  {
    var w := adj[x][j].nb - 1;
    && (s.visited[w] || (s.k == 0 && w == s.u))
    && (w == s.p[x] || s.l[x] <= s.d[w] || Pending(adj, s, g, x, j))
  }

  /** The recorded reason for `l[x]` holds. */
  ghost predicate WhyOk(adj: Adj, s: Dfs, g: Book, x: int)
    requires Sized(adj, s, g) && 0 <= x < |adj|
  {
    match g.why[x]
    case Own => s.l[x] == s.d[x]
    case Back(j) =>
      && 0 <= j < s.ite[x] && j < |adj[x]|
      && adj[x][j].nb - 1 != s.p[x] && s.visited[adj[x][j].nb - 1] && s.l[x] == s.d[adj[x][j].nb - 1]
    case Child(c) =>
      0 <= c < |adj| && c != 0 && s.p[c] == x && Finished(adj, s, g, c) && s.l[x] == s.l[c]
  }

  /**
   * What a visited location `x` satisfies: a discovery time after `t0` that is
   * its place in the discovery order, a parent discovered earlier that has an
   * entry leading to `x`, a walk from the start, a low-link between `t0` and the
   * discovery time with a valid reason, a list read to the end once finished,
   * and, once finished, a low-link no smaller than its parent's.
   */
  ghost predicate VisitedOk(adj: Adj, s: Dfs, g: Book, t0: int, x: int)
    requires Sized(adj, s, g) && 0 <= x < |adj|
  {
    && t0 < s.d[x] <= t0 + |g.order| && g.order[s.d[x] - t0 - 1] == x
    && (x != 0 ==> 0 <= s.p[x] < |adj| && s.visited[s.p[x]] && s.d[s.p[x]] < s.d[x] && RowHas(adj[s.p[x]], x))
    && IsWalk(adj, 0, g.walks[x], x)
    && t0 < s.l[x] <= s.d[x]
    && WhyOk(adj, s, g, x)
    && (Finished(adj, s, g, x) ==> s.ite[x] == |adj[x]|)
    && (Finished(adj, s, g, x) && x != 0 ==> s.l[s.p[x]] <= s.l[x])
  }

  /**
   * What every location `x` satisfies: a cursor within its list, still at the
   * start while unvisited; the start is its own parent; unvisited exactly when
   * in `unv`; and a bridge child exactly when it is finished, is not the start
   * and its low-link exceeds its parent's discovery time.
   */
  ghost predicate VertexOk(adj: Adj, s: Dfs, g: Book, t0: int, x: int)
    requires Sized(adj, s, g) && 0 <= x < |adj|
  {
    && 0 <= s.ite[x] <= |adj[x]|
    && (!s.visited[x] ==> s.ite[x] == 0)
    && (x == 0 ==> s.p[x] == 0)
    && (x in g.unv <==> !s.visited[x])
    && (s.visited[x] ==> VisitedOk(adj, s, g, t0, x))
    && (x in g.bridges <==> x != 0 && Finished(adj, s, g, x) && s.l[x] > s.d[s.p[x]])
  }

  /** The `i`-th discovered location is visited and was discovered at time `t0 + 1 + i`. */
  ghost predicate OrderOk(adj: Adj, s: Dfs, g: Book, t0: int, i: int)
    requires Sized(adj, s, g) && 0 <= i < |g.order|
  {
    0 <= g.order[i] < |adj| && s.visited[g.order[i]] && s.d[g.order[i]] == t0 + 1 + i
  }

  /** Stack slot `i` holds a visited location recorded at that position, whose parent is the slot below (the start at the bottom). */
  ghost predicate StackOk(adj: Adj, s: Dfs, g: Book, i: int)
    requires Sized(adj, s, g) && 0 <= i < s.posV
  {
    && 0 <= s.caminho[i] < |adj| && s.visited[s.caminho[i]] && g.sidx[s.caminho[i]] == i
    && (if i == 0 then s.caminho[i] == 0 else s.p[s.caminho[i]] == s.caminho[i - 1])
  }

  /** Corridor `i + 1` is marked 2 exactly when it carries a recognised bridge; otherwise it keeps its value from `c0`. */
  ghost predicate MarkOk(adj: Adj, s: Dfs, g: Book, c0: seq<int>, cs: seq<int>, i: int)
    requires Sized(adj, s, g) && |cs| == |c0| && 0 <= i < |c0|
  {
    cs[i] == if Hit(adj, s.p, g.bridges, i) then 2 else c0[i]
  }

  /**
   * The invariant of the main loop of `encontraCDU`, at the top of an iteration
   * and while a list is read. `t` is the discovery clock (`t0` on entry), `cs` the
   * marking vector (`c0` on entry) and `nCD` the bridge counter (`nCD0` on entry).
   */
  ghost predicate Inv(adj: Adj, s: Dfs, g: Book, t0: int, t: int, c0: seq<int>, cs: seq<int>, nCD0: int, nCD: int)
  {
    && Sized(adj, s, g)
    && t == t0 + |g.order|
    && |g.order| + |g.unv| == |adj|
    && (forall x :: x in g.unv ==> 0 <= x < |adj|)
    && (forall x :: x in g.bridges ==> 0 <= x < |adj|)
    && nCD == nCD0 + |g.bridges|
    && |cs| == |c0|
    && (forall x :: 0 <= x < |adj| ==> VertexOk(adj, s, g, t0, x))
    && (forall x, j :: 0 <= x < |adj| && 0 <= j < |adj[x]| && j < s.ite[x] ==> ScanOk(adj, s, g, x, j))
    && (forall i :: 0 <= i < |g.order| ==> OrderOk(adj, s, g, t0, i))
    && (forall i :: 0 <= i < s.posV ==> StackOk(adj, s, g, i))
    && (s.posV == 0 <==> |g.order| == 0)
    && (s.k == 1 ==> 1 <= s.posV && s.caminho[s.posV - 1] == s.u)
    && (s.k == 0 ==> !s.visited[s.u] && IsWalk(adj, 0, g.walks[s.u], s.u)
                      && if s.posV == 0 then s.u == 0
                         else s.p[s.u] == s.caminho[s.posV - 1] && 0 <= s.p[s.u] < |adj| && RowHas(adj[s.p[s.u]], s.u))
    && (forall i :: 0 <= i < |c0| ==> MarkOk(adj, s, g, c0, cs, i))
  }
}
