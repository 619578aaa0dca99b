/**
 * What the depth-first search of `encontraCDU` computes, stated over its final
 * work arrays: which locations it reaches from location 1 (index 0), the
 * discovery times and the tree they form, the low-link of every reached
 * location, and the child locations whose tree edge it takes to be a bridge.
 */
module CduSpec {
  import opened Estadio
  import opened Paths

  /** Some walk of the view leads from the start (index 0) to `x`. */
  ghost predicate Connected(adj: Adj, x: int)
  {
    exists p :: IsWalk(adj, 0, p, x)
  }

  /** Every entry of a reached location leads to a reached location. */
  ghost predicate Closed(adj: Adj, reached: seq<bool>)
    requires |reached| == |adj| && InRange(adj)
  {
    forall x, j :: 0 <= x < |adj| && reached[x] && 0 <= j < |adj[x]| ==> reached[adj[x][j].nb - 1]
  }

  /** The final arrays have one slot per location. */
  ghost predicate Shaped(adj: Adj, reached: seq<bool>, disc: seq<int>, low: seq<int>, parent: seq<int>)
  {
    && InRange(adj) && |reached| == |adj| && |disc| == |adj| && |low| == |adj| && |parent| == |adj|
  }

  /**
   * A reached `x` was discovered at a time after `t0` that is its place in
   * `order`; unless it is the start, its parent is a reached location discovered
   * earlier, with an entry leading to `x`.
   */
  ghost predicate TreeOk(adj: Adj, reached: seq<bool>, order: seq<int>, disc: seq<int>, parent: seq<int>, t0: int, x: int)
    requires InRange(adj) && |reached| == |adj| && |disc| == |adj| && |parent| == |adj| && 0 <= x < |adj|
  {
    reached[x] ==>
      && t0 < disc[x] <= t0 + |order| && order[disc[x] - t0 - 1] == x
      && (x != 0 ==> 0 <= parent[x] < |adj| && reached[parent[x]] && disc[parent[x]] < disc[x]
                     && exists j :: 0 <= j < |adj[parent[x]]| && adj[parent[x]][j].nb == x + 1)
  }

  /** The `i`-th location of `order` is reached and was discovered at time `t0 + 1 + i`. */
  ghost predicate InOrder(adj: Adj, reached: seq<bool>, order: seq<int>, disc: seq<int>, t0: int, i: int)
    requires |reached| == |adj| && |disc| == |adj| && 0 <= i < |order|
  {
    0 <= order[i] < |adj| && reached[order[i]] && disc[order[i]] == t0 + 1 + i
  }

  /** `c` is a tree child of `x`. */
  ghost predicate IsChild(adj: Adj, reached: seq<bool>, parent: seq<int>, x: int, c: int)
    requires |reached| == |adj| && |parent| == |adj|
  {
    0 <= c < |adj| && c != 0 && reached[c] && parent[c] == x
  }

  /**
   * The low-link recurrence as `encontraCDU` evaluates it: `low[x]` is the least
   * of `x`'s own discovery time, the discovery times of the locations its entries
   * lead to (skipping every entry that leads back to the parent location), and
   * the low-links of its tree children.
   */
  ghost predicate LowLink(adj: Adj, reached: seq<bool>, disc: seq<int>, low: seq<int>, parent: seq<int>, x: int)
    requires Shaped(adj, reached, disc, low, parent) && 0 <= x < |adj|
  {
    && low[x] <= disc[x]
    && (forall j :: 0 <= j < |adj[x]| && adj[x][j].nb - 1 != parent[x] ==> low[x] <= disc[adj[x][j].nb - 1])
    && (forall c :: IsChild(adj, reached, parent, x, c) ==> low[x] <= low[c])
    && (|| low[x] == disc[x]
        || (exists j :: 0 <= j < |adj[x]| && adj[x][j].nb - 1 != parent[x] && low[x] == disc[adj[x][j].nb - 1])
        || (exists c :: IsChild(adj, reached, parent, x, c) && low[x] == low[c]))
  }

  /** The tree children `v` whose low-link exceeds the parent's discovery time: the edges taken for bridges. */
  ghost function BridgeSet(adj: Adj, reached: seq<bool>, disc: seq<int>, low: seq<int>, parent: seq<int>): (B: set<int>)
    requires Shaped(adj, reached, disc, low, parent)
    requires forall x :: 0 <= x < |adj| && reached[x] && x != 0 ==> 0 <= parent[x] < |adj|
    ensures forall v :: v in B <==> 0 <= v < |adj| && reached[v] && v != 0 && low[v] > disc[parent[v]]
  {
    set v | 0 <= v < |adj| && reached[v] && v != 0 && low[v] > disc[parent[v]]
  }

  /** `x` after `n` steps up the tree of parents, stopping at an index outside `parent`. */
  ghost function Up(parent: seq<int>, x: int, n: nat): int
    decreases n
  {
    if n == 0 || !(0 <= x < |parent|) then x else Up(parent, parent[x], n - 1)
  }

  /** `a` is `x` itself or one of its ancestors in the tree of parents. */
  ghost predicate IsAncestor(parent: seq<int>, a: int, x: int)
  {
    exists n: nat :: Up(parent, x, n) == a
  }

  /**
   * The depth-first property of entry `j` of `x`: it leads to a location
   * discovered before `x`, or to `x` itself or one of its descendants.
   */
  ghost predicate DepthFirst(adj: Adj, disc: seq<int>, parent: seq<int>, x: int, j: int)
    requires InRange(adj) && |disc| == |adj| && 0 <= x < |adj| && 0 <= j < |adj[x]|
  {
    var w := adj[x][j].nb - 1;
    disc[w] < disc[x] || IsAncestor(parent, x, w)
  }

  /**
   * What the search from the start leaves in its final arrays, with the clock
   * `t0` on entry: it reaches exactly the locations connected to the start,
   * numbers them in discovery order, hangs each below an earlier one it has an
   * entry to, computes the low-link recurrence, and has the depth-first property
   * at every entry of a reached location; the start keeps its initial parent
   * 0, so every walk up the tree ends there.
   */
  ghost predicate Searched(adj: Adj, t0: int, reached: seq<bool>, order: seq<int>, disc: seq<int>, low: seq<int>,
                           parent: seq<int>)
  {
    && Shaped(adj, reached, disc, low, parent)
    && (0 < |adj| ==> parent[0] == 0)
    && (forall x :: 0 <= x < |adj| ==> (reached[x] <==> Connected(adj, x)))
    && (forall i :: 0 <= i < |order| ==> InOrder(adj, reached, order, disc, t0, i))
    && (forall x :: 0 <= x < |adj| ==> TreeOk(adj, reached, order, disc, parent, t0, x))
    && (forall x :: 0 <= x < |adj| && reached[x] ==> LowLink(adj, reached, disc, low, parent, x))
    && (forall x :: 0 <= x < |adj| && reached[x] && x != 0 ==> 0 <= parent[x] < |adj|)
    && (forall x, j :: 0 <= x < |adj| && reached[x] && 0 <= j < |adj[x]| ==> DepthFirst(adj, disc, parent, x, j))
  }

  /**
   * On a view that is its own transpose, a search with the depth-first property
   * has no cross entries: every entry of a reached location joins an ancestor
   * and a descendant.
   */
  lemma AncestorOrDescendant(adj: Adj, reached: seq<bool>, disc: seq<int>, parent: seq<int>, x: int, j: int)
    requires Transposed(adj, adj) && |reached| == |adj| && |disc| == |adj| && Closed(adj, reached)
    requires forall y, k :: 0 <= y < |adj| && reached[y] && 0 <= k < |adj[y]| ==> DepthFirst(adj, disc, parent, y, k)
    requires 0 <= x < |adj| && reached[x] && 0 <= j < |adj[x]|
    ensures IsAncestor(parent, x, adj[x][j].nb - 1) || IsAncestor(parent, adj[x][j].nb - 1, x)
  {
    var w := adj[x][j].nb - 1;
    assert Mirrored(adj, adj, x, j);
    var k :| 0 <= k < |adj[w]| && adj[w][k] == Entry(adj[x][j].id, x + 1, adj[x][j].w);
    assert reached[w] && adj[w][k].nb - 1 == x;
    assert DepthFirst(adj, disc, parent, x, j) && DepthFirst(adj, disc, parent, w, k);
  }

  /** A walk from a reached location through a closed set ends at a reached location. */
  lemma {:induction false} ClosedWalk(adj: Adj, reached: seq<bool>, a: int, p: seq<Entry>, b: int)
    requires |reached| == |adj| && InRange(adj) && Closed(adj, reached)
    requires IsWalk(adj, a, p, b) && reached[a]
    ensures reached[b]
    decreases |p|
  {
    if p != [] {
      var j :| 0 <= j < |adj[a]| && adj[a][j] == p[0];
      ClosedWalk(adj, reached, p[0].nb - 1, p[1..], b);
    }
  }
}
