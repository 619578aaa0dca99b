/**
 * Directed walks over an adjacency view: the vocabulary in which distances,
 * shortest-path corridors and reachability are stated. Locations are 0-based
 * indices into the view; the neighbour field of an entry is 1-based.
 */
module Paths {
  import opened Estadio

  /** The contents of one view: list `x` holds the entries leaving location `x + 1`. */
  type Adj = seq<seq<Entry>>

  /** Every neighbour names a location of the view. */
  ghost predicate InRange(adj: Adj)
  {
    forall x, k :: 0 <= x < |adj| && 0 <= k < |adj[x]| ==> 1 <= adj[x][k].nb <= |adj|
  }

  /** Every weight is a non-negative C++ `int`. */
  ghost predicate WeightsOk(adj: Adj)
  {
    forall x, k :: 0 <= x < |adj| && 0 <= k < |adj[x]| ==> 0 <= adj[x][k].w <= INT_MAX
  }

  /** `p` is a walk from `a` to `b`: each entry lies in the list of the location reached so far. */
  ghost predicate IsWalk(adj: Adj, a: int, p: seq<Entry>, b: int)
    decreases |p|
  {
    && 0 <= a < |adj| && 0 <= b < |adj|
    && if p == [] then a == b
       else p[0] in adj[a] && IsWalk(adj, p[0].nb - 1, p[1..], b)
  }

  /** Total weight of a walk. */
  ghost function Length(p: seq<Entry>): int
    decreases |p|
  {
    if p == [] then 0 else p[0].w + Length(p[1..])
  }

  /** There is a walk of total weight `len` from `a` to `b`. */
  ghost predicate Reaches(adj: Adj, a: int, b: int, len: int)
  {
    exists p :: IsWalk(adj, a, p, b) && Length(p) == len
  }

  /** Entry `k` of list `x` of `uv` appears, turned around, in the list of its neighbour in `vu`. */
  ghost predicate Mirrored(uv: Adj, vu: Adj, x: int, k: int)
    requires |vu| == |uv| && InRange(uv) && 0 <= x < |uv| && 0 <= k < |uv[x]|
  {
    Entry(uv[x][k].id, x + 1, uv[x][k].w) in vu[uv[x][k].nb - 1]
  }

  /** The forward and reverse views are transposes of each other, entry for entry. */
  ghost predicate Transposed(uv: Adj, vu: Adj)
  {
    && |uv| == |vu|
    && InRange(uv) && InRange(vu)
    && (forall x, k :: 0 <= x < |uv| && 0 <= k < |uv[x]| ==> Mirrored(uv, vu, x, k))
    && (forall x, k :: 0 <= x < |vu| && 0 <= k < |vu[x]| ==> Mirrored(vu, uv, x, k))
  }

  /** A walk extended by one entry of its last location is a walk, longer by that weight. */
  lemma {:induction false} WalkAppend(adj: Adj, a: int, p: seq<Entry>, b: int, e: Entry)
    requires IsWalk(adj, a, p, b)
    requires e in adj[b] && 1 <= e.nb <= |adj|
    ensures IsWalk(adj, a, p + [e], e.nb - 1)
    ensures Length(p + [e]) == Length(p) + e.w
    decreases |p|
  {
    if p == [] {
      assert [e][1..] == [];
    } else {
      WalkAppend(adj, p[0].nb - 1, p[1..], b, e);
      assert (p + [e])[1..] == p[1..] + [e];
    }
  }

  /** Two walks that meet concatenate into a walk whose length is the sum. */
  lemma {:induction false} WalkConcat(adj: Adj, a: int, p: seq<Entry>, b: int, q: seq<Entry>, c: int)
    requires IsWalk(adj, a, p, b) && IsWalk(adj, b, q, c)
    ensures IsWalk(adj, a, p + q, c)
    ensures Length(p + q) == Length(p) + Length(q)
    decreases |p|
  {
    if p == [] {
      assert p + q == q;
    } else {
      WalkConcat(adj, p[0].nb - 1, p[1..], b, q, c);
      assert (p + q)[1..] == p[1..] + q;
    }
  }

  /** A walk read backwards, each entry replaced by its transposed twin. */
  ghost function Reverse(a: int, p: seq<Entry>): seq<Entry>
    decreases |p|
  {
    if p == [] then [] else Reverse(p[0].nb - 1, p[1..]) + [Entry(p[0].id, a + 1, p[0].w)]
  }

  /** A walk in one view, reversed, is a walk of the same length in its transpose. */
  lemma {:induction false} ReverseWalk(uv: Adj, vu: Adj, a: int, p: seq<Entry>, b: int)
    requires Transposed(uv, vu)
    requires IsWalk(vu, a, p, b)
    ensures IsWalk(uv, b, Reverse(a, p), a)
    ensures Length(Reverse(a, p)) == Length(p)
    decreases |p|
  {
    if p == [] {
    } else {
      var a1 := p[0].nb - 1;
      var k :| 0 <= k < |vu[a]| && vu[a][k] == p[0];
      var back := Entry(p[0].id, a + 1, p[0].w);
      assert Mirrored(vu, uv, a, k);
      assert back in uv[a1];
      ReverseWalk(uv, vu, a1, p[1..], b);
      WalkAppend(uv, b, Reverse(a1, p[1..]), a1, back);
    }
  }

  /** Transposition is symmetric. */
  lemma TransposedSym(uv: Adj, vu: Adj)
    requires Transposed(uv, vu)
    ensures Transposed(vu, uv)
  {
  }

  /** A walk of `uv` from `a` to `b` exists exactly when one of `vu` from `b` to `a` does, with the same length. */
  lemma ReachesTransposed(uv: Adj, vu: Adj, a: int, b: int, len: int)
    requires Transposed(uv, vu)
    ensures Reaches(uv, a, b, len) <==> Reaches(vu, b, a, len)
  {
    if Reaches(uv, a, b, len) {
      var p :| IsWalk(uv, a, p, b) && Length(p) == len;
      TransposedSym(uv, vu);
      ReverseWalk(vu, uv, a, p, b);
    }
    if Reaches(vu, b, a, len) {
      var p :| IsWalk(vu, b, p, a) && Length(p) == len;
      ReverseWalk(uv, vu, b, p, a);
    }
  }
}
