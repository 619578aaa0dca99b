/**
 * The lemmas that carry the invariants of one lazy-deletion pass from
 * the seeded queue, through every pop and relaxation, to shortest distances.
 */
module PassInvariant {
  import opened Estadio
  import opened Paths
  import opened Shortest
  import opened PassState

  /** The seeded queue holds exactly one record per location, carrying its current distance. */
  lemma {:induction false} SeedsFacts(ds: seq<int>)
    ensures forall r :: r in Seeds(ds) ==> 0 <= r.vertex < |ds| && r.dist == ds[r.vertex]
    ensures forall x :: 0 <= x < |ds| ==> Seeds(ds)[Rec(x, ds[x])] == 1
    decreases |ds|
  {
    if ds != [] {
      var init := ds[..|ds| - 1];
      SeedsFacts(init);
      forall x | 0 <= x < |ds|
        ensures Seeds(ds)[Rec(x, ds[x])] == 1
      {
        if x < |ds| - 1 {
          assert ds[x] == init[x];
        } else {
          assert Rec(x, ds[x]) !in Seeds(init);
        }
      }
    }
  }

  /** A subset of `0 .. n-1` with `n` members is all of it. */
  lemma FullRange(S: set<int>, n: int)
    requires forall x :: x in S ==> 0 <= x < n
    requires |S| == n
    ensures forall x :: 0 <= x < n ==> x in S
  {
    forall x | 0 <= x < n
      ensures x in S
    {
      if x !in S {
        RangeSize(S, n, x);
      }
    }
  }

  /** A subset of `0 .. n-1` that misses some member of it has fewer than `n` members. */
  lemma {:induction false} RangeSize(S: set<int>, n: int, x: int)
    requires forall y :: y in S ==> 0 <= y < n
    requires 0 <= x < n && x !in S
    ensures |S| < n
    decreases n
  {
    if n - 1 in S {
      var S' := S - {n - 1};
      assert x != n - 1;
      RangeSize(S', n - 1, x);
    } else if x == n - 1 {
      RangeAtMost(S, n - 1);
    } else {
      RangeSize(S, n - 1, x);
    }
  }

  /** A subset of `0 .. n-1` has at most `n` members. */
  lemma {:induction false} RangeAtMost(S: set<int>, n: int)
    requires 0 <= n
    requires forall y :: y in S ==> 0 <= y < n
    ensures |S| <= n
    decreases n
  {
    if n > 0 {
      RangeAtMost(S - {n - 1}, n - 1);
    } else {
      assert forall y :: y !in S;
      assert S == {};
    }
  }

  /** The seeded start of a pass satisfies the invariant, with nothing settled. */
  lemma PassStart(adj: Adj, src: int, ds: seq<int>)
    requires |ds| == |adj| && InRange(adj) && 0 <= src < |adj|
    requires forall i :: 0 <= i < |ds| ==> ds[i] == (if i == src then 0 else INF)
    ensures OuterInv(adj, src, ds, Seeds(ds), {}, seq(|adj|, _ => []), 0)
  {
    var q, paths := Seeds(ds), seq(|adj|, _ => []);
    SeedsFacts(ds);
    assert IsWalk(adj, src, [], src);
    forall x | 0 <= x < |ds|
      ensures VertexOk(adj, src, ds, q, {}, paths, 0, 0, -1, 0, x)
    {
      assert Rec(x, ds[x]) in q;
    }
    forall r | r in q
      ensures RecOk(ds, {}, r, 0)
    {
    }
  }

  /** Every queued record names a location. */
  lemma QueuedInRange(adj: Adj, src: int, ds: seq<int>, q: multiset<Rec>, S: set<int>, paths: seq<seq<Entry>>, B: int, top: Rec)
    requires OuterInv(adj, src, ds, q, S, paths, B)
    requires top in q
    ensures 0 <= top.vertex < |ds|
  {
    assert RecOk(ds, S, top, 0);
  }

  /** Discarding a stale record keeps the invariant. */
  lemma PopStale(adj: Adj, src: int, ds: seq<int>, q: multiset<Rec>, S: set<int>, paths: seq<seq<Entry>>, B: int, top: Rec)
    requires OuterInv(adj, src, ds, q, S, paths, B)
    requires top in q && 0 <= top.vertex < |ds|
    requires ds[top.vertex] == INF || ds[top.vertex] < top.dist
    ensures OuterInv(adj, src, ds, q - multiset{top}, S, paths, B)
  {
    var q' := q - multiset{top};
    forall x | 0 <= x < |ds|
      ensures VertexOk(adj, src, ds, q', S, paths, B, 0, -1, B, x)
    {
      assert VertexOk(adj, src, ds, q, S, paths, B, 0, -1, B, x);
      assert ds[x] != INF ==> Rec(x, ds[x]) != top;
    }
    forall r | r in q'
      ensures RecOk(ds, S, r, 0)
    {
      assert RecOk(ds, S, r, 0);
    }
  }

  /** Popping a least record that is current starts settling its location, which was not settled before. */
  lemma PopFresh(adj: Adj, src: int, ds: seq<int>, q: multiset<Rec>, S: set<int>, paths: seq<seq<Entry>>, B: int, top: Rec)
    requires OuterInv(adj, src, ds, q, S, paths, B)
    requires top in q && 0 <= top.vertex < |ds| && forall r :: r in q ==> top.dist <= r.dist
    requires !(ds[top.vertex] == INF || ds[top.vertex] < top.dist)
    ensures top.vertex !in S && ds[top.vertex] == top.dist
    ensures MidInv(adj, src, ds, q - multiset{top}, S, paths, top.vertex, 0, B)
  {
    var u, q', m := top.vertex, q - multiset{top}, top.dist;
    assert RecOk(ds, S, top, 0);
    assert top == Rec(u, ds[u]);
    assert VertexOk(adj, src, ds, q, S, paths, B, 0, -1, B, u);
    forall x | 0 <= x < |ds|
      ensures VertexOk(adj, src, ds, q', S, paths, B, INT_MAX, u, m, x)
    {
      assert VertexOk(adj, src, ds, q, S, paths, B, 0, -1, B, x);
    }
    forall r | r in q'
      ensures RecOk(ds, S, r, ds[u])
    {
      assert RecOk(ds, S, r, 0);
    }
    assert Settling(adj, src, ds, q', S, paths, u, B);
  }

  /** Relaxing the next entry of `u` keeps the invariant, whichever branch `relaxar` takes. */
  lemma RelaxStep(adj: Adj, src: int, ds: seq<int>, q: multiset<Rec>, S: set<int>, paths: seq<seq<Entry>>, u: int, i: int, B: int)
    requires MidInv(adj, src, ds, q, S, paths, u, i, B) && WeightsOk(adj)
    requires i < |adj[u]|
    ensures var e := adj[u][i]; var v, nd := e.nb - 1, ds[u] + e.w;
      if ds[v] > nd then MidInv(adj, src, ds[v := nd], q + multiset{Rec(v, nd)}, S, paths[v := paths[u] + [e]], u, i + 1, B)
      else MidInv(adj, src, ds, q, S, paths, u, i + 1, B)
  {
    var e := adj[u][i];
    var v, nd := e.nb - 1, ds[u] + e.w;
    if ds[v] > nd {
      var ds', q', paths' := ds[v := nd], q + multiset{Rec(v, nd)}, paths[v := paths[u] + [e]];
      Lower(adj, src, ds, q, S, paths, u, B, e);
      PrefixMono(adj, ds, u, i, ds');
      assert Settling(adj, src, ds', q', S, paths', u, B) && Prefix(adj, ds', u, i + 1);
    } else {
      PrefixKeep(adj, ds, u, i);
    }
  }

  /** Lowering the neighbour `v` of `u` to the distance through entry `e` keeps `u` settling. */
  lemma Lower(adj: Adj, src: int, ds: seq<int>, q: multiset<Rec>, S: set<int>, paths: seq<seq<Entry>>, u: int, B: int, e: Entry)
    requires Settling(adj, src, ds, q, S, paths, u, B) && WeightsOk(adj)
    requires e in adj[u] && ds[e.nb - 1] > ds[u] + e.w
    ensures var v, nd := e.nb - 1, ds[u] + e.w;
      Settling(adj, src, ds[v := nd], q + multiset{Rec(v, nd)}, S, paths[v := paths[u] + [e]], u, B)
  {
    var v, nd := e.nb - 1, ds[u] + e.w;
    var ds', q', paths' := ds[v := nd], q + multiset{Rec(v, nd)}, paths[v := paths[u] + [e]];
    var m := ds[u];
    assert 1 <= e.nb <= |adj| && 0 <= e.w <= INT_MAX;
    assert VertexOk(adj, src, ds, q, S, paths, B, INT_MAX, u, ds[u], u);
    assert VertexOk(adj, src, ds, q, S, paths, B, INT_MAX, u, ds[u], v);
    assert v != u && v != src && v !in S;
    assert Rec(v, nd) in q ==> RecOk(ds, S, Rec(v, nd), ds[u]);
    WalkAppend(adj, src, paths[u], u, e);
    forall x | 0 <= x < |ds'|
      ensures VertexOk(adj, src, ds', q', S, paths', B, INT_MAX, u, m, x)
    {
      assert VertexOk(adj, src, ds, q, S, paths, B, INT_MAX, u, ds[u], x);
      if x != v && x in S {
        RelaxedMono(adj, ds, ds', x);
      }
    }
    forall r | r in q'
      ensures RecOk(ds', S, r, ds'[u])
    {
      if r in q {
        assert RecOk(ds, S, r, ds[u]);
      } else {
        forall x | x in S && 0 <= x < |ds'|
          ensures ds'[x] <= r.dist
        {
          assert VertexOk(adj, src, ds, q, S, paths, B, INT_MAX, u, ds[u], x);
        }
      }
    }
  }

  /** Lowering other distances keeps a location relaxed. */
  lemma RelaxedMono(adj: Adj, ds: seq<int>, ds': seq<int>, x: int)
    requires |ds| == |adj| && |ds'| == |adj| && InRange(adj) && 0 <= x < |adj|
    requires Relaxed(adj, ds, x) && ds'[x] == ds[x]
    requires forall y :: 0 <= y < |ds| ==> ds'[y] <= ds[y]
    ensures Relaxed(adj, ds', x)
  {
  }

  /**
   * Lowering the neighbour of entry `i` of `u` to the distance through `u`
   * extends the relaxed prefix of `u`'s list by one entry.
   */
  lemma PrefixMono(adj: Adj, ds: seq<int>, u: int, i: int, ds': seq<int>)
    requires |ds| == |adj| && InRange(adj) && 0 <= u < |adj| && 0 <= i < |adj[u]|
    requires adj[u][i].nb - 1 != u
    requires Prefix(adj, ds, u, i)
    requires ds[adj[u][i].nb - 1] > ds[u] + adj[u][i].w
    requires ds' == ds[adj[u][i].nb - 1 := ds[u] + adj[u][i].w]
    ensures Prefix(adj, ds', u, i + 1)
  {
    forall j | 0 <= j < i + 1
      ensures ds'[adj[u][j].nb - 1] <= ds'[u] + adj[u][j].w
    {
      if j < i {
        assert ds'[adj[u][j].nb - 1] <= ds[adj[u][j].nb - 1];
      }
    }
  }

  /** An entry that does not improve its neighbour extends the relaxed prefix as it stands. */
  lemma PrefixKeep(adj: Adj, ds: seq<int>, u: int, i: int)
    requires |ds| == |adj| && InRange(adj) && 0 <= u < |adj| && 0 <= i < |adj[u]|
    requires Prefix(adj, ds, u, i)
    requires ds[adj[u][i].nb - 1] <= ds[u] + adj[u][i].w
    ensures Prefix(adj, ds, u, i + 1)
  {
  }

  /** Once every entry of `u` is relaxed, `u` joins the settled set and the bound grows by one weight. */
  lemma Settle(adj: Adj, src: int, ds: seq<int>, q: multiset<Rec>, S: set<int>, paths: seq<seq<Entry>>, u: int, B: int)
    requires 0 <= u < |adj|
    requires MidInv(adj, src, ds, q, S, paths, u, |adj[u]|, B)
    ensures OuterInv(adj, src, ds, q, S + {u}, paths, B + INT_MAX)
    ensures |S + {u}| == |S| + 1
  {
    var S', B' := S + {u}, B + INT_MAX;
    assert Relaxed(adj, ds, u);
    forall x | 0 <= x < |ds|
      ensures VertexOk(adj, src, ds, q, S', paths, B', 0, -1, B', x)
    {
      assert VertexOk(adj, src, ds, q, S, paths, B, INT_MAX, u, ds[u], x);
    }
    forall r | r in q
      ensures RecOk(ds, S', r, 0)
    {
      assert RecOk(ds, S, r, ds[u]);
    }
  }

  /** When the loop stops -- queue exhausted or every location settled -- the distances are shortest. */
  lemma PassEnd(adj: Adj, src: int, ds: seq<int>, q: multiset<Rec>, S: set<int>, paths: seq<seq<Entry>>, B: int)
    requires OuterInv(adj, src, ds, q, S, paths, B) && WeightsOk(adj)
    requires B <= MAX_DIST
    requires |q| == 0 || |S| == |adj|
    ensures IsShortestFrom(adj, src, ds)
  {
    if |S| == |adj| {
      FullRange(S, |adj|);
    }
    forall x | 0 <= x < |adj|
      ensures ds[x] == INF || 0 <= ds[x] <= MAX_DIST
      ensures ds[x] != INF ==> Reaches(adj, src, x, ds[x]) && Relaxed(adj, ds, x)
    {
      assert VertexOk(adj, src, ds, q, S, paths, B, 0, -1, B, x);
    }
    ShortestFromFeasible(adj, src, ds);
  }
}
