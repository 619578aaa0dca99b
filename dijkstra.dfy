/**
 * The two-pass shortest-path oracle of main.cpp: `inicializar`, `relaxar` and
 * `twoWayDijkstra`, a lazy-deletion Dijkstra over a priority queue of
 * `(vertex, distance)` records, run forward over `listaAdjUV` from the entry and
 * backward over `listaAdjVU` from the exit.
 */
module Dijkstra {
  import opened Estadio
  import opened Paths
  import opened Shortest
  import opened PassState
  import opened PassInvariant

  /** Models `q.top()`: some record of least priority; ties are resolved arbitrarily. */
  method ExtractMin(q: multiset<Rec>) returns (top: Rec)
    requires |q| > 0
    ensures top in q
    ensures forall r :: r in q ==> top.dist <= r.dist
  {
    top :| top in q;
    var rest := q - multiset{top};
    while |rest| > 0
      invariant rest <= q && top in q
      invariant forall r :: r in q ==> r in rest || top.dist <= r.dist
      decreases |rest|
    {
      var x :| x in rest;
      if x.dist < top.dist {
        top := x;
      }
      rest := rest - multiset{x};
    }
  }

  /** Models `inicializar`: every distance is the sentinel except the entry's (forward) and the exit's (backward). */
  method Inicializar(nL: int, s: int, d: array<int>, dT: array<int>)
    requires d.Length == nL && dT.Length == nL && d != dT
    requires 1 <= s <= nL
    modifies d, dT
    ensures forall i :: 0 <= i < nL ==> d[i] == (if i == s - 1 then 0 else INF)
    ensures forall i :: 0 <= i < nL ==> dT[i] == (if i == nL - 1 then 0 else INF)
  {
    for i := 0 to nL
      invariant forall j :: 0 <= j < i ==> d[j] == INF && dT[j] == INF
    {
      d[i] := INF;
      dT[i] := INF;
    }
    d[s - 1] := 0;
    dT[nL - 1] := 0;
  }

  /**
   * Models `relaxar`: the neighbour's distance changes only when the route
   * through `u` is strictly shorter, in which case exactly one record carrying
   * the new distance is pushed; otherwise neither the distances nor the queue change.
   */
  method Relaxar(d: array<int>, corredor: Entry, u: int, q: multiset<Rec>) returns (q': multiset<Rec>)
    requires 0 <= u < d.Length && 1 <= corredor.nb <= d.Length
    requires d[u] != INF
    modifies d
    ensures var v, nd := corredor.nb - 1, old(d[u]) + corredor.w;
      if old(d[v]) > nd then d[..] == old(d[..])[v := nd] && q' == q + multiset{Rec(v, nd)}
      else d[..] == old(d[..]) && q' == q
  {
    var v := corredor.nb - 1;
    var w := corredor.w;
    q' := q;
    if d[v] > d[u] + w {
      d[v] := d[u] + w;
      q' := q' + multiset{Rec(v, d[v])};
    }
  }

  /** Relaxes every entry of the popped location `u`, in list order: the inner loop of a pass. */
  method RelaxAll(lists: array<seq<Entry>>, d: array<int>, u: int, q: multiset<Rec>,
                  ghost adj: Adj, ghost src: int, ghost S: set<int>, ghost paths: seq<seq<Entry>>, ghost B: int)
    returns (q': multiset<Rec>, ghost ds': seq<int>, ghost paths': seq<seq<Entry>>)
    requires lists[..] == adj && WeightsOk(adj)
    requires MidInv(adj, src, d[..], q, S, paths, u, 0, B)
    modifies d
    ensures d[..] == ds'
    ensures MidInv(adj, src, ds', q', S, paths', u, |adj[u]|, B)
  {
    ds', q', paths' := d[..], q, paths;
    var i := 0;
    while i < |lists[u]|
      invariant d[..] == ds'
      invariant MidInv(adj, src, ds', q', S, paths', u, i, B)
    {
      var e := lists[u][i];
      RelaxStep(adj, src, ds', q', S, paths', u, i, B);
      ghost var v, nd := e.nb - 1, ds'[u] + e.w;
      assert 0 <= v < d.Length && d[v] == ds'[v] && d[u] == ds'[u];
      q' := Relaxar(d, e, u, q');
      if ds'[v] > nd {
        ds' := ds'[v := nd];
        paths' := paths'[v := paths'[u] + [e]];
      }
      i := i + 1;
    }
  }

  /**
   * One lazy-deletion Dijkstra pass over the view `lists` from `src`, with the
   * queue seeded by one record per location: the loop shared by the forward
   * and the backward half of `twoWayDijkstra`. Stale records (sentinel or larger
   * than the current distance) are discarded; at most `n` locations are settled.
   */
  method Pass(lists: array<seq<Entry>>, src: int, d: array<int>, q0: multiset<Rec>)
    requires d.Length == lists.Length && 1 <= d.Length <= INT_MAX
    requires InRange(lists[..]) && WeightsOk(lists[..])
    requires 0 <= src < d.Length
    requires forall i :: 0 <= i < d.Length ==> d[i] == (if i == src then 0 else INF)
    requires q0 == Seeds(d[..])
    modifies d
    ensures IsShortestFrom(lists[..], src, d[..])
  {
    var n := d.Length;
    ghost var adj := lists[..];
    ghost var ds := d[..];
    ghost var S: set<int> := {};
    ghost var paths: seq<seq<Entry>> := seq(n, _ => []);
    ghost var B := 0;
    var q := q0;
    var counter := 0;
    PassStart(adj, src, ds);
    while counter < n && |q| > 0
      invariant lists[..] == adj && d[..] == ds
      invariant 0 <= counter == |S| <= n && B == counter * INT_MAX
      invariant OuterInv(adj, src, ds, q, S, paths, B)
      decreases n - counter, |q|
    {
      var top := ExtractMin(q);
      var u := top.vertex;
      var dis := top.dist;
      QueuedInRange(adj, src, ds, q, S, paths, B, top);
      assert d[u] == ds[u];
      if d[u] == INF || d[u] < dis {
        PopStale(adj, src, ds, q, S, paths, B, top);
        q := q - multiset{top};
        continue;
      }
      PopFresh(adj, src, ds, q, S, paths, B, top);
      q := q - multiset{top};
      q, ds, paths := RelaxAll(lists, d, u, q, adj, src, S, paths, B);
      Settle(adj, src, ds, q, S, paths, u, B);
      S := S + {u};
      B := B + INT_MAX;
      counter := counter + 1;
    }
    PassEnd(adj, src, ds, q, S, paths, B);
  }

  /**
   * The seeding loop of `twoWayDijkstra`: one record `(i, d[i])` per location
   * in the forward queue and one `(i, dT[i])` in the backward queue.
   */
  method SeedQueues(d: array<int>, dT: array<int>) returns (q: multiset<Rec>, qT: multiset<Rec>)
    requires d.Length == dT.Length
    ensures q == Seeds(d[..]) && qT == Seeds(dT[..])
  {
    q, qT := multiset{}, multiset{};
    for i := 0 to d.Length
      invariant q == Seeds(d[..i]) && qT == Seeds(dT[..i])
    {
      assert d[..i + 1][..i] == d[..i] && dT[..i + 1][..i] == dT[..i];
      q := q + multiset{Rec(i, d[i])};
      qT := qT + multiset{Rec(i, dT[i])};
    }
    assert d[..d.Length] == d[..] && dT[..d.Length] == dT[..];
  }

  /**
   * Models `twoWayDijkstra`: shortest distances from the entry `s` over the
   * forward view into `d`, then, only when the exit is reachable, shortest
   * distances to the exit (a pass over the reverse view) into `dT`. When the
   * exit is unreachable `dT` keeps its initial values.
   */
  method TwoWayDijkstra(s: int, e: Estadio, d: array<int>, dT: array<int>)
    requires e.Valid() && 1 <= e.numLocais <= INT_MAX && 1 <= s <= e.numLocais
    requires d.Length == e.numLocais && dT.Length == e.numLocais && d != dT
    requires Transposed(e.listaAdjUV[..], e.listaAdjVU[..])
    requires WeightsOk(e.listaAdjUV[..]) && WeightsOk(e.listaAdjVU[..])
    modifies d, dT
    ensures IsShortestFrom(e.listaAdjUV[..], s - 1, d[..])
    ensures d[e.numLocais - 1] != INF ==> IsShortestTo(e.listaAdjUV[..], e.numLocais - 1, dT[..])
    ensures d[e.numLocais - 1] == INF ==>
      forall i :: 0 <= i < e.numLocais ==> dT[i] == (if i == e.numLocais - 1 then 0 else INF)
  {
    var nL := e.numLocais;
    Inicializar(nL, s, d, dT);
    var q, qT := SeedQueues(d, dT);
    ghost var uv, vu, dT0 := e.listaAdjUV[..], e.listaAdjVU[..], dT[..];
    assert forall i :: 0 <= i < nL ==> dT0[i] == (if i == nL - 1 then 0 else INF);
    Pass(e.listaAdjUV, s - 1, d, q);
    if d[nL - 1] == INF {
      assert dT[..] == dT0;
      return;
    }
    ghost var ds := d[..];
    assert IsShortestFrom(uv, s - 1, ds);
    Pass(e.listaAdjVU, nL - 1, dT, qT);
    ghost var dts := dT[..];
    assert IsShortestFrom(vu, nL - 1, dts);
    ShortestToFromTransposed(uv, vu, nL - 1, dts);
    assert d[..] == ds;
  }
}
