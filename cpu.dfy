/**
 * The possibly-used extractor `encontraCPU` (main.cpp): every forward entry that
 * lies on a shortest route from the entry to the exit is marked 1, counted, and
 * inserted at both of its ends into a new venue whose forward view is undirected.
 */
module Cpu {
  import opened Estadio
  import opened Paths
  import opened Shortest

  /** A qualifying forward entry `e` leaving the 0-based location `from`. */
  datatype Arc = Arc(from: int, e: Entry)

  /** The distance vectors fit the view, which has at least one location (the exit is the last). */
  ghost predicate Fits(adj: Adj, d: seq<int>, dT: seq<int>)
  {
    1 <= |adj| && |d| == |adj| && |dT| == |adj| && InRange(adj)
  }

  /**
   * The extraction criterion with the sentinel short-circuited: both ends are
   * reached and the distance to `x`, the weight and the distance from the
   * neighbour to the exit add up to the distance of the exit.
   */
  ghost predicate Qualifies(d: seq<int>, dT: seq<int>, x: int, e: Entry)
    requires 1 <= |d| && |dT| == |d| && 0 <= x < |d| && 1 <= e.nb <= |d|
  {
    d[x] != INF && dT[e.nb - 1] != INF && d[|d| - 1] == d[x] + dT[e.nb - 1] + e.w
  }

  /** The criterion as main.cpp:109 writes it, read on values for which the sum does not overflow. */
  ghost predicate QualifiesAsWritten(d: seq<int>, dT: seq<int>, x: int, e: Entry)
    requires 1 <= |d| && |dT| == |d| && 0 <= x < |d| && 1 <= e.nb <= |d|
  {
    d[|d| - 1] == d[x] + dT[e.nb - 1] + e.w
  }

  /** The arcs of the first `k` entries of list `x` that qualify, in list order. */
  ghost function RowQual(adj: Adj, d: seq<int>, dT: seq<int>, x: int, k: int): seq<Arc>
    requires Fits(adj, d, dT) && 0 <= x < |adj| && 0 <= k <= |adj[x]|
    decreases k
  {
    if k == 0 then []
    else
      var e := adj[x][k - 1];
      RowQual(adj, d, dT, x, k - 1) + (if Qualifies(d, dT, x, e) then [Arc(x, e)] else [])
  }

  /** The qualifying arcs of the lists of locations `0 .. x - 1`, in scan order. */
  ghost function Qual(adj: Adj, d: seq<int>, dT: seq<int>, x: int): seq<Arc>
    requires Fits(adj, d, dT) && 0 <= x <= |adj|
    decreases x
  {
    if x == 0 then [] else Qual(adj, d, dT, x - 1) + RowQual(adj, d, dT, x - 1, |adj[x - 1]|)
  }

  /** Every arc leaves a location and names a location of an `n`-location venue. */
  ghost predicate ArcsIn(n: int, arcs: seq<Arc>)
  {
    forall i :: 0 <= i < |arcs| ==> 0 <= arcs[i].from < n && 1 <= arcs[i].e.nb <= n
  }

  /**
   * The forward view of the extracted venue: each arc, in order, first appended
   * turned around to its neighbour's list, then as is to its own location's list.
   */
  ghost function Undirected(n: nat, arcs: seq<Arc>): (g: Adj)
    requires ArcsIn(n, arcs)
    ensures |g| == n
    decreases |arcs|
  {
    if arcs == [] then seq(n, _ => [])
    else
      var a, g := arcs[|arcs| - 1], Undirected(n, arcs[..|arcs| - 1]);
      var v := a.e.nb - 1;
      var g1 := g[v := g[v] + [Entry(a.e.id, a.from + 1, a.e.w)]];
      g1[a.from := g1[a.from] + [a.e]]
  }

  /** Arc `a` contributes `f` to the list of location `y`: as itself at its start, or turned around at its end. */
  ghost predicate Touches(a: Arc, y: int, f: Entry)
  {
    || (a.from == y && f == a.e)
    || (a.e.nb - 1 == y && f == Entry(a.e.id, a.from + 1, a.e.w))
  }

  /** The corridor ids of a sequence of arcs. */
  ghost function Ids(arcs: seq<Arc>): set<int>
  {
    set a | a in arcs :: a.e.id
  }

  /** Loading one more arc appends it, turned around, to its neighbour's list and then to its own. */
  lemma UndirectedSnoc(n: nat, arcs: seq<Arc>, a: Arc)
    requires ArcsIn(n, arcs) && 0 <= a.from < n && 1 <= a.e.nb <= n
    ensures ArcsIn(n, arcs + [a])
    ensures var g := Undirected(n, arcs);
      var g1 := g[a.e.nb - 1 := g[a.e.nb - 1] + [Entry(a.e.id, a.from + 1, a.e.w)]];
      Undirected(n, arcs + [a]) == g1[a.from := g1[a.from] + [a.e]]
  {
    var s := arcs + [a];
    assert s[..|s| - 1] == arcs;
    forall i | 0 <= i < |s|
      ensures 0 <= s[i].from < n && 1 <= s[i].e.nb <= n
    {
      if i < |arcs| {
        assert s[i] == arcs[i];
      }
    }
  }

  /** The ids of one more arc are the old ids and the arc's own. */
  lemma IdsSnoc(arcs: seq<Arc>, a: Arc)
    ensures Ids(arcs + [a]) == Ids(arcs) + {a.e.id}
  {
    assert forall b :: b in arcs + [a] <==> b in arcs || b == a;
  }

  /** Every corridor id of an arc names an entry of a marking vector of length `m`. */
  ghost predicate IdsIn(m: int, arcs: seq<Arc>)
  {
    forall i :: 0 <= i < |arcs| ==> 1 <= arcs[i].e.id <= m
  }

  /** The marking vector `c0` after marking the corridor of every arc, in order, with 1. */
  ghost function Mark(c0: seq<int>, arcs: seq<Arc>): (c: seq<int>)
    requires IdsIn(|c0|, arcs)
    ensures |c| == |c0|
    decreases |arcs|
  {
    if arcs == [] then c0 else Mark(c0, arcs[..|arcs| - 1])[arcs[|arcs| - 1].e.id - 1 := 1]
  }

  /** One more arc with a fitting id keeps every id fitting. */
  lemma IdsInSnoc(m: int, arcs: seq<Arc>, a: Arc)
    requires IdsIn(m, arcs) && 1 <= a.e.id <= m
    ensures IdsIn(m, arcs + [a])
  {
    var s := arcs + [a];
    forall i | 0 <= i < |s|
      ensures 1 <= s[i].e.id <= m
    {
      if i < |arcs| {
        assert s[i] == arcs[i];
      }
    }
  }

  /** Marking one more arc overwrites its corridor's entry with 1. */
  lemma MarkSnoc(c0: seq<int>, arcs: seq<Arc>, a: Arc)
    requires IdsIn(|c0|, arcs) && 1 <= a.e.id <= |c0|
    ensures IdsIn(|c0|, arcs + [a])
    ensures Mark(c0, arcs + [a]) == Mark(c0, arcs)[a.e.id - 1 := 1]
  {
    IdsInSnoc(|c0|, arcs, a);
    var s := arcs + [a];
    assert s[..|s| - 1] == arcs;
  }

  /** Marking sets exactly the listed corridors to 1 and leaves every other entry as it was. */
  lemma {:induction false} MarkedIds(c0: seq<int>, arcs: seq<Arc>, j: int)
    requires IdsIn(|c0|, arcs) && 0 <= j < |c0|
    ensures Mark(c0, arcs)[j] == if j + 1 in Ids(arcs) then 1 else c0[j]
    decreases |arcs|
  {
    if arcs != [] {
      var pre := arcs[..|arcs| - 1];
      assert arcs == pre + [arcs[|arcs| - 1]];
      IdsSnoc(pre, arcs[|arcs| - 1]);
      MarkedIds(c0, pre, j);
    }
  }

  /** The criterion read off the three distances it compares. */
  lemma QualifiesAt(d: seq<int>, dT: seq<int>, x: int, e: Entry, a: int, b: int, D: int)
    requires 1 <= |d| && |dT| == |d| && 0 <= x < |d| && 1 <= e.nb <= |d|
    requires d[x] == a && dT[e.nb - 1] == b && d[|d| - 1] == D
    ensures Qualifies(d, dT, x, e) <==> a != INF && b != INF && D == a + b + e.w
  {
  }

  /** Scanning entry `k` of list `x` appends its arc exactly when it qualifies. */
  lemma ScanStep(adj: Adj, d: seq<int>, dT: seq<int>, x: int, k: int)
    requires Fits(adj, d, dT) && 0 <= x < |adj| && 0 <= k < |adj[x]|
    ensures Qual(adj, d, dT, x) + RowQual(adj, d, dT, x, k + 1) ==
      Qual(adj, d, dT, x) + RowQual(adj, d, dT, x, k) + (if Qualifies(d, dT, x, adj[x][k]) then [Arc(x, adj[x][k])] else [])
  {
  }

  /** Every qualifying entry names a corridor of a marking vector of length `m`. */
  ghost predicate IdsFit(adj: Adj, d: seq<int>, dT: seq<int>, m: int)
    requires Fits(adj, d, dT)
  {
    forall x, k :: 0 <= x < |adj| && 0 <= k < |adj[x]| && Qualifies(d, dT, x, adj[x][k]) ==> 1 <= adj[x][k].id <= m
  }

  /** Every arc of `RowQual` is a qualifying entry of list `x`, and every qualifying entry among the first `k` is one. */
  lemma {:induction false} RowQualMembers(adj: Adj, d: seq<int>, dT: seq<int>, x: int, k: int, a: Arc)
    requires Fits(adj, d, dT) && 0 <= x < |adj| && 0 <= k <= |adj[x]|
    ensures a in RowQual(adj, d, dT, x, k) <==> a.from == x && a.e in adj[x][..k] && Qualifies(d, dT, x, a.e)
    decreases k
  {
    if k > 0 {
      RowQualMembers(adj, d, dT, x, k - 1, a);
      assert adj[x][..k] == adj[x][..k - 1] + [adj[x][k - 1]];
    }
  }

  /** The arcs of `Qual` are exactly the qualifying entries of the lists scanned so far. */
  lemma {:induction false} QualMembers(adj: Adj, d: seq<int>, dT: seq<int>, x: int, a: Arc)
    requires Fits(adj, d, dT) && 0 <= x <= |adj|
    ensures a in Qual(adj, d, dT, x) <==> 0 <= a.from < x && a.e in adj[a.from] && Qualifies(d, dT, a.from, a.e)
    decreases x
  {
    if x > 0 {
      QualMembers(adj, d, dT, x - 1, a);
      RowQualMembers(adj, d, dT, x - 1, |adj[x - 1]|, a);
      assert adj[x - 1][..|adj[x - 1]|] == adj[x - 1];
    }
  }

  /** The extracted view holds `f` at `y` exactly when some arc touches `y` with `f`. */
  lemma {:induction false} UndirectedMembers(n: nat, arcs: seq<Arc>, y: int, f: Entry)
    requires ArcsIn(n, arcs) && 0 <= y < n
    ensures f in Undirected(n, arcs)[y] <==> exists i :: 0 <= i < |arcs| && Touches(arcs[i], y, f)
    decreases |arcs|
  {
    if arcs != [] {
      var m := |arcs| - 1;
      var pre := arcs[..m];
      assert forall i :: 0 <= i < m ==> pre[i] == arcs[i];
      UndirectedMembers(n, pre, y, f);
      if f in Undirected(n, arcs)[y] && f in Undirected(n, pre)[y] {
        var i :| 0 <= i < m && Touches(pre[i], y, f);
        assert Touches(arcs[i], y, f);
      }
      if i :| 0 <= i < |arcs| && Touches(arcs[i], y, f) {
        if i < m {
          assert Touches(pre[i], y, f);
        }
      }
    }
  }

  /** The extracted view is its own transpose: every corridor can be walked from either end. */
  lemma UndirectedSymmetric(n: nat, arcs: seq<Arc>)
    requires ArcsIn(n, arcs)
    ensures Transposed(Undirected(n, arcs), Undirected(n, arcs))
  {
    var g: Adj := Undirected(n, arcs);
    forall y, k | 0 <= y < n && 0 <= k < |g[y]|
      ensures 1 <= g[y][k].nb <= n
    {
      UndirectedMembers(n, arcs, y, g[y][k]);
      var i :| 0 <= i < |arcs| && Touches(arcs[i], y, g[y][k]);
    }
    forall y, k | 0 <= y < n && 0 <= k < |g[y]|
      ensures Mirrored(g, g, y, k)
    {
      var f := g[y][k];
      UndirectedMembers(n, arcs, y, f);
      var i :| 0 <= i < |arcs| && Touches(arcs[i], y, f);
      UndirectedMembers(n, arcs, f.nb - 1, Entry(f.id, y + 1, f.w));
      assert Touches(arcs[i], f.nb - 1, Entry(f.id, y + 1, f.w));
    }
  }

  /** Every entry of the extracted view carries the id and weight of a qualifying forward entry. */
  lemma ExtractedFromQualifying(adj: Adj, d: seq<int>, dT: seq<int>, y: int, f: Entry)
    requires Fits(adj, d, dT) && 0 <= y < |adj|
    requires ArcsIn(|adj|, Qual(adj, d, dT, |adj|))
    requires f in Undirected(|adj|, Qual(adj, d, dT, |adj|))[y]
    ensures exists x, e :: 0 <= x < |adj| && e in adj[x] && Qualifies(d, dT, x, e) && e.id == f.id && e.w == f.w
    ensures f.id in Ids(Qual(adj, d, dT, |adj|))
  {
    var arcs := Qual(adj, d, dT, |adj|);
    UndirectedMembers(|adj|, arcs, y, f);
    var i :| 0 <= i < |arcs| && Touches(arcs[i], y, f);
    assert arcs[i] in arcs;
    QualMembers(adj, d, dT, |adj|, arcs[i]);
  }

  /** `e` leaving `x` lies on a walk from `s` to `t` of total length `D`. */
  ghost predicate OnRoute(adj: Adj, s: int, t: int, D: int, x: int, e: Entry)
  {
    exists p, q :: IsWalk(adj, s, p, x) && IsWalk(adj, e.nb - 1, q, t) && Length(p) + e.w + Length(q) == D
  }

  /**
   * With shortest distances from the entry `s` and to the exit, an entry
   * qualifies exactly when it lies on a walk from `s` to the exit whose length
   * is the shortest distance.
   */
  lemma QualifiesIffOnShortestRoute(adj: Adj, s: int, d: seq<int>, dT: seq<int>, x: int, e: Entry)
    requires Fits(adj, d, dT)
    requires IsShortestFrom(adj, s, d) && IsShortestTo(adj, |adj| - 1, dT)
    requires d[|adj| - 1] != INF
    requires 0 <= x < |adj| && e in adj[x]
    ensures Qualifies(d, dT, x, e) <==> OnRoute(adj, s, |adj| - 1, d[|adj| - 1], x, e)
  {
    var t, v := |adj| - 1, e.nb - 1;
    if Qualifies(d, dT, x, e) {
      var p :| IsWalk(adj, s, p, x) && Length(p) == d[x];
      var q :| IsWalk(adj, v, q, t) && Length(q) == dT[v];
      assert IsWalk(adj, s, p, x) && IsWalk(adj, v, q, t) && Length(p) + e.w + Length(q) == d[t];
    }
    if OnRoute(adj, s, t, d[t], x, e) {
      var p, q :| IsWalk(adj, s, p, x) && IsWalk(adj, v, q, t) && Length(p) + e.w + Length(q) == d[t];
      assert d[x] != INF && d[x] <= Length(p);
      assert dT[v] != INF && dT[v] <= Length(q);
      var p' :| IsWalk(adj, s, p', x) && Length(p') == d[x];
      var q' :| IsWalk(adj, v, q', t) && Length(q') == dT[v];
      WalkAppend(adj, s, p', x, e);
      WalkConcat(adj, s, p' + [e], v, q', t);
      assert d[t] <= Length(p' + [e] + q');
    }
  }

  /**
   * With shortest distances from the entry `s` and to the exit, the corridors
   * `encontraCPU` marks are exactly those with a forward entry on a shortest
   * route from `s` to the exit.
   */
  lemma MarkedIffOnShortestRoute(adj: Adj, s: int, d: seq<int>, dT: seq<int>, i: int)
    requires Fits(adj, d, dT)
    requires IsShortestFrom(adj, s, d) && IsShortestTo(adj, |adj| - 1, dT)
    requires d[|adj| - 1] != INF
    ensures i in Ids(Qual(adj, d, dT, |adj|)) <==>
      exists x, e :: 0 <= x < |adj| && e in adj[x] && e.id == i && OnRoute(adj, s, |adj| - 1, d[|adj| - 1], x, e)
  {
    var arcs := Qual(adj, d, dT, |adj|);
    if i in Ids(arcs) {
      var a :| a in arcs && a.e.id == i;
      QualMembers(adj, d, dT, |adj|, a);
      QualifiesIffOnShortestRoute(adj, s, d, dT, a.from, a.e);
    }
    if exists x, e :: 0 <= x < |adj| && e in adj[x] && e.id == i && OnRoute(adj, s, |adj| - 1, d[|adj| - 1], x, e) {
      var x, e :| 0 <= x < |adj| && e in adj[x] && e.id == i && OnRoute(adj, s, |adj| - 1, d[|adj| - 1], x, e);
      QualifiesIffOnShortestRoute(adj, s, d, dT, x, e);
      QualMembers(adj, d, dT, |adj|, Arc(x, e));
    }
  }

  /** When the exit is unreachable and the backward pass did not run, no entry qualifies. */
  lemma NoneQualifyWhenUnreachable(adj: Adj, s: int, d: seq<int>, dT: seq<int>, x: int, e: Entry)
    requires Fits(adj, d, dT) && IsShortestFrom(adj, s, d)
    requires d[|adj| - 1] == INF
    requires forall i :: 0 <= i < |adj| ==> dT[i] == (if i == |adj| - 1 then 0 else INF)
    requires 0 <= x < |adj| && e in adj[x]
    ensures !Qualifies(d, dT, x, e)
  {
    if Qualifies(d, dT, x, e) {
      var p :| IsWalk(adj, s, p, x) && Length(p) == d[x];
      WalkAppend(adj, s, p, x, e);
      assert false;
    }
  }

  /** With the exit reached and every value a non-negative `long long`, the code's sum and the short-circuited test agree. */
  lemma AsWrittenAgreesWhenReachable(d: seq<int>, dT: seq<int>, x: int, e: Entry)
    requires 1 <= |d| && |dT| == |d| && 0 <= x < |d| && 1 <= e.nb <= |d|
    requires d[|d| - 1] != INF && 0 <= e.w
    requires forall i :: 0 <= i < |d| ==> 0 <= d[i] <= INF && 0 <= dT[i] <= INF
    ensures QualifiesAsWritten(d, dT, x, e) <==> Qualifies(d, dT, x, e)
  {
    assert 0 <= d[x] <= INF && 0 <= dT[e.nb - 1] <= INF && d[|d| - 1] <= INF;
  }

  /**
   * The code's comparison marks a corridor although the exit is unreachable:
   * with corridor 1 from location 1 to location 2 of weight 0 and an isolated
   * exit 3, `0 + LLONG_MAX + 0` equals the exit's sentinel without overflowing.
   */
  lemma AsWrittenMarksWithoutRoute()
    ensures var adj: Adj := [[Entry(1, 2, 0)], [], []];
      && IsShortestFrom(adj, 0, [0, 0, INF])
      && (forall p :: !IsWalk(adj, 0, p, 2))
      && QualifiesAsWritten([0, 0, INF], [INF, INF, 0], 0, Entry(1, 2, 0))
      && !Qualifies([0, 0, INF], [INF, INF, 0], 0, Entry(1, 2, 0))
  {
    var adj: Adj := [[Entry(1, 2, 0)], [], []];
    var d := [0, 0, INF];
    assert IsWalk(adj, 0, [], 0);
    assert IsWalk(adj, 1, [], 1);
    assert IsWalk(adj, 0, [Entry(1, 2, 0)], 1);
    assert Reaches(adj, 0, 0, 0) && Reaches(adj, 0, 1, 0);
    assert Relaxed(adj, d, 0) && Relaxed(adj, d, 1);
    ShortestFromFeasible(adj, 0, d);
  }

  /**
   * The branch of the scan taken for a qualifying entry `entry` of list `i`: the
   * corridor is inserted at its neighbour and at `i + 1`, then marked 1.
   */
  method Take(camMin: Estadio, c: array<int>, i: int, entry: Entry, ghost arcs: seq<Arc>, ghost c0: seq<int>)
    requires camMin.Valid() && 0 <= i < camMin.numLocais && 1 <= entry.nb <= camMin.numLocais
    requires 1 <= entry.id <= c.Length && |c0| == c.Length
    requires ArcsIn(camMin.numLocais, arcs) && IdsIn(c.Length, arcs)
    requires camMin.listaAdjUV[..] == Undirected(camMin.numLocais, arcs) && c[..] == Mark(c0, arcs)
    modifies camMin.listaAdjUV, c
    ensures camMin.Valid()
    ensures ArcsIn(camMin.numLocais, arcs + [Arc(i, entry)]) && IdsIn(c.Length, arcs + [Arc(i, entry)])
    ensures camMin.listaAdjUV[..] == Undirected(camMin.numLocais, arcs + [Arc(i, entry)])
    ensures c[..] == Mark(c0, arcs + [Arc(i, entry)])
  {
    var cId, v, w := entry.id, entry.nb, entry.w;
    ghost var g, cs := camMin.listaAdjUV[..], c[..];
    camMin.AddCorredorUV(cId, v, i + 1, w);
    ghost var g1 := g[v - 1 := g[v - 1] + [Entry(cId, i + 1, w)]];
    assert camMin.listaAdjUV[..] == g1;
    camMin.AddCorredorUV(cId, i + 1, v, w);
    c[cId - 1] := 1;
    assert camMin.listaAdjUV[..] == g1[i := g1[i] + [entry]];
    assert c[..] == cs[cId - 1 := 1];
    UndirectedSnoc(camMin.numLocais, arcs, Arc(i, entry));
    MarkSnoc(c0, arcs, Arc(i, entry));
  }

  /**
   * The inner loop of `encontraCPU`: scans the forward list of location `i + 1`
   * in order and takes every qualifying entry.
   */
  method ScanList(e: Estadio, d: array<int>, dT: array<int>, i: int, camMin: Estadio, c: array<int>, nCP: int,
                  ghost adj: Adj, ghost ds: seq<int>, ghost dTs: seq<int>, ghost arcs: seq<Arc>, ghost c0: seq<int>)
    returns (nCP': int, ghost arcs': seq<Arc>)
    requires e.numLocais == |adj| && e.listaAdjUV[..] == adj && d[..] == ds && dT[..] == dTs && Fits(adj, ds, dTs)
    requires 0 <= i < |adj| && IdsFit(adj, ds, dTs, c.Length) && c != d && c != dT
    requires camMin.Valid() && camMin.numLocais == |adj| && camMin.listaAdjUV != e.listaAdjUV && |c0| == c.Length
    requires arcs == Qual(adj, ds, dTs, i) && ArcsIn(|adj|, arcs) && IdsIn(c.Length, arcs)
    requires camMin.listaAdjUV[..] == Undirected(|adj|, arcs) && c[..] == Mark(c0, arcs)
    modifies camMin.listaAdjUV, c
    ensures camMin.Valid()
    ensures arcs' == Qual(adj, ds, dTs, i + 1) && ArcsIn(|adj|, arcs') && IdsIn(c.Length, arcs')
    ensures camMin.listaAdjUV[..] == Undirected(|adj|, arcs') && c[..] == Mark(c0, arcs')
    ensures nCP' == nCP + |arcs'| - |arcs|
  {
    var n := e.numLocais;
    nCP', arcs' := nCP, arcs;
    for k := 0 to |e.listaAdjUV[i]|
      invariant camMin.Valid()
      invariant arcs' == Qual(adj, ds, dTs, i) + RowQual(adj, ds, dTs, i, k) && ArcsIn(n, arcs') && IdsIn(c.Length, arcs')
      invariant camMin.listaAdjUV[..] == Undirected(n, arcs') && c[..] == Mark(c0, arcs')
      invariant nCP' == nCP + |arcs'| - |arcs|
    {
      var entry := e.listaAdjUV[i][k];
      var w := entry.w;
      assert entry == adj[i][k] && 1 <= entry.nb <= n;
      assert d[i] == ds[i] && dT[entry.nb - 1] == dTs[entry.nb - 1] && d[n - 1] == ds[n - 1];
      ScanStep(adj, ds, dTs, i, k);
      QualifiesAt(ds, dTs, i, entry, d[i], dT[entry.nb - 1], d[n - 1]);
      if d[i] != INF && dT[entry.nb - 1] != INF && d[n - 1] == d[i] + dT[entry.nb - 1] + w {
        Take(camMin, c, i, entry, arcs', c0);
        nCP' := nCP' + 1;
        arcs' := arcs' + [Arc(i, entry)];
      }
    }
    assert adj[i] == e.listaAdjUV[i];
  }

  /**
   * Models `encontraCPU`: scans the forward lists in order; every entry that
   * qualifies is inserted at both ends of a fresh venue of the same size (whose
   * reverse view stays empty), its corridor is marked 1 and `nCP` grows by one;
   * the new venue's corridor count is the final `nCP`.
   */
  method EncontraCPU(e: Estadio, d: array<int>, dT: array<int>, nCP: int, c: array<int>)
    returns (camMin: Estadio, nCP': int)
    requires e.Valid() && 1 <= e.numLocais
    requires d.Length == e.numLocais && dT.Length == e.numLocais && c != d && c != dT
    requires InRange(e.listaAdjUV[..])
    requires IdsFit(e.listaAdjUV[..], d[..], dT[..], c.Length)
    modifies c
    ensures fresh(camMin) && fresh(camMin.listaAdjUV) && fresh(camMin.listaAdjVU)
    ensures camMin.Valid() && camMin.numLocais == e.numLocais && camMin.numCorredores == nCP'
    ensures ArcsIn(e.numLocais, Qual(e.listaAdjUV[..], d[..], dT[..], e.numLocais))
    ensures camMin.listaAdjUV[..] == Undirected(e.numLocais, Qual(e.listaAdjUV[..], d[..], dT[..], e.numLocais))
    ensures forall x :: 0 <= x < e.numLocais ==> camMin.listaAdjVU[x] == []
    ensures nCP' == nCP + |Qual(e.listaAdjUV[..], d[..], dT[..], e.numLocais)|
    ensures forall j :: 0 <= j < c.Length ==>
      c[j] == if j + 1 in Ids(Qual(e.listaAdjUV[..], d[..], dT[..], e.numLocais)) then 1 else old(c[j])
  {
    var n := e.numLocais;
    ghost var adj, ds, dTs, c0 := e.listaAdjUV[..], d[..], dT[..], c[..];
    ghost var arcs: seq<Arc> := [];
    camMin := new Estadio(n);
    nCP' := nCP;
    assert camMin.listaAdjUV[..] == Undirected(n, arcs);
    for i := 0 to n
      invariant fresh(camMin) && fresh(camMin.listaAdjUV) && fresh(camMin.listaAdjVU)
      invariant camMin.Valid() && camMin.numLocais == n
      invariant forall x :: 0 <= x < n ==> camMin.listaAdjVU[x] == []
      invariant e.listaAdjUV[..] == adj && d[..] == ds && dT[..] == dTs
      invariant arcs == Qual(adj, ds, dTs, i) && ArcsIn(n, arcs) && IdsIn(c.Length, arcs)
      invariant camMin.listaAdjUV[..] == Undirected(n, arcs) && c[..] == Mark(c0, arcs)
      invariant nCP' == nCP + |arcs|
    {
      nCP', arcs := ScanList(e, d, dT, i, camMin, c, nCP', adj, ds, dTs, arcs, c0);
    }
    camMin.SetNC(nCP');
    forall j | 0 <= j < c.Length
      ensures c[j] == if j + 1 in Ids(arcs) then 1 else old(c[j])
    {
      MarkedIds(c0, arcs, j);
    }
  }
}
