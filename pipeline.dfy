/**
 * The stage composition `caminhosMinimos` of main.cpp, up to the output: the
 * marking vector is cleared, the two passes compute the distances from the
 * entry and to the exit, `encontraCPU` marks and extracts the shortest-path
 * corridors, and `encontraCDU` marks the bridges of the extracted venue.
 */
module Pipeline {
  import opened Estadio
  import opened Paths
  import opened Shortest
  import opened Dijkstra
  import opened Cpu
  import opened CduState
  import opened CduSpec
  import opened Cdu

  /** Every corridor a bridge of the extracted venue runs along was marked 1 by `encontraCPU`: CDU is within CPU. */
  lemma BridgesAreExtracted(adj: Adj, d: seq<int>, dT: seq<int>, parent: seq<int>, B: set<int>, i: int)
    requires Fits(adj, d, dT) && ArcsIn(|adj|, Qual(adj, d, dT, |adj|))
    requires Hit(Undirected(|adj|, Qual(adj, d, dT, |adj|)), parent, B, i)
    ensures i + 1 in Ids(Qual(adj, d, dT, |adj|))
  {
    var g: Adj := Undirected(|adj|, Qual(adj, d, dT, |adj|));
    var x :| x in B && 0 <= x < |parent| && 0 <= parent[x] < |g| && RowHit(g[parent[x]], x, i);
    var j :| 0 <= j < |g[parent[x]]| && g[parent[x]][j].nb == x + 1 && g[parent[x]][j].id == i + 1;
    ExtractedFromQualifying(adj, d, dT, parent[x], g[parent[x]][j]);
  }

  /** The extracted venue only carries corridor ids of the marking vector. */
  lemma ExtractedIds(adj: Adj, d: seq<int>, dT: seq<int>, m: int)
    requires Fits(adj, d, dT) && IdsFit(adj, d, dT, m) && ArcsIn(|adj|, Qual(adj, d, dT, |adj|))
    ensures IdsWithin(Undirected(|adj|, Qual(adj, d, dT, |adj|)), m)
  {
    var g: Adj := Undirected(|adj|, Qual(adj, d, dT, |adj|));
    forall y, k | 0 <= y < |g| && 0 <= k < |g[y]|
      ensures 1 <= g[y][k].id <= m
    {
      ExtractedFromQualifying(adj, d, dT, y, g[y][k]);
      var x, e :| 0 <= x < |adj| && e in adj[x] && Qualifies(d, dT, x, e) && e.id == g[y][k].id && e.w == g[y][k].w;
      var j :| 0 <= j < |adj[x]| && adj[x][j] == e;
    }
  }

  /** When the exit is unreachable and the backward pass did not run, nothing is extracted. */
  lemma NothingExtractedWhenUnreachable(adj: Adj, s: int, d: seq<int>, dT: seq<int>)
    requires Fits(adj, d, dT) && IsShortestFrom(adj, s, d)
    requires d[|adj| - 1] == INF
    requires forall i :: 0 <= i < |adj| ==> dT[i] == (if i == |adj| - 1 then 0 else INF)
    ensures Qual(adj, d, dT, |adj|) == []
  {
    var arcs := Qual(adj, d, dT, |adj|);
    if arcs != [] {
      assert arcs[0] in arcs;
      QualMembers(adj, d, dT, |adj|, arcs[0]);
      NoneQualifyWhenUnreachable(adj, s, d, dT, arcs[0].from, arcs[0].e);
    }
  }

  /** A search over a venue without corridors reaches only the start, so it finds no bridge. */
  lemma NoBridgesWithoutCorridors(n: nat, reached: seq<bool>, disc: seq<int>, low: seq<int>, parent: seq<int>)
    requires Shaped(seq(n, _ => []), reached, disc, low, parent)
    requires forall x :: 0 <= x < n ==> (reached[x] <==> Connected(seq(n, _ => []), x))
    requires forall x :: 0 <= x < n && reached[x] && x != 0 ==> 0 <= parent[x] < n
    ensures BridgeSet(seq(n, _ => []), reached, disc, low, parent) == {}
  {
    var g: Adj := seq(n, _ => []);
    forall x, p | 0 <= x < n && x != 0
      ensures !IsWalk(g, 0, p, x)
    {
    }
    var B := BridgeSet(g, reached, disc, low, parent);
    forall v
      ensures v !in B
    {
      if 0 <= v < n && v != 0 {
        assert !Connected(g, v);
      }
    }
  }

  /** Corridor `i` has a forward entry on a shortest route of length `D` from `s` to the exit. */
  ghost predicate OnSomeRoute(adj: Adj, s: int, D: int, i: int)
  {
    exists x, e :: 0 <= x < |adj| && e in adj[x] && e.id == i && OnRoute(adj, s, |adj| - 1, D, x, e)
  }

  /** The final mark of corridor `j + 1`: 2 along a bridge of the extracted venue, else 1 when extracted, else 0. */
  ghost function Classify(camAdj: Adj, parent: seq<int>, B: set<int>, ids: set<int>, j: int): int
  {
    if Hit(camAdj, parent, B, j) then 2 else if j + 1 in ids then 1 else 0
  }

  /** A classified vector only holds 0, 1 and 2; a corridor is nonzero exactly when it was extracted, and 2 only then. */
  lemma ClassifiedWithinCpu(adj: Adj, d: seq<int>, dT: seq<int>, parent: seq<int>, B: set<int>, cs: seq<int>)
    requires Fits(adj, d, dT) && ArcsIn(|adj|, Qual(adj, d, dT, |adj|))
    requires forall j :: 0 <= j < |cs| ==>
      cs[j] == Classify(Undirected(|adj|, Qual(adj, d, dT, |adj|)), parent, B, Ids(Qual(adj, d, dT, |adj|)), j)
    ensures forall j :: 0 <= j < |cs| ==> 0 <= cs[j] <= 2
    ensures forall j :: 0 <= j < |cs| ==> (cs[j] == 2 ==> j + 1 in Ids(Qual(adj, d, dT, |adj|)))
    ensures forall j :: 0 <= j < |cs| ==> (cs[j] != 0 <==> j + 1 in Ids(Qual(adj, d, dT, |adj|)))
  {
    forall j | 0 <= j < |cs| && cs[j] == 2
      ensures j + 1 in Ids(Qual(adj, d, dT, |adj|))
    {
      BridgesAreExtracted(adj, d, dT, parent, B, j);
    }
  }

  /** With the exit reached, a corridor of a classified vector is nonzero exactly when it lies on a shortest route from `s`. */
  lemma ClassifiedOnRoute(adj: Adj, s: int, d: seq<int>, dT: seq<int>, parent: seq<int>, B: set<int>, cs: seq<int>)
    requires Fits(adj, d, dT) && ArcsIn(|adj|, Qual(adj, d, dT, |adj|))
    requires IsShortestFrom(adj, s, d) && IsShortestTo(adj, |adj| - 1, dT) && d[|adj| - 1] != INF
    requires forall j :: 0 <= j < |cs| ==>
      cs[j] == Classify(Undirected(|adj|, Qual(adj, d, dT, |adj|)), parent, B, Ids(Qual(adj, d, dT, |adj|)), j)
    ensures forall j :: 0 <= j < |cs| ==> (cs[j] != 0 <==> OnSomeRoute(adj, s, d[|adj| - 1], j + 1))
  {
    ClassifiedWithinCpu(adj, d, dT, parent, B, cs);
    forall j | 0 <= j < |cs|
      ensures cs[j] != 0 <==> OnSomeRoute(adj, s, d[|adj| - 1], j + 1)
    {
      MarkedIffOnShortestRoute(adj, s, d, dT, j + 1);
    }
  }

  /**
   * When the exit is unreachable (and so the backward pass did not run), nothing
   * is extracted, the search of the empty venue finds no bridge, and every
   * corridor is classified 0.
   */
  lemma UnreachableMarksNothing(adj: Adj, s: int, d: seq<int>, dT: seq<int>,
                                reached: seq<bool>, disc: seq<int>, low: seq<int>, parent: seq<int>, j: int)
    requires Fits(adj, d, dT) && IsShortestFrom(adj, s, d) && d[|adj| - 1] == INF
    requires forall i :: 0 <= i < |adj| ==> dT[i] == (if i == |adj| - 1 then 0 else INF)
    requires ArcsIn(|adj|, Qual(adj, d, dT, |adj|))
    requires Shaped(Undirected(|adj|, Qual(adj, d, dT, |adj|)), reached, disc, low, parent)
    requires forall x :: 0 <= x < |adj| ==> (reached[x] <==> Connected(Undirected(|adj|, Qual(adj, d, dT, |adj|)), x))
    requires forall x :: 0 <= x < |adj| && reached[x] && x != 0 ==> 0 <= parent[x] < |adj|
    ensures |Qual(adj, d, dT, |adj|)| == 0
    ensures |BridgeSet(Undirected(|adj|, Qual(adj, d, dT, |adj|)), reached, disc, low, parent)| == 0
    ensures Classify(Undirected(|adj|, Qual(adj, d, dT, |adj|)), parent,
                     BridgeSet(Undirected(|adj|, Qual(adj, d, dT, |adj|)), reached, disc, low, parent),
                     Ids(Qual(adj, d, dT, |adj|)), j) == 0
  {
    NothingExtractedWhenUnreachable(adj, s, d, dT);
    var g: Adj := Undirected(|adj|, Qual(adj, d, dT, |adj|));
    assert g == seq(|adj|, _ => []);
    NoBridgesWithoutCorridors(|adj|, reached, disc, low, parent);
    assert !Hit(g, parent, BridgeSet(g, reached, disc, low, parent), j);
  }

  /**
   * What the two marking stages leave for the forward view `adj` and the
   * distances `d`, `dT`, with the discovery clock `t` on entry: the extracted
   * venue `camAdj` and its count `nCPU`, the search's final arrays `reached`,
   * `order`, `disc`, `low` and `parent`, the bridge count `nCDU`, and the marks
   * `cs`.
   */
  ghost predicate Marked(adj: Adj, d: seq<int>, dT: seq<int>, t: int, camAdj: Adj,
                         reached: seq<bool>, order: seq<int>, disc: seq<int>, low: seq<int>, parent: seq<int>,
                         cs: seq<int>, nCPU: int, nCDU: int)
    requires Fits(adj, d, dT)
  {
    && ArcsIn(|adj|, Qual(adj, d, dT, |adj|))
    && camAdj == Undirected(|adj|, Qual(adj, d, dT, |adj|))
    && nCPU == |Qual(adj, d, dT, |adj|)|
    && |camAdj| == |adj|
    && Searched(camAdj, t, reached, order, disc, low, parent)
    && nCDU == |BridgeSet(camAdj, reached, disc, low, parent)|
    && (forall j :: 0 <= j < |cs| ==>
          cs[j] == Classify(camAdj, parent, BridgeSet(camAdj, reached, disc, low, parent), Ids(Qual(adj, d, dT, |adj|)), j))
  }

  /**
   * The last two stages of `caminhosMinimos`: with the distances computed and
   * the marks cleared, `encontraCPU` marks and extracts the shortest-path
   * corridors and `encontraCDU` marks the bridges of the extracted venue.
   */
  method MarkCorridors(e: Estadio, dA: array<int>, dTA: array<int>, c: array<int>, t: int,
                       ghost adj: Adj, ghost d: seq<int>, ghost dT: seq<int>)
    returns (nCPU: int, nCDU: int, t': int, ghost camAdj: Adj,
             ghost reached: seq<bool>, ghost order: seq<int>, ghost disc: seq<int>, ghost low: seq<int>, ghost parent: seq<int>)
    requires e.Valid() && 1 <= e.numLocais && c != dA && c != dTA
    requires adj == e.listaAdjUV[..] && d == dA[..] && dT == dTA[..] && Fits(adj, d, dT)
    requires IdsFit(adj, d, dT, c.Length)
    requires forall j :: 0 <= j < c.Length ==> c[j] == 0
    modifies c
    ensures t' == t + |order|
    ensures Marked(adj, d, dT, t, camAdj, reached, order, disc, low, parent, c[..], nCPU, nCDU)
  {
    var nL := e.numLocais;
    var camMin;
    camMin, nCPU := EncontraCPU(e, dA, dTA, 0, c);
    assert e.listaAdjUV[..] == adj && dA[..] == d && dTA[..] == dT;
    ghost var arcs := Qual(adj, d, dT, nL);
    camAdj := camMin.listaAdjUV[..];
    assert ArcsIn(nL, arcs) && camAdj == Undirected(nL, arcs) && nCPU == |arcs|;
    ghost var c2 := c[..];
    assert forall j :: 0 <= j < |c2| ==> c2[j] == if j + 1 in Ids(arcs) then 1 else 0;
    UndirectedSymmetric(nL, arcs);
    ExtractedIds(adj, d, dT, c.Length);
    nCDU, t', reached, order, disc, low, parent := EncontraCDU(camMin, 0, c, t);
    assert camMin.listaAdjUV[..] == camAdj;
    ghost var B := BridgeSet(camAdj, reached, disc, low, parent);
    forall j | 0 <= j < c.Length
      ensures c[j] == Classify(camAdj, parent, B, Ids(arcs), j)
    {
      assert c2[j] == if j + 1 in Ids(arcs) then 1 else 0;
    }
  }

  /**
   * What `caminhosMinimos` leaves, up to the output, for the forward view `uv`,
   * `nC` corridors, the entry `s` and the discovery clock `t` on entry: `d` and
   * `dT` are the results of the two passes, `camAdj` is the extracted venue,
   * `reached`, `order`, `disc`, `low` and `parent` are the final arrays of its
   * search, `cs` holds the marks and `nCPU`, `nCDU` the counts.
   */
  ghost predicate Outcome(uv: Adj, s: int, nC: int, t: int, d: seq<int>, dT: seq<int>, camAdj: Adj,
                          reached: seq<bool>, order: seq<int>, disc: seq<int>, low: seq<int>, parent: seq<int>,
                          cs: seq<int>, nCPU: int, nCDU: int)
  {
    && Fits(uv, d, dT) && 1 <= s <= |uv| && |cs| == nC
    && IsShortestFrom(uv, s - 1, d)
    && (d[|uv| - 1] != INF ==> IsShortestTo(uv, |uv| - 1, dT))
    && (d[|uv| - 1] == INF ==> forall i :: 0 <= i < |uv| ==> dT[i] == (if i == |uv| - 1 then 0 else INF))
    && Marked(uv, d, dT, t, camAdj, reached, order, disc, low, parent, cs, nCPU, nCDU)
  }

  /**
   * Models `caminhosMinimos` up to `geraSaida`: clears the `nC` marks, runs
   * `twoWayDijkstra` from `s`, then `encontraCPU` and `encontraCDU` (whose
   * discovery clock `t` persists across calls), and returns the marks with both
   * counts: everything `Outcome` states of the final state.
   */
  method CaminhosMinimos(e: Estadio, s: int, t: int)
    returns (c: array<int>, nCPU: int, nCDU: int, t': int,
             ghost d: seq<int>, ghost dT: seq<int>, ghost camAdj: Adj, ghost reached: seq<bool>,
             ghost order: seq<int>, ghost disc: seq<int>, ghost low: seq<int>, ghost parent: seq<int>)
    requires e.Valid() && 1 <= e.numLocais <= INT_MAX && 1 <= s <= e.numLocais && 0 <= e.numCorredores
    requires Transposed(e.listaAdjUV[..], e.listaAdjVU[..])
    requires WeightsOk(e.listaAdjUV[..]) && WeightsOk(e.listaAdjVU[..])
    requires IdsWithin(e.listaAdjUV[..], e.numCorredores)
    ensures fresh(c) && c.Length == e.numCorredores
    ensures t' == t + |order|
    ensures Outcome(e.listaAdjUV[..], s, e.numCorredores, t, d, dT, camAdj, reached, order, disc, low, parent, c[..], nCPU, nCDU)
  {
    var nL := e.numLocais;
    var nC := e.numCorredores;
    var dA := new int[nL];
    var dTA := new int[nL];
    c := new int[nC];
    for i := 0 to nC
      invariant forall j :: 0 <= j < i ==> c[j] == 0
    {
      c[i] := 0;
    }
    ghost var adj := e.listaAdjUV[..];
    TwoWayDijkstra(s, e, dA, dTA);
    d, dT := dA[..], dTA[..];
    assert e.listaAdjUV[..] == adj;
    assert IdsFit(adj, d, dT, c.Length);
    nCPU, nCDU, t', camAdj, reached, order, disc, low, parent := MarkCorridors(e, dA, dTA, c, t, adj, d, dT);
    ghost var cs := c[..];
    assert Outcome(adj, s, nC, t, d, dT, camAdj, reached, order, disc, low, parent, cs, nCPU, nCDU);
    assert e.listaAdjUV[..] == adj;
  }
}
