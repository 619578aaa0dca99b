/**
 * A whole run of `caminhosMinimos` from location 1 on a small venue, derived
 * from what the model promises of each stage. The corridors are `1 -> 2` and
 * `2 -> 4` of weight 1, and `1 -> 3` and `3 -> 4` of weight 5: the only shortest
 * route is `1 -> 2 -> 4`, so both of its corridors are bridges of the
 * extracted venue and end marked 2, while the two others end marked 0.
 */
module Scenarios {
  import opened Estadio
  import opened Paths
  import opened Shortest
  import opened Loader
  import opened Cpu
  import opened CduState
  import opened CduSpec
  import opened Pipeline

  /** The corridors of the venue, in input order. */
  const Corridors: seq<Corridor> := [Corridor(1, 2, 1), Corridor(2, 4, 1), Corridor(1, 3, 5), Corridor(3, 4, 5)]

  /** The forward view the loader builds from `Corridors`. */
  const Uv: Adj := [[Entry(1, 2, 1), Entry(3, 3, 5)], [Entry(2, 4, 1)], [Entry(4, 4, 5)], []]

  /** The reverse view the loader builds from `Corridors`. */
  const Vu: Adj := [[], [Entry(1, 1, 1)], [Entry(3, 1, 5)], [Entry(2, 2, 1), Entry(4, 3, 5)]]

  /** The extracted venue: corridors 1 and 2, each stored at both ends. */
  const Cam: Adj := [[Entry(1, 2, 1)], [Entry(1, 1, 1), Entry(2, 4, 1)], [], [Entry(2, 2, 1)]]

  /** The forward view after each prefix of `Corridors`, unfolded one corridor at a time. */
  lemma ForwardPrefixes()
    ensures Forward(4, Corridors) == Uv
  {
    var e: Adj := seq(4, _ => []);
    var c1, c2, c3 := Corridors[..1], Corridors[..2], Corridors[..3];
    assert c1[..0] == [] && c2[..1] == c1 && c3[..2] == c2 && Corridors[..3] == c3;
    assert Forward(4, []) == e;
    var f1 := e[0 := e[0] + [Entry(1, 2, 1)]];
    assert Forward(4, c1) == f1;
    var f2 := f1[1 := f1[1] + [Entry(2, 4, 1)]];
    assert Forward(4, c2) == f2;
    var f3 := f2[0 := f2[0] + [Entry(3, 3, 5)]];
    assert Forward(4, c3) == f3;
    assert Forward(4, Corridors) == f3[2 := f3[2] + [Entry(4, 4, 5)]];
    var f4 := f3[2 := f3[2] + [Entry(4, 4, 5)]];
    assert f4[0] == Uv[0] && f4[1] == Uv[1] && f4[2] == Uv[2] && f4[3] == Uv[3];
  }

  /** The reverse view after each prefix of `Corridors`, unfolded one corridor at a time. */
  lemma BackwardPrefixes()
    ensures Backward(4, Corridors) == Vu
  {
    var e: Adj := seq(4, _ => []);
    var c1, c2, c3 := Corridors[..1], Corridors[..2], Corridors[..3];
    assert c1[..0] == [] && c2[..1] == c1 && c3[..2] == c2 && Corridors[..3] == c3;
    assert Backward(4, []) == e;
    var b1 := e[1 := e[1] + [Entry(1, 1, 1)]];
    assert Backward(4, c1) == b1;
    var b2 := b1[3 := b1[3] + [Entry(2, 2, 1)]];
    assert Backward(4, c2) == b2;
    var b3 := b2[2 := b2[2] + [Entry(3, 1, 5)]];
    assert Backward(4, c3) == b3;
    assert Backward(4, Corridors) == b3[3 := b3[3] + [Entry(4, 3, 5)]];
    var b4 := b3[3 := b3[3] + [Entry(4, 3, 5)]];
    assert b4[0] == Vu[0] && b4[1] == Vu[1] && b4[2] == Vu[2] && b4[3] == Vu[3];
  }

  /** Loading `Corridors` yields `Uv` and `Vu`, transposes of each other whose ids are `1 .. 4`. */
  lemma LoadedScenario()
    ensures Endpoints(4, Corridors)
    ensures Forward(4, Corridors) == Uv && Backward(4, Corridors) == Vu
    ensures Transposed(Uv, Vu) && IdsWithin(Uv, 4)
  {
    ForwardPrefixes();
    BackwardPrefixes();
    LoadedViews(4, Corridors);
  }

  /** The routes the forward pass finds: one walk from location 1 to each location, of the claimed length. */
  lemma ForwardRoutes()
    ensures Reaches(Uv, 0, 0, 0) && Reaches(Uv, 0, 1, 1) && Reaches(Uv, 0, 2, 5) && Reaches(Uv, 0, 3, 2)
  {
    var p1, p2, p3 := [Entry(1, 2, 1)], [Entry(3, 3, 5)], [Entry(1, 2, 1), Entry(2, 4, 1)];
    assert p3[1..] == [Entry(2, 4, 1)] && p3[1..][1..] == [] && p1[1..] == [] && p2[1..] == [];
    assert IsWalk(Uv, 0, [], 0) && Length([]) == 0;
    assert IsWalk(Uv, 0, p1, 1) && Length(p1) == 1;
    assert IsWalk(Uv, 0, p2, 2) && Length(p2) == 5;
    assert IsWalk(Uv, 0, p3, 3) && Length(p3) == 2;
  }

  /** The routes the backward pass finds over the reverse view: one walk from location 4 to each location. */
  lemma BackwardRoutes()
    ensures Reaches(Vu, 3, 3, 0) && Reaches(Vu, 3, 1, 1) && Reaches(Vu, 3, 2, 5) && Reaches(Vu, 3, 0, 2)
  {
    var p1, p2, p0 := [Entry(2, 2, 1)], [Entry(4, 3, 5)], [Entry(2, 2, 1), Entry(1, 1, 1)];
    assert p0[1..] == [Entry(1, 1, 1)] && p0[1..][1..] == [] && p1[1..] == [] && p2[1..] == [];
    assert IsWalk(Vu, 3, [], 3) && Length([]) == 0;
    assert IsWalk(Vu, 3, p1, 1) && Length(p1) == 1;
    assert IsWalk(Vu, 3, p2, 2) && Length(p2) == 5;
    assert IsWalk(Vu, 3, p0, 0) && Length(p0) == 2;
  }

  /** Both literal views name locations `1 .. 4` and carry non-negative `int` weights. */
  lemma ViewsWellFormed()
    ensures InRange(Uv) && WeightsOk(Uv) && InRange(Vu) && WeightsOk(Vu)
  {
    forall x, k | 0 <= x < 4 && 0 <= k < |Uv[x]|
      ensures 1 <= Uv[x][k].nb <= 4 && 0 <= Uv[x][k].w <= INT_MAX
    {
      if x == 0 {} else if x == 1 {} else if x == 2 {} else {}
    }
    forall x, k | 0 <= x < 4 && 0 <= k < |Vu[x]|
      ensures 1 <= Vu[x][k].nb <= 4 && 0 <= Vu[x][k].w <= INT_MAX
    {
      if x == 0 {} else if x == 1 {} else if x == 2 {} else {}
    }
  }

  /** The forward vector passes every relaxation test and is the length of a route wherever it is finite. */
  lemma ForwardVector()
    ensures InRange(Uv) && Bounded([0, 1, 5, 2]) && Feasible(Uv, [0, 1, 5, 2])
    ensures forall x :: 0 <= x < 4 ==> Reaches(Uv, 0, x, [0, 1, 5, 2][x])
  {
    var ds := [0, 1, 5, 2];
    ViewsWellFormed();
    assert 5 <= MAX_DIST;
    forall x | 0 <= x < 4
      ensures (ds[x] == INF || 0 <= ds[x] <= MAX_DIST) && Relaxed(Uv, ds, x)
    {
      if x == 0 {} else if x == 1 {} else if x == 2 {} else {}
    }
    ForwardRoutes();
    forall x | 0 <= x < 4
      ensures Reaches(Uv, 0, x, ds[x])
    {
      if x == 0 {} else if x == 1 {} else if x == 2 {} else {}
    }
  }

  /** The backward vector passes every relaxation test over the reverse view and is the length of a route wherever it is finite. */
  lemma BackwardVector()
    ensures InRange(Vu) && Bounded([2, 1, 5, 0]) && Feasible(Vu, [2, 1, 5, 0])
    ensures forall x :: 0 <= x < 4 ==> Reaches(Vu, 3, x, [2, 1, 5, 0][x])
  {
    var ds := [2, 1, 5, 0];
    ViewsWellFormed();
    assert 5 <= MAX_DIST;
    forall x | 0 <= x < 4
      ensures (ds[x] == INF || 0 <= ds[x] <= MAX_DIST) && Relaxed(Vu, ds, x)
    {
      if x == 0 {} else if x == 1 {} else if x == 2 {} else {}
    }
    BackwardRoutes();
    forall x | 0 <= x < 4
      ensures Reaches(Vu, 3, x, ds[x])
    {
      if x == 0 {} else if x == 1 {} else if x == 2 {} else {}
    }
  }

  /** The forward pass: shortest distances from location 1. */
  lemma ForwardDistances(d: seq<int>)
    requires IsShortestFrom(Uv, 0, d)
    ensures d == [0, 1, 5, 2]
  {
    ViewsWellFormed();
    ForwardVector();
    ShortestFromFeasible(Uv, 0, [0, 1, 5, 2]);
    ShortestFromUnique(Uv, 0, d, [0, 1, 5, 2]);
  }

  /** The backward pass: shortest distances to location 4. */
  lemma BackwardDistances(dT: seq<int>)
    requires IsShortestTo(Uv, 3, dT)
    ensures dT == [2, 1, 5, 0]
  {
    ViewsWellFormed();
    BackwardVector();
    ShortestFromFeasible(Vu, 3, [2, 1, 5, 0]);
    LoadedScenario();
    ShortestToFromTransposed(Uv, Vu, 3, [2, 1, 5, 0]);
    ShortestToUnique(Uv, 3, dT, [2, 1, 5, 0]);
  }

  /** The arcs `encontraCPU` takes: corridors 1 and 2, the only ones on the shortest route `1 -> 2 -> 4`. */
  const Taken: seq<Arc> := [Arc(0, Entry(1, 2, 1)), Arc(1, Entry(2, 4, 1))]

  /** With these distances exactly corridors 1 and 2 qualify, in scan order. */
  lemma ScenarioQualifying()
    ensures Fits(Uv, [0, 1, 5, 2], [2, 1, 5, 0])
    ensures Qual(Uv, [0, 1, 5, 2], [2, 1, 5, 0], 4) == Taken
  {
    var d, dT := [0, 1, 5, 2], [2, 1, 5, 0];
    assert Fits(Uv, d, dT);
    assert RowQual(Uv, d, dT, 0, 1) == [Arc(0, Entry(1, 2, 1))];
    assert RowQual(Uv, d, dT, 0, 2) == [Arc(0, Entry(1, 2, 1))];
    assert RowQual(Uv, d, dT, 1, 1) == [Arc(1, Entry(2, 4, 1))];
    assert RowQual(Uv, d, dT, 2, 1) == [];
    assert Qual(Uv, d, dT, 1) == [Arc(0, Entry(1, 2, 1))];
    assert Qual(Uv, d, dT, 2) == Taken;
    assert Qual(Uv, d, dT, 3) == Taken;
  }

  /** The venue built from the taken arcs is `Cam`, and it carries corridors 1 and 2. */
  lemma ScenarioExtracted()
    ensures ArcsIn(4, Taken) && Undirected(4, Taken) == Cam
    ensures Ids(Taken) == {1, 2}
  {
    var e: Adj := seq(4, _ => []);
    assert Taken[..1][..0] == [] && Taken[..1] == [Arc(0, Entry(1, 2, 1))];
    assert Undirected(4, []) == e;
    var g1 := e[1 := e[1] + [Entry(1, 1, 1)]];
    var g2 := g1[0 := g1[0] + [Entry(1, 2, 1)]];
    assert Undirected(4, Taken[..1]) == g2;
    var g3 := g2[3 := g2[3] + [Entry(2, 2, 1)]];
    var g4 := g3[1 := g3[1] + [Entry(2, 4, 1)]];
    assert Undirected(4, Taken) == g4;
    assert g4[0] == Cam[0] && g4[1] == Cam[1] && g4[2] == Cam[2] && g4[3] == Cam[3];
    assert Taken[0] in Taken && Taken[1] in Taken;
  }

  /** The search over `Cam` reaches locations 1, 2 and 4 and not location 3, which no extracted corridor touches. */
  lemma ScenarioReached(reached: seq<bool>)
    requires |reached| == 4 && forall x :: 0 <= x < 4 ==> (reached[x] <==> Connected(Cam, x))
    ensures reached == [true, true, false, true]
  {
    var p1, p3 := [Entry(1, 2, 1)], [Entry(1, 2, 1), Entry(2, 4, 1)];
    assert p3[1..] == [Entry(2, 4, 1)] && p3[1..][1..] == [] && p1[1..] == [];
    assert IsWalk(Cam, 0, [], 0) && IsWalk(Cam, 0, p1, 1) && IsWalk(Cam, 0, p3, 3);
    var r := [true, true, false, true];
    forall x, j | 0 <= x < 4 && r[x] && 0 <= j < |Cam[x]|
      ensures 1 <= Cam[x][j].nb <= 4 && r[Cam[x][j].nb - 1]
    {
      if x == 0 {} else if x == 1 {} else {}
    }
    forall x, j | 0 <= x < 4 && 0 <= j < |Cam[x]|
      ensures 1 <= Cam[x][j].nb <= 4
    {
      if x == 0 {} else if x == 1 {} else if x == 2 {} else {}
    }
    assert Closed(Cam, r);
    forall p
      ensures !IsWalk(Cam, 0, p, 2)
    {
      if IsWalk(Cam, 0, p, 2) {
        ClosedWalk(Cam, r, 0, p, 2);
        assert false;
      }
    }
    assert !Connected(Cam, 2);
  }

  /**
   * The tree of the search: location 4 can only hang below location 2, the one
   * list holding an entry to it, so location 2 is discovered before location 4
   * and can then only hang below location 1.
   */
  lemma ScenarioTree(reached: seq<bool>, order: seq<int>, disc: seq<int>, parent: seq<int>, t: int)
    requires reached == [true, true, false, true] && |disc| == 4 && |parent| == 4
    requires forall x :: 0 <= x < 4 ==> TreeOk(Cam, reached, order, disc, parent, t, x)
    ensures parent[1] == 0 && parent[3] == 1
    ensures disc[0] < disc[1] < disc[3]
  {
    CamInRange();
    assert TreeOk(Cam, reached, order, disc, parent, t, 3);
    assert parent[3] == 1;
    assert TreeOk(Cam, reached, order, disc, parent, t, 1);
  }

  /** `Cam` names locations `1 .. 4` only. */
  lemma CamInRange()
    ensures InRange(Cam)
  {
    forall x, j | 0 <= x < 4 && 0 <= j < |Cam[x]|
      ensures 1 <= Cam[x][j].nb <= 4
    {
      if x == 0 {} else if x == 1 {} else if x == 2 {} else {}
    }
  }

  /**
   * The low-links: location 4 has no entry but the one back to its parent and no
   * child, and every other candidate for location 2 is discovered later, so both
   * keep their own discovery times.
   */
  lemma ScenarioLow(reached: seq<bool>, disc: seq<int>, low: seq<int>, parent: seq<int>)
    requires reached == [true, true, false, true]
    requires Shaped(Cam, reached, disc, low, parent)
    requires parent[1] == 0 && parent[3] == 1 && disc[0] < disc[1] < disc[3]
    requires LowLink(Cam, reached, disc, low, parent, 1) && LowLink(Cam, reached, disc, low, parent, 3)
    ensures low[1] == disc[1] && low[3] == disc[3]
  {
    assert forall c :: !IsChild(Cam, reached, parent, 3, c);
    assert low[3] == disc[3];
    assert forall c :: IsChild(Cam, reached, parent, 1, c) ==> c == 3;
  }

  /** The tree edges into locations 2 and 4 are the bridges the search finds. */
  lemma ScenarioBridges(reached: seq<bool>, order: seq<int>, disc: seq<int>, low: seq<int>, parent: seq<int>, t: int)
    requires Shaped(Cam, reached, disc, low, parent)
    requires forall x :: 0 <= x < 4 ==> (reached[x] <==> Connected(Cam, x))
    requires forall x :: 0 <= x < 4 ==> TreeOk(Cam, reached, order, disc, parent, t, x)
    requires forall x :: 0 <= x < 4 && reached[x] ==> LowLink(Cam, reached, disc, low, parent, x)
    requires forall x :: 0 <= x < 4 && reached[x] && x != 0 ==> 0 <= parent[x] < 4
    ensures parent[1] == 0 && parent[3] == 1
    ensures BridgeSet(Cam, reached, disc, low, parent) == {1, 3}
  {
    ScenarioReached(reached);
    ScenarioTree(reached, order, disc, parent, t);
    ScenarioLow(reached, disc, low, parent);
    var B := BridgeSet(Cam, reached, disc, low, parent);
    assert 1 in B && 3 in B;
    forall v | v in B
      ensures v == 1 || v == 3
    {
    }
  }

  /** Corridors 1 and 2 lie along the two bridges and end marked 2; corridors 3 and 4 were never extracted and end 0. */
  lemma ScenarioMarks(parent: seq<int>, j: int)
    requires |parent| == 4 && parent[1] == 0 && parent[3] == 1 && 0 <= j < 4
    ensures Classify(Cam, parent, {1, 3}, {1, 2}, j) == [2, 2, 0, 0][j]
  {
    if j == 0 {
      assert RowHit(Cam[0], 1, 0) by { assert Cam[0][0].nb == 2 && Cam[0][0].id == 1; }
    } else if j == 1 {
      assert RowHit(Cam[1], 3, 1) by { assert Cam[1][1].nb == 4 && Cam[1][1].id == 2; }
    } else {
      forall x | x in {1, 3}
        ensures !RowHit(Cam[parent[x]], x, j)
      {
        assert x == 1 || x == 3;
      }
    }
  }

  /** The routing half of the run: both passes' distances, the two qualifying arcs and the view they form. */
  lemma ScenarioRoutes(d: seq<int>, dT: seq<int>)
    requires Fits(Uv, d, dT) && IsShortestFrom(Uv, 0, d)
    requires d[3] != INF ==> IsShortestTo(Uv, 3, dT)
    ensures d == [0, 1, 5, 2] && dT == [2, 1, 5, 0]
    ensures Qual(Uv, d, dT, 4) == Taken && ArcsIn(4, Taken) && Undirected(4, Taken) == Cam && Ids(Taken) == {1, 2}
  {
    ForwardDistances(d);
    BackwardDistances(dT);
    ScenarioQualifying();
    ScenarioExtracted();
  }

  /** The bridge half of the run: on `Cam`, exactly locations 1 and 3 hang below bridges, and the marks are 2, 2, 0, 0. */
  lemma ScenarioCounts(reached: seq<bool>, order: seq<int>, disc: seq<int>, low: seq<int>, parent: seq<int>,
                       cs: seq<int>, nCDU: int, t: int)
    requires Shaped(Cam, reached, disc, low, parent)
    requires forall x :: 0 <= x < 4 ==> (reached[x] <==> Connected(Cam, x))
    requires forall x :: 0 <= x < 4 ==> TreeOk(Cam, reached, order, disc, parent, t, x)
    requires forall x :: 0 <= x < 4 && reached[x] ==> LowLink(Cam, reached, disc, low, parent, x)
    requires forall x :: 0 <= x < 4 && reached[x] && x != 0 ==> 0 <= parent[x] < 4
    requires nCDU == |BridgeSet(Cam, reached, disc, low, parent)| && |cs| == 4
    requires forall j :: 0 <= j < 4 ==> cs[j] == Classify(Cam, parent, BridgeSet(Cam, reached, disc, low, parent), {1, 2}, j)
    ensures cs == [2, 2, 0, 0] && nCDU == 2
  {
    ScenarioBridges(reached, order, disc, low, parent, t);
    assert |{1, 3}| == 2;
    forall j | 0 <= j < 4
      ensures cs[j] == [2, 2, 0, 0][j]
    {
      ScenarioMarks(parent, j);
    }
  }

  /**
   * The whole run from location 1 with the clock `t` on entry: whatever final
   * state `caminhosMinimos` leaves, corridors 1 and 2 end marked 2, corridors 3
   * and 4 end marked 0, and both counts are 2.
   */
  lemma FirstScenario(d: seq<int>, dT: seq<int>, camAdj: Adj, reached: seq<bool>, order: seq<int>, disc: seq<int>,
                      low: seq<int>, parent: seq<int>, cs: seq<int>, nCPU: int, nCDU: int, t: int)
    requires Outcome(Uv, 1, 4, t, d, dT, camAdj, reached, order, disc, low, parent, cs, nCPU, nCDU)
    ensures cs == [2, 2, 0, 0] && nCPU == 2 && nCDU == 2
  {
    ScenarioRoutes(d, dT);
    assert camAdj == Cam;
    ScenarioCounts(reached, order, disc, low, parent, cs, nCDU, t);
  }

  /** Loads `Corridors` and runs `caminhosMinimos` from location 1 on the first call, when the clock is 0. */
  method RunFirstScenario() returns (c: array<int>, nCPU: int, nCDU: int)
    ensures c[..] == [2, 2, 0, 0] && nCPU == 2 && nCDU == 2
  {
    LoadedScenario();
    ViewsWellFormed();
    var e := Load(4, Corridors);
    var t';
    ghost var d, dT, camAdj, reached, order, disc, low, parent;
    c, nCPU, nCDU, t', d, dT, camAdj, reached, order, disc, low, parent := CaminhosMinimos(e, 1, 0);
    FirstScenario(d, dT, camAdj, reached, order, disc, low, parent, c[..], nCPU, nCDU, 0);
  }
}
