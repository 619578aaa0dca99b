/**
 * A second run of `caminhosMinimos` from location 1, on a venue whose two
 * routes to the exit are both shortest. The corridors are `1 -> 2` and `2 -> 4`
 * of weight 2, `1 -> 3` of weight 1 and `3 -> 4` of weight 3: every corridor is
 * extracted, the extracted venue is the cycle `1 - 2 - 4 - 3 - 1`, which has no
 * bridge, and every corridor ends marked 1. It exercises the depth-first
 * property of the search: the low-link recurrence alone admits a tree in which
 * some tree edge looks like a bridge.
 */
module CycleScenario {
  import opened Estadio
  import opened Paths
  import opened Shortest
  import opened Loader
  import opened Cpu
  import opened CduState
  import opened CduSpec
  import opened Pipeline

  /** The corridors of the venue, in input order. */
  const Corridors: seq<Corridor> := [Corridor(1, 2, 2), Corridor(2, 4, 2), Corridor(1, 3, 1), Corridor(3, 4, 3)]

  /** The forward view the loader builds from `Corridors`. */
  const Uv: Adj := [[Entry(1, 2, 2), Entry(3, 3, 1)], [Entry(2, 4, 2)], [Entry(4, 4, 3)], []]

  /** The reverse view the loader builds from `Corridors`. */
  const Vu: Adj := [[], [Entry(1, 1, 2)], [Entry(3, 1, 1)], [Entry(2, 2, 2), Entry(4, 3, 3)]]

  /** The extracted venue: all four corridors, each stored at both ends. */
  const Cam: Adj := [[Entry(1, 2, 2), Entry(3, 3, 1)], [Entry(1, 1, 2), Entry(2, 4, 2)],
                     [Entry(3, 1, 1), Entry(4, 4, 3)], [Entry(2, 2, 2), Entry(4, 3, 3)]]

  /** The forward view after each prefix of `Corridors`, unfolded one corridor at a time. */
  lemma ForwardPrefixes()
    ensures Forward(4, Corridors) == Uv
  {
    var e: Adj := seq(4, _ => []);
    var c1, c2, c3 := Corridors[..1], Corridors[..2], Corridors[..3];
    assert c1[..0] == [] && c2[..1] == c1 && c3[..2] == c2 && Corridors[..3] == c3;
    assert Forward(4, []) == e;
    var f1 := e[0 := e[0] + [Entry(1, 2, 2)]];
    assert Forward(4, c1) == f1;
    var f2 := f1[1 := f1[1] + [Entry(2, 4, 2)]];
    assert Forward(4, c2) == f2;
    var f3 := f2[0 := f2[0] + [Entry(3, 3, 1)]];
    assert Forward(4, c3) == f3;
    var f4 := f3[2 := f3[2] + [Entry(4, 4, 3)]];
    assert Forward(4, Corridors) == f4;
    assert f4[0] == Uv[0] && f4[1] == Uv[1] && f4[2] == Uv[2] && f4[3] == Uv[3];
  }

  /** The reverse view after each prefix of `Corridors`, unfolded one corridor at a time. */
  lemma BackwardPrefixes()
    ensures Backward(4, Corridors) == Vu
  {
    var e: Adj := seq(4, _ => []);
    var c1, c2, c3 := Corridors[..1], Corridors[..2], Corridors[..3];
    assert c1[..0] == [] && c2[..1] == c1 && c3[..2] == c2 && Corridors[..3] == c3;
    assert Backward(4, []) == e;
    var b1 := e[1 := e[1] + [Entry(1, 1, 2)]];
    assert Backward(4, c1) == b1;
    var b2 := b1[3 := b1[3] + [Entry(2, 2, 2)]];
    assert Backward(4, c2) == b2;
    var b3 := b2[2 := b2[2] + [Entry(3, 1, 1)]];
    assert Backward(4, c3) == b3;
    var b4 := b3[3 := b3[3] + [Entry(4, 3, 3)]];
    assert Backward(4, Corridors) == b4;
    assert b4[0] == Vu[0] && b4[1] == Vu[1] && b4[2] == Vu[2] && b4[3] == Vu[3];
  }

  /** Loading `Corridors` yields `Uv` and `Vu`, transposes of each other whose ids are `1 .. 4`. */
  lemma LoadedScenario()
    ensures Endpoints(4, Corridors)
    ensures Forward(4, Corridors) == Uv && Backward(4, Corridors) == Vu
    ensures Transposed(Uv, Vu) && IdsWithin(Uv, 4)
  {
    ForwardPrefixes();
    BackwardPrefixes();
    LoadedViews(4, Corridors);
  }

  /** Both literal views name locations `1 .. 4` and carry non-negative `int` weights. */
  lemma ViewsWellFormed()
    ensures InRange(Uv) && WeightsOk(Uv) && InRange(Vu) && WeightsOk(Vu)
  {
    forall x, k | 0 <= x < 4 && 0 <= k < |Uv[x]|
      ensures 1 <= Uv[x][k].nb <= 4 && 0 <= Uv[x][k].w <= INT_MAX
    {
      if x == 0 {} else if x == 1 {} else if x == 2 {} else {}
    }
    forall x, k | 0 <= x < 4 && 0 <= k < |Vu[x]|
      ensures 1 <= Vu[x][k].nb <= 4 && 0 <= Vu[x][k].w <= INT_MAX
    {
      if x == 0 {} else if x == 1 {} else if x == 2 {} else {}
    }
  }

  /** The routes the forward pass finds: one walk from location 1 to each location, of the claimed length. */
  lemma ForwardRoutes()
    ensures Reaches(Uv, 0, 0, 0) && Reaches(Uv, 0, 1, 2) && Reaches(Uv, 0, 2, 1) && Reaches(Uv, 0, 3, 4)
  {
    var p1, p2, p3 := [Entry(1, 2, 2)], [Entry(3, 3, 1)], [Entry(1, 2, 2), Entry(2, 4, 2)];
    assert p3[1..] == [Entry(2, 4, 2)] && p3[1..][1..] == [] && p1[1..] == [] && p2[1..] == [];
    assert IsWalk(Uv, 0, [], 0) && Length([]) == 0;
    assert IsWalk(Uv, 0, p1, 1) && Length(p1) == 2;
    assert IsWalk(Uv, 0, p2, 2) && Length(p2) == 1;
    assert IsWalk(Uv, 0, p3, 3) && Length(p3) == 4;
  }

  /** The routes the backward pass finds over the reverse view: one walk from location 4 to each location. */
  lemma BackwardRoutes()
    ensures Reaches(Vu, 3, 3, 0) && Reaches(Vu, 3, 1, 2) && Reaches(Vu, 3, 2, 3) && Reaches(Vu, 3, 0, 4)
  {
    var p1, p2, p0 := [Entry(2, 2, 2)], [Entry(4, 3, 3)], [Entry(2, 2, 2), Entry(1, 1, 2)];
    assert p0[1..] == [Entry(1, 1, 2)] && p0[1..][1..] == [] && p1[1..] == [] && p2[1..] == [];
    assert IsWalk(Vu, 3, [], 3) && Length([]) == 0;
    assert IsWalk(Vu, 3, p1, 1) && Length(p1) == 2;
    assert IsWalk(Vu, 3, p2, 2) && Length(p2) == 3;
    assert IsWalk(Vu, 3, p0, 0) && Length(p0) == 4;
  }

  /** The forward vector passes every relaxation test and is the length of a route wherever it is finite. */
  lemma ForwardVector()
    ensures InRange(Uv) && Bounded([0, 2, 1, 4]) && Feasible(Uv, [0, 2, 1, 4])
    ensures forall x :: 0 <= x < 4 ==> Reaches(Uv, 0, x, [0, 2, 1, 4][x])
  {
    var ds := [0, 2, 1, 4];
    ViewsWellFormed();
    assert 4 <= MAX_DIST;
    forall x | 0 <= x < 4
      ensures (ds[x] == INF || 0 <= ds[x] <= MAX_DIST) && Relaxed(Uv, ds, x)
    {
      if x == 0 {} else if x == 1 {} else if x == 2 {} else {}
    }
    ForwardRoutes();
    forall x | 0 <= x < 4
      ensures Reaches(Uv, 0, x, ds[x])
    {
      if x == 0 {} else if x == 1 {} else if x == 2 {} else {}
    }
  }

  /** The backward vector passes every relaxation test over the reverse view and is the length of a route wherever it is finite. */
  lemma BackwardVector()
    ensures InRange(Vu) && Bounded([4, 2, 3, 0]) && Feasible(Vu, [4, 2, 3, 0])
    ensures forall x :: 0 <= x < 4 ==> Reaches(Vu, 3, x, [4, 2, 3, 0][x])
  {
    var ds := [4, 2, 3, 0];
    ViewsWellFormed();
    assert 4 <= MAX_DIST;
    forall x | 0 <= x < 4
      ensures (ds[x] == INF || 0 <= ds[x] <= MAX_DIST) && Relaxed(Vu, ds, x)
    {
      if x == 0 {} else if x == 1 {} else if x == 2 {} else {}
    }
    BackwardRoutes();
    forall x | 0 <= x < 4
      ensures Reaches(Vu, 3, x, ds[x])
    {
      if x == 0 {} else if x == 1 {} else if x == 2 {} else {}
    }
  }

  /** The forward pass: shortest distances from location 1. */
  lemma ForwardDistances(d: seq<int>)
    requires IsShortestFrom(Uv, 0, d)
    ensures d == [0, 2, 1, 4]
  {
    ViewsWellFormed();
    ForwardVector();
    ShortestFromFeasible(Uv, 0, [0, 2, 1, 4]);
    ShortestFromUnique(Uv, 0, d, [0, 2, 1, 4]);
  }

  /** The backward pass: shortest distances to location 4. */
  lemma BackwardDistances(dT: seq<int>)
    requires IsShortestTo(Uv, 3, dT)
    ensures dT == [4, 2, 3, 0]
  {
    ViewsWellFormed();
    BackwardVector();
    ShortestFromFeasible(Vu, 3, [4, 2, 3, 0]);
    LoadedScenario();
    ShortestToFromTransposed(Uv, Vu, 3, [4, 2, 3, 0]);
    ShortestToUnique(Uv, 3, dT, [4, 2, 3, 0]);
  }

  /** The arcs `encontraCPU` takes: all four corridors, since both routes to location 4 have length 4. */
  const Taken: seq<Arc> := [Arc(0, Entry(1, 2, 2)), Arc(0, Entry(3, 3, 1)), Arc(1, Entry(2, 4, 2)), Arc(2, Entry(4, 4, 3))]

  /** With these distances every corridor qualifies, in scan order. */
  lemma ScenarioQualifying()
    ensures Fits(Uv, [0, 2, 1, 4], [4, 2, 3, 0])
    ensures Qual(Uv, [0, 2, 1, 4], [4, 2, 3, 0], 4) == Taken
  {
    var d, dT := [0, 2, 1, 4], [4, 2, 3, 0];
    assert Fits(Uv, d, dT);
    assert RowQual(Uv, d, dT, 0, 1) == [Arc(0, Entry(1, 2, 2))];
    assert RowQual(Uv, d, dT, 0, 2) == Taken[..2];
    assert RowQual(Uv, d, dT, 1, 1) == [Arc(1, Entry(2, 4, 2))];
    assert RowQual(Uv, d, dT, 2, 1) == [Arc(2, Entry(4, 4, 3))];
    assert Qual(Uv, d, dT, 1) == Taken[..2];
    assert Qual(Uv, d, dT, 2) == Taken[..3];
    assert Qual(Uv, d, dT, 3) == Taken;
  }

  /** The venue built from the taken arcs is `Cam`, and it carries all four corridors. */
  lemma ScenarioExtracted()
    ensures ArcsIn(4, Taken) && Undirected(4, Taken) == Cam
    ensures Ids(Taken) == {1, 2, 3, 4}
  {
    var e: Adj := seq(4, _ => []);
    assert Taken[..1][..0] == [] && Taken[..2][..1] == Taken[..1] && Taken[..3][..2] == Taken[..2];
    assert Taken[..3] == Taken[..|Taken| - 1];
    assert Undirected(4, []) == e;
    var g1 := e[1 := e[1] + [Entry(1, 1, 2)]];
    var g2 := g1[0 := g1[0] + [Entry(1, 2, 2)]];
    assert Undirected(4, Taken[..1]) == g2;
    var g3 := g2[2 := g2[2] + [Entry(3, 1, 1)]];
    var g4 := g3[0 := g3[0] + [Entry(3, 3, 1)]];
    assert Undirected(4, Taken[..2]) == g4;
    var g5 := g4[3 := g4[3] + [Entry(2, 2, 2)]];
    var g6 := g5[1 := g5[1] + [Entry(2, 4, 2)]];
    assert Undirected(4, Taken[..3]) == g6;
    var g7 := g6[3 := g6[3] + [Entry(4, 3, 3)]];
    var g8 := g7[2 := g7[2] + [Entry(4, 4, 3)]];
    assert Undirected(4, Taken) == g8;
    assert g8[0] == Cam[0] && g8[1] == Cam[1] && g8[2] == Cam[2] && g8[3] == Cam[3];
    TakenIds();
  }

  /** The taken arcs carry corridors 1 to 4. */
  lemma TakenIds()
    ensures Ids(Taken) == {1, 2, 3, 4}
  {
    assert Taken[0] in Taken && Taken[1] in Taken && Taken[2] in Taken && Taken[3] in Taken;
    forall i | i in Ids(Taken)
      ensures i in {1, 2, 3, 4}
    {
      var a :| a in Taken && a.e.id == i;
    }
  }

  /** `Cam` names locations `1 .. 4` only. */
  lemma CamInRange()
    ensures InRange(Cam)
  {
    forall x, j | 0 <= x < 4 && 0 <= j < |Cam[x]|
      ensures 1 <= Cam[x][j].nb <= 4
    {
      if x == 0 {} else if x == 1 {} else if x == 2 {} else {}
    }
  }

  /** The search over `Cam` reaches every location. */
  lemma ScenarioReached(reached: seq<bool>)
    requires |reached| == 4 && forall x :: 0 <= x < 4 ==> (reached[x] <==> Connected(Cam, x))
    ensures reached == [true, true, true, true]
  {
    var p1, p2, p3 := [Entry(1, 2, 2)], [Entry(3, 3, 1)], [Entry(1, 2, 2), Entry(2, 4, 2)];
    assert p3[1..] == [Entry(2, 4, 2)] && p3[1..][1..] == [] && p1[1..] == [] && p2[1..] == [];
    assert IsWalk(Cam, 0, [], 0) && IsWalk(Cam, 0, p1, 1) && IsWalk(Cam, 0, p2, 2) && IsWalk(Cam, 0, p3, 3);
  }

  /** Walking up a tree of parents never leaves a set that holds the parents of its members. */
  lemma {:induction false} UpWithin(p: seq<int>, S: set<int>, z: int, n: nat)
    requires forall y :: y in S ==> 0 <= y < |p| && p[y] in S
    requires z in S
    ensures Up(p, z, n) in S
    decreases n
  {
    if n > 0 {
      UpWithin(p, S, p[z], n - 1);
    }
  }

  /** A location outside such a set is no ancestor of a member. */
  lemma NotAncestor(p: seq<int>, S: set<int>, a: int, z: int)
    requires forall y :: y in S ==> 0 <= y < |p| && p[y] in S
    requires z in S && a !in S
    ensures !IsAncestor(p, a, z)
  {
    if IsAncestor(p, a, z) {
      var n: nat :| Up(p, z, n) == a;
      UpWithin(p, S, z, n);
    }
  }

  /** What the search leaves on `Cam`, in the terms the tree argument uses. */
  ghost predicate TreeFacts(order: seq<int>, disc: seq<int>, parent: seq<int>, t: int)
  {
    && InRange(Cam) && |disc| == 4 && |parent| == 4 && parent[0] == 0
    && (forall x :: 0 <= x < 4 ==> TreeOk(Cam, [true, true, true, true], order, disc, parent, t, x))
    && (forall x, j :: 0 <= x < 4 && 0 <= j < |Cam[x]| ==> DepthFirst(Cam, disc, parent, x, j))
  }

  /**
   * Location 4 hangs below `a`, one of locations 2 and 3, which hangs below
   * location 1; the other one, `b`, then hangs below location 4. It cannot hang
   * below location 1: neither of 4 and `b` would descend from the other, yet
   * each list holds an entry to the other, and one of them was discovered first.
   */
  lemma Hang(order: seq<int>, disc: seq<int>, parent: seq<int>, t: int, a: int, b: int, j: int)
    requires TreeFacts(order, disc, parent, t)
    requires (a == 1 && b == 2) || (a == 2 && b == 1)
    requires parent[3] == a
    requires 0 <= j < 2 && Cam[3][j].nb == b + 1 && Cam[b][1].nb == 4
    ensures parent[a] == 0 && parent[b] == 3
    ensures disc[0] < disc[a] < disc[3] < disc[b]
  {
    var r := [true, true, true, true];
    assert TreeOk(Cam, r, order, disc, parent, t, 3);
    assert TreeOk(Cam, r, order, disc, parent, t, a);
    assert TreeOk(Cam, r, order, disc, parent, t, b);
    assert parent[a] == 0;
    assert parent[b] == 0 || parent[b] == 3;
    assert DepthFirst(Cam, disc, parent, 3, j) && DepthFirst(Cam, disc, parent, b, 1);
    if parent[b] == 0 {
      NotAncestor(parent, {0, b}, 3, b);
      NotAncestor(parent, {0, a, 3}, b, 3);
      assert false;
    }
  }

  /** The tree of the search is one of the two paths round the cycle, from location 1 through location 4. */
  lemma ScenarioTree(order: seq<int>, disc: seq<int>, parent: seq<int>, t: int)
    requires TreeFacts(order, disc, parent, t)
    ensures || (parent[1] == 0 && parent[3] == 1 && parent[2] == 3 && disc[0] < disc[1] < disc[3] < disc[2])
            || (parent[2] == 0 && parent[3] == 2 && parent[1] == 3 && disc[0] < disc[2] < disc[3] < disc[1])
  {
    assert TreeOk(Cam, [true, true, true, true], order, disc, parent, t, 3);
    if parent[3] == 1 {
      Hang(order, disc, parent, t, 1, 2, 1);
    } else {
      Hang(order, disc, parent, t, 2, 1, 0);
    }
  }

  /**
   * The low-links along the path `1 -> a -> 4 -> b`: the last location has an
   * entry back to location 1 that is not its tree edge, and each location above
   * it inherits that from its child.
   */
  lemma ScenarioLow(reached: seq<bool>, disc: seq<int>, low: seq<int>, parent: seq<int>, a: int, b: int)
    requires reached == [true, true, true, true]
    requires Shaped(Cam, reached, disc, low, parent)
    requires (a == 1 && b == 2) || (a == 2 && b == 1)
    requires parent[a] == 0 && parent[3] == a && parent[b] == 3
    requires LowLink(Cam, reached, disc, low, parent, a) && LowLink(Cam, reached, disc, low, parent, 3)
    requires LowLink(Cam, reached, disc, low, parent, b)
    ensures low[a] <= disc[0] && low[3] <= disc[0] && low[b] <= disc[0]
  {
    assert Cam[b][0].nb == 1;
    assert IsChild(Cam, reached, parent, 3, b) && IsChild(Cam, reached, parent, a, 3);
  }

  /** On `Cam` the search finds no bridge, whichever way round the cycle it goes. */
  lemma ScenarioBridges(reached: seq<bool>, order: seq<int>, disc: seq<int>, low: seq<int>, parent: seq<int>, t: int)
    requires Searched(Cam, t, reached, order, disc, low, parent)
    ensures reached == [true, true, true, true]
    ensures BridgeSet(Cam, reached, disc, low, parent) == {}
  {
    ScenarioReached(reached);
    CamInRange();
    assert TreeFacts(order, disc, parent, t);
    ScenarioTree(order, disc, parent, t);
    if parent[3] == 1 {
      ScenarioLow(reached, disc, low, parent, 1, 2);
    } else {
      ScenarioLow(reached, disc, low, parent, 2, 1);
    }
    var B := BridgeSet(Cam, reached, disc, low, parent);
    forall v | v in B
      ensures false
    {
    }
  }

  /** The routing half of the run: both passes' distances, the four qualifying arcs and the view they form. */
  lemma ScenarioRoutes(d: seq<int>, dT: seq<int>)
    requires Fits(Uv, d, dT) && IsShortestFrom(Uv, 0, d)
    requires d[3] != INF ==> IsShortestTo(Uv, 3, dT)
    ensures d == [0, 2, 1, 4] && dT == [4, 2, 3, 0]
    ensures Qual(Uv, d, dT, 4) == Taken && ArcsIn(4, Taken) && Undirected(4, Taken) == Cam && Ids(Taken) == {1, 2, 3, 4}
  {
    ForwardDistances(d);
    BackwardDistances(dT);
    ScenarioQualifying();
    ScenarioExtracted();
  }

  /** The bridge half of the run: on `Cam` no tree edge is a bridge, so every corridor keeps the mark 1. */
  lemma ScenarioCounts(reached: seq<bool>, order: seq<int>, disc: seq<int>, low: seq<int>, parent: seq<int>,
                       cs: seq<int>, nCDU: int, t: int)
    requires Searched(Cam, t, reached, order, disc, low, parent)
    requires nCDU == |BridgeSet(Cam, reached, disc, low, parent)| && |cs| == 4
    requires forall j :: 0 <= j < 4 ==> cs[j] == Classify(Cam, parent, BridgeSet(Cam, reached, disc, low, parent), {1, 2, 3, 4}, j)
    ensures cs == [1, 1, 1, 1] && nCDU == 0
  {
    ScenarioBridges(reached, order, disc, low, parent, t);
    forall j | 0 <= j < 4
      ensures cs[j] == 1
    {
      assert !Hit(Cam, parent, {}, j);
    }
  }

  /**
   * The whole run from location 1 with the clock `t` on entry: whatever final
   * state `caminhosMinimos` leaves, all four corridors are counted as on a
   * shortest route and end marked 1, and no bridge is counted.
   */
  lemma SecondScenario(d: seq<int>, dT: seq<int>, camAdj: Adj, reached: seq<bool>, order: seq<int>, disc: seq<int>,
                       low: seq<int>, parent: seq<int>, cs: seq<int>, nCPU: int, nCDU: int, t: int)
    requires Outcome(Uv, 1, 4, t, d, dT, camAdj, reached, order, disc, low, parent, cs, nCPU, nCDU)
    ensures cs == [1, 1, 1, 1] && nCPU == 4 && nCDU == 0
  {
    ScenarioRoutes(d, dT);
    assert camAdj == Cam;
    ScenarioCounts(reached, order, disc, low, parent, cs, nCDU, t);
  }

  /** Loads `Corridors` and runs `caminhosMinimos` from location 1 on the first call, when the clock is 0. */
  method RunSecondScenario() returns (c: array<int>, nCPU: int, nCDU: int)
    ensures c[..] == [1, 1, 1, 1] && nCPU == 4 && nCDU == 0
  {
    LoadedScenario();
    ViewsWellFormed();
    var e := Load(4, Corridors);
    var t';
    ghost var d, dT, camAdj, reached, order, disc, low, parent;
    c, nCPU, nCDU, t', d, dT, camAdj, reached, order, disc, low, parent := CaminhosMinimos(e, 1, 0);
    SecondScenario(d, dT, camAdj, reached, order, disc, low, parent, c[..], nCPU, nCDU, 0);
  }
}
