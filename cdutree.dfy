/**
 * The depth-first property of the search of `encontraCDU`, as a second
 * invariant `TreeInv` kept beside `Inv`: every visited location discovered no
 * earlier than a location on the stack descends from it, and every entry read
 * so far leads to a location discovered earlier, to a descendant of the reader,
 * or to the unvisited location the reader has just become the parent of.
 */
module CduTree {
  import opened Estadio
  import opened Paths
  import opened CduState
  import opened CduSpec
  import opened CduInvariant

  /** Read entry `j` of `x` leads to a location discovered before `x`, to a descendant of `x`, or to an unvisited child of `x`. */
  ghost predicate EntryOk(adj: Adj, s: Dfs, x: int, j: int)
    requires Shape(adj, s) && 0 <= x < |adj| && 0 <= j < |adj[x]|
  {
    var w := adj[x][j].nb - 1;
    if s.visited[w] then s.d[w] < s.d[x] || IsAncestor(s.p, x, w) else s.p[w] == x
  }

  /** A visited `z` discovered no earlier than the location in stack slot `i` descends from it. */
  ghost predicate SlotOk(adj: Adj, s: Dfs, i: int, z: int)
    requires Shape(adj, s) && 0 <= i < s.posV && 0 <= s.caminho[i] < |adj| && 0 <= z < |adj|
  {
    s.visited[z] && s.d[z] >= s.d[s.caminho[i]] ==> IsAncestor(s.p, s.caminho[i], z)
  }

  /**
   * The depth-first invariant of the main loop of `encontraCDU`. The start keeps
   * the parent 0 it is initialised with, since it is visited before any
   * location is given a parent.
   */
  ghost predicate TreeInv(adj: Adj, s: Dfs)
    requires Shape(adj, s)
  {
    && s.p[0] == 0 && (0 < s.posV ==> s.visited[0])
    && (forall i :: 0 <= i < s.posV ==> 0 <= s.caminho[i] < |adj|)
    && (forall i, z :: 0 <= i < s.posV && 0 <= z < |adj| ==> SlotOk(adj, s, i, z))
    && (forall x, j :: 0 <= x < |adj| && s.visited[x] && 0 <= j < |adj[x]| && j < s.ite[x] ==> EntryOk(adj, s, x, j))
  }

  /** Changing parents only outside a set closed under taking parents leaves every walk up from inside it unchanged. */
  lemma {:induction false} UpFrame(p: seq<int>, p': seq<int>, V: seq<bool>, z: int, n: nat)
    requires |p| == |V| && |p'| == |V|
    requires forall y :: 0 <= y < |V| && V[y] ==> 0 <= p[y] < |V| && V[p[y]] && p'[y] == p[y]
    requires 0 <= z < |V| && V[z]
    ensures Up(p', z, n) == Up(p, z, n)
    decreases n
  {
    if n > 0 {
      UpFrame(p, p', V, p[z], n - 1);
    }
  }

  /** Ancestry inside a set closed under taking parents survives changing parents outside it. */
  lemma AncestorFrame(p: seq<int>, p': seq<int>, V: seq<bool>, a: int, z: int)
    requires |p| == |V| && |p'| == |V|
    requires forall y :: 0 <= y < |V| && V[y] ==> 0 <= p[y] < |V| && V[p[y]] && p'[y] == p[y]
    requires 0 <= z < |V| && V[z] && IsAncestor(p, a, z)
    ensures IsAncestor(p', a, z)
  {
    var n: nat :| Up(p, z, n) == a;
    UpFrame(p, p', V, z, n);
  }

  /** The parent of a location is an ancestor of it. */
  lemma ParentAncestor(p: seq<int>, a: int, z: int)
    requires 0 <= z < |p| && IsAncestor(p, a, p[z])
    ensures IsAncestor(p, a, z)
  {
    var n: nat :| Up(p, p[z], n) == a;
    assert Up(p, z, n + 1) == a;
  }

  /** The parent of every visited location is a visited location. */
  lemma ParentsVisited(adj: Adj, s: Dfs, g: Book, t0: int, t: int, c0: seq<int>, cs: seq<int>, nCD0: int, nCD: int)
    requires Inv(adj, s, g, t0, t, c0, cs, nCD0, nCD)
    ensures forall y :: 0 <= y < |adj| && s.visited[y] ==> 0 <= s.p[y] < |adj| && s.visited[s.p[y]]
  {
    forall y | 0 <= y < |adj| && s.visited[y]
      ensures 0 <= s.p[y] < |adj| && s.visited[s.p[y]]
    {
      assert VertexOk(adj, s, g, t0, y) && VisitedOk(adj, s, g, t0, y);
    }
  }

  /** Discovery times grow up the stack. */
  lemma {:induction false} StackMono(adj: Adj, s: Dfs, g: Book, t0: int, t: int, c0: seq<int>, cs: seq<int>, nCD0: int, nCD: int,
                                     i: int, i': int)
    requires Inv(adj, s, g, t0, t, c0, cs, nCD0, nCD) && 0 <= i <= i' < s.posV
    ensures 0 <= s.caminho[i] < |adj| && 0 <= s.caminho[i'] < |adj|
    ensures s.d[s.caminho[i]] <= s.d[s.caminho[i']]
    decreases i' - i
  {
    assert StackOk(adj, s, g, i) && StackOk(adj, s, g, i');
    if i < i' {
      StackMono(adj, s, g, t0, t, c0, cs, nCD0, nCD, i, i' - 1);
      var x := s.caminho[i'];
      assert StackOk(adj, s, g, 0);
      assert x != 0;
      assert VertexOk(adj, s, g, t0, x) && VisitedOk(adj, s, g, t0, x);
    }
  }

  /** Every visited location was discovered at most at the current time. */
  lemma DiscoveredSoFar(adj: Adj, s: Dfs, g: Book, t0: int, t: int, c0: seq<int>, cs: seq<int>, nCD0: int, nCD: int)
    requires Inv(adj, s, g, t0, t, c0, cs, nCD0, nCD)
    ensures forall z :: 0 <= z < |adj| && s.visited[z] ==> s.d[z] <= t
  {
    forall z | 0 <= z < |adj| && s.visited[z]
      ensures s.d[z] <= t
    {
      assert VertexOk(adj, s, g, t0, z) && VisitedOk(adj, s, g, t0, z);
    }
  }

  /** Before the loop nothing is visited and the stack is empty. */
  lemma TreeStart(adj: Adj)
    requires 1 <= |adj| && InRange(adj)
    ensures Shape(adj, Start(|adj|)) && TreeInv(adj, Start(|adj|))
  {
  }

  /** The first visit of `u` puts it in the stack slot above its parent, which is the old top. */
  lemma TreeVisit(adj: Adj, s: Dfs, g: Book, t0: int, t: int, c0: seq<int>, cs: seq<int>, nCD0: int, nCD: int)
    requires Inv(adj, s, g, t0, t, c0, cs, nCD0, nCD) && s.k == 0 && TreeInv(adj, s)
    ensures s.posV < |adj| && Shape(adj, Visit(adj, s, t)) && TreeInv(adj, Visit(adj, s, t))
  {
    VisitRoom(adj, s, g, t0, t, c0, cs, nCD0, nCD);
    DiscoveredSoFar(adj, s, g, t0, t, c0, cs, nCD0, nCD);
    var u := s.u;
    var s' := Visit(adj, s, t);
    assert VertexOk(adj, s, g, t0, u);
    assert IsAncestor(s.p, u, u) by {
      assert Up(s.p, u, 0) == u;
    }
    if s.posV > 0 {
      var top := s.caminho[s.posV - 1];
      assert StackOk(adj, s, g, s.posV - 1);
      assert s.p[u] == top;
      forall i | 0 <= i < s.posV
        ensures IsAncestor(s.p, s.caminho[i], u)
      {
        StackMono(adj, s, g, t0, t, c0, cs, nCD0, nCD, i, s.posV - 1);
        assert SlotOk(adj, s, i, top);
        ParentAncestor(s.p, s.caminho[i], u);
      }
    }
    forall i, z | 0 <= i < s'.posV && 0 <= z < |adj|
      ensures 0 <= s'.caminho[i] < |adj| && SlotOk(adj, s', i, z)
    {
      if i < s.posV && z != u {
        assert SlotOk(adj, s, i, z);
      }
    }
    forall x, j | 0 <= x < |adj| && s'.visited[x] && 0 <= j < |adj[x]| && j < s'.ite[x]
      ensures EntryOk(adj, s', x, j)
    {
      if x != u {
        assert EntryOk(adj, s, x, j);
        if adj[x][j].nb - 1 == u {
          assert Up(s.p, u, 1) == x;
        }
      }
    }
  }

  /** Reading an entry of the top `u` that leads to a visited location: it was discovered earlier or descends from `u`. */
  lemma TreeRead(adj: Adj, s: Dfs, g: Book, t0: int, t: int, c0: seq<int>, cs: seq<int>, nCD0: int, nCD: int)
    requires Inv(adj, s, g, t0, t, c0, cs, nCD0, nCD) && s.k == 1 && 0 <= s.ite[s.u] < |adj[s.u]|
    requires s.visited[Next(adj, s)] && TreeInv(adj, s)
    ensures Shape(adj, Read(adj, s)) && TreeInv(adj, Read(adj, s))
  {
    AtTop(adj, s, g, t0, t, c0, cs, nCD0, nCD);
    var s' := Read(adj, s);
    assert Shape(adj, s');
    assert SlotOk(adj, s, s.posV - 1, Next(adj, s));
    forall i, z | 0 <= i < s'.posV && 0 <= z < |adj|
      ensures SlotOk(adj, s', i, z)
    {
      assert SlotOk(adj, s, i, z);
    }
    forall x, j | 0 <= x < |adj| && s'.visited[x] && 0 <= j < |adj[x]| && j < s'.ite[x]
      ensures EntryOk(adj, s', x, j)
    {
      if x != s.u || j != s.ite[s.u] {
        assert EntryOk(adj, s, x, j);
      }
    }
  }

  /** With `k == 1` every entry read so far leads to a visited location. */
  lemma ReadVisited(adj: Adj, s: Dfs, g: Book, t0: int, t: int, c0: seq<int>, cs: seq<int>, nCD0: int, nCD: int)
    requires Inv(adj, s, g, t0, t, c0, cs, nCD0, nCD) && s.k == 1
    ensures forall x, j :: 0 <= x < |adj| && 0 <= j < |adj[x]| && j < s.ite[x] ==> s.visited[adj[x][j].nb - 1]
  {
    forall x, j | 0 <= x < |adj| && 0 <= j < |adj[x]| && j < s.ite[x]
      ensures s.visited[adj[x][j].nb - 1]
    {
      assert ScanOk(adj, s, g, x, j);
    }
  }

  /** Descending from the top `u` to an unvisited location makes `u` its parent and changes no visited location's ancestry. */
  lemma TreeDescend(adj: Adj, s: Dfs, g: Book, t0: int, t: int, c0: seq<int>, cs: seq<int>, nCD0: int, nCD: int)
    requires Inv(adj, s, g, t0, t, c0, cs, nCD0, nCD) && s.k == 1 && 0 <= s.ite[s.u] < |adj[s.u]|
    requires !s.visited[Next(adj, s)] && TreeInv(adj, s)
    ensures Shape(adj, Descend(adj, s)) && TreeInv(adj, Descend(adj, s))
  {
    ParentsVisited(adj, s, g, t0, t, c0, cs, nCD0, nCD);
    ReadVisited(adj, s, g, t0, t, c0, cs, nCD0, nCD);
    AtTop(adj, s, g, t0, t, c0, cs, nCD0, nCD);
    assert Shape(adj, s) && 0 < s.posV;
    DescendTree(adj, s);
  }

  /** What descending needs: parents of visited locations are visited, and no read entry leads to an unvisited location. */
  lemma DescendTree(adj: Adj, s: Dfs)
    requires Shape(adj, s) && 0 <= s.ite[s.u] < |adj[s.u]| && !s.visited[Next(adj, s)] && TreeInv(adj, s)
    requires forall y :: 0 <= y < |adj| && s.visited[y] ==> 0 <= s.p[y] < |adj| && s.visited[s.p[y]]
    requires forall x, j :: 0 <= x < |adj| && 0 <= j < |adj[x]| && j < s.ite[x] ==> s.visited[adj[x][j].nb - 1]
    requires 0 < s.posV
    ensures Shape(adj, Descend(adj, s)) && TreeInv(adj, Descend(adj, s))
  {
    var s' := Descend(adj, s);
    assert Shape(adj, s');
    forall i, z | 0 <= i < s'.posV && 0 <= z < |adj|
      ensures SlotOk(adj, s', i, z)
    {
      DescendSlot(adj, s, i, z);
    }
    forall x, j | 0 <= x < |adj| && s'.visited[x] && 0 <= j < |adj[x]| && j < s'.ite[x]
      ensures EntryOk(adj, s', x, j)
    {
      DescendEntry(adj, s, x, j);
    }
  }

  /** Descending keeps one stack slot's descendants. */
  lemma DescendSlot(adj: Adj, s: Dfs, i: int, z: int)
    requires Shape(adj, s) && 0 <= s.ite[s.u] < |adj[s.u]| && !s.visited[Next(adj, s)] && TreeInv(adj, s)
    requires forall y :: 0 <= y < |adj| && s.visited[y] ==> 0 <= s.p[y] < |adj| && s.visited[s.p[y]]
    requires 0 <= i < s.posV && 0 <= z < |adj|
    ensures Shape(adj, Descend(adj, s)) && SlotOk(adj, Descend(adj, s), i, z)
  {
    var s' := Descend(adj, s);
    assert SlotOk(adj, s, i, z);
    if s.visited[z] && s.d[z] >= s.d[s.caminho[i]] {
      AncestorFrame(s.p, s'.p, s.visited, s.caminho[i], z);
    }
  }

  /** Descending keeps one read entry's depth-first property and gives the new entry its child. */
  lemma DescendEntry(adj: Adj, s: Dfs, x: int, j: int)
    requires Shape(adj, s) && 0 <= s.ite[s.u] < |adj[s.u]| && !s.visited[Next(adj, s)] && TreeInv(adj, s)
    requires forall y :: 0 <= y < |adj| && s.visited[y] ==> 0 <= s.p[y] < |adj| && s.visited[s.p[y]]
    requires forall y, k :: 0 <= y < |adj| && 0 <= k < |adj[y]| && k < s.ite[y] ==> s.visited[adj[y][k].nb - 1]
    requires 0 <= x < |adj| && s.visited[x] && 0 <= j < |adj[x]| && j < Descend(adj, s).ite[x]
    ensures Shape(adj, Descend(adj, s)) && EntryOk(adj, Descend(adj, s), x, j)
  {
    var s' := Descend(adj, s);
    if x != s.u || j != s.ite[s.u] {
      assert EntryOk(adj, s, x, j);
      var w := adj[x][j].nb - 1;
      assert s.visited[w];
      if IsAncestor(s.p, x, w) {
        AncestorFrame(s.p, s'.p, s.visited, x, w);
      }
    }
  }

  /** Returning to the location below only shortens the stack. */
  lemma TreePop(adj: Adj, s: Dfs)
    requires Shape(adj, s) && 2 <= s.posV && 0 <= Below(adj, s) < |adj| && TreeInv(adj, s)
    ensures Shape(adj, Pop(adj, s)) && TreeInv(adj, Pop(adj, s))
  {
    var s' := Pop(adj, s);
    forall i, z | 0 <= i < s'.posV && 0 <= z < |adj|
      ensures SlotOk(adj, s', i, z)
    {
      assert SlotOk(adj, s, i, z);
    }
    forall x, j | 0 <= x < |adj| && s'.visited[x] && 0 <= j < |adj[x]| && j < s'.ite[x]
      ensures EntryOk(adj, s', x, j)
    {
      assert EntryOk(adj, s, x, j);
    }
  }

  /** When the search stops, every entry of every visited location has the depth-first property. */
  lemma TreeFinish(adj: Adj, s: Dfs, g: Book, t0: int, t: int, c0: seq<int>, cs: seq<int>, nCD0: int, nCD: int)
    requires Inv(adj, s, g, t0, t, c0, cs, nCD0, nCD) && s.k == 1 && TreeInv(adj, s)
    requires forall x :: 0 <= x < |adj| && s.visited[x] ==> s.ite[x] == |adj[x]|
    ensures forall x, j :: 0 <= x < |adj| && s.visited[x] && 0 <= j < |adj[x]| ==> DepthFirst(adj, s.d, s.p, x, j)
  {
    forall x, j | 0 <= x < |adj| && s.visited[x] && 0 <= j < |adj[x]|
      ensures DepthFirst(adj, s.d, s.p, x, j)
    {
      assert EntryOk(adj, s, x, j) && ScanOk(adj, s, g, x, j);
    }
  }

  /** When the search stops, its final arrays satisfy `Searched`, and the bridges found are counted and marked. */
  lemma SearchDone(adj: Adj, s: Dfs, g: Book, t0: int, t: int, c0: seq<int>, cs: seq<int>, nCD0: int, nCD: int)
    requires Inv(adj, s, g, t0, t, c0, cs, nCD0, nCD) && TreeInv(adj, s)
    requires s.k == 1 && s.posV == 1 && s.ite[s.u] == |adj[s.u]|
    ensures Searched(adj, t0, s.visited, g.order, s.d, s.l, s.p)
    ensures t == t0 + |g.order| && |cs| == |c0|
    ensures nCD == nCD0 + |BridgeSet(adj, s.visited, s.d, s.l, s.p)|
    ensures forall i :: 0 <= i < |c0| ==>
      cs[i] == if Hit(adj, s.p, BridgeSet(adj, s.visited, s.d, s.l, s.p), i) then 2 else c0[i]
  {
    FinishStep(adj, s, g, t0, t, c0, cs, nCD0, nCD);
    FinishReady(adj, s, g, t0, t, c0, cs, nCD0, nCD);
    TreeFinish(adj, s, g, t0, t, c0, cs, nCD0, nCD);
  }
}
