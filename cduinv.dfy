/**
 * The transitions of the depth-first search of `encontraCDU` and the lemmas
 * that carry its loop invariant `Inv` across each of them: the start, the first
 * visit of a location, reading an entry that leads to a visited location,
 * descending to an unvisited one, returning to the location below on the stack,
 * and stopping when the start's list is read to the end.
 */
module CduInvariant {
  import opened Estadio
  import opened Paths
  import opened CduState
  import opened CduSpec

  /** The state before the loop: nothing visited, every parent and cursor 0, the unset arrays read as 0. */
  ghost function Start(n: nat): Dfs
  {
    Dfs(seq(n, _ => false), seq(n, _ => 0), seq(n, _ => 0), seq(n, _ => 0), seq(n, _ => 0), seq(n, _ => 0), 0, 0, 0)
  }

  /** The bookkeeping before the loop. */
  ghost function StartBook(n: nat): Book
  {
    Book([], Range(n), seq(n, _ => 0), seq(n, _ => []), seq(n, _ => Own), {})
  }

  /** The `k == 0` block: push `u`, mark it visited and give it discovery time and low-link `t + 1`. */
  ghost function Visit(adj: Adj, s: Dfs, t: int): Dfs
    requires Shape(adj, s) && s.posV < |adj|
  {
    s.(caminho := s.caminho[s.posV := s.u], posV := s.posV + 1, k := 1,
       visited := s.visited[s.u := true], d := s.d[s.u := t + 1], l := s.l[s.u := t + 1])
  }

  ghost function VisitBook(adj: Adj, s: Dfs, g: Book): Book
    requires Sized(adj, s, g)
  {
    g.(order := g.order + [s.u], unv := g.unv - {s.u}, sidx := g.sidx[s.u := s.posV], why := g.why[s.u := Own])
  }

  /** The 0-based target of the entry under `u`'s cursor. */
  ghost function Next(adj: Adj, s: Dfs): int
    requires Shape(adj, s) && 0 <= s.ite[s.u] < |adj[s.u]|
  {
    adj[s.u][s.ite[s.u]].nb - 1
  }

  /** `l[u]` drops to `d[w]`: the entry leads to a visited location `w` other than the parent, discovered before `l[u]`. */
  ghost predicate Lowers(adj: Adj, s: Dfs)
    requires Shape(adj, s) && 0 <= s.ite[s.u] < |adj[s.u]|
  {
    Next(adj, s) != s.p[s.u] && s.d[Next(adj, s)] < s.l[s.u]
  }

  /** Reading an entry that leads to a visited location: advance the cursor, and unless it leads to the parent take the smaller of `l[u]` and its discovery time. */
  ghost function Read(adj: Adj, s: Dfs): Dfs
    requires Shape(adj, s) && 0 <= s.ite[s.u] < |adj[s.u]|
  {
    s.(ite := s.ite[s.u := s.ite[s.u] + 1],
       l := if Next(adj, s) != s.p[s.u] then s.l[s.u := Min(s.l[s.u], s.d[Next(adj, s)])] else s.l)
  }

  ghost function ReadBook(adj: Adj, s: Dfs, g: Book): Book
    requires Sized(adj, s, g) && 0 <= s.ite[s.u] < |adj[s.u]|
  {
    g.(why := if Lowers(adj, s) then g.why[s.u := Back(s.ite[s.u])] else g.why)
  }

  /** Reading an entry that leads to an unvisited `w`: advance the cursor, make `u` the parent of `w` and go to `w`. */
  ghost function Descend(adj: Adj, s: Dfs): Dfs
    requires Shape(adj, s) && 0 <= s.ite[s.u] < |adj[s.u]|
  {
    s.(ite := s.ite[s.u := s.ite[s.u] + 1], p := s.p[Next(adj, s) := s.u], u := Next(adj, s), k := 0)
  }

  ghost function DescendBook(adj: Adj, s: Dfs, g: Book): Book
    requires Sized(adj, s, g) && 0 <= s.ite[s.u] < |adj[s.u]|
  {
    g.(walks := g.walks[Next(adj, s) := g.walks[s.u] + [adj[s.u][s.ite[s.u]]]])
  }

  /** The location below the top of the stack, to which the search returns. */
  ghost function Below(adj: Adj, s: Dfs): int
    requires Shape(adj, s) && 2 <= s.posV
  {
    s.caminho[s.posV - 2]
  }

  /** The tree edge into the finished top `u` is taken for a bridge: `l[u]` exceeds the discovery time of the location below. */
  ghost predicate IsBridge(adj: Adj, s: Dfs)
    requires Shape(adj, s) && 2 <= s.posV && 0 <= Below(adj, s) < |adj|
  {
    s.l[s.u] > s.d[Below(adj, s)]
  }

  /** `l[u']` for the location `u'` below drops to the finished top's low-link when that is smaller. */
  ghost predicate Inherits(adj: Adj, s: Dfs)
    requires Shape(adj, s) && 2 <= s.posV && 0 <= Below(adj, s) < |adj|
  {
    s.l[s.u] < s.l[Below(adj, s)]
  }

  /** Returning from the finished top `u` to the location below, which takes the smaller low-link. */
  ghost function Pop(adj: Adj, s: Dfs): Dfs
    requires Shape(adj, s) && 2 <= s.posV && 0 <= Below(adj, s) < |adj|
  {
    s.(posV := s.posV - 1, u := Below(adj, s),
       l := s.l[Below(adj, s) := Min(s.l[Below(adj, s)], s.l[s.u])])
  }

  ghost function PopBook(adj: Adj, s: Dfs, g: Book): Book
    requires Sized(adj, s, g) && 2 <= s.posV && 0 <= Below(adj, s) < |adj|
  {
    g.(why := if Inherits(adj, s) then g.why[Below(adj, s) := Child(s.u)] else g.why,
       bridges := if IsBridge(adj, s) then g.bridges + {s.u} else g.bridges)
  }

  /** The locations `0 .. n-1`. */
  ghost function Range(n: nat): (r: set<int>)
    ensures forall x :: x in r <==> 0 <= x < n
    ensures |r| == n
  {
    if n == 0 then {} else Range(n - 1) + {n - 1}
  }

  /** The invariant holds before the first iteration. */
  lemma StartInv(adj: Adj, t0: int, c0: seq<int>, nCD0: int)
    requires 1 <= |adj| && InRange(adj)
    ensures Inv(adj, Start(|adj|), StartBook(|adj|), t0, t0, c0, c0, nCD0, nCD0)
  {
    var n := |adj|;
    var s, g := Start(n), StartBook(n);
    assert Sized(adj, s, g);
    forall x | 0 <= x < n
      ensures VertexOk(adj, s, g, t0, x)
    {
      assert !OnStack(adj, s, g, x);
    }
    forall i | 0 <= i < |c0|
      ensures MarkOk(adj, s, g, c0, c0, i)
    {
      assert !Hit(adj, s.p, g.bridges, i);
    }
    assert IsWalk(adj, 0, g.walks[0], 0);
  }

  /** There is room on the stack for the location about to be visited, which is unvisited. */
  lemma VisitRoom(adj: Adj, s: Dfs, g: Book, t0: int, t: int, c0: seq<int>, cs: seq<int>, nCD0: int, nCD: int)
    requires Inv(adj, s, g, t0, t, c0, cs, nCD0, nCD) && s.k == 0
    ensures s.posV < |adj| && s.u in g.unv && |g.unv - {s.u}| == |g.unv| - 1
    ensures Sized(adj, Visit(adj, s, t), VisitBook(adj, s, g))
  {
    assert VertexOk(adj, s, g, t0, s.u);
  }

  /** What the first visit of `u` needs of the state before it. */
  ghost predicate VisitPre(adj: Adj, s: Dfs, g: Book, t0: int, t: int)
  {
    && Sized(adj, s, g) && s.k == 0 && s.posV < |adj| && t == t0 + |g.order|
    && Sized(adj, Visit(adj, s, t), VisitBook(adj, s, g))
    && !s.visited[s.u] && IsWalk(adj, 0, g.walks[s.u], s.u) && s.u !in g.bridges
    && (s.u != 0 ==> 1 <= s.posV && 0 <= s.p[s.u] < |adj| && s.visited[s.p[s.u]] && RowHas(adj[s.p[s.u]], s.u)
                     && VisitedOk(adj, s, g, t0, s.p[s.u]))
  }

  /** The first visit of `u` makes `u` satisfy `VertexOk`. */
  lemma VisitSelf(adj: Adj, s: Dfs, g: Book, t0: int, t: int)
    requires VisitPre(adj, s, g, t0, t) && VertexOk(adj, s, g, t0, s.u)
    ensures VertexOk(adj, Visit(adj, s, t), VisitBook(adj, s, g), t0, s.u)
  {
    var u := s.u;
    var s', g' := Visit(adj, s, t), VisitBook(adj, s, g);
    assert OnStack(adj, s', g', u);
    assert VisitedOk(adj, s', g', t0, u);
  }

  /** The first visit of `u` keeps `VertexOk` at a visited `x`. */
  lemma VisitOther(adj: Adj, s: Dfs, g: Book, t0: int, t: int, x: int)
    requires VisitPre(adj, s, g, t0, t) && 0 <= x < |adj| && x != s.u && s.visited[x]
    requires VertexOk(adj, s, g, t0, x)
    ensures VertexOk(adj, Visit(adj, s, t), VisitBook(adj, s, g), t0, x)
  {
    var u := s.u;
    var s', g' := Visit(adj, s, t), VisitBook(adj, s, g);
    assert OnStack(adj, s', g', x) <==> OnStack(adj, s, g, x);
    assert VisitedOk(adj, s, g, t0, x);
    if x != 0 {
      assert s.p[x] != u;
    }
    match g.why[x]
    case Own =>
    case Back(j) =>
    case Child(c) =>
      assert c != u;
      assert OnStack(adj, s', g', c) <==> OnStack(adj, s, g, c);
    assert WhyOk(adj, s', g', x);
    assert VisitedOk(adj, s', g', t0, x);
  }

  /** The first visit of `u` keeps `VertexOk` at an unvisited `x` other than `u`. */
  lemma VisitUnseen(adj: Adj, s: Dfs, g: Book, t0: int, t: int, x: int)
    requires VisitPre(adj, s, g, t0, t) && 0 <= x < |adj| && x != s.u && !s.visited[x]
    requires VertexOk(adj, s, g, t0, x)
    ensures VertexOk(adj, Visit(adj, s, t), VisitBook(adj, s, g), t0, x)
  {
  }

  /** After the first visit of `u`, every location still satisfies `VertexOk`. */
  lemma VisitVertices(adj: Adj, s: Dfs, g: Book, t0: int, t: int, c0: seq<int>, cs: seq<int>, nCD0: int, nCD: int)
    requires Inv(adj, s, g, t0, t, c0, cs, nCD0, nCD) && s.k == 0 && s.posV < |adj|
    requires Sized(adj, Visit(adj, s, t), VisitBook(adj, s, g))
    ensures forall x :: 0 <= x < |adj| ==> VertexOk(adj, Visit(adj, s, t), VisitBook(adj, s, g), t0, x)
  {
    var u := s.u;
    if u != 0 {
      assert StackOk(adj, s, g, s.posV - 1);
      assert VertexOk(adj, s, g, t0, s.p[u]);
    }
    assert VertexOk(adj, s, g, t0, u);
    assert VisitPre(adj, s, g, t0, t);
    forall x | 0 <= x < |adj|
      ensures VertexOk(adj, Visit(adj, s, t), VisitBook(adj, s, g), t0, x)
    {
      assert VertexOk(adj, s, g, t0, x);
      if x == u {
        VisitSelf(adj, s, g, t0, t);
      } else if s.visited[x] {
        VisitOther(adj, s, g, t0, t, x);
      } else {
        VisitUnseen(adj, s, g, t0, t, x);
      }
    }
  }

  /** After the first visit of `u`, every read entry still satisfies `ScanOk`. */
  lemma VisitScans(adj: Adj, s: Dfs, g: Book, t0: int, t: int, c0: seq<int>, cs: seq<int>, nCD0: int, nCD: int)
    requires Inv(adj, s, g, t0, t, c0, cs, nCD0, nCD) && s.k == 0 && s.posV < |adj|
    requires Sized(adj, Visit(adj, s, t), VisitBook(adj, s, g))
    ensures forall x, j :: 0 <= x < |adj| && 0 <= j < |adj[x]| && j < Visit(adj, s, t).ite[x] ==>
      ScanOk(adj, Visit(adj, s, t), VisitBook(adj, s, g), x, j)
  {
    var n, u := |adj|, s.u;
    var s', g' := Visit(adj, s, t), VisitBook(adj, s, g);
    forall x, j | 0 <= x < n && 0 <= j < |adj[x]| && j < s'.ite[x]
      ensures ScanOk(adj, s', g', x, j)
    {
      assert ScanOk(adj, s, g, x, j);
      assert VertexOk(adj, s, g, t0, x);
      assert VisitedOk(adj, s, g, t0, x);
      if Pending(adj, s, g, x, j) {
        var w := adj[x][j].nb - 1;
        if w == u {
          assert OnStack(adj, s', g', u);
        } else {
          assert OnStack(adj, s, g, w);
        }
        assert Pending(adj, s', g', x, j);
      }
    }
  }

  /** What the loop of `encontraCDU` reads off the invariant: the cursor of `u` lies within its list, and `u` is unvisited while `k == 0`. */
  lemma Cursor(adj: Adj, s: Dfs, g: Book, t0: int, t: int, c0: seq<int>, cs: seq<int>, nCD0: int, nCD: int)
    requires Inv(adj, s, g, t0, t, c0, cs, nCD0, nCD)
    ensures Shape(adj, s) && 0 <= s.ite[s.u] <= |adj[s.u]| && 1 <= s.posV + |g.unv|
    ensures s.k == 0 ==> s.u in g.unv && !s.visited[s.u]
    ensures s.k == 1 ==> s.visited[s.u]
  {
    assert VertexOk(adj, s, g, t0, s.u);
    if s.k == 1 {
      assert StackOk(adj, s, g, s.posV - 1);
    }
  }

  /** The `k == 0` block keeps the invariant, and there is room on the stack for `u`. */
  lemma VisitStep(adj: Adj, s: Dfs, g: Book, t0: int, t: int, c0: seq<int>, cs: seq<int>, nCD0: int, nCD: int)
    requires Inv(adj, s, g, t0, t, c0, cs, nCD0, nCD) && s.k == 0
    ensures s.posV < |adj| && |VisitBook(adj, s, g).unv| == |g.unv| - 1
    ensures Inv(adj, Visit(adj, s, t), VisitBook(adj, s, g), t0, t + 1, c0, cs, nCD0, nCD)
  {
    VisitRoom(adj, s, g, t0, t, c0, cs, nCD0, nCD);
    VisitVertices(adj, s, g, t0, t, c0, cs, nCD0, nCD);
    VisitScans(adj, s, g, t0, t, c0, cs, nCD0, nCD);
    var s', g' := Visit(adj, s, t), VisitBook(adj, s, g);
    forall i | 0 <= i < |g'.order|
      ensures OrderOk(adj, s', g', t0, i)
    {
      if i < |g.order| {
        assert OrderOk(adj, s, g, t0, i);
      }
    }
    forall i | 0 <= i < s'.posV
      ensures StackOk(adj, s', g', i)
    {
      if i < s.posV {
        assert StackOk(adj, s, g, i);
        assert VertexOk(adj, s, g, t0, s.caminho[i]);
      }
    }
    forall i | 0 <= i < |c0|
      ensures MarkOk(adj, s', g', c0, cs, i)
    {
      assert MarkOk(adj, s, g, c0, cs, i);
    }
  }

  /** With `k == 1` the current location is the top of the stack, and none of its entries is pending. */
  lemma AtTop(adj: Adj, s: Dfs, g: Book, t0: int, t: int, c0: seq<int>, cs: seq<int>, nCD0: int, nCD: int)
    requires Inv(adj, s, g, t0, t, c0, cs, nCD0, nCD) && s.k == 1
    ensures s.visited[s.u] && OnStack(adj, s, g, s.u) && g.sidx[s.u] == s.posV - 1
    ensures forall j :: 0 <= j < |adj[s.u]| ==> !Pending(adj, s, g, s.u, j)
  {
    assert StackOk(adj, s, g, s.posV - 1);
    forall j | 0 <= j < |adj[s.u]|
      ensures !Pending(adj, s, g, s.u, j)
    {
      var w := adj[s.u][j].nb - 1;
      if s.visited[w] && OnStack(adj, s, g, w) && w != 0 {
        StackParent(adj, s, g, t0, t, c0, cs, nCD0, nCD, w);
      }
    }
  }

  /** A location on the stack other than the start sits right above its parent. */
  lemma StackParent(adj: Adj, s: Dfs, g: Book, t0: int, t: int, c0: seq<int>, cs: seq<int>, nCD0: int, nCD: int, w: int)
    requires Inv(adj, s, g, t0, t, c0, cs, nCD0, nCD)
    requires 0 <= w < |adj| && w != 0 && OnStack(adj, s, g, w)
    ensures 1 <= g.sidx[w] && s.p[w] == s.caminho[g.sidx[w] - 1] && 0 <= s.p[w] < |adj|
    ensures OnStack(adj, s, g, s.p[w]) && g.sidx[s.p[w]] == g.sidx[w] - 1
  {
    var i := g.sidx[w];
    assert StackOk(adj, s, g, i);
    assert StackOk(adj, s, g, i - 1);
  }

  /** Changing parents only outside `B` does not change which corridors carry the tree edges into `B`. */
  lemma HitFrame(adj: Adj, p: seq<int>, p': seq<int>, B: set<int>, i: int)
    requires |p| == |p'| && forall x :: x in B && 0 <= x < |p| ==> p'[x] == p[x]
    ensures Hit(adj, p', B, i) <==> Hit(adj, p, B, i)
  {
    if Hit(adj, p, B, i) {
      var x :| x in B && 0 <= x < |p| && 0 <= p[x] < |adj| && RowHit(adj[p[x]], x, i);
      assert p'[x] == p[x];
    }
    if Hit(adj, p', B, i) {
      var x :| x in B && 0 <= x < |p'| && 0 <= p'[x] < |adj| && RowHit(adj[p'[x]], x, i);
      assert p'[x] == p[x];
    }
  }

  /** Adding the child `v` to `B` adds exactly the corridors of the parent's entries that lead to `v`. */
  lemma HitAdd(adj: Adj, p: seq<int>, B: set<int>, v: int, i: int)
    requires 0 <= v < |p| && 0 <= p[v] < |adj|
    ensures Hit(adj, p, B + {v}, i) <==> Hit(adj, p, B, i) || RowHit(adj[p[v]], v, i)
  {
    if Hit(adj, p, B + {v}, i) {
      var x :| x in B + {v} && 0 <= x < |p| && 0 <= p[x] < |adj| && RowHit(adj[p[x]], x, i);
      if x != v {
        assert x in B;
      }
    }
  }

  // ----- reading an entry that leads to a visited location -----

  /** What reading an entry that leads to a visited location needs of the state before it. */
  ghost predicate ReadPre(adj: Adj, s: Dfs, g: Book, t0: int)
  {
    && Sized(adj, s, g) && s.k == 1 && 0 <= s.ite[s.u] < |adj[s.u]|
    && s.visited[s.u] && OnStack(adj, s, g, s.u)
    && s.visited[Next(adj, s)] && VisitedOk(adj, s, g, t0, Next(adj, s))
    && Sized(adj, Read(adj, s), ReadBook(adj, s, g))
  }

  /** Reading the entry keeps `VertexOk` at `u`. */
  lemma ReadSelf(adj: Adj, s: Dfs, g: Book, t0: int)
    requires ReadPre(adj, s, g, t0) && VertexOk(adj, s, g, t0, s.u)
    ensures VertexOk(adj, Read(adj, s), ReadBook(adj, s, g), t0, s.u)
  {
    var u := s.u;
    var s', g' := Read(adj, s), ReadBook(adj, s, g);
    assert OnStack(adj, s', g', u);
    assert VisitedOk(adj, s, g, t0, u);
    match g.why[u]
    case Own =>
    case Back(j) =>
    case Child(c) =>
      assert OnStack(adj, s', g', c) <==> OnStack(adj, s, g, c);
    assert WhyOk(adj, s', g', u);
    assert VisitedOk(adj, s', g', t0, u);
  }

  /** Reading the entry keeps `VertexOk` at every other location. */
  lemma ReadOther(adj: Adj, s: Dfs, g: Book, t0: int, x: int)
    requires ReadPre(adj, s, g, t0) && 0 <= x < |adj| && x != s.u && VertexOk(adj, s, g, t0, x)
    ensures VertexOk(adj, Read(adj, s), ReadBook(adj, s, g), t0, x)
  {
    var s', g' := Read(adj, s), ReadBook(adj, s, g);
    assert OnStack(adj, s', g', x) <==> OnStack(adj, s, g, x);
    if s.visited[x] {
      assert VisitedOk(adj, s, g, t0, x);
      match g.why[x]
      case Own =>
      case Back(j) =>
      case Child(c) =>
        assert c != s.u;
        assert OnStack(adj, s', g', c) <==> OnStack(adj, s, g, c);
      assert WhyOk(adj, s', g', x);
      assert VisitedOk(adj, s', g', t0, x);
    }
  }

  /** Reading the entry keeps `ScanOk` at every read entry, the new one included. */
  lemma ReadScans(adj: Adj, s: Dfs, g: Book, t0: int, t: int, c0: seq<int>, cs: seq<int>, nCD0: int, nCD: int)
    requires Inv(adj, s, g, t0, t, c0, cs, nCD0, nCD) && ReadPre(adj, s, g, t0)
    ensures forall x, j :: 0 <= x < |adj| && 0 <= j < |adj[x]| && j < Read(adj, s).ite[x] ==>
      ScanOk(adj, Read(adj, s), ReadBook(adj, s, g), x, j)
  {
    AtTop(adj, s, g, t0, t, c0, cs, nCD0, nCD);
    var u := s.u;
    var s', g' := Read(adj, s), ReadBook(adj, s, g);
    forall x, j | 0 <= x < |adj| && 0 <= j < |adj[x]| && j < s'.ite[x]
      ensures ScanOk(adj, s', g', x, j)
    {
      if x == u && j == s.ite[u] {
      } else {
        assert ScanOk(adj, s, g, x, j);
        if x == u {
          assert !Pending(adj, s, g, u, j);
        } else if Pending(adj, s, g, x, j) {
          assert Pending(adj, s', g', x, j);
        }
      }
    }
  }

  /** Reading an entry that leads to a visited location keeps the invariant. */
  lemma ReadStep(adj: Adj, s: Dfs, g: Book, t0: int, t: int, c0: seq<int>, cs: seq<int>, nCD0: int, nCD: int)
    requires Inv(adj, s, g, t0, t, c0, cs, nCD0, nCD) && s.k == 1 && 0 <= s.ite[s.u] < |adj[s.u]|
    requires s.visited[Next(adj, s)]
    ensures Inv(adj, Read(adj, s), ReadBook(adj, s, g), t0, t, c0, cs, nCD0, nCD)
  {
    AtTop(adj, s, g, t0, t, c0, cs, nCD0, nCD);
    var s', g' := Read(adj, s), ReadBook(adj, s, g);
    assert VertexOk(adj, s, g, t0, Next(adj, s));
    assert Sized(adj, s', g');
    assert ReadPre(adj, s, g, t0);
    forall x | 0 <= x < |adj|
      ensures VertexOk(adj, s', g', t0, x)
    {
      assert VertexOk(adj, s, g, t0, x);
      if x == s.u {
        ReadSelf(adj, s, g, t0);
      } else {
        ReadOther(adj, s, g, t0, x);
      }
    }
    ReadScans(adj, s, g, t0, t, c0, cs, nCD0, nCD);
    forall i | 0 <= i < |g'.order|
      ensures OrderOk(adj, s', g', t0, i)
    {
      assert OrderOk(adj, s, g, t0, i);
    }
    forall i | 0 <= i < s'.posV
      ensures StackOk(adj, s', g', i)
    {
      assert StackOk(adj, s, g, i);
    }
    forall i | 0 <= i < |c0|
      ensures MarkOk(adj, s', g', c0, cs, i)
    {
      assert MarkOk(adj, s, g, c0, cs, i);
    }
  }

  // ----- reading an entry that leads to an unvisited location -----

  /** What descending to an unvisited location needs of the state before it. */
  ghost predicate DescendPre(adj: Adj, s: Dfs, g: Book)
  {
    && Sized(adj, s, g) && s.k == 1 && 0 <= s.ite[s.u] < |adj[s.u]|
    && s.visited[s.u] && OnStack(adj, s, g, s.u)
    && !s.visited[Next(adj, s)] && Next(adj, s) != 0 && Next(adj, s) !in g.bridges
    && Sized(adj, Descend(adj, s), DescendBook(adj, s, g))
  }

  /** Descending keeps `VertexOk` at every location. */
  lemma DescendVertex(adj: Adj, s: Dfs, g: Book, t0: int, x: int)
    requires DescendPre(adj, s, g) && 0 <= x < |adj| && VertexOk(adj, s, g, t0, x)
    ensures VertexOk(adj, Descend(adj, s), DescendBook(adj, s, g), t0, x)
  {
    var w := Next(adj, s);
    var s', g' := Descend(adj, s), DescendBook(adj, s, g);
    assert OnStack(adj, s', g', x) <==> OnStack(adj, s, g, x);
    if s.visited[x] {
      assert x != w && s'.p[x] == s.p[x] && g'.walks[x] == g.walks[x];
      assert VisitedOk(adj, s, g, t0, x);
      match g.why[x]
      case Own =>
      case Back(j) =>
      case Child(c) =>
        assert c != w;
        assert OnStack(adj, s', g', c) <==> OnStack(adj, s, g, c);
      assert WhyOk(adj, s', g', x);
      assert VisitedOk(adj, s', g', t0, x);
    }
  }

  /** Descending keeps `ScanOk` at every read entry, and the new one is pending. */
  lemma DescendScans(adj: Adj, s: Dfs, g: Book, t0: int, t: int, c0: seq<int>, cs: seq<int>, nCD0: int, nCD: int)
    requires Inv(adj, s, g, t0, t, c0, cs, nCD0, nCD) && DescendPre(adj, s, g)
    ensures forall x, j :: 0 <= x < |adj| && 0 <= j < |adj[x]| && j < Descend(adj, s).ite[x] ==>
      ScanOk(adj, Descend(adj, s), DescendBook(adj, s, g), x, j)
  {
    AtTop(adj, s, g, t0, t, c0, cs, nCD0, nCD);
    var u, w := s.u, Next(adj, s);
    var s', g' := Descend(adj, s), DescendBook(adj, s, g);
    forall x, j | 0 <= x < |adj| && 0 <= j < |adj[x]| && j < s'.ite[x]
      ensures ScanOk(adj, s', g', x, j)
    {
      if x == u && j == s.ite[u] {
        assert Pending(adj, s', g', x, j);
      } else {
        assert ScanOk(adj, s, g, x, j);
        assert VertexOk(adj, s, g, t0, x);
        assert s'.p[x] == s.p[x];
        if x == u {
          assert !Pending(adj, s, g, u, j);
        } else if Pending(adj, s, g, x, j) {
          var w' := adj[x][j].nb - 1;
          assert w' != w && s'.p[w'] == s.p[w'];
          assert Pending(adj, s', g', x, j);
        }
      }
    }
  }

  /** Reading an entry that leads to an unvisited location and descending to it keeps the invariant. */
  lemma DescendStep(adj: Adj, s: Dfs, g: Book, t0: int, t: int, c0: seq<int>, cs: seq<int>, nCD0: int, nCD: int)
    requires Inv(adj, s, g, t0, t, c0, cs, nCD0, nCD) && s.k == 1 && 0 <= s.ite[s.u] < |adj[s.u]|
    requires !s.visited[Next(adj, s)]
    ensures Inv(adj, Descend(adj, s), DescendBook(adj, s, g), t0, t, c0, cs, nCD0, nCD)
  {
    AtTop(adj, s, g, t0, t, c0, cs, nCD0, nCD);
    var u, w := s.u, Next(adj, s);
    var s', g' := Descend(adj, s), DescendBook(adj, s, g);
    assert StackOk(adj, s, g, 0);
    assert VertexOk(adj, s, g, t0, w);
    assert Sized(adj, s', g');
    assert DescendPre(adj, s, g);
    forall x | 0 <= x < |adj|
      ensures VertexOk(adj, s', g', t0, x)
    {
      assert VertexOk(adj, s, g, t0, x);
      DescendVertex(adj, s, g, t0, x);
    }
    DescendScans(adj, s, g, t0, t, c0, cs, nCD0, nCD);
    forall i | 0 <= i < |g'.order|
      ensures OrderOk(adj, s', g', t0, i)
    {
      assert OrderOk(adj, s, g, t0, i);
    }
    forall i | 0 <= i < s'.posV
      ensures StackOk(adj, s', g', i)
    {
      assert StackOk(adj, s, g, i);
      assert s.caminho[i] != w;
    }
    assert VertexOk(adj, s, g, t0, u) && VisitedOk(adj, s, g, t0, u);
    var e := adj[u][s.ite[u]];
    WalkAppend(adj, 0, g.walks[u], u, e);
    assert RowHas(adj[u], w) by {
      assert adj[u][s.ite[u]].nb == w + 1;
    }
    forall i | 0 <= i < |c0|
      ensures MarkOk(adj, s', g', c0, cs, i)
    {
      assert MarkOk(adj, s, g, c0, cs, i);
      forall x | x in g.bridges && 0 <= x < |s.p|
        ensures s'.p[x] == s.p[x]
      {
        assert VertexOk(adj, s, g, t0, x);
      }
      HitFrame(adj, s.p, s'.p, g.bridges, i);
    }
  }

  // ----- returning from a finished location -----

  /** What returning from the finished top `u` to the location below needs of the state before it. */
  ghost predicate PopPre(adj: Adj, s: Dfs, g: Book, t0: int)
  {
    && Sized(adj, s, g) && s.k == 1 && 2 <= s.posV && s.ite[s.u] == |adj[s.u]|
    && s.visited[s.u] && OnStack(adj, s, g, s.u) && g.sidx[s.u] == s.posV - 1 && s.u != 0
    && 0 <= Below(adj, s) < |adj| && s.p[s.u] == Below(adj, s) && Below(adj, s) != s.u
    && s.visited[Below(adj, s)] && OnStack(adj, s, g, Below(adj, s))
    && s.u !in g.bridges && Below(adj, s) !in g.bridges
    && Sized(adj, Pop(adj, s), PopBook(adj, s, g))
  }

  /** After the pop exactly the old stack minus its top remains. */
  lemma PopOnStack(adj: Adj, s: Dfs, g: Book, t0: int, x: int)
    requires PopPre(adj, s, g, t0) && 0 <= x < |adj|
    ensures OnStack(adj, Pop(adj, s), PopBook(adj, s, g), x) <==> OnStack(adj, s, g, x) && x != s.u
  {
  }

  /** The pop makes the old top satisfy `VertexOk` as a finished location. */
  lemma PopTop(adj: Adj, s: Dfs, g: Book, t0: int)
    requires PopPre(adj, s, g, t0) && VertexOk(adj, s, g, t0, s.u)
    ensures VertexOk(adj, Pop(adj, s), PopBook(adj, s, g), t0, s.u)
  {
    var v, b := s.u, Below(adj, s);
    var s', g' := Pop(adj, s), PopBook(adj, s, g);
    PopOnStack(adj, s, g, t0, v);
    assert VisitedOk(adj, s, g, t0, v);
    assert s'.l[v] == s.l[v];
    match g.why[v]
    case Own =>
    case Back(j) =>
    case Child(c) =>
      PopOnStack(adj, s, g, t0, c);
      assert c != b;
    assert WhyOk(adj, s', g', v);
    assert VisitedOk(adj, s', g', t0, v);
  }

  /** The pop keeps `VertexOk` at the location below, which may inherit the old top's low-link. */
  lemma PopBelow(adj: Adj, s: Dfs, g: Book, t0: int)
    requires PopPre(adj, s, g, t0) && VertexOk(adj, s, g, t0, Below(adj, s)) && VertexOk(adj, s, g, t0, s.u)
    ensures VertexOk(adj, Pop(adj, s), PopBook(adj, s, g), t0, Below(adj, s))
  {
    var v, b := s.u, Below(adj, s);
    var s', g' := Pop(adj, s), PopBook(adj, s, g);
    PopOnStack(adj, s, g, t0, b);
    PopOnStack(adj, s, g, t0, v);
    assert VisitedOk(adj, s, g, t0, b);
    assert VisitedOk(adj, s, g, t0, v);
    if Inherits(adj, s) {
      assert WhyOk(adj, s', g', b);
    } else {
      match g.why[b]
      case Own =>
      case Back(j) =>
      case Child(c) =>
        PopOnStack(adj, s, g, t0, c);
        assert c != v;
      assert WhyOk(adj, s', g', b);
    }
    assert VisitedOk(adj, s', g', t0, b);
  }

  /** The pop keeps the recorded reason for `l[x]` at every visited location other than the old top and the one below. */
  lemma PopOtherWhy(adj: Adj, s: Dfs, g: Book, t0: int, x: int)
    requires PopPre(adj, s, g, t0) && 0 <= x < |adj| && x != s.u && x != Below(adj, s)
    requires WhyOk(adj, s, g, x)
    ensures WhyOk(adj, Pop(adj, s), PopBook(adj, s, g), x)
  {
    match g.why[x]
    case Own =>
    case Back(j) =>
    case Child(c) =>
      PopOnStack(adj, s, g, t0, c);
  }

  /** The pop keeps `VertexOk` at every location other than the old top and the one below. */
  lemma PopOther(adj: Adj, s: Dfs, g: Book, t0: int, x: int)
    requires PopPre(adj, s, g, t0) && 0 <= x < |adj| && x != s.u && x != Below(adj, s)
    requires VertexOk(adj, s, g, t0, x)
    ensures VertexOk(adj, Pop(adj, s), PopBook(adj, s, g), t0, x)
  {
    PopOnStack(adj, s, g, t0, x);
    if s.visited[x] {
      assert VisitedOk(adj, s, g, t0, x);
      PopOtherWhy(adj, s, g, t0, x);
      assert VisitedOk(adj, Pop(adj, s), PopBook(adj, s, g), t0, x);
    }
  }

  /** The pop keeps `ScanOk` at every read entry: the entry of the location below that led to the old top now counts its low-link. */
  lemma PopScans(adj: Adj, s: Dfs, g: Book, t0: int, t: int, c0: seq<int>, cs: seq<int>, nCD0: int, nCD: int)
    requires Inv(adj, s, g, t0, t, c0, cs, nCD0, nCD) && PopPre(adj, s, g, t0)
    ensures forall x, j :: 0 <= x < |adj| && 0 <= j < |adj[x]| && j < Pop(adj, s).ite[x] ==>
      ScanOk(adj, Pop(adj, s), PopBook(adj, s, g), x, j)
  {
    AtTop(adj, s, g, t0, t, c0, cs, nCD0, nCD);
    var v, b := s.u, Below(adj, s);
    var s', g' := Pop(adj, s), PopBook(adj, s, g);
    assert VertexOk(adj, s, g, t0, v) && VisitedOk(adj, s, g, t0, v);
    forall x, j | 0 <= x < |adj| && 0 <= j < |adj[x]| && j < s'.ite[x]
      ensures ScanOk(adj, s', g', x, j)
    {
      assert ScanOk(adj, s, g, x, j);
      var w := adj[x][j].nb - 1;
      if x == v {
        assert !Pending(adj, s, g, v, j);
      } else if Pending(adj, s, g, x, j) {
        if s.visited[w] {
          StackParent(adj, s, g, t0, t, c0, cs, nCD0, nCD, w);
          PopOnStack(adj, s, g, t0, w);
          if w == v {
            assert x == b;
            assert s'.l[b] <= s.l[v] <= s.d[v];
          } else {
            assert Pending(adj, s', g', x, j);
          }
        }
      }
    }
  }

  /** What becomes of the marking vector in a pop: the parent's entries leading to the old top are marked when it is a bridge. */
  ghost predicate Marked(adj: Adj, s: Dfs, cs: seq<int>, cs': seq<int>)
    requires Shape(adj, s) && 2 <= s.posV && 0 <= Below(adj, s) < |adj|
  {
    && |cs'| == |cs|
    && forall i :: 0 <= i < |cs| ==>
         cs'[i] == if IsBridge(adj, s) && RowHit(adj[Below(adj, s)], s.u, i) then 2 else cs[i]
  }

  /** The pop keeps `VertexOk` at every location. */
  lemma PopVertices(adj: Adj, s: Dfs, g: Book, t0: int, t: int, c0: seq<int>, cs: seq<int>, nCD0: int, nCD: int)
    requires Inv(adj, s, g, t0, t, c0, cs, nCD0, nCD) && PopPre(adj, s, g, t0)
    ensures forall x :: 0 <= x < |adj| ==> VertexOk(adj, Pop(adj, s), PopBook(adj, s, g), t0, x)
  {
    var v, b := s.u, Below(adj, s);
    var s', g' := Pop(adj, s), PopBook(adj, s, g);
    assert VertexOk(adj, s, g, t0, v) && VertexOk(adj, s, g, t0, b);
    forall x | 0 <= x < |adj|
      ensures VertexOk(adj, s', g', t0, x)
    {
      if x == v {
        PopTop(adj, s, g, t0);
      } else if x == b {
        PopBelow(adj, s, g, t0);
      } else {
        assert VertexOk(adj, s, g, t0, x);
        PopOther(adj, s, g, t0, x);
      }
    }
  }

  /** The pop keeps `MarkOk` at every corridor once the corridors from the location below to the old top are marked for a bridge. */
  lemma PopMarks(adj: Adj, s: Dfs, g: Book, t0: int, t: int, c0: seq<int>, cs: seq<int>, nCD0: int, nCD: int, cs': seq<int>)
    requires Inv(adj, s, g, t0, t, c0, cs, nCD0, nCD) && PopPre(adj, s, g, t0) && Marked(adj, s, cs, cs')
    ensures forall i :: 0 <= i < |c0| ==> MarkOk(adj, Pop(adj, s), PopBook(adj, s, g), c0, cs', i)
  {
    var v := s.u;
    var s', g' := Pop(adj, s), PopBook(adj, s, g);
    forall i | 0 <= i < |c0|
      ensures MarkOk(adj, s', g', c0, cs', i)
    {
      assert MarkOk(adj, s, g, c0, cs, i);
      HitAdd(adj, s.p, g.bridges, v, i);
    }
  }

  /** A finished top other than the start can be popped. */
  lemma PopReady(adj: Adj, s: Dfs, g: Book, t0: int, t: int, c0: seq<int>, cs: seq<int>, nCD0: int, nCD: int)
    requires Inv(adj, s, g, t0, t, c0, cs, nCD0, nCD) && s.k == 1 && s.posV != 1 && s.ite[s.u] == |adj[s.u]|
    ensures PopPre(adj, s, g, t0)
  {
    AtTop(adj, s, g, t0, t, c0, cs, nCD0, nCD);
    assert StackOk(adj, s, g, s.posV - 1);
    assert StackOk(adj, s, g, s.posV - 2);
    assert StackOk(adj, s, g, 0);
    assert VertexOk(adj, s, g, t0, s.u) && VertexOk(adj, s, g, t0, Below(adj, s));
  }

  /** Returning from a finished location keeps the invariant, with the bridge counted and marked when the test holds. */
  lemma PopStep(adj: Adj, s: Dfs, g: Book, t0: int, t: int, c0: seq<int>, cs: seq<int>, nCD0: int, nCD: int, cs': seq<int>)
    requires Inv(adj, s, g, t0, t, c0, cs, nCD0, nCD) && s.k == 1 && s.posV != 1 && s.ite[s.u] == |adj[s.u]|
    ensures 2 <= s.posV && 0 <= Below(adj, s) < |adj| && Below(adj, s) != s.u
    ensures IdsWithin(adj, |c0|) ==> forall j :: 0 <= j < |adj[Below(adj, s)]| ==> 1 <= adj[Below(adj, s)][j].id <= |c0|
    ensures Marked(adj, s, cs, cs') ==>
      Inv(adj, Pop(adj, s), PopBook(adj, s, g), t0, t, c0, cs', nCD0, if IsBridge(adj, s) then nCD + 1 else nCD)
  {
    PopReady(adj, s, g, t0, t, c0, cs, nCD0, nCD);
    if Marked(adj, s, cs, cs') {
      var s', g' := Pop(adj, s), PopBook(adj, s, g);
      PopVertices(adj, s, g, t0, t, c0, cs, nCD0, nCD);
      PopScans(adj, s, g, t0, t, c0, cs, nCD0, nCD);
      forall i | 0 <= i < |g'.order|
        ensures OrderOk(adj, s', g', t0, i)
      {
        assert OrderOk(adj, s, g, t0, i);
      }
      forall i | 0 <= i < s'.posV
        ensures StackOk(adj, s', g', i)
      {
        assert StackOk(adj, s, g, i);
      }
      PopMarks(adj, s, g, t0, t, c0, cs, nCD0, nCD, cs');
    }
  }

  // ----- the end of the search -----

  /** When the start is the only location on the stack and its list is read to the end, the final arrays satisfy the specification. */
  lemma FinishStep(adj: Adj, s: Dfs, g: Book, t0: int, t: int, c0: seq<int>, cs: seq<int>, nCD0: int, nCD: int)
    requires Inv(adj, s, g, t0, t, c0, cs, nCD0, nCD) && s.k == 1 && s.posV == 1 && s.ite[s.u] == |adj[s.u]|
    ensures Shaped(adj, s.visited, s.d, s.l, s.p)
    ensures forall x :: 0 <= x < |adj| ==> (s.visited[x] <==> Connected(adj, x))
    ensures t == t0 + |g.order|
    ensures forall i :: 0 <= i < |g.order| ==> InOrder(adj, s.visited, g.order, s.d, t0, i)
    ensures forall x :: 0 <= x < |adj| ==> TreeOk(adj, s.visited, g.order, s.d, s.p, t0, x)
    ensures forall x :: 0 <= x < |adj| && s.visited[x] ==> LowLink(adj, s.visited, s.d, s.l, s.p, x)
    ensures forall x :: 0 <= x < |adj| && s.visited[x] && x != 0 ==> 0 <= s.p[x] < |adj|
    ensures g.bridges == BridgeSet(adj, s.visited, s.d, s.l, s.p)
    ensures nCD == nCD0 + |BridgeSet(adj, s.visited, s.d, s.l, s.p)|
    ensures |cs| == |c0|
    ensures forall i :: 0 <= i < |c0| ==>
      cs[i] == if Hit(adj, s.p, BridgeSet(adj, s.visited, s.d, s.l, s.p), i) then 2 else c0[i]
  {
    FinishReady(adj, s, g, t0, t, c0, cs, nCD0, nCD);
    FinishClosed(adj, s, g, t0, t, c0, cs, nCD0, nCD);
    FinishReach(adj, s, g, t0, t, c0, cs, nCD0, nCD);
    FinishTree(adj, s, g, t0, t, c0, cs, nCD0, nCD);
    forall x | 0 <= x < |adj| && s.visited[x]
      ensures LowLink(adj, s.visited, s.d, s.l, s.p, x)
    {
      FinishLow(adj, s, g, t0, t, c0, cs, nCD0, nCD, x);
    }
    FinishBridges(adj, s, g, t0, t, c0, cs, nCD0, nCD);
  }

  /** At the end only the start is on the stack and every visited location's list has been read to the end. */
  lemma FinishReady(adj: Adj, s: Dfs, g: Book, t0: int, t: int, c0: seq<int>, cs: seq<int>, nCD0: int, nCD: int)
    requires Inv(adj, s, g, t0, t, c0, cs, nCD0, nCD) && s.k == 1 && s.posV == 1 && s.ite[s.u] == |adj[s.u]|
    ensures s.visited[0]
    ensures forall x :: 0 <= x < |adj| && x != 0 ==> !OnStack(adj, s, g, x)
    ensures forall x :: 0 <= x < |adj| && s.visited[x] ==> s.ite[x] == |adj[x]|
  {
    AtTop(adj, s, g, t0, t, c0, cs, nCD0, nCD);
    assert StackOk(adj, s, g, 0);
    assert s.u == 0;
    forall x | 0 <= x < |adj| && x != 0
      ensures !OnStack(adj, s, g, x)
    {
    }
    forall x | 0 <= x < |adj| && s.visited[x]
      ensures s.ite[x] == |adj[x]|
    {
      assert VertexOk(adj, s, g, t0, x) && VisitedOk(adj, s, g, t0, x);
    }
  }

  /** At the end exactly the locations a walk from the start reaches are visited. */
  lemma FinishReach(adj: Adj, s: Dfs, g: Book, t0: int, t: int, c0: seq<int>, cs: seq<int>, nCD0: int, nCD: int)
    requires Inv(adj, s, g, t0, t, c0, cs, nCD0, nCD) && Closed(adj, s.visited) && s.visited[0]
    ensures forall x :: 0 <= x < |adj| ==> (s.visited[x] <==> Connected(adj, x))
  {
    forall x | 0 <= x < |adj|
      ensures s.visited[x] <==> Connected(adj, x)
    {
      assert VertexOk(adj, s, g, t0, x);
      if s.visited[x] {
        assert VisitedOk(adj, s, g, t0, x);
        assert IsWalk(adj, 0, g.walks[x], x);
      }
      if Connected(adj, x) {
        var w :| IsWalk(adj, 0, w, x);
        ClosedWalk(adj, s.visited, 0, w, x);
      }
    }
  }

  /** At the end the discovery order and the tree of parents are as the specification states. */
  lemma FinishTree(adj: Adj, s: Dfs, g: Book, t0: int, t: int, c0: seq<int>, cs: seq<int>, nCD0: int, nCD: int)
    requires Inv(adj, s, g, t0, t, c0, cs, nCD0, nCD)
    ensures Shaped(adj, s.visited, s.d, s.l, s.p)
    ensures forall i :: 0 <= i < |g.order| ==> InOrder(adj, s.visited, g.order, s.d, t0, i)
    ensures forall x :: 0 <= x < |adj| ==> TreeOk(adj, s.visited, g.order, s.d, s.p, t0, x)
    ensures forall x :: 0 <= x < |adj| && s.visited[x] && x != 0 ==> 0 <= s.p[x] < |adj|
  {
    forall i | 0 <= i < |g.order|
      ensures InOrder(adj, s.visited, g.order, s.d, t0, i)
    {
      assert OrderOk(adj, s, g, t0, i);
    }
    forall x | 0 <= x < |adj|
      ensures TreeOk(adj, s.visited, g.order, s.d, s.p, t0, x)
      ensures s.visited[x] && x != 0 ==> 0 <= s.p[x] < |adj|
    {
      assert VertexOk(adj, s, g, t0, x);
      if s.visited[x] {
        assert VisitedOk(adj, s, g, t0, x);
        if x != 0 {
          assert RowHas(adj[s.p[x]], x);
        }
      }
    }
  }

  /** At the end the recognised bridges are the specification's bridge set, counted and marked. */
  lemma FinishBridges(adj: Adj, s: Dfs, g: Book, t0: int, t: int, c0: seq<int>, cs: seq<int>, nCD0: int, nCD: int)
    requires Inv(adj, s, g, t0, t, c0, cs, nCD0, nCD)
    requires forall x :: 0 <= x < |adj| && x != 0 ==> !OnStack(adj, s, g, x)
    ensures Shaped(adj, s.visited, s.d, s.l, s.p)
    ensures forall x :: 0 <= x < |adj| && s.visited[x] && x != 0 ==> 0 <= s.p[x] < |adj|
    ensures g.bridges == BridgeSet(adj, s.visited, s.d, s.l, s.p)
    ensures nCD == nCD0 + |BridgeSet(adj, s.visited, s.d, s.l, s.p)|
    ensures forall i :: 0 <= i < |c0| ==>
      cs[i] == if Hit(adj, s.p, BridgeSet(adj, s.visited, s.d, s.l, s.p), i) then 2 else c0[i]
  {
    forall x | 0 <= x < |adj| && s.visited[x] && x != 0
      ensures 0 <= s.p[x] < |adj|
    {
      assert VertexOk(adj, s, g, t0, x) && VisitedOk(adj, s, g, t0, x);
    }
    var B := BridgeSet(adj, s.visited, s.d, s.l, s.p);
    forall x
      ensures x in g.bridges <==> x in B
    {
      if 0 <= x < |adj| {
        assert VertexOk(adj, s, g, t0, x);
      }
    }
    assert g.bridges == B;
    forall i | 0 <= i < |c0|
      ensures cs[i] == if Hit(adj, s.p, B, i) then 2 else c0[i]
    {
      assert MarkOk(adj, s, g, c0, cs, i);
    }
  }

  /** At the end every entry of a visited location leads to a visited location. */
  lemma FinishClosed(adj: Adj, s: Dfs, g: Book, t0: int, t: int, c0: seq<int>, cs: seq<int>, nCD0: int, nCD: int)
    requires Inv(adj, s, g, t0, t, c0, cs, nCD0, nCD) && s.k == 1
    requires forall x :: 0 <= x < |adj| && s.visited[x] ==> s.ite[x] == |adj[x]|
    ensures Closed(adj, s.visited)
  {
    forall x, j | 0 <= x < |adj| && s.visited[x] && 0 <= j < |adj[x]|
      ensures s.visited[adj[x][j].nb - 1]
    {
      assert ScanOk(adj, s, g, x, j);
    }
  }

  /** At the end the low-link of every visited location satisfies the recurrence. */
  lemma FinishLow(adj: Adj, s: Dfs, g: Book, t0: int, t: int, c0: seq<int>, cs: seq<int>, nCD0: int, nCD: int, x: int)
    requires Inv(adj, s, g, t0, t, c0, cs, nCD0, nCD) && s.k == 1 && s.posV == 1
    requires forall y :: 0 <= y < |adj| && s.visited[y] ==> s.ite[y] == |adj[y]|
    requires forall y :: 0 <= y < |adj| && y != 0 ==> !OnStack(adj, s, g, y)
    requires 0 <= x < |adj| && s.visited[x]
    ensures Shaped(adj, s.visited, s.d, s.l, s.p)
    ensures LowLink(adj, s.visited, s.d, s.l, s.p, x)
  {
    assert VertexOk(adj, s, g, t0, x) && VisitedOk(adj, s, g, t0, x);
    forall j | 0 <= j < |adj[x]| && adj[x][j].nb - 1 != s.p[x]
      ensures s.l[x] <= s.d[adj[x][j].nb - 1]
    {
      assert ScanOk(adj, s, g, x, j);
      var w := adj[x][j].nb - 1;
      assert !Pending(adj, s, g, x, j) by {
        if w != 0 {
          assert !OnStack(adj, s, g, w);
        }
      }
    }
    forall c | IsChild(adj, s.visited, s.p, x, c)
      ensures s.l[x] <= s.l[c]
    {
      assert VertexOk(adj, s, g, t0, c) && VisitedOk(adj, s, g, t0, c);
      assert !OnStack(adj, s, g, c);
    }
    match g.why[x]
    case Own =>
    case Back(j) =>
    case Child(c) =>
      assert IsChild(adj, s.visited, s.p, x, c);
  }
}
