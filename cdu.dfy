/**
 * Models `encontraCDU`: an iterative depth-first search from location 1 over
 * the shortest-path graph that computes discovery times `d` and low-links `l`,
 * keeps the path from the start in the stack `caminho`, and on returning from a
 * location `v` to its parent `u` with `l[v] > d[u]` marks every corridor of
 * `u`'s list that leads to `v` with 2 and counts one bridge. The procedure's
 * `static` clock `t` is an in/out parameter here.
 */
module Cdu {
  import opened Estadio
  import opened Paths
  import opened CduState
  import opened CduSpec
  import opened CduInvariant
  import opened CduTree

  /** A prefix one entry longer hits a corridor exactly when the shorter one does or the new entry does. */
  lemma RowHitSnoc(row: seq<Entry>, v: int, j: int, i: int)
    requires 0 <= j < |row|
    ensures RowHit(row[..j + 1], v, i) <==> RowHit(row[..j], v, i) || (row[j].nb == v + 1 && row[j].id == i + 1)
  {
    if RowHit(row[..j + 1], v, i) {
      var k :| 0 <= k < j + 1 && row[..j + 1][k].nb == v + 1 && row[..j + 1][k].id == i + 1;
      if k < j {
        assert row[..j][k] == row[k];
      }
    }
    if RowHit(row[..j], v, i) {
      var k :| 0 <= k < j && row[..j][k].nb == v + 1 && row[..j][k].id == i + 1;
      assert row[..j + 1][k] == row[k];
    }
    if row[j].nb == v + 1 && row[j].id == i + 1 {
      assert row[..j + 1][j] == row[j];
    }
  }

  /** The marking loop of `encontraCDU`: the corridor of every entry of `row` that leads to `v` is marked 2, and nothing else changes. */
  method MarkBridge(row: seq<Entry>, v: int, c: array<int>)
    requires forall j :: 0 <= j < |row| ==> 1 <= row[j].id <= c.Length
    modifies c
    ensures forall i :: 0 <= i < c.Length ==> c[i] == if RowHit(row, v, i) then 2 else old(c[i])
  {
    for j := 0 to |row|
      invariant forall i :: 0 <= i < c.Length ==> c[i] == if RowHit(row[..j], v, i) then 2 else old(c[i])
    {
      if row[j].nb == v + 1 {
        c[row[j].id - 1] := 2;
      }
      forall i | 0 <= i < c.Length
        ensures RowHit(row[..j + 1], v, i) <==> RowHit(row[..j], v, i) || (row[j].nb == v + 1 && row[j].id == i + 1)
      {
        RowHitSnoc(row, v, j, i);
      }
    }
    assert row[..|row|] == row;
  }

  /**
   * The first visit of `u` in `encontraCDU`: push it on the stack, mark it
   * visited and give it the next discovery time as discovery time and low-link.
   */
  method Enter(e: Estadio, ghost adj: Adj, visited: seq<bool>, caminho: seq<int>, d: seq<int>, l: seq<int>, ghost p: seq<int>,
               ghost ite: seq<int>, posV: int, u: int, t: int,
               ghost g: Book, ghost t0: int, ghost c0: seq<int>, ghost cs: seq<int>, ghost nCD0: int, ghost nCD: int)
    returns (visited': seq<bool>, caminho': seq<int>, d': seq<int>, l': seq<int>, posV': int, t': int, ghost g': Book)
    requires adj == e.listaAdjUV[..]
    requires Inv(adj, Dfs(visited, caminho, d, l, p, ite, posV, u, 0), g, t0, t, c0, cs, nCD0, nCD)
    requires TreeInv(adj, Dfs(visited, caminho, d, l, p, ite, posV, u, 0))
    ensures Inv(adj, Dfs(visited', caminho', d', l', p, ite, posV', u, 1), g', t0, t', c0, cs, nCD0, nCD)
    ensures TreeInv(adj, Dfs(visited', caminho', d', l', p, ite, posV', u, 1))
    ensures |g'.unv| == |g.unv| - 1 && posV' == posV + 1
  {
    ghost var s0 := Dfs(visited, caminho, d, l, p, ite, posV, u, 0);
    VisitStep(adj, s0, g, t0, t, c0, cs, nCD0, nCD);
    TreeVisit(adj, s0, g, t0, t, c0, cs, nCD0, nCD);
    g' := VisitBook(adj, s0, g);
    caminho' := caminho[posV := u];
    posV' := posV + 1;
    visited' := visited[u := true];
    t' := t + 1;
    d' := d[u := t'];
    l' := l[u := t'];
    assert Dfs(visited', caminho', d', l', p, ite, posV', u, 1) == Visit(adj, s0, t);
  }

  /**
   * The inner loop of `encontraCDU`: reads `u`'s list from its cursor on. An
   * entry leading to a visited location other than the parent lowers `l[u]` to
   * at most that location's discovery time; the first entry leading to an
   * unvisited location makes `u` its parent and hands it back with `k == 0`. When
   * the list is read to the end, `u` comes back unchanged with `k == 1`.
   */
  method ReadList(e: Estadio, ghost adj: Adj, visited: seq<bool>, d: seq<int>, l: seq<int>, p: seq<int>, ite: seq<int>, u: int,
                  ghost caminho: seq<int>, ghost posV: int, ghost g: Book,
                  ghost t0: int, ghost t: int, ghost c0: seq<int>, ghost cs: seq<int>, ghost nCD0: int, ghost nCD: int)
    returns (l': seq<int>, p': seq<int>, ite': seq<int>, u': int, k': int, ghost g': Book)
    requires adj == e.listaAdjUV[..]
    requires Inv(adj, Dfs(visited, caminho, d, l, p, ite, posV, u, 1), g, t0, t, c0, cs, nCD0, nCD)
    requires TreeInv(adj, Dfs(visited, caminho, d, l, p, ite, posV, u, 1))
    ensures Inv(adj, Dfs(visited, caminho, d, l', p', ite', posV, u', k'), g', t0, t, c0, cs, nCD0, nCD)
    ensures TreeInv(adj, Dfs(visited, caminho, d, l', p', ite', posV, u', k'))
    ensures g'.unv == g.unv
    ensures k' == 1 ==> u' == u && ite'[u] == |adj[u]|
  {
    l', p', ite', u', k', g' := l, p, ite, u, 1, g;
    Cursor(adj, Dfs(visited, caminho, d, l', p', ite', posV, u', k'), g', t0, t, c0, cs, nCD0, nCD);
    while ite'[u] < |e.listaAdjUV[u]|
      invariant Inv(adj, Dfs(visited, caminho, d, l', p', ite', posV, u', k'), g', t0, t, c0, cs, nCD0, nCD)
      invariant TreeInv(adj, Dfs(visited, caminho, d, l', p', ite', posV, u', k'))
      invariant u' == u && k' == 1 && g'.unv == g.unv && 0 <= ite'[u] <= |adj[u]|
      decreases |adj[u]| - ite'[u]
    {
      ghost var s0 := Dfs(visited, caminho, d, l', p', ite', posV, u', k');
      var v := e.listaAdjUV[u][ite'[u]].nb - 1;
      ite' := ite'[u := ite'[u] + 1];
      if !visited[v] {
        DescendStep(adj, s0, g', t0, t, c0, cs, nCD0, nCD);
        TreeDescend(adj, s0, g', t0, t, c0, cs, nCD0, nCD);
        g' := DescendBook(adj, s0, g');
        p' := p'[v := u];
        u' := v;
        k' := 0;
        assert Dfs(visited, caminho, d, l', p', ite', posV, u', k') == Descend(adj, s0);
        return;
      } else if v != p'[u] {
        l' := l'[u := Min(l'[u], d[v])];
      }
      ReadStep(adj, s0, g', t0, t, c0, cs, nCD0, nCD);
      TreeRead(adj, s0, g', t0, t, c0, cs, nCD0, nCD);
      g' := ReadBook(adj, s0, g');
      assert Dfs(visited, caminho, d, l', p', ite', posV, u', k') == Read(adj, s0);
      Cursor(adj, Dfs(visited, caminho, d, l', p', ite', posV, u', k'), g', t0, t, c0, cs, nCD0, nCD);
    }
  }

  /**
   * The return step of `encontraCDU` once the list of the top `u` is read to
   * the end: pop `u`, go to the location below, let it take the smaller
   * low-link, and when `l[u]` exceeds that location's discovery time mark the
   * corridors from it to `u` and count one bridge.
   */
  method Retreat(e: Estadio, ghost adj: Adj, c: array<int>, visited: seq<bool>, caminho: seq<int>, d: seq<int>, l: seq<int>,
                 p: seq<int>, ite: seq<int>, posV: int, u: int, nCD: int,
                 ghost g: Book, ghost t0: int, ghost t: int, ghost c0: seq<int>, ghost nCD0: int)
    returns (l': seq<int>, posV': int, u': int, nCD': int, ghost g': Book)
    requires adj == e.listaAdjUV[..]
    requires Inv(adj, Dfs(visited, caminho, d, l, p, ite, posV, u, 1), g, t0, t, c0, c[..], nCD0, nCD)
    requires TreeInv(adj, Dfs(visited, caminho, d, l, p, ite, posV, u, 1))
    requires posV != 1 && ite[u] == |adj[u]| && IdsWithin(adj, |c0|)
    modifies c
    ensures Inv(adj, Dfs(visited, caminho, d, l', p, ite, posV', u', 1), g', t0, t, c0, c[..], nCD0, nCD')
    ensures TreeInv(adj, Dfs(visited, caminho, d, l', p, ite, posV', u', 1))
    ensures g'.unv == g.unv && posV' == posV - 1
  {
    ghost var s0 := Dfs(visited, caminho, d, l, p, ite, posV, u, 1);
    ghost var cs := c[..];
    PopStep(adj, s0, g, t0, t, c0, cs, nCD0, nCD, cs);
    TreePop(adj, s0);
    var v := u;
    posV' := posV - 1;
    u' := caminho[posV' - 1];
    l' := l[u' := Min(l[u'], l[v])];
    nCD' := nCD;
    assert IsBridge(adj, s0) <==> l'[v] > d[u'];
    if l'[v] > d[u'] {
      MarkBridge(e.listaAdjUV[u'], v, c);
      nCD' := nCD' + 1;
    }
    PopStep(adj, s0, g, t0, t, c0, cs, nCD0, nCD, c[..]);
    g' := PopBook(adj, s0, g);
    assert Dfs(visited, caminho, d, l', p, ite, posV', u', 1) == Pop(adj, s0);
  }

  /**
   * The body of `encontraCDU` up to its `return`: initialise the work arrays,
   * then visit, read, descend and return until the start is the only location
   * on the stack and its list is read to the end. `s` and `g` are the final
   * locals and bookkeeping.
   */
  method Explore(e: Estadio, ghost adj: Adj, nCD: int, c: array<int>, t: int)
    returns (nCD': int, t': int, ghost s: Dfs, ghost g: Book)
    requires e.Valid() && 1 <= e.numLocais && adj == e.listaAdjUV[..] && InRange(adj)
    requires IdsWithin(adj, c.Length)
    modifies c
    ensures Inv(adj, s, g, t, t', old(c[..]), c[..], nCD, nCD') && TreeInv(adj, s)
    ensures s.k == 1 && s.posV == 1 && s.ite[s.u] == |adj[s.u]|
  {
    var nL := e.numLocais;
    var visited := seq(nL, _ => false);
    var caminho := seq(nL, _ => 0);
    var d := seq(nL, _ => 0);
    var l := seq(nL, _ => 0);
    var p := seq(nL, _ => 0);
    var ite := seq(nL, _ => 0);
    var posV, u, k := 0, 0, 0;
    nCD', t' := nCD, t;
    ghost var c0 := c[..];
    g := StartBook(nL);
    StartInv(adj, t, c0, nCD);
    TreeStart(adj);
    assert Dfs(visited, caminho, d, l, p, ite, posV, u, k) == Start(nL);
    while true
      invariant Inv(adj, Dfs(visited, caminho, d, l, p, ite, posV, u, k), g, t, t', c0, c[..], nCD, nCD')
      invariant TreeInv(adj, Dfs(visited, caminho, d, l, p, ite, posV, u, k))
      decreases 2 * |g.unv| - (if k == 0 then 1 else 0) + posV
    {
      if k == 0 {
        visited, caminho, d, l, posV, t', g := Enter(e, adj, visited, caminho, d, l, p, ite, posV, u, t', g, t, c0, c[..], nCD, nCD');
        k := 1;
      }
      l, p, ite, u, k, g := ReadList(e, adj, visited, d, l, p, ite, u, caminho, posV, g, t, t', c0, c[..], nCD, nCD');
      if k == 1 && posV == 1 {
        s := Dfs(visited, caminho, d, l, p, ite, posV, u, k);
        return;
      } else if k == 1 {
        l, posV, u, nCD', g := Retreat(e, adj, c, visited, caminho, d, l, p, ite, posV, u, nCD', g, t, t', c0, nCD);
      }
    }
  }

  /**
   * Models `encontraCDU` on the view `e.listaAdjUV`. On return, `reached`,
   * `disc`, `low` and `parent` are the final contents of `visited`, `d`, `l` and
   * `p`, and `order` lists the locations in discovery order: the search reaches
   * exactly the locations connected to the start, numbers them `t + 1, t + 2, ...`
   * in that order, computes the low-link recurrence, has the depth-first
   * property, counts the tree edges whose child's low-link exceeds the parent's
   * discovery time, and marks 2 exactly the corridors of the parent's list
   * leading to such a child.
   */
  method EncontraCDU(e: Estadio, nCD: int, c: array<int>, t: int)
    returns (nCD': int, t': int, ghost reached: seq<bool>, ghost order: seq<int>, ghost disc: seq<int>,
             ghost low: seq<int>, ghost parent: seq<int>)
    requires e.Valid() && 1 <= e.numLocais && InRange(e.listaAdjUV[..])
    requires IdsWithin(e.listaAdjUV[..], c.Length)
    modifies c
    ensures Searched(e.listaAdjUV[..], t, reached, order, disc, low, parent)
    ensures t' == t + |order|
    ensures nCD' == nCD + |BridgeSet(e.listaAdjUV[..], reached, disc, low, parent)|
    ensures forall i :: 0 <= i < c.Length ==>
      c[i] == if Hit(e.listaAdjUV[..], parent, BridgeSet(e.listaAdjUV[..], reached, disc, low, parent), i) then 2
              else old(c[i])
  {
    ghost var adj := e.listaAdjUV[..];
    ghost var c0 := c[..];
    ghost var s, g;
    nCD', t', s, g := Explore(e, adj, nCD, c, t);
    assert e.listaAdjUV[..] == adj;
    SearchDone(adj, s, g, t, t', c0, c[..], nCD, nCD');
    reached, order, disc, low, parent := s.visited, g.order, s.d, s.l, s.p;
  }
}
