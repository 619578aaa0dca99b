/**
 * The corridor loop of the loader `criarGrafo`: corridor `i` (numbered from 1 in
 * input order) read as `u v w` is appended to the forward list of `u` and to the
 * reverse list of `v`. The triples already read from the input are a parameter.
 */
module Loader {
  import opened Estadio
  import opened Paths

  /** One input line `u v w`: a corridor from location `u` to location `v` of weight `w`. */
  datatype Corridor = Corridor(u: int, v: int, w: int)

  /** Both ends of every corridor name one of the `n` locations. */
  ghost predicate Endpoints(n: int, cs: seq<Corridor>)
  {
    forall i :: 0 <= i < |cs| ==> 1 <= cs[i].u <= n && 1 <= cs[i].v <= n
  }

  /** The forward view after loading `cs` into `n` empty lists. */
  ghost function Forward(n: nat, cs: seq<Corridor>): (adj: Adj)
    requires Endpoints(n, cs)
    ensures |adj| == n
    decreases |cs|
  {
    if cs == [] then seq(n, _ => [])
    else
      var c, adj := cs[|cs| - 1], Forward(n, cs[..|cs| - 1]);
      adj[c.u - 1 := adj[c.u - 1] + [Entry(|cs|, c.v, c.w)]]
  }

  /** The reverse view after loading `cs` into `n` empty lists. */
  ghost function Backward(n: nat, cs: seq<Corridor>): (adj: Adj)
    requires Endpoints(n, cs)
    ensures |adj| == n
    decreases |cs|
  {
    if cs == [] then seq(n, _ => [])
    else
      var c, adj := cs[|cs| - 1], Backward(n, cs[..|cs| - 1]);
      adj[c.v - 1 := adj[c.v - 1] + [Entry(|cs|, c.u, c.w)]]
  }

  /** The forward list of location `x + 1` holds `(i, v, w)` exactly when corridor `i` is `x + 1 -> v` of weight `w`. */
  lemma {:induction false} ForwardMembers(n: nat, cs: seq<Corridor>, x: int, e: Entry)
    requires Endpoints(n, cs) && 0 <= x < n
    ensures e in Forward(n, cs)[x] <==> 1 <= e.id <= |cs| && cs[e.id - 1] == Corridor(x + 1, e.nb, e.w)
    decreases |cs|
  {
    if cs != [] {
      var pre := cs[..|cs| - 1];
      ForwardMembers(n, pre, x, e);
      assert forall i :: 0 <= i < |pre| ==> pre[i] == cs[i];
    }
  }

  /** The reverse list of location `x + 1` holds `(i, u, w)` exactly when corridor `i` is `u -> x + 1` of weight `w`. */
  lemma {:induction false} BackwardMembers(n: nat, cs: seq<Corridor>, x: int, e: Entry)
    requires Endpoints(n, cs) && 0 <= x < n
    ensures e in Backward(n, cs)[x] <==> 1 <= e.id <= |cs| && cs[e.id - 1] == Corridor(e.nb, x + 1, e.w)
    decreases |cs|
  {
    if cs != [] {
      var pre := cs[..|cs| - 1];
      BackwardMembers(n, pre, x, e);
      assert forall i :: 0 <= i < |pre| ==> pre[i] == cs[i];
    }
  }

  /** After loading, `(i, v, w)` is in the forward list of `u` exactly when `(i, u, w)` is in the reverse list of `v`. */
  lemma ViewsMirror(n: nat, cs: seq<Corridor>, i: int, u: int, v: int, w: int)
    requires Endpoints(n, cs) && 1 <= u <= n && 1 <= v <= n
    ensures Entry(i, v, w) in Forward(n, cs)[u - 1] <==> Entry(i, u, w) in Backward(n, cs)[v - 1]
  {
    ForwardMembers(n, cs, u - 1, Entry(i, v, w));
    BackwardMembers(n, cs, v - 1, Entry(i, u, w));
  }

  /**
   * The loaded views are transposes of each other, their ids are the corridor
   * numbers, and their weights are those read.
   */
  lemma LoadedViews(n: nat, cs: seq<Corridor>)
    requires Endpoints(n, cs)
    ensures Transposed(Forward(n, cs), Backward(n, cs))
    ensures forall x, k :: 0 <= x < n && 0 <= k < |Forward(n, cs)[x]| ==>
      1 <= Forward(n, cs)[x][k].id <= |cs| && Forward(n, cs)[x][k].w == cs[Forward(n, cs)[x][k].id - 1].w
    ensures (forall i :: 0 <= i < |cs| ==> 0 <= cs[i].w <= INT_MAX) ==>
      WeightsOk(Forward(n, cs)) && WeightsOk(Backward(n, cs))
  {
    var uv: Adj := Forward(n, cs);
    var vu: Adj := Backward(n, cs);
    forall x, k | 0 <= x < n && 0 <= k < |uv[x]|
      ensures 1 <= uv[x][k].nb <= n && 1 <= uv[x][k].id <= |cs| && cs[uv[x][k].id - 1] == Corridor(x + 1, uv[x][k].nb, uv[x][k].w)
    {
      ForwardMembers(n, cs, x, uv[x][k]);
    }
    forall x, k | 0 <= x < n && 0 <= k < |vu[x]|
      ensures 1 <= vu[x][k].nb <= n && 1 <= vu[x][k].id <= |cs| && cs[vu[x][k].id - 1] == Corridor(vu[x][k].nb, x + 1, vu[x][k].w)
    {
      BackwardMembers(n, cs, x, vu[x][k]);
    }
    forall x, k | 0 <= x < n && 0 <= k < |uv[x]|
      ensures Mirrored(uv, vu, x, k)
    {
      var e := uv[x][k];
      BackwardMembers(n, cs, e.nb - 1, Entry(e.id, x + 1, e.w));
    }
    forall x, k | 0 <= x < n && 0 <= k < |vu[x]|
      ensures Mirrored(vu, uv, x, k)
    {
      var e := vu[x][k];
      ForwardMembers(n, cs, e.nb - 1, Entry(e.id, x + 1, e.w));
    }
  }

  /**
   * Models the loop of `criarGrafo`: a venue of `numLocais` locations whose
   * corridor count is the number of corridors, loaded one corridor at a time
   * through `addCorredorUV` then `addCorredorVU`.
   */
  method Load(numLocais: int, corredores: seq<Corridor>) returns (estadio: Estadio)
    requires 0 <= numLocais && Endpoints(numLocais, corredores)
    ensures fresh(estadio) && fresh(estadio.listaAdjUV) && fresh(estadio.listaAdjVU)
    ensures estadio.Valid() && estadio.numLocais == numLocais && estadio.numCorredores == |corredores|
    ensures estadio.listaAdjUV[..] == Forward(numLocais, corredores)
    ensures estadio.listaAdjVU[..] == Backward(numLocais, corredores)
  {
    estadio := new Estadio(numLocais);
    estadio.SetNC(|corredores|);
    assert estadio.listaAdjUV[..] == Forward(numLocais, corredores[..0]);
    assert estadio.listaAdjVU[..] == Backward(numLocais, corredores[..0]);
    for i := 1 to |corredores| + 1
      invariant fresh(estadio) && fresh(estadio.listaAdjUV) && fresh(estadio.listaAdjVU)
      invariant estadio.Valid() && estadio.numLocais == numLocais && estadio.numCorredores == |corredores|
      invariant estadio.listaAdjUV[..] == Forward(numLocais, corredores[..i - 1])
      invariant estadio.listaAdjVU[..] == Backward(numLocais, corredores[..i - 1])
    {
      var c := corredores[i - 1];
      estadio.AddCorredorUV(i, c.u, c.v, c.w);
      estadio.AddCorredorVU(i, c.u, c.v, c.w);
      assert corredores[..i][..i - 1] == corredores[..i - 1];
    }
    assert corredores[..|corredores|] == corredores;
  }
}
