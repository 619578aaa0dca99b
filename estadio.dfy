/**
 * The graph store: a venue ("estadio") with `numLocais` locations, each holding
 * two adjacency lists of corridor entries, a forward view (`listaAdjUV`) and a
 * reverse view (`listaAdjVU`). Models estadio.h / estadio.cpp.
 */
module Estadio {

  /** One adjacency entry `(corridorId, neighbour, weight)`; the neighbour is 1-based. */
  datatype Entry = Entry(id: int, nb: int, w: int)

  /** Largest value of a C++ `int` (weights, vertex counts and ids are `int`s). */
  const INT_MAX: int := 0x7fff_ffff

  class Estadio {
    var numLocais: int
    var numCorredores: int
    var listaAdjUV: array<seq<Entry>>
    var listaAdjVU: array<seq<Entry>>

    /** Both views hold one list per location and are distinct arrays. */
    ghost predicate Valid()
      reads this
    {
      && 0 <= numLocais
      && listaAdjUV.Length == numLocais
      && listaAdjVU.Length == numLocais
      && listaAdjUV != listaAdjVU
    }

    /**
     * Allocates `numLocais` empty lists in each view. The corridor count is left
     * uninitialised, as in the source: nothing is promised about it.
     */
    constructor (numLocais: int)
      requires 0 <= numLocais
      ensures Valid()
      ensures this.numLocais == numLocais
      ensures fresh(listaAdjUV) && fresh(listaAdjVU)
      ensures forall i :: 0 <= i < numLocais ==> listaAdjUV[i] == [] && listaAdjVU[i] == []
    {
      this.numLocais := numLocais;
      listaAdjUV := new seq<Entry>[numLocais](_ => []);
      listaAdjVU := new seq<Entry>[numLocais](_ => []);
    }

    /** Appends `(cId, v, peso)` to the forward list of `u`; nothing else changes. */
    method AddCorredorUV(cId: int, u: int, v: int, peso: int)
      requires Valid()
      requires 1 <= u <= numLocais
      modifies listaAdjUV
      ensures Valid()
      ensures listaAdjUV[..] == old(listaAdjUV[..])[u - 1 := old(listaAdjUV[u - 1]) + [Entry(cId, v, peso)]]
    {
      listaAdjUV[u - 1] := listaAdjUV[u - 1] + [Entry(cId, v, peso)];
    }

    /** Appends `(cId, u, peso)` to the reverse list of `v`; nothing else changes. */
    method AddCorredorVU(cId: int, u: int, v: int, peso: int)
      requires Valid()
      requires 1 <= v <= numLocais
      modifies listaAdjVU
      ensures Valid()
      ensures listaAdjVU[..] == old(listaAdjVU[..])[v - 1 := old(listaAdjVU[v - 1]) + [Entry(cId, u, peso)]]
    {
      listaAdjVU[v - 1] := listaAdjVU[v - 1] + [Entry(cId, u, peso)];
    }

    /** Sets the corridor count; no list and not the location count changes. */
    method SetNC(n: int)
      requires Valid()
      modifies this`numCorredores
      ensures Valid()
      ensures numCorredores == n
    {
      numCorredores := n;
    }
  }
}
