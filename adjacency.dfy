/** The adjacency-list map of a graph as a value: each key maps to the
    ordered list of the vertices it has an edge to. */
module Adjacency {

  /** Every vertex that occurs in some list is itself a key. */
  predicate Closed<T(==)>(g: map<T, seq<T>>)
  {
    forall k, x :: k in g && x in g[k] ==> x in g
  }

  /** `w` follows edges: each vertex but the last has the next one in its list. */
  predicate IsWalk<T(==)>(g: map<T, seq<T>>, w: seq<T>)
  {
    |w| > 0 && forall i :: 0 <= i < |w| - 1 ==> w[i] in g && w[i + 1] in g[w[i]]
  }

  /** The map after `add` has been applied to each of `vs`, left to right:
      every one of them is a key whose list is just itself. */
  function AddedAll<T(==)>(g: map<T, seq<T>>, vs: seq<T>): (r: map<T, seq<T>>)
    ensures r.Keys == g.Keys + set v | v in vs
    ensures forall k :: k in vs ==> r[k] == [k]
    ensures forall k :: k in g && k !in vs ==> r[k] == g[k]
    decreases |vs|
  {
    if vs == [] then g
    else
      var last := vs[|vs| - 1];
      AddedAll(g, vs[..|vs| - 1])[last := [last]]
  }
}
