/** The graph: a map from each vertex to the ordered list of vertices it has
    an edge to, together with the distance and parent scratch labels that the
    breadth-first search leaves behind.

    Vertices are identified by their payloads, which is what `equals` and
    the map lookups compare. The labels are kept as maps keyed by vertex:
    a vertex absent from `distance` has Java's default 0, and one absent
    from `parent` has a null parent. */
module Graphs {
  import opened LinkedLists
  import opened Adjacency
  import opened Bfs

  class Graph<T(==)> {
    var adjLists: map<T, seq<T>>
    var distance: map<T, int>
    var parent: map<T, T>

    /** `Graph()`: an empty graph. */
    constructor ()
      ensures adjLists == map[] && distance == map[] && parent == map[]
    {
      adjLists := map[];
      distance := map[];
      parent := map[];
    }

    /** `Graph(Vertex...)`: an empty graph to which `vertices` are added in
        turn. */
    constructor FromVertices(vertices: seq<T>)
      ensures adjLists == AddedAll(map[], vertices)
      ensures distance == map[] && parent == map[]
    {
      adjLists := map[];
      distance := map[];
      parent := map[];
      new;
      AddAll(vertices);
    }

    /** `add(Vertex)`: `vertex` becomes a key whose list is just itself,
        replacing any list it had; every other entry is kept. */
    method Add(vertex: T)
      modifies this
      ensures adjLists.Keys == old(adjLists).Keys + {vertex}
      ensures adjLists[vertex] == [vertex]
      ensures forall k :: k in old(adjLists) && k != vertex ==> adjLists[k] == old(adjLists)[k]
      ensures Closed(old(adjLists)) ==> Closed(adjLists)
      ensures distance == old(distance) && parent == old(parent)
    {
      var newVertexList := [vertex];
      adjLists := adjLists[vertex := newVertexList];
    }

    /** `add(Vertex...)`: `Add` applied to each of `vertices`, left to right. */
    method AddAll(vertices: seq<T>)
      modifies this
      ensures adjLists == AddedAll(old(adjLists), vertices)
      ensures distance == old(distance) && parent == old(parent)
    {
      for i := 0 to |vertices|
        invariant adjLists == AddedAll(old(adjLists), vertices[..i])
        invariant distance == old(distance) && parent == old(parent)
      {
        assert vertices[..i + 1][..i] == vertices[..i];
        Add(vertices[i]);
      }
      assert vertices[..|vertices|] == vertices;
    }

    /** `contains`: scans the keys for one equal to `vertex`. */
    method Contains(vertex: T) returns (found: bool)
      ensures found <==> vertex in adjLists
    {
      var unseen := adjLists.Keys;
      while unseen != {}
        invariant unseen <= adjLists.Keys
        invariant vertex !in adjLists.Keys - unseen
        decreases unseen
      {
        var existing :| existing in unseen;
        if vertex == existing {
          return true;
        }
        unseen := unseen - {existing};
      }
      return false;
    }

    /** `remove`, as documented: `vertex` stops being a key and every
        occurrence of it leaves every remaining list, whose other elements
        keep their order. */
    method Remove(vertex: T)
      modifies this
      ensures adjLists.Keys == old(adjLists).Keys - {vertex}
      ensures forall k :: k in adjLists ==> adjLists[k] == Without(old(adjLists)[k], vertex)
      ensures forall k :: k in adjLists ==> vertex !in adjLists[k]
      ensures Closed(old(adjLists)) ==> Closed(adjLists)
      ensures distance == old(distance) && parent == old(parent)
    {
      adjLists := adjLists - {vertex};
      ghost var kept := adjLists;
      var lists := adjLists.Keys;
      while lists != {}
        invariant lists <= kept.Keys && adjLists.Keys == kept.Keys
        invariant forall k :: k in kept && k !in lists ==> adjLists[k] == Without(kept[k], vertex)
        invariant forall k :: k in lists ==> adjLists[k] == kept[k]
        invariant distance == old(distance) && parent == old(parent)
        decreases lists
      {
        var k :| k in lists;
        var list := RemoveAll(adjLists[k], vertex);
        adjLists := adjLists[k := list];
        lists := lists - {k};
      }
      forall k | k in adjLists
        ensures vertex !in adjLists[k]
        ensures forall x :: x in adjLists[k] ==> x in old(adjLists)[k] && x != vertex
      {
        WithoutSpec(old(adjLists)[k], vertex);
        WithoutMembers(old(adjLists)[k], vertex);
      }
    }

    /** `removeConnection`: only the first `b` leaves the list of `a`. */
    method RemoveConnection(a: T, b: T)
      requires a in adjLists
      modifies this
      ensures adjLists.Keys == old(adjLists).Keys
      ensures adjLists[a] == RemoveFirst(old(adjLists)[a], b)
      ensures b !in old(adjLists)[a] ==> adjLists[a] == old(adjLists)[a]
      ensures b in old(adjLists)[a] ==> var i := FirstIndex(old(adjLists)[a], b);
        adjLists[a] == old(adjLists)[a][..i] + old(adjLists)[a][i + 1..]
      ensures forall k :: k in adjLists && k != a ==> adjLists[k] == old(adjLists)[k]
      ensures distance == old(distance) && parent == old(parent)
    {
      RemoveFirstSpec(adjLists[a], b);
      adjLists := adjLists[a := RemoveFirst(adjLists[a], b)];
    }

    /** `addUndirectedEdge`: `b` is appended to the list of `a`, then `a` to the
        list of `b` (so a self-loop appends `a` twice). */
    method AddUndirectedEdge(a: T, b: T)
      requires a in adjLists && b in adjLists
      modifies this
      ensures adjLists.Keys == old(adjLists).Keys
      ensures a != b ==> adjLists[a] == old(adjLists)[a] + [b] && adjLists[b] == old(adjLists)[b] + [a]
      ensures a == b ==> adjLists[a] == old(adjLists)[a] + [a, a]
      ensures forall k :: k in adjLists && k != a && k != b ==> adjLists[k] == old(adjLists)[k]
      ensures Closed(old(adjLists)) ==> Closed(adjLists)
      ensures distance == old(distance) && parent == old(parent)
    {
      adjLists := adjLists[a := adjLists[a] + [b]];
      adjLists := adjLists[b := adjLists[b] + [a]];
    }

    /** `addDirectedEdge`: `b` is appended to the list of `a`. */
    method AddDirectedEdge(a: T, b: T)
      requires a in adjLists
      modifies this
      ensures adjLists.Keys == old(adjLists).Keys
      ensures adjLists[a] == old(adjLists)[a] + [b]
      ensures forall k :: k in adjLists && k != a ==> adjLists[k] == old(adjLists)[k]
      ensures Closed(old(adjLists)) && b in adjLists ==> Closed(adjLists)
      ensures distance == old(distance) && parent == old(parent)
    {
      adjLists := adjLists[a := adjLists[a] + [b]];
    }

    /** The reset loop of `connectEdgesToRootBFS`: every key gets distance
        `Integer.MAX_VALUE` and a null parent; the labels of other vertices
        are kept. */
    method ResetLabels()
      modifies this
      ensures adjLists == old(adjLists)
      ensures IsReset(adjLists, distance, parent)
      ensures Framed(adjLists, old(distance), old(parent), distance, parent)
    {
      var unset := adjLists.Keys;
      while unset != {}
        invariant unset <= adjLists.Keys && adjLists == old(adjLists)
        invariant forall k :: k in adjLists && k !in unset ==> k in distance && distance[k] == UNVISITED && k !in parent
        invariant distance.Keys == old(distance).Keys + (adjLists.Keys - unset)
        invariant parent.Keys == old(parent).Keys - (adjLists.Keys - unset)
        invariant forall k :: k in old(distance) && k !in adjLists ==> distance[k] == old(distance)[k]
        invariant forall k :: k in old(parent) && k !in adjLists ==> parent[k] == old(parent)[k]
        decreases unset
      {
        var vertex :| vertex in unset;
        distance := distance[vertex := UNVISITED];
        parent := parent - {vertex};
        unset := unset - {vertex};
      }
    }

    /** `connectEdgesToRootBFS`: resets the labels of every key, runs the
        search from `rootVertex`, and returns, for each vertex reached more
        than one hop away, its chain of parents ending with the root. */
    method ConnectEdgesToRootBFS(rootVertex: T) returns (result: map<T, seq<T>>)
      requires Closed(adjLists) && rootVertex in adjLists && |adjLists| <= UNVISITED
      modifies this
      ensures adjLists == old(adjLists)
      ensures Labelled(adjLists, rootVertex, distance, parent)
      ensures forall v :: v in result ==> v in adjLists
      ensures forall v :: v in adjLists ==>
        (v in result <==> distance[v] != UNVISITED && distance[v] > 1)
      ensures forall v :: v in result ==> result[v] == ParentChain(parent, v, distance[v])
      // the labels of vertices that are not keys stay as they were
      ensures Framed(adjLists, old(distance), old(parent), distance, parent)
    {
      ResetLabels();
      ghost var reset, unparented := distance, parent;
      ghost var order: seq<T>;
      var toBeConnected;
      distance, parent, toBeConnected, order := Explore(adjLists, rootVertex, distance, parent);
      result := PathsToRoot(adjLists, rootVertex, distance, parent, toBeConnected);
      ConnectedVertices(adjLists, distance, order, toBeConnected, result.Keys);
      FramedTrans(adjLists, old(distance), old(parent), reset, unparented, distance, parent);
    }
  }
}
