/** The breadth-first search behind `connectEdgesToRootBFS`: it labels every
    vertex with its hop distance from a root and a parent on a shortest walk,
    then rebuilds, for each vertex more than one hop away, the chain of
    parents back to the root.

    The scratch fields `distance` and `parentVertex` of the vertices are
    maps keyed by vertex here: `d` gives the distance, and `p` the parent,
    where a vertex absent from `p` has a null parent. */
module Bfs {
  import opened LinkedLists
  import opened Adjacency

  /** `Integer.MAX_VALUE`, the distance of a vertex not yet reached. */
  const UNVISITED: int := 0x7fff_ffff

  /** What the reset loop leaves: every key unvisited, with no parent. */
  predicate IsReset<T(==)>(g: map<T, seq<T>>, d: map<T, int>, p: map<T, T>)
  {
    forall k :: k in g ==> k in d && d[k] == UNVISITED && k !in p
  }

  /** The parent of `k` is a reached key one hop nearer to the root, with an
      edge to `k`. */
  predicate ParentOk<T(==)>(g: map<T, seq<T>>, d: map<T, int>, p: map<T, T>, k: T)
    requires forall v :: v in g ==> v in d
    requires k in g
  {
    k in p && p[k] in g && d[p[k]] != UNVISITED && d[k] == d[p[k]] + 1 && k in g[p[k]]
  }

  /** The labelling a completed search leaves on the keys of `g`. */
  predicate Labelled<T(==)>(g: map<T, seq<T>>, root: T, d: map<T, int>, p: map<T, T>)
  {
    && root in g
    && (forall k :: k in g ==> k in d)
    && d[root] == 0 && root !in p
    && (forall k :: k in g && d[k] != UNVISITED ==> 0 <= d[k] < UNVISITED)
    && (forall k :: k in g && d[k] == UNVISITED ==> k !in p)
    && (forall k {:trigger ParentOk(g, d, p, k)} :: k in g && d[k] != UNVISITED && k != root ==> ParentOk(g, d, p, k))
    // no edge leaves the reached part, and none shortens a distance
    && (forall x, y :: x in g && d[x] != UNVISITED && y in g[x] ==>
          y in g && d[y] != UNVISITED && d[y] <= d[x] + 1)
  }

  /** The parents of `v`, nearest first, `n` of them at most: the list the
      path-building loop collects. */
  function ParentChain<T(==)>(p: map<T, T>, v: T, n: nat): seq<T>
    decreases n
  {
    if n == 0 || v !in p then [] else [p[v]] + ParentChain(p, p[v], n - 1)
  }

  /** The walk from the root down the parent pointers to `v`. */
  function RootWalk<T(==)>(p: map<T, T>, v: T, n: nat): seq<T>
    decreases n
  {
    if n == 0 || v !in p then [v] else RootWalk(p, p[v], n - 1) + [v]
  }

  /** Of the vertices of `s`, in their order, those more than one hop away. */
  function Far<T(==)>(s: seq<T>, d: map<T, int>): seq<T>
    decreases |s|
  {
    if s == [] then []
    else
      var last := s[|s| - 1];
      Far(s[..|s| - 1], d) + if last in d && d[last] > 1 then [last] else []
  }

  /** `Far` keeps exactly the vertices more than one hop away. */
  lemma {:induction false} FarMembers<T>(s: seq<T>, d: map<T, int>)
    requires forall i :: 0 <= i < |s| ==> s[i] in d
    ensures forall i :: 0 <= i < |Far(s, d)| ==> Far(s, d)[i] in s && d[Far(s, d)[i]] > 1
    ensures forall i :: 0 <= i < |s| && d[s[i]] > 1 ==> s[i] in Far(s, d)
    decreases |s|
  {
    if s != [] {
      var init := s[..|s| - 1];
      FarMembers(init, d);
      assert forall i :: 0 <= i < |init| ==> init[i] == s[i];
      assert s == init + [s[|s| - 1]];
    }
  }

  /** Membership in `Far`, one vertex at a time. */
  lemma {:induction false} FarIn<T>(s: seq<T>, d: map<T, int>, v: T)
    ensures v in Far(s, d) <==> v in s && v in d && d[v] > 1
    decreases |s|
  {
    if s != [] {
      var init := s[..|s| - 1];
      FarIn(init, d, v);
      assert s == init + [s[|s| - 1]];
    }
  }

  /** The vertices the search records are exactly the reached keys more
      than one hop from the root. */
  lemma ConnectedVertices<T>(g: map<T, seq<T>>, d: map<T, int>, order: seq<T>, toBeConnected: seq<T>, found: set<T>)
    requires forall k :: k in g ==> k in d
    requires forall i :: 0 <= i < |order| ==> order[i] in g
    requires forall k :: k in g ==> (k in order <==> d[k] != UNVISITED)
    requires toBeConnected == Far(order, d) && found == set v | v in toBeConnected
    ensures forall v :: v in found ==> v in g
    ensures forall v :: v in g ==> (v in found <==> d[v] != UNVISITED && d[v] > 1)
  {
    forall v | v in found ensures v in g {
      FarIn(order, d, v);
    }
    forall v | v in g ensures v in found <==> d[v] != UNVISITED && d[v] > 1 {
      FarIn(order, d, v);
    }
  }

  lemma {:induction false} FarFrame<T>(s: seq<T>, d: map<T, int>, d': map<T, int>)
    requires forall i :: 0 <= i < |s| ==> (s[i] in d <==> s[i] in d') && (s[i] in d ==> d[s[i]] == d'[s[i]])
    ensures Far(s, d) == Far(s, d')
    decreases |s|
  {
    if s != [] {
      FarFrame(s[..|s| - 1], d, d');
    }
  }

  lemma {:induction false} FarDistinct<T>(s: seq<T>, d: map<T, int>)
    requires forall i :: 0 <= i < |s| ==> s[i] in d
    requires Distinct(s)
    ensures Distinct(Far(s, d))
    decreases |s|
  {
    if s != [] {
      var init := s[..|s| - 1];
      assert forall i :: 0 <= i < |init| ==> init[i] == s[i];
      FarDistinct(init, d);
      FarMembers(init, d);
      assert s[|s| - 1] !in init;
    }
  }

  /** No walk from the root is shorter than the distance it ends at, and
      every walk from the root ends at a reached vertex. */
  lemma {:induction false} WalkLowerBound<T>(g: map<T, seq<T>>, root: T, d: map<T, int>, p: map<T, T>, w: seq<T>)
    requires Labelled(g, root, d, p)
    requires IsWalk(g, w) && w[0] == root
    ensures w[|w| - 1] in g && d[w[|w| - 1]] != UNVISITED && d[w[|w| - 1]] <= |w| - 1
    decreases |w|
  {
    if |w| > 1 {
      var init := w[..|w| - 1];
      assert IsWalk(g, init) by {
        forall i | 0 <= i < |init| - 1 ensures init[i] in g && init[i + 1] in g[init[i]] {
          assert init[i] == w[i] && init[i + 1] == w[i + 1];
        }
      }
      WalkLowerBound(g, root, d, p, init);
      assert w[|w| - 1] in g[w[|w| - 2]];
    }
  }

  /** Following parent pointers from a reached vertex back up gives a walk
      from the root of exactly its distance in hops. */
  lemma {:induction false} RootWalkFacts<T>(g: map<T, seq<T>>, root: T, d: map<T, int>, p: map<T, T>, v: T)
    requires Labelled(g, root, d, p)
    requires v in g && d[v] != UNVISITED
    ensures IsWalk(g, RootWalk(p, v, d[v]))
    ensures RootWalk(p, v, d[v])[0] == root
    ensures |RootWalk(p, v, d[v])| == d[v] + 1
    ensures RootWalk(p, v, d[v])[d[v]] == v
    decreases d[v]
  {
    if v != root {
      assert ParentOk(g, d, p, v);
      var u := p[v];
      RootWalkFacts(g, root, d, p, u);
      var w := RootWalk(p, u, d[u]);
      assert RootWalk(p, v, d[v]) == w + [v];
      assert IsWalk(g, w + [v]) by {
        forall i | 0 <= i < |w + [v]| - 1 ensures (w + [v])[i] in g && (w + [v])[i + 1] in g[(w + [v])[i]] {
          if i < |w| - 1 {
            assert (w + [v])[i] == w[i] && (w + [v])[i + 1] == w[i + 1];
          }
        }
      }
    }
  }

  /** After the search the distances are exactly the shortest hop counts:
      a key is reached if and only if some walk from the root leads to it,
      and then the parent pointers give a walk of exactly `d[v]` hops while
      no walk has fewer. */
  lemma ShortestDistances<T>(g: map<T, seq<T>>, root: T, d: map<T, int>, p: map<T, T>, v: T)
    requires Labelled(g, root, d, p)
    requires v in g
    ensures forall w :: IsWalk(g, w) && w[0] == root && w[|w| - 1] == v ==>
      d[v] != UNVISITED && |w| - 1 >= d[v]
    ensures d[v] != UNVISITED ==>
      var w := RootWalk(p, v, d[v]);
      IsWalk(g, w) && w[0] == root && w[|w| - 1] == v && |w| - 1 == d[v]
  {
    forall w | IsWalk(g, w) && w[0] == root && w[|w| - 1] == v
      ensures d[v] != UNVISITED && |w| - 1 >= d[v]
    {
      WalkLowerBound(g, root, d, p, w);
    }
    if d[v] != UNVISITED {
      RootWalkFacts(g, root, d, p, v);
    }
  }

  /** A key is reached exactly when some walk from the root ends at it; an
      unreached key keeps the reset distance and has no parent. */
  lemma Reachability<T>(g: map<T, seq<T>>, root: T, d: map<T, int>, p: map<T, T>, v: T)
    requires Labelled(g, root, d, p)
    requires v in g
    ensures d[v] != UNVISITED <==> exists w :: IsWalk(g, w) && w[0] == root && w[|w| - 1] == v
    ensures d[v] == UNVISITED ==> v !in p
  {
    ShortestDistances(g, root, d, p, v);
    if d[v] != UNVISITED {
      var w := RootWalk(p, v, d[v]);
      assert IsWalk(g, w) && w[0] == root && w[|w| - 1] == v;
    }
  }

  /** A direct neighbour of the root lies one hop away, so the search never
      records it. */
  lemma RootNeighbours<T>(g: map<T, seq<T>>, root: T, d: map<T, int>, p: map<T, T>, v: T)
    requires Labelled(g, root, d, p)
    requires v in g[root] && v != root
    ensures v in g && d[v] == 1 && v in p && p[v] == root
  {
    assert ParentOk(g, d, p, v);
    if p[v] != root {
      AwayFromRoot(g, root, d, p, p[v]);
    }
  }

  /** Only the root is at distance 0. */
  lemma AwayFromRoot<T>(g: map<T, seq<T>>, root: T, d: map<T, int>, p: map<T, T>, v: T)
    requires Labelled(g, root, d, p)
    requires v in g && d[v] != UNVISITED && v != root
    ensures d[v] >= 1
  {
    assert ParentOk(g, d, p, v);
  }

  /** The chain of parents of a reached vertex other than the root: it has
      `d[v]` elements, starts with the parent of `v`, steps from each vertex
      to its parent, ends with the root and does not contain `v`; the
      `i`-th element lies `d[v] - 1 - i` hops from the root. */
  lemma {:induction false} ParentChainFacts<T>(g: map<T, seq<T>>, root: T, d: map<T, int>, p: map<T, T>, v: T)
    requires Labelled(g, root, d, p)
    requires v in g && d[v] != UNVISITED && v != root
    ensures var s := ParentChain(p, v, d[v]);
      && |s| == d[v] >= 1
      && v in p && s[0] == p[v] && s[0] in g && v in g[s[0]]
      && s[|s| - 1] == root
      && (forall i :: 0 <= i < |s| ==> s[i] in g && d[s[i]] == d[v] - 1 - i)
      && (forall i :: 0 <= i < |s| - 1 ==> s[i] in p && p[s[i]] == s[i + 1] && s[i] in g[s[i + 1]])
      && v !in s
  {
    ParentChainDistances(g, root, d, p, v);
    ParentChainSteps(g, root, d, p, v);
  }

  lemma {:induction false} ParentChainDistances<T>(g: map<T, seq<T>>, root: T, d: map<T, int>, p: map<T, T>, v: T)
    requires Labelled(g, root, d, p)
    requires v in g && d[v] != UNVISITED && v != root
    ensures var s := ParentChain(p, v, d[v]);
      && |s| == d[v] >= 1
      && v in p && s[0] == p[v] && s[0] in g && v in g[s[0]]
      && s[|s| - 1] == root
      && (forall i :: 0 <= i < |s| ==> s[i] in g && d[s[i]] == d[v] - 1 - i)
    decreases d[v]
  {
    assert ParentOk(g, d, p, v);
    var u := p[v];
    if u == root {
      assert ParentChain(p, v, d[v]) == [root] + ParentChain(p, root, 0);
    } else {
      ParentChainDistances(g, root, d, p, u);
      var t := ParentChain(p, u, d[u]);
      var s := ParentChain(p, v, d[v]);
      assert s == [u] + t;
      assert forall i :: 1 <= i < |s| ==> s[i] == t[i - 1];
    }
  }

  lemma {:induction false} ParentChainSteps<T>(g: map<T, seq<T>>, root: T, d: map<T, int>, p: map<T, T>, v: T)
    requires Labelled(g, root, d, p)
    requires v in g && d[v] != UNVISITED && v != root
    ensures var s := ParentChain(p, v, d[v]);
      && (forall i :: 0 <= i < |s| ==> s[i] in g)
      && (forall i :: 0 <= i < |s| - 1 ==> s[i] in p && p[s[i]] == s[i + 1] && s[i] in g[s[i + 1]])
    decreases d[v]
  {
    ParentChainDistances(g, root, d, p, v);
    assert ParentOk(g, d, p, v);
    var u := p[v];
    if u != root {
      ParentChainSteps(g, root, d, p, u);
      ParentChainDistances(g, root, d, p, u);
      assert ParentOk(g, d, p, u);
      var t := ParentChain(p, u, d[u]);
      var s := ParentChain(p, v, d[v]);
      assert s == [u] + t;
      assert forall i :: 1 <= i < |s| ==> s[i] == t[i - 1];
    }
  }

  /** The chain `0 -> 1 -> 2 -> 3` rooted at 0 (every list also starts with
      its own key, as `add` leaves it): whatever labelling the search leaves,
      2 has the path `[1, 0]` and 3 the path `[2, 1, 0]`. */
  lemma ChainExample(d: map<int, int>, p: map<int, int>)
    requires Labelled(map[0 := [0, 1], 1 := [1, 2], 2 := [2, 3], 3 := [3]], 0, d, p)
    ensures d[1] == 1 && d[2] == 2 && d[3] == 3
    ensures ParentChain(p, 2, d[2]) == [1, 0]
    ensures ParentChain(p, 3, d[3]) == [2, 1, 0]
  {
    var g := map[0 := [0, 1], 1 := [1, 2], 2 := [2, 3], 3 := [3]];
    assert 1 in g[0] && 2 in g[1] && 3 in g[2];
    assert ParentOk(g, d, p, 1);
    assert ParentOk(g, d, p, 2);
    assert ParentOk(g, d, p, 3);
  }

  /** The state of the search between two steps. The queue is
      `order[head..]`; the vertices of `order[..head]` have been dequeued and
      all their neighbours reached. */
  ghost predicate Searching<T>(g: map<T, seq<T>>, root: T, d: map<T, int>, p: map<T, T>,
                               order: seq<T>, pos: map<T, nat>, head: nat, mid: nat, level: int)
  {
    && Queued(g, root, d, order, pos, head, mid, level)
    && Parented(g, root, d, p)
    && Expanded(g, d, order, head)
  }

  /** Every reached key is in `order` exactly once, at the place `pos`
      gives, and no further from the root than its place; the queue holds
      the vertices at distance `level` (those before `mid`) followed by
      those at `level + 1`. */
  ghost predicate Queued<T>(g: map<T, seq<T>>, root: T, d: map<T, int>,
                            order: seq<T>, pos: map<T, nat>, head: nat, mid: nat, level: int)
  {
    && Closed(g) && root in g && |g| <= UNVISITED
    && (forall k :: k in g ==> k in d)
    && d[root] == 0
    && head <= mid <= |order| <= |g|
    && |order| > 0 && order[0] == root
    && (forall i :: 0 <= i < |order| ==> order[i] in g && 0 <= d[order[i]] <= i)
    && (forall i :: 0 <= i < |order| ==> order[i] in pos && pos[order[i]] == i)
    && (forall k :: k in g && d[k] != UNVISITED ==> k in pos && pos[k] < |order| && order[pos[k]] == k)
    && (forall i :: 0 <= i < mid ==> d[order[i]] <= level)
    && (forall i :: head <= i < mid ==> d[order[i]] == level)
    && (forall i :: mid <= i < |order| ==> d[order[i]] == level + 1)
  }

  /** The root has no parent, an unreached key has none, and every other
      reached key has a consistent one. */
  ghost predicate Parented<T>(g: map<T, seq<T>>, root: T, d: map<T, int>, p: map<T, T>)
    requires forall k :: k in g ==> k in d
  {
    && root !in p
    && (forall k :: k in g && d[k] == UNVISITED ==> k !in p)
    && (forall k {:trigger ParentOk(g, d, p, k)} :: k in g && d[k] != UNVISITED && k != root ==> ParentOk(g, d, p, k))
  }

  /** Every neighbour of a dequeued vertex is reached, at most one hop
      further. */
  ghost predicate Expanded<T>(g: map<T, seq<T>>, d: map<T, int>, order: seq<T>, head: nat)
    requires forall k :: k in g ==> k in d
    requires head <= |order| && forall i :: 0 <= i < |order| ==> order[i] in g
  {
    forall i, y :: 0 <= i < head && y in g[order[i]] ==>
      y in g && d[y] != UNVISITED && d[y] <= d[order[i]] + 1
  }

  lemma DiscoverQueued<T>(g: map<T, seq<T>>, root: T, d: map<T, int>,
                          order: seq<T>, pos: map<T, nat>, head: nat, mid: nat, level: int, current: T, vertex: T,
                          d': map<T, int>, order': seq<T>, pos': map<T, nat>)
    requires Queued(g, root, d, order, pos, head, mid, level)
    requires head < mid && current == order[head]
    requires vertex in g && d[vertex] == UNVISITED
    requires d' == d[vertex := d[current] + 1] && order' == order + [vertex] && pos' == pos[vertex := |order|]
    ensures Queued(g, root, d', order', pos', head, mid, level)
    ensures forall i :: 0 <= i < |order| ==> order[i] != vertex
    ensures current in g && d[current] == level && 0 <= level < UNVISITED - 1
  {
    assert forall i :: 0 <= i < |order| ==>
      order[i] != vertex && order'[i] == order[i] && d'[order[i]] == d[order[i]] && pos'[order[i]] == i;
    assert Distinct(order') by {
      forall i, j | 0 <= i < j < |order'| ensures order'[i] != order'[j] {
        assert pos'[order'[i]] == i && pos'[order'[j]] == j;
      }
    }
    DistinctBoundedByDomain(order', g.Keys);
  }

  lemma DiscoverParented<T>(g: map<T, seq<T>>, root: T, d: map<T, int>, p: map<T, T>, current: T, vertex: T,
                            d': map<T, int>, p': map<T, T>)
    requires forall k :: k in g ==> k in d
    requires Parented(g, root, d, p)
    requires root in g && d[root] != UNVISITED
    requires current in g && d[current] != UNVISITED && 0 <= d[current] < UNVISITED - 1
    requires vertex in g && vertex in g[current] && d[vertex] == UNVISITED
    requires d' == d[vertex := d[current] + 1] && p' == p[vertex := current]
    ensures Parented(g, root, d', p')
  {
    assert root != vertex;
    assert forall k :: k in g && d'[k] == UNVISITED ==> k != vertex && k !in p';
    forall k | k in g && d'[k] != UNVISITED && k != root
      ensures ParentOk(g, d', p', k)
    {
      if k != vertex {
        assert ParentOk(g, d, p, k);
      }
    }
  }

  lemma DiscoverExpanded<T>(g: map<T, seq<T>>, d: map<T, int>, order: seq<T>, head: nat, vertex: T, x: int,
                            d': map<T, int>, order': seq<T>)
    requires forall k :: k in g ==> k in d
    requires head <= |order| && forall i :: 0 <= i < |order| ==> order[i] in g
    requires Expanded(g, d, order, head)
    requires vertex in g && d[vertex] == UNVISITED
    requires forall i :: 0 <= i < |order| ==> order[i] != vertex
    requires d' == d[vertex := x] && order' == order + [vertex]
    ensures Expanded(g, d', order', head)
  {
    forall i, y | 0 <= i < head && y in g[order'[i]]
      ensures y in g && d'[y] != UNVISITED && d'[y] <= d'[order'[i]] + 1
    {
      assert order'[i] == order[i];
    }
  }

  /** In `connectEdgesToRootBFS`: an unvisited neighbour of the vertex at the
      head of the queue gets the next distance, that vertex as parent, and a
      place at the end of the queue. */
  lemma Discover<T>(g: map<T, seq<T>>, root: T, d: map<T, int>, p: map<T, T>,
                    order: seq<T>, pos: map<T, nat>, head: nat, mid: nat, level: int, current: T, vertex: T,
                    d': map<T, int>, p': map<T, T>, order': seq<T>, pos': map<T, nat>)
    requires Searching(g, root, d, p, order, pos, head, mid, level)
    requires head < mid && current == order[head]
    requires vertex in g && vertex in g[current] && d[vertex] == UNVISITED
    requires d' == d[vertex := d[current] + 1] && p' == p[vertex := current]
    requires order' == order + [vertex] && pos' == pos[vertex := |order|]
    ensures Searching(g, root, d', p', order', pos', head, mid, level)
    ensures d[current] == level && forall i :: 0 <= i < |order| ==> order[i] != vertex
  {
    DiscoverQueued(g, root, d, order, pos, head, mid, level, current, vertex, d', order', pos');
    DiscoverParented(g, root, d, p, current, vertex, d', p');
    DiscoverExpanded(g, d, order, head, vertex, d[current] + 1, d', order');
  }

  lemma AdvanceExpanded<T>(g: map<T, seq<T>>, d: map<T, int>, order: seq<T>, head: nat, level: int)
    requires forall k :: k in g ==> k in d
    requires head < |order| && forall i :: 0 <= i < |order| ==> order[i] in g
    requires Expanded(g, d, order, head) && d[order[head]] == level
    requires forall jj :: 0 <= jj < |g[order[head]]| ==>
      g[order[head]][jj] in g && d[g[order[head]][jj]] != UNVISITED && d[g[order[head]][jj]] <= level + 1
    ensures Expanded(g, d, order, head + 1)
  {
    forall i, y | 0 <= i < head + 1 && y in g[order[i]]
      ensures y in g && d[y] != UNVISITED && d[y] <= d[order[i]] + 1
    {
      if i == head {
        var jj :| 0 <= jj < |g[order[head]]| && g[order[head]][jj] == y;
      }
    }
  }

  /** In `connectEdgesToRootBFS`, `queue.removeFirst()`: once every neighbour
      of the head is reached, it leaves the queue; when the vertices at
      distance `level` are used up, the queue holds exactly those at `level +
      1`. */
  lemma Advance<T>(g: map<T, seq<T>>, root: T, d: map<T, int>, p: map<T, T>,
                   order: seq<T>, pos: map<T, nat>, head: nat, mid: nat, level: int, mid': nat, level': int)
    requires Searching(g, root, d, p, order, pos, head, mid, level)
    requires head < mid
    requires forall jj :: 0 <= jj < |g[order[head]]| ==>
      g[order[head]][jj] in g && d[g[order[head]][jj]] != UNVISITED && d[g[order[head]][jj]] <= level + 1
    requires mid' == (if head + 1 == mid then |order| else mid)
    requires level' == (if head + 1 == mid then level + 1 else level)
    ensures Searching(g, root, d, p, order, pos, head + 1, mid', level')
    ensures head + 1 < mid' || head + 1 == |order|
  {
    AdvanceExpanded(g, d, order, head, level);
  }

  /** A reached vertex lies at most one hop beyond the head of the queue. */
  lemma ReachedBound<T>(g: map<T, seq<T>>, root: T, d: map<T, int>, p: map<T, T>,
                        order: seq<T>, pos: map<T, nat>, head: nat, mid: nat, level: int, vertex: T)
    requires Searching(g, root, d, p, order, pos, head, mid, level)
    requires vertex in g && d[vertex] != UNVISITED
    ensures d[vertex] <= level + 1
  {
    assert order[pos[vertex]] == vertex;
  }

  /** Labels already given are kept, so the neighbours looked at so far
      stay reached. */
  lemma StillReached<T>(g: map<T, seq<T>>, d: map<T, int>, d': map<T, int>, s: seq<T>, j: nat, level: int)
    requires j < |s| && (forall k :: k in g ==> k in d && k in d')
    requires forall jj :: 0 <= jj < j ==> s[jj] in g && d[s[jj]] != UNVISITED && d[s[jj]] <= level + 1
    requires forall k :: k in g && d[k] != UNVISITED ==> d'[k] == d[k]
    requires s[j] in g && d'[s[j]] != UNVISITED && d'[s[j]] <= level + 1
    ensures forall jj :: 0 <= jj < j + 1 ==> s[jj] in g && d'[s[jj]] != UNVISITED && d'[s[jj]] <= level + 1
  {
  }

  /** The search starts with the root alone on the queue, at distance 0. */
  lemma SearchStart<T>(g: map<T, seq<T>>, root: T, d0: map<T, int>, p0: map<T, T>)
    requires Closed(g) && root in g && |g| <= UNVISITED
    requires IsReset(g, d0, p0)
    ensures Searching(g, root, d0[root := 0], p0, [root], map[root := 0], 0, 1, 0)
    ensures Far([root], d0[root := 0]) == []
    ensures Framed(g, d0, p0, d0[root := 0], p0)
  {
    var d := d0[root := 0];
    assert Far([root], d) == Far([], d) + [];
  }

  /** With the queue empty, the labelling is complete, every reached key
      was enqueued exactly once, and nothing else was. */
  lemma SearchDone<T>(g: map<T, seq<T>>, root: T, d: map<T, int>, p: map<T, T>,
                      order: seq<T>, pos: map<T, nat>, head: nat, mid: nat, level: int)
    requires Searching(g, root, d, p, order, pos, head, mid, level)
    requires head == |order|
    ensures Labelled(g, root, d, p)
    ensures Distinct(order)
    ensures forall k :: k in g ==> (k in order <==> d[k] != UNVISITED)
  {
    forall x | x in g && d[x] != UNVISITED
      ensures 0 <= d[x] < UNVISITED && x in order
    {
      assert order[pos[x]] == x;
    }
    forall x, y | x in g && d[x] != UNVISITED && y in g[x]
      ensures y in g && d[y] != UNVISITED && d[y] <= d[x] + 1
    {
      assert order[pos[x]] == x;
    }
    forall i, j | 0 <= i < j < |order| ensures order[i] != order[j] {
      assert pos[order[i]] == i && pos[order[j]] == j;
    }
  }

  /** Frame of the search: it labels keys only, so the labels of other
      vertices stay as they were. */
  predicate Framed<T(==)>(g: map<T, seq<T>>, d0: map<T, int>, p0: map<T, T>, d: map<T, int>, p: map<T, T>)
  {
    && d0.Keys <= d.Keys && d.Keys - g.Keys == d0.Keys - g.Keys && p.Keys - g.Keys == p0.Keys - g.Keys
    && (forall v :: v in d0 && v !in g ==> d[v] == d0[v])
    && (forall v :: v in p0 && v !in g ==> v in p && p[v] == p0[v])
  }

  lemma FramedTrans<T>(g: map<T, seq<T>>, d0: map<T, int>, p0: map<T, T>,
                       d1: map<T, int>, p1: map<T, T>, d2: map<T, int>, p2: map<T, T>)
    requires Framed(g, d0, p0, d1, p1) && Framed(g, d1, p1, d2, p2)
    ensures Framed(g, d0, p0, d2, p2)
  {
  }

  /** Labelling one unreached key changes nothing else. */
  lemma Relabel<T>(g: map<T, seq<T>>, d: map<T, int>, p: map<T, T>, vertex: T, x: int, parent: T)
    requires forall k :: k in g ==> k in d
    requires vertex in g && d[vertex] == UNVISITED
    ensures Framed(g, d, p, d[vertex := x], p[vertex := parent])
    ensures forall k :: k in g && d[k] != UNVISITED ==> d[vertex := x][k] == d[k]
  {
  }

  /** The queue is the part of `order` from `head` on. */
  lemma QueueHead<T>(queue: seq<T>, order: seq<T>, head: nat)
    requires head < |order| && queue == order[head..]
    ensures queue != [] && queue[0] == order[head]
  {
  }

  lemma QueueAppend<T>(queue: seq<T>, order: seq<T>, head: nat, vertex: T)
    requires head <= |order| && queue == order[head..]
    ensures queue + [vertex] == (order + [vertex])[head..]
  {
    assert (order + [vertex])[head..] == order[head..] + [vertex];
  }

  lemma QueueAdvance<T>(queue: seq<T>, order: seq<T>, head: nat)
    requires head < |order| && queue == order[head..]
    ensures queue[1..] == order[head + 1..]
  {
  }

  /** Appending a vertex that is new to `order` appends it to `Far` exactly
      when it lies more than one hop away. */
  lemma FarAppend<T>(order: seq<T>, d: map<T, int>, vertex: T, x: int)
    requires forall i :: 0 <= i < |order| ==> order[i] != vertex
    ensures Far(order + [vertex], d[vertex := x]) == Far(order, d) + if x > 1 then [vertex] else []
  {
    var order' := order + [vertex];
    assert order'[..|order'| - 1] == order;
    FarFrame(order, d, d[vertex := x]);
  }

  /** The body of the inner loop of `connectEdgesToRootBFS`: an unvisited
      neighbour of the vertex at the head of the queue gets the next distance
      and that vertex as its parent, joins the queue, and is recorded when it
      lies more than one hop from the root. */
  method Enqueue<T(==)>(g: map<T, seq<T>>, root: T, d: map<T, int>, p: map<T, T>,
                        queue: seq<T>, toBeConnected: seq<T>,
                        ghost order: seq<T>, ghost pos: map<T, nat>, ghost head: nat, ghost mid: nat, ghost level: int,
                        vertex: T)
    returns (d': map<T, int>, p': map<T, T>, queue': seq<T>, toBeConnected': seq<T>,
             ghost order': seq<T>, ghost pos': map<T, nat>)
    requires Searching(g, root, d, p, order, pos, head, mid, level) && head < mid
    requires queue == order[head..] && toBeConnected == Far(order, d)
    requires vertex in g && vertex in g[order[head]] && d[vertex] == UNVISITED
    ensures d' == d[vertex := level + 1] && p' == p[vertex := order[head]]
    ensures toBeConnected' == toBeConnected + (if level + 1 > 1 then [vertex] else [])
    ensures Framed(g, d, p, d', p') && order' == order + [vertex] && d'[vertex] == level + 1
    ensures forall k :: k in g && d[k] != UNVISITED ==> d'[k] == d[k]
    ensures Searching(g, root, d', p', order', pos', head, mid, level)
    ensures queue' == order'[head..] && toBeConnected' == Far(order', d')
  {
    var current := queue[0];
    QueueHead(queue, order, head);
    d' := d[vertex := d[current] + 1];
    p' := p[vertex := current];
    queue' := queue + [vertex];
    order' := order + [vertex];
    pos' := pos[vertex := |order|];
    Discover(g, root, d, p, order, pos, head, mid, level, current, vertex, d', p', order', pos');
    Relabel(g, d, p, vertex, d[current] + 1, current);
    QueueAppend(queue, order, head, vertex);
    FarAppend(order, d, vertex, d[current] + 1);
    toBeConnected' := toBeConnected;
    if d'[vertex] > 1 {
      toBeConnected' := toBeConnected + [vertex];
    }
  }

  /** The inner loop of `connectEdgesToRootBFS`: every neighbour of the vertex
      at the head of the queue is reached once its list has been scanned; the
      head stays in place. */
  method ExpandHead<T(==)>(g: map<T, seq<T>>, root: T, d: map<T, int>, p: map<T, T>,
                           queue: seq<T>, toBeConnected: seq<T>,
                           ghost order: seq<T>, ghost pos: map<T, nat>, ghost head: nat, ghost mid: nat, ghost level: int)
    returns (d': map<T, int>, p': map<T, T>, queue': seq<T>, toBeConnected': seq<T>,
             ghost order': seq<T>, ghost pos': map<T, nat>)
    requires Searching(g, root, d, p, order, pos, head, mid, level) && head < mid
    requires queue == order[head..] && toBeConnected == Far(order, d)
    ensures Searching(g, root, d', p', order', pos', head, mid, level)
    ensures queue' == order'[head..] && toBeConnected' == Far(order', d')
    ensures |order| <= |order'| && order'[head] == order[head]
    ensures forall jj :: 0 <= jj < |g[order[head]]| ==>
      g[order[head]][jj] in g && d'[g[order[head]][jj]] != UNVISITED && d'[g[order[head]][jj]] <= level + 1
    ensures Framed(g, d, p, d', p')
  {
    var current := queue[0];
    var neighbours := g[current];
    d', p', queue', toBeConnected', order', pos' := d, p, queue, toBeConnected, order, pos;
    var j := 0;
    while j < |neighbours|
      invariant 0 <= j <= |neighbours|
      invariant Searching(g, root, d', p', order', pos', head, mid, level)
      invariant |order| <= |order'| && current == order'[head]
      invariant queue' == order'[head..] && toBeConnected' == Far(order', d')
      invariant forall jj :: 0 <= jj < j ==>
        neighbours[jj] in g && d'[neighbours[jj]] != UNVISITED && d'[neighbours[jj]] <= level + 1
      invariant Framed(g, d, p, d', p')
    {
      var vertex := neighbours[j];
      ghost var dPrev, pPrev := d', p';
      if d'[vertex] == UNVISITED {
        d', p', queue', toBeConnected', order', pos' :=
          Enqueue(g, root, d', p', queue', toBeConnected', order', pos', head, mid, level, vertex);
        FramedTrans(g, d, p, dPrev, pPrev, d', p');
      } else {
        ReachedBound(g, root, d', p', order', pos', head, mid, level, vertex);
      }
      StillReached(g, dPrev, d', neighbours, j, level);
      j := j + 1;
    }
  }

  /** The queue loop of `connectEdgesToRootBFS`: the breadth-first search
      itself, from a graph whose keys have just been reset. Returns the new
      labels and the vertices found more than one hop from the root, in the
      order they were found; the ghost `order` lists every vertex placed on
      the queue, in queue order. */
  method Explore<T(==)>(g: map<T, seq<T>>, root: T, d0: map<T, int>, p0: map<T, T>)
    returns (d: map<T, int>, p: map<T, T>, toBeConnected: seq<T>, ghost order: seq<T>)
    requires Closed(g) && root in g && |g| <= UNVISITED
    requires IsReset(g, d0, p0)
    ensures Labelled(g, root, d, p)
    // every vertex is enqueued at most once, and exactly the reached ones are
    ensures Distinct(order) && |order| > 0 && order[0] == root
    ensures forall i :: 0 <= i < |order| ==> order[i] in g
    ensures forall k :: k in g ==> (k in order <==> d[k] != UNVISITED)
    ensures toBeConnected == Far(order, d) && Distinct(toBeConnected)
    ensures forall i :: 0 <= i < |toBeConnected| ==>
      toBeConnected[i] in g && d[toBeConnected[i]] != UNVISITED && d[toBeConnected[i]] > 1
    ensures Framed(g, d0, p0, d, p)
  {
    d, p := d0[root := 0], p0;
    var queue := [root];
    toBeConnected := [];
    order := [root];
    ghost var pos: map<T, nat> := map[root := 0];
    ghost var head: nat, mid: nat, level: int := 0, 1, 0;
    SearchStart(g, root, d0, p0);
    while queue != []
      invariant Searching(g, root, d, p, order, pos, head, mid, level) && (head < mid || head == |order|)
      invariant queue == order[head..] && toBeConnected == Far(order, d)
      invariant Framed(g, d0, p0, d, p)
      decreases |g| - |order|, |queue|
    {
      ghost var dPrev, pPrev := d, p;
      d, p, queue, toBeConnected, order, pos :=
        ExpandHead(g, root, d, p, queue, toBeConnected, order, pos, head, mid, level);
      FramedTrans(g, d0, p0, dPrev, pPrev, d, p);
      ghost var mid': nat, level' := if head + 1 == mid then |order| else mid, if head + 1 == mid then level + 1 else level;
      Advance(g, root, d, p, order, pos, head, mid, level, mid', level');
      QueueAdvance(queue, order, head);
      queue := queue[1..];
      head, mid, level := head + 1, mid', level';
    }
    SearchDone(g, root, d, p, order, pos, head, mid, level);
    FarDistinct(order, d);
    FarMembers(order, d);
  }

  /** The path loop of `connectEdgesToRootBFS`: walks the parent pointers from
      `vertex` to the root, collecting each parent, and appends the root last. */
  method PathToRoot<T(==)>(g: map<T, seq<T>>, root: T, d: map<T, int>, p: map<T, T>, vertex: T)
    returns (path: seq<T>)
    requires Labelled(g, root, d, p)
    requires vertex in g && d[vertex] != UNVISITED && vertex != root
    ensures path == ParentChain(p, vertex, d[vertex])
  {
    path := [];
    var current := vertex;
    assert ParentOk(g, d, p, current);
    while p[current] != root
      invariant current in g && d[current] != UNVISITED && current != root
      invariant ParentOk(g, d, p, current)
      invariant path + ParentChain(p, current, d[current]) == ParentChain(p, vertex, d[vertex])
      decreases d[current]
    {
      assert ParentChain(p, current, d[current]) == [p[current]] + ParentChain(p, p[current], d[current] - 1);
      path := path + [p[current]];
      current := p[current];
      assert ParentOk(g, d, p, current);
    }
    assert ParentChain(p, current, d[current]) == [root];
    path := path + [root];
  }

  /** The result of `connectEdgesToRootBFS`: the map from each vertex to be
      connected to its path. */
  method PathsToRoot<T(==)>(g: map<T, seq<T>>, root: T, d: map<T, int>, p: map<T, T>, toBeConnected: seq<T>)
    returns (paths: map<T, seq<T>>)
    requires Labelled(g, root, d, p)
    requires forall i :: 0 <= i < |toBeConnected| ==>
      toBeConnected[i] in g && d[toBeConnected[i]] != UNVISITED && toBeConnected[i] != root
    ensures paths.Keys == set v | v in toBeConnected
    ensures forall v :: v in paths ==> paths[v] == ParentChain(p, v, d[v])
  {
    paths := map[];
    for i := 0 to |toBeConnected|
      invariant paths.Keys == set v | v in toBeConnected[..i]
      invariant forall v :: v in paths ==> v in g && paths[v] == ParentChain(p, v, d[v])
    {
      var vertex := toBeConnected[i];
      var path := PathToRoot(g, root, d, p, vertex);
      paths := paths[vertex := path];
      assert toBeConnected[..i + 1] == toBeConnected[..i] + [vertex];
    }
    assert toBeConnected[..|toBeConnected|] == toBeConnected;
  }
}
