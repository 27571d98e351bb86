# Simple-Graph-Java in Dafny

The model covers a small directed graph held as adjacency lists. `Graph`
maps each vertex to the ordered list of vertices it has an edge to. Vertices
are added, removed and connected by directed or undirected edges. The one
algorithm is `connectEdgesToRootBFS`, a breadth-first search from a root
vertex. It labels every vertex with its hop distance and a parent, and
records the vertices more than one hop from the root in the order they are
found. For each of those it then rebuilds the chain of parents back to the
root. `Vertex` wraps a payload. Two vertices are equal when their payloads
are, every vertex has hash code 1, and each vertex carries the search's
scratch fields `distance` and `parentVertex`.

Layout:

- `vertex.dfy`, module `Vertices`: the `Vertex` class with its payload,
  32-bit distance and parent reference, `equals`, `hashCode`, the getters
  and the setters.
- `lists.dfy`, module `LinkedLists`: the `LinkedList` operations the graph
  uses, stated on sequences. These are `remove(Object)` (`RemoveFirst`), the
  documented effect of `remove(vertex)` on each list (`Without`,
  `RemoveAll`), and the for-each loop of `remove` as written
  (`ForEachRemove`).
- `adjacency.dfy`, module `Adjacency`: the adjacency map as a value.
  `Closed` says every listed vertex is a key, `IsWalk` says a sequence
  follows edges, and `AddedAll` is the effect of `add(Vertex...)`.
- `bfs.dfy`, module `Bfs`: the search and the path rebuild, as methods on
  values with loop invariants. Alongside them are the specification
  predicates (`Labelled`, `ParentChain`, `Far`) and the lemmas about them.
- `graph.dfy`, module `Graphs`: the `Graph` class. Its field `adjLists`
  holds the adjacency map. The fields `distance` and `parent` hold each
  vertex's scratch labels, keyed by vertex.

Vertices are identified by their payloads: the type parameter `T` stands
for the payload, and `==` on it is `Vertex.equals`. A vertex missing from
`distance` has Java's default distance 0. A vertex missing from `parent` has
a null parent. `UNVISITED` is `Integer.MAX_VALUE`.

Preconditions follow the calls that would throw a `NullPointerException` in
Java. `removeConnection` and `addDirectedEdge` need `a` to be a key.
`addUndirectedEdge` needs both ends to be keys. The search needs the root to
be a key, because the root's list is looked up first. It also requires every
listed vertex to be a key (`Closed`). That is stronger than the program
needs, and "## Left out" says what it excludes.

The distance and parent of a vertex appear twice in the model. The `Vertex`
class has them as its fields, with the getters and setters of `Vertex.java`.
The search works on the maps `Graph.distance` and `Graph.parent`, which stand
for those fields of all the vertices at once. An update of `distance[v]` in the
model stands for `v.setDistance(...)` in the program.

The path rebuild follows the code. The loop stops at the vertex whose parent
is the root, after it has already added that vertex. So each path starts
with the parent of the target, includes the root's child, ends with the
root, and has exactly as many elements as the target's distance. For the
chain root → A → B → C this gives B ↦ [A, root] and C ↦ [B, A, root]
(`Bfs.ChainExample`).

## Model

| member | source | states |
|---|---|---|
| Vertices.Vertex.constructor | Vertex.java:29 | the payload is stored; distance starts at 0 and the parent at null, Java's field defaults |
| Vertices.Vertex.Equals | Vertex.java:12-18 | false for null and for a non-vertex, true for the same object, otherwise true exactly when the payloads are equal |
| Vertices.EqualsIsEquivalence | Vertex.java:12-18 | `equals` between vertices is reflexive, symmetric and transitive |
| Vertices.Vertex.HashCode | Vertex.java:25-27 | every vertex hashes to 1 |
| Vertices.Vertex.GetDistance | Vertex.java:31 | returns the distance field, so with `SetDistance` a value set is read back |
| Vertices.Vertex.GetParentVertex | Vertex.java:32 | returns the parent field, so with `SetParentVertex` a parent set is read back |
| Vertices.HashCodeAgreesWithEquals | Vertex.java:25-27 | every hash is 1, so equal vertices have equal hashes |
| Vertices.Vertex.SetDistance | Vertex.java:33 | `getDistance` then returns the value set, and the parent is unchanged |
| Vertices.Vertex.SetParentVertex | Vertex.java:34 | `getParentVertex` then returns the vertex set, and the distance is unchanged |
| Graphs.Graph.constructor | Graph.java:19-21 | the graph starts with no vertices and no labels |
| Graphs.Graph.FromVertices | Graph.java:27-30 | the graph is the empty graph with `add` applied to each given vertex in turn |
| Graphs.Graph.Add | Graph.java:36-40 | the vertex becomes a key whose list is exactly itself, replacing any earlier list; every other entry is unchanged and a closed graph stays closed |
| Graphs.Graph.AddAll | Graph.java:46-50 | the map is `AddedAll` of the old map and the vertices, i.e. `add` applied left to right |
| Adjacency.AddedAll | Graph.java:46-50 | the keys gain exactly the given vertices, each of them maps to the list of itself, and every other key keeps its list |
| Graphs.Graph.Contains | Graph.java:57-62 | returns true if and only if some key equals the vertex |
| Graphs.Graph.Remove | Graph.java:64-77 | as documented: the vertex stops being a key, every remaining list loses all its occurrences with the other elements in order, no list still contains it, and a closed graph stays closed |
| LinkedLists.RemoveAll | Graph.java:71-75 | the inner scan keeps exactly the elements other than the vertex, in order (`Without`) |
| LinkedLists.WithoutSpec | Graph.java:64-77 | after dropping every `x` none is left, a list without `x` is unchanged, and the multiset loses exactly its copies of `x` |
| LinkedLists.WithoutMembers | Graph.java:64-77 | an element stays exactly when it was there and is not `x` |
| LinkedLists.WithoutConcat | Graph.java:71-75 | dropping `x` distributes over concatenation, so the remaining elements keep their relative order |
| LinkedLists.ForEachRemove | Graph.java:70-75 | the for-each loop with `list.remove` as written, on one list: when it finishes, the list is unchanged or has lost only its first `x` |
| LinkedLists.ForEachRemoveOutcome | Graph.java:70-75 | the for-each loop as written leaves a list without `x` alone; it fails when the first `x` is followed by two or more elements, and otherwise removes only that first `x` |
| LinkedLists.ForEachRemoveFails | Graph.java:70-75 | on `[1, 2, 3, 4]` removing 2 ends in a `ConcurrentModificationException` |
| LinkedLists.ForEachRemoveKeepsDuplicate | Graph.java:70-75 | on `[1, 2, 2]` removing 2 leaves `[1, 2]` |
| Graphs.Graph.RemoveConnection | Graph.java:84-86 | only the first `b` leaves `a`'s list, which is unchanged when `b` is absent; all other lists are untouched |
| LinkedLists.RemoveFirst | Graph.java:85 | `LinkedList.remove(b)`: the list loses one element exactly when it contains `b`, and gains none |
| LinkedLists.RemoveFirstSpec | Graph.java:85 | `remove(b)` leaves a list without `b` unchanged and otherwise cuts out exactly the element at the first index of `b` |
| LinkedLists.RemoveFirstMultiset | Graph.java:85 | exactly one copy of `b` goes when there is one, and the length drops by one exactly then |
| LinkedLists.FirstIndex | Graph.java:85 | the index found holds `b` and no earlier element is `b` |
| Graphs.Graph.AddUndirectedEdge | Graph.java:93-96 | `b` is appended to `a`'s list and `a` to `b`'s (a self-loop appends twice); nothing else changes |
| Graphs.Graph.AddDirectedEdge | Graph.java:103-105 | `b` is appended to `a`'s list and no other list changes; the graph stays closed when `b` is a key |
| Graphs.Graph.ResetLabels | Graph.java:113-116 | every key gets distance `Integer.MAX_VALUE` and a null parent, the lists are unchanged, and the labels of non-keys are kept |
| Graphs.Graph.ConnectEdgesToRootBFS | Graph.java:112-147 | the lists are unchanged and the labels are a complete search labelling; the result's keys are exactly the reached vertices at distance greater than 1, each mapped to its chain of parents ending with the root; the labels of non-keys are kept |
| Bfs.Explore | Graph.java:117-134 | the search leaves a complete labelling (`Labelled`); exactly the reached keys are enqueued, each once, the root first; the recorded vertices are, in discovery order, the enqueued ones more than one hop away, each once |
| Bfs.ExpandHead | Graph.java:122-132 | after scanning the head's list every neighbour of the head is reached at most one hop beyond it; the search invariant is kept and the head stays in place |
| Bfs.Enqueue | Graph.java:124-130 | an unvisited neighbour gets distance one more than the head and the head as parent, and no other label changes; it goes to the end of the queue, and is appended to the recorded vertices exactly when its distance exceeds 1 |
| Bfs.Discover | Graph.java:124-127 | labelling and enqueueing an unvisited neighbour keeps the search invariant `Searching` |
| Bfs.DiscoverQueued | Graph.java:124-127 | the queue stays ordered by distance and holds each reached key once, so the queue never outgrows the key set |
| Bfs.DiscoverParented | Graph.java:125-126 | every reached vertex other than the root keeps a reached parent, one hop nearer, whose list contains it |
| Bfs.DiscoverExpanded | Graph.java:124-127 | the neighbours of dequeued vertices stay reached and at most one hop further |
| Bfs.ReachedBound | Graph.java:124 | a vertex already reached lies at most one hop beyond the head of the queue |
| Bfs.Advance | Graph.java:133 | removing the scanned head keeps the search invariant; when a distance level is used up, the queue holds exactly the next level |
| Bfs.AdvanceExpanded | Graph.java:133 | once its list is scanned, the removed head counts as expanded |
| Bfs.SearchStart | Graph.java:119-120 | the root alone on the queue at distance 0 satisfies the search invariant, and nothing is recorded yet |
| Bfs.SearchDone | Graph.java:121 | with the queue empty the labelling is complete and the enqueued vertices are distinct and exactly the reached keys |
| Bfs.FarAppend | Graph.java:128-130 | a newly enqueued vertex is recorded exactly when its distance exceeds 1 |
| Bfs.FarMembers | Graph.java:128-130 | the recorded vertices are exactly the enqueued ones at distance greater than 1 |
| Bfs.FarIn | Graph.java:128-130 | a vertex is recorded if and only if it was enqueued and its distance exceeds 1 |
| Bfs.FarDistinct | Graph.java:128-130 | no vertex is recorded twice |
| Bfs.ConnectedVertices | Graph.java:128-130 | the recorded vertices are exactly the reached keys at distance greater than 1 |
| Bfs.RootNeighbours | Graph.java:128 | a direct neighbour of the root has distance 1 and the root as parent, so it is never recorded |
| Bfs.AwayFromRoot | Graph.java:125 | every reached vertex other than the root is at distance at least 1 |
| Bfs.ShortestDistances | Graph.java:117-134 | distances are shortest hop counts: every walk from the root to a key has at least its distance in hops, and the parent pointers give one with exactly that many |
| Bfs.Reachability | Graph.java:113-134 | a key is reached if and only if some walk from the root ends at it; an unreached key keeps `Integer.MAX_VALUE` and has no parent |
| Bfs.WalkLowerBound | Graph.java:121-134 | every walk from the root ends at a reached key whose distance is at most the walk's length |
| Bfs.RootWalkFacts | Graph.java:125-126 | following parents from a reached key back to the root gives a walk of exactly its distance in hops |
| Bfs.PathToRoot | Graph.java:137-143 | the loop collects the chain of parents of the vertex, ending with the root |
| Bfs.PathsToRoot | Graph.java:135-146 | the map's keys are the recorded vertices, each mapped to its chain of parents |
| Bfs.ParentChainFacts | Graph.java:137-143 | a path has as many elements as the target's distance, starts with its parent, ends with the root, steps from each vertex to its parent along an edge, places the `i`-th element `d - 1 - i` hops from the root, and does not contain the target |
| Bfs.ParentChainDistances | Graph.java:137-143 | the length, first and last elements and per-position distances of a path |
| Bfs.ParentChainSteps | Graph.java:139-141 | each element of a path is a key whose parent is the next element, with an edge from it |
| Bfs.ChainExample | Graph.java:135-146 | for root 0 with edges 0 → 1 → 2 → 3, vertex 2 gets the path `[1, 0]` and vertex 3 the path `[2, 1, 0]` |

## Left out

- `compareTo` (Vertex.java:21-23) and `getObject` (Vertex.java:30) do not compile as written and the graph never calls them. Only the stored payload is modelled.
- Object identity: a vertex is identified with its payload, so the model assumes one `Vertex` object per payload. In Java the scratch fields live on objects. The reset loop writes them on the key objects, while the search reads them on the list elements and on the `rootVertex` argument. A list element, or the argument, that is a different object with an equal payload would keep stale labels. The model does not capture that.
- The reference comparison `current.getParentVertex() != rootVertex` (Graph.java:139) becomes equality of payloads, for the same reason.
- `HashMap` buckets and the cost of the constant hash code: only the map's key/value behaviour is modelled.
- Graphs.Graph.Remove: states the documented result, not the loop as written. The for-each loop with `list.remove` throws a `ConcurrentModificationException` on most lists that contain the vertex, and it keeps later duplicates. `LinkedLists.ForEachRemove` models that loop on a single list (see Findings). The order in which `HashMap.values()` visits the lists is not modelled: the loop picks any list not yet scanned.
- Graphs.Graph.Contains: iterates over the key set in an unspecified order, as `HashMap.keySet()` does; the order does not affect the result.
- Graphs.Graph.ResetLabels: visits the keys in an unspecified order, as `keySet()` does.
- Graphs.Graph.ConnectEdgesToRootBFS: requires `Closed`, so it excludes graphs with dangling edges, i.e. a listed vertex that is not a key. `addDirectedEdge` and `addUndirectedEdge` can create such edges. The program still searches those graphs. The reset loop skips a listed non-key. If its leftover distance is not `Integer.MAX_VALUE`, for example a fresh vertex at distance 0, the search never enqueues it, so its missing list is never looked up. Only a listed non-key whose leftover distance is `Integer.MAX_VALUE` is enqueued and causes a `NullPointerException`. The model does not cover the search on graphs that are not closed.
- Graphs.Graph.ConnectEdgesToRootBFS: requires the graph to have at most `Integer.MAX_VALUE` keys. Then no distance can reach `Integer.MAX_VALUE`, and `current.getDistance() + 1` never overflows a 32-bit `int`. The wrap-around that a larger graph could cause is not modelled.
- Bfs.Explore: the search's labels are kept as unbounded integers, which the bound above keeps below `Integer.MAX_VALUE`. Its ghost outputs and parameters (`order`, `pos`, `head`, `mid`, `level`) are proof bookkeeping and describe no state of the program.
- The `NullPointerException`s from a missing key become preconditions. This covers the search root, the `a` of `addDirectedEdge` and `removeConnection`, and both ends of `addUndirectedEdge`. The search's stronger `Closed` precondition is covered by the `Graphs.Graph.ConnectEdgesToRootBFS` lines above.
- The tie-breaking among shortest parents is not stated: the labelling only promises some parent one hop nearer. Discovery order is kept in the recorded sequence `Far(order, d)`.
- The unused `java.lang.reflect.Array` import and any concurrent use of the scratch fields: the program is single-threaded.

## Findings

| source | as written | input that shows it | evidently intended | confidence | as-written member | corrected member |
|---|---|---|---|---|---|---|
| Graph.java:70-75 | `list.remove(element)` inside a for-each over the same `LinkedList` makes the iterator's next `next()` fail | a list `[1, 2, 3, 4]` while removing vertex 2 | every occurrence of the vertex leaves every list, as the doc comment says | not executed | LinkedLists.ForEachRemoveFails | LinkedLists.WithoutSpec |
| Graph.java:70-75 | when the loop survives, because the removed element was among the last two, it stops after the first removal | a list `[1, 2, 2]` while removing vertex 2 leaves `[1, 2]` | no list still contains the removed vertex | not executed | LinkedLists.ForEachRemoveKeepsDuplicate | Graphs.Graph.Remove |
