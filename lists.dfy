/** The operations the graph performs on its adjacency lists (Java
    `LinkedList`s), stated on sequences. */
module LinkedLists {

  /** No element occurs twice. */
  predicate Distinct<T(==)>(s: seq<T>)
  {
    forall i, j :: 0 <= i < j < |s| ==> s[i] != s[j]
  }

  /** A list without repetitions drawn from `dom` is no longer than `dom` is large. */
  lemma {:induction false} DistinctBoundedByDomain<T>(s: seq<T>, dom: set<T>)
    requires Distinct(s)
    requires forall i :: 0 <= i < |s| ==> s[i] in dom
    ensures |s| <= |dom|
  {
    if s != [] {
      assert forall i :: 0 <= i < |s[1..]| ==> s[1..][i] == s[i + 1] && s[i + 1] != s[0];
      DistinctBoundedByDomain(s[1..], dom - {s[0]});
    }
  }

  /** The position of the first occurrence of `x`. */
  function FirstIndex<T(==)>(s: seq<T>, x: T): (i: nat)
    requires x in s
    ensures i < |s| && s[i] == x && x !in s[..i]
  {
    if s[0] == x then 0 else 1 + FirstIndex(s[1..], x)
  }

  /** `LinkedList.remove(Object)`: drops the first occurrence of `x`, if there is one. */
  function RemoveFirst<T(==)>(s: seq<T>, x: T): (r: seq<T>)
    ensures |r| == if x in s then |s| - 1 else |s|
    ensures forall y :: y in r ==> y in s
  {
    if s == [] then []
    else if s[0] == x then s[1..]
    else [s[0]] + RemoveFirst(s[1..], x)
  }

  lemma {:induction false} RemoveFirstSpec<T>(s: seq<T>, x: T)
    ensures x !in s ==> RemoveFirst(s, x) == s
    ensures x in s ==> RemoveFirst(s, x) == s[..FirstIndex(s, x)] + s[FirstIndex(s, x) + 1..]
  {
    if s != [] && s[0] != x {
      RemoveFirstSpec(s[1..], x);
      if x in s {
        assert x in s[1..];
        var i := FirstIndex(s[1..], x);
        assert s[..i + 1] == [s[0]] + s[1..][..i];
        assert s[i + 2..] == s[1..][i + 1..];
      } else {
        assert s == [s[0]] + s[1..];
      }
    }
  }

  /** Exactly one copy of `x` goes, when there is one. */
  lemma {:induction false} RemoveFirstMultiset<T>(s: seq<T>, x: T)
    ensures multiset(RemoveFirst(s, x)) == multiset(s) - multiset{x}
    ensures |RemoveFirst(s, x)| == if x in s then |s| - 1 else |s|
  {
    RemoveFirstSpec(s, x);
    if x in s {
      var i := FirstIndex(s, x);
      var a, b := s[..i], s[i + 1..];
      assert RemoveFirst(s, x) == a + b;
      assert s == a + [x] + b;
      assert multiset(s) == multiset(a) + multiset{x} + multiset(b);
    }
  }

  /** The list with every occurrence of `x` dropped, the others in their order. */
  function Without<T(==)>(s: seq<T>, x: T): seq<T>
  {
    if s == [] then []
    else (if s[0] == x then [] else [s[0]]) + Without(s[1..], x)
  }

  lemma {:induction false} WithoutSpec<T>(s: seq<T>, x: T)
    ensures x !in Without(s, x)
    ensures x !in s ==> Without(s, x) == s
    ensures multiset(Without(s, x)) == multiset(s)[x := 0]
  {
    if s != [] {
      WithoutSpec(s[1..], x);
      assert s == [s[0]] + s[1..];
    }
  }

  /** What is left is exactly the elements other than `x`. */
  lemma {:induction false} WithoutMembers<T>(s: seq<T>, x: T)
    ensures forall y :: y in Without(s, x) <==> y in s && y != x
  {
    if s != [] {
      WithoutMembers(s[1..], x);
      assert s == [s[0]] + s[1..];
    }
  }

  /** The inner loop of `remove` as documented: a scan of `list` that keeps
      every element other than `x`. */
  method RemoveAll<T(==)>(list: seq<T>, x: T) returns (r: seq<T>)
    ensures r == Without(list, x)
  {
    r := [];
    for i := 0 to |list|
      invariant r == Without(list[..i], x)
    {
      assert list[..i + 1] == list[..i] + [list[i]];
      WithoutConcat(list[..i], [list[i]], x);
      if list[i] != x {
        r := r + [list[i]];
      }
    }
    assert list[..|list|] == list;
  }

  /** Dropping `x` commutes with concatenation, so the relative order of the
      remaining elements is kept. */
  lemma {:induction false} WithoutConcat<T>(a: seq<T>, b: seq<T>, x: T)
    ensures Without(a + b, x) == Without(a, x) + Without(b, x)
  {
    if a != [] {
      assert (a + b)[1..] == a[1..] + b;
      WithoutConcat(a[1..], b, x);
    } else {
      assert a + b == b;
    }
  }

  /** The effect of removing inside a for-each loop over a `LinkedList`
      whose iterator is fail-fast. */
  datatype Iteration<T> = Finished(list: seq<T>) | ConcurrentModification

  /** `for (e : list) if (e.equals(x)) list.remove(e);` with the iterator's
      cursor at `cursor`: `hasNext()` compares the cursor with the current
      size, and `next()` fails once the list has been changed. */
  function ForEachRemove<T(==)>(s: seq<T>, x: T, cursor: nat): (r: Iteration<T>)
    requires cursor <= |s|
    // at most one element goes, and only a copy of `x`
    ensures r.Finished? ==> r.list == s || r.list == RemoveFirst(s, x)
    decreases |s| - cursor
  {
    if cursor == |s| then Finished(s)
    else if s[cursor] != x then ForEachRemove(s, x, cursor + 1)
    else
      var t := RemoveFirst(s, x);
      if cursor + 1 < |t| then ConcurrentModification else Finished(t)
  }

  /** The loop as written removes at most one occurrence, and fails unless
      the first occurrence is one of the last two elements. */
  lemma {:induction false} ForEachRemoveOutcome<T>(s: seq<T>, x: T, cursor: nat)
    requires cursor <= |s| && x !in s[..cursor]
    ensures ForEachRemove(s, x, cursor) ==
      if x !in s then Finished(s)
      else if FirstIndex(s, x) + 2 < |s| then ConcurrentModification
      else Finished(RemoveFirst(s, x))
    decreases |s| - cursor
  {
    if cursor == |s| {
      assert s[..cursor] == s;
    } else if s[cursor] != x {
      assert s[..cursor + 1] == s[..cursor] + [s[cursor]];
      ForEachRemoveOutcome(s, x, cursor + 1);
    } else {
      assert x in s;
      RemoveFirstMultiset(s, x);
    }
  }

  /** A list `[a, x, c, e]` makes the as-written loop fail. */
  lemma ForEachRemoveFails()
    ensures ForEachRemove([1, 2, 3, 4], 2, 0) == ConcurrentModification
  {
    ForEachRemoveOutcome([1, 2, 3, 4], 2, 0);
  }

  /** A list `[a, x, x]` keeps its second `x` after the as-written loop. */
  lemma ForEachRemoveKeepsDuplicate()
    ensures ForEachRemove([1, 2, 2], 2, 0) == Finished([1, 2])
  {
    ForEachRemoveOutcome([1, 2, 2], 2, 0);
  }
}
