/**
 * Rust's `slice::sort_by_key`: a stable sort by an integer key. The
 * specification is an insertion sort on sequences; the method sorts an
 * array in place and is proved to produce the same sequence.
 */
module SortByKey {

  predicate Sorted<T>(s: seq<T>, key: T -> int) {
    forall i, j :: 0 <= i < j < |s| ==> key(s[i]) <= key(s[j])
  }

  /** Puts `x` behind every leading element whose key is not greater than its own. */
  function Insert<T>(s: seq<T>, x: T, key: T -> int): (r: seq<T>)
    ensures |r| == |s| + 1
  {
    if s == [] then [x]
    else if key(x) < key(s[0]) then [x] + s
    else [s[0]] + Insert(s[1..], x, key)
  }

  /** The stable sort: insert the elements one by one, left to right. */
  function Sort<T>(s: seq<T>, key: T -> int): (r: seq<T>)
    ensures |r| == |s|
    decreases |s|
  {
    if s == [] then [] else Insert(Sort(s[..|s| - 1], key), s[|s| - 1], key)
  }

  /** The elements of `s` whose key is `k`, in their order in `s`. */
  function WithKey<T>(s: seq<T>, key: T -> int, k: int): seq<T> {
    if s == [] then []
    else (if key(s[0]) == k then [s[0]] else []) + WithKey(s[1..], key, k)
  }

  lemma {:induction false} InsertPermutes<T>(s: seq<T>, x: T, key: T -> int)
    ensures multiset(Insert(s, x, key)) == multiset(s) + multiset{x}
    decreases |s|
  {
    if s != [] && key(x) >= key(s[0]) {
      InsertPermutes(s[1..], x, key);
      assert s == [s[0]] + s[1..];
    }
  }

  /** Every element of the result of `Insert` is `x` or an element of `s`. */
  lemma InsertElements<T>(s: seq<T>, x: T, key: T -> int, y: T)
    requires y in Insert(s, x, key)
    ensures y == x || y in s
  {
  }

  lemma {:induction false} InsertKeepsSorted<T>(s: seq<T>, x: T, key: T -> int)
    requires Sorted(s, key)
    ensures Sorted(Insert(s, x, key), key)
    decreases |s|
  {
    if s != [] && key(x) >= key(s[0]) {
      var t := Insert(s[1..], x, key);
      InsertKeepsSorted(s[1..], x, key);
      forall y | y in t ensures key(s[0]) <= key(y) {
        InsertElements(s[1..], x, key, y);
      }
      var r := [s[0]] + t;
      assert r[1..] == t;
      forall i, j | 0 <= i < j < |r| ensures key(r[i]) <= key(r[j]) {
        assert r[j] == t[j - 1] && r[j] in t;
        if i > 0 { assert r[i] == t[i - 1]; }
      }
    }
  }

  /** A list whose keys all exceed `k` has no element with key `k`. */
  lemma {:induction false} WithKeyNone<T>(s: seq<T>, key: T -> int, k: int)
    requires forall i :: 0 <= i < |s| ==> key(s[i]) > k
    ensures WithKey(s, key, k) == []
    decreases |s|
  {
    if s != [] {
      WithKeyNone(s[1..], key, k);
    }
  }

  /** The case of `WithKeyInsert` where `x` goes in front of a sorted list. */
  lemma WithKeyInsertFront<T>(s: seq<T>, x: T, key: T -> int, k: int)
    requires Sorted(s, key) && s != [] && key(x) < key(s[0])
    ensures WithKey([x] + s, key, k) == WithKey(s, key, k) + (if key(x) == k then [x] else [])
  {
    var r := [x] + s;
    assert r[0] == x && r[1..] == s;
    assert WithKey(r, key, k) == (if key(x) == k then [x] else []) + WithKey(s, key, k);
    if key(x) == k {
      forall i | 0 <= i < |s| ensures key(s[i]) > k {
        assert key(s[0]) <= key(s[i]);
      }
      WithKeyNone(s, key, k);
    }
  }

  /** On a sorted list, `Insert` puts `x` behind every element with the same key. */
  lemma {:induction false} WithKeyInsert<T>(s: seq<T>, x: T, key: T -> int, k: int)
    requires Sorted(s, key)
    ensures WithKey(Insert(s, x, key), key, k) ==
            WithKey(s, key, k) + (if key(x) == k then [x] else [])
    decreases |s|
  {
    var own := if key(x) == k then [x] else [];
    if s == [] {
      assert WithKey([x], key, k) == own + WithKey([], key, k);
    } else if key(x) < key(s[0]) {
      WithKeyInsertFront(s, x, key, k);
    } else {
      var head := if key(s[0]) == k then [s[0]] else [];
      var t := Insert(s[1..], x, key);
      var r := [s[0]] + t;
      assert r[0] == s[0] && r[1..] == t;
      assert WithKey(r, key, k) == head + WithKey(t, key, k);
      assert Sorted(s[1..], key);
      WithKeyInsert(s[1..], x, key, k);
      assert WithKey(s, key, k) == head + WithKey(s[1..], key, k);
    }
  }

  lemma {:induction false} WithKeyAppend<T>(a: seq<T>, b: seq<T>, key: T -> int, k: int)
    ensures WithKey(a + b, key, k) == WithKey(a, key, k) + WithKey(b, key, k)
    decreases |a|
  {
    if a == [] {
      assert a + b == b;
    } else {
      var head := if key(a[0]) == k then [a[0]] else [];
      assert (a + b)[0] == a[0] && (a + b)[1..] == a[1..] + b;
      assert WithKey(a + b, key, k) == head + WithKey(a[1..] + b, key, k);
      WithKeyAppend(a[1..], b, key, k);
      assert WithKey(a, key, k) == head + WithKey(a[1..], key, k);
    }
  }

  lemma {:induction false} SortPermutes<T>(s: seq<T>, key: T -> int)
    ensures multiset(Sort(s, key)) == multiset(s)
    ensures |Sort(s, key)| == |s|
    decreases |s|
  {
    if s != [] {
      var front := s[..|s| - 1];
      assert s == front + [s[|s| - 1]];
      SortPermutes(front, key);
      InsertPermutes(Sort(front, key), s[|s| - 1], key);
      assert |multiset(Sort(s, key))| == |multiset(s)|;
    }
  }

  lemma {:induction false} SortSorted<T>(s: seq<T>, key: T -> int)
    ensures Sorted(Sort(s, key), key)
    decreases |s|
  {
    if s != [] {
      SortSorted(s[..|s| - 1], key);
      InsertKeepsSorted(Sort(s[..|s| - 1], key), s[|s| - 1], key);
    }
  }

  lemma {:induction false} SortStable<T>(s: seq<T>, key: T -> int, k: int)
    ensures WithKey(Sort(s, key), key, k) == WithKey(s, key, k)
    decreases |s|
  {
    if s != [] {
      var front, last := s[..|s| - 1], s[|s| - 1];
      assert s == front + [last];
      SortStable(front, key, k);
      SortSorted(front, key);
      WithKeyInsert(Sort(front, key), last, key, k);
      WithKeyAppend(front, [last], key, k);
      assert WithKey([last], key, k) == (if key(last) == k then [last] else []) + WithKey([], key, k);
    }
  }

  /**
   * `Sort` returns a sorted permutation of its input, and it is stable:
   * the elements sharing a key keep their relative order.
   */
  lemma SortSpec<T>(s: seq<T>, key: T -> int)
    ensures Sorted(Sort(s, key), key)
    ensures multiset(Sort(s, key)) == multiset(s)
    ensures |Sort(s, key)| == |s|
    ensures forall k :: WithKey(Sort(s, key), key, k) == WithKey(s, key, k)
  {
    SortSorted(s, key);
    SortPermutes(s, key);
    forall k ensures WithKey(Sort(s, key), key, k) == WithKey(s, key, k) {
      SortStable(s, key, k);
    }
  }

  /** On a sorted list, `Insert` puts `x` at the boundary `j` between not-greater and greater keys. */
  lemma {:induction false} InsertAt<T>(s: seq<T>, x: T, key: T -> int, j: int)
    requires 0 <= j <= |s|
    requires forall i :: 0 <= i < j ==> key(s[i]) <= key(x)
    requires forall i :: j <= i < |s| ==> key(s[i]) > key(x)
    ensures Insert(s, x, key) == s[..j] + [x] + s[j..]
    decreases j
  {
    if j == 0 {
      assert s[..0] == [] && s[0..] == s;
    } else {
      InsertAt(s[1..], x, key, j - 1);
      assert s[1..][..j - 1] == s[1..j] && s[1..][j - 1..] == s[j..];
      assert s[..j] == [s[0]] + s[1..j];
    }
  }

  /**
   * One step of the insertion sort: `a[i]` moves left past the larger keys
   * of the sorted prefix `a[..i]`.
   */
  method InsertInPlace<T>(a: array<T>, i: int, key: T -> int)
    requires 0 <= i < a.Length
    requires Sorted(a[..i], key)
    modifies a
    ensures a[..i + 1] == Insert(old(a[..i]), old(a[i]), key)
    ensures forall m :: i < m < a.Length ==> a[m] == old(a[m])
  {
    ghost var sorted := a[..i];
    var x := a[i];
    var j := i;
    // a[j] is the hole that x will fill; the larger keys move one place right.
    while j > 0 && key(a[j - 1]) > key(x)
      invariant 0 <= j <= i
      invariant forall m :: 0 <= m < j ==> a[m] == sorted[m]
      invariant forall m :: j < m <= i ==> a[m] == sorted[m - 1]
      invariant forall m :: j <= m < i ==> key(sorted[m]) > key(x)
      invariant forall m :: i < m < a.Length ==> a[m] == old(a[m])
    {
      a[j] := a[j - 1];
      j := j - 1;
    }
    a[j] := x;
    assert j > 0 ==> key(sorted[j - 1]) <= key(x);
    FilledHoleIsInsert(sorted, x, key, j, a[..i + 1]);
  }

  /**
   * The array state the insertion step leaves: the prefix up to the hole,
   * then `x`, then the shifted larger keys, is what `Insert` computes.
   */
  lemma FilledHoleIsInsert<T>(sorted: seq<T>, x: T, key: T -> int, j: int, r: seq<T>)
    requires Sorted(sorted, key)
    requires 0 <= j <= |sorted| && |r| == |sorted| + 1
    requires forall m :: 0 <= m < j ==> r[m] == sorted[m]
    requires r[j] == x
    requires forall m :: j < m < |r| ==> r[m] == sorted[m - 1]
    requires forall m :: j <= m < |sorted| ==> key(sorted[m]) > key(x)
    requires j > 0 ==> key(sorted[j - 1]) <= key(x)
    ensures r == Insert(sorted, x, key)
  {
    forall m | 0 <= m < j ensures key(sorted[m]) <= key(x) {
      assert key(sorted[m]) <= key(sorted[j - 1]);
    }
    InsertAt(sorted, x, key, j);
    Splice(sorted, x, j, r);
  }

  /** A sequence that agrees with `s[..j] + [x] + s[j..]` at every index is that sequence. */
  lemma Splice<T>(s: seq<T>, x: T, j: int, r: seq<T>)
    requires 0 <= j <= |s| && |r| == |s| + 1
    requires forall m :: 0 <= m < j ==> r[m] == s[m]
    requires r[j] == x
    requires forall m :: j < m < |r| ==> r[m] == s[m - 1]
    ensures r == s[..j] + [x] + s[j..]
  {
    var expected := s[..j] + [x] + s[j..];
    forall m | 0 <= m < |r| ensures r[m] == expected[m] {
      if m < j {
        assert expected[m] == s[m];
      } else if m > j {
        assert expected[m] == s[m - 1];
      }
    }
  }

  /** In-place insertion sort, left to right. */
  method SortInPlace<T>(a: array<T>, key: T -> int)
    modifies a
    ensures a[..] == Sort(old(a[..]), key)
  {
    ghost var input := a[..];
    for i := 0 to a.Length
      invariant a[..i] == Sort(input[..i], key)
      invariant forall m :: i <= m < a.Length ==> a[m] == input[m]
    {
      SortSorted(input[..i], key);
      InsertInPlace(a, i, key);
      assert input[..i + 1][..i] == input[..i];
      assert input[..i + 1][i] == input[i];
    }
    assert a[..] == a[..a.Length];
    assert input[..a.Length] == input;
  }
}
