/** The stable sort that Array.prototype.sort performs for a consistent comparator, for the two
    comparators of the core (the counter-game ranking and the dashboard's date order). Each
    comparator is expressed as a key compared lexicographically; the modules that use it prove
    that the key agrees with the source's comparator. */
module StableSort {

  /** A sort key, compared lexicographically. */
  type Key = (int, int)

  predicate KeyLess(a: Key, b: Key) {
    a.0 < b.0 || (a.0 == b.0 && a.1 < b.1)
  }

  /** No element is strictly before an element that precedes it. */
  ghost predicate SortedBy<T>(s: seq<T>, key: T -> Key) {
    forall i, j :: 0 <= i < j < |s| ==> !KeyLess(key(s[j]), key(s[i]))
  }

  /** Insert x into s, after every element whose key is not greater than x's. */
  function InsertLast<T>(s: seq<T>, x: T, key: T -> Key): (r: seq<T>)
    ensures multiset(r) == multiset(s) + multiset{x}
    ensures |r| == |s| + 1
    decreases |s|
  {
    if s == [] || !KeyLess(key(x), key(s[|s| - 1])) then s + [x]
    else
      assert s == s[..|s| - 1] + [s[|s| - 1]];
      InsertLast(s[..|s| - 1], x, key) + [s[|s| - 1]]
  }

  /** Insertion sort: the last element is inserted into the sorted prefix. */
  function Sort<T>(s: seq<T>, key: T -> Key): (r: seq<T>)
    ensures multiset(r) == multiset(s)
    ensures |r| == |s|
  {
    if s == [] then []
    else
      assert s == s[..|s| - 1] + [s[|s| - 1]];
      InsertLast(Sort(s[..|s| - 1], key), s[|s| - 1], key)
  }

  /** The elements of s whose key is k, in their order in s. */
  function WithKey<T>(s: seq<T>, key: T -> Key, k: Key): seq<T>
  {
    if s == [] then []
    else WithKey(s[..|s| - 1], key, k) + (if key(s[|s| - 1]) == k then [s[|s| - 1]] else [])
  }

  lemma {:induction false} InsertLastWithKey<T>(s: seq<T>, x: T, key: T -> Key, k: Key)
    ensures WithKey(InsertLast(s, x, key), key, k)
         == WithKey(s, key, k) + (if key(x) == k then [x] else [])
    decreases |s|
  {
    if s == [] || !KeyLess(key(x), key(s[|s| - 1])) {
      WithKeySnoc(s, x, key, k);
    } else {
      var s', y := s[..|s| - 1], s[|s| - 1];
      assert s == s' + [y];
      InsertLastWithKey(s', x, key, k);
      WithKeySnoc(InsertLast(s', x, key), y, key, k);
      WithKeySnoc(s', y, key, k);
      assert key(x) != k || key(y) != k;
    }
  }

  lemma WithKeySnoc<T>(s: seq<T>, x: T, key: T -> Key, k: Key)
    ensures WithKey(s + [x], key, k) == WithKey(s, key, k) + (if key(x) == k then [x] else [])
  {
    assert (s + [x])[..|s|] == s;
  }

  /** Stability: for every key, the elements with that key keep their input order. */
  lemma {:induction false} SortIsStable<T>(s: seq<T>, key: T -> Key, k: Key)
    ensures WithKey(Sort(s, key), key, k) == WithKey(s, key, k)
  {
    if s != [] {
      var s', x := s[..|s| - 1], s[|s| - 1];
      SortIsStable(s', key, k);
      InsertLastWithKey(Sort(s', key), x, key, k);
    }
  }

  lemma {:induction false} InsertLastSorted<T>(s: seq<T>, x: T, key: T -> Key)
    requires SortedBy(s, key)
    ensures SortedBy(InsertLast(s, x, key), key)
    decreases |s|
  {
    if s == [] || !KeyLess(key(x), key(s[|s| - 1])) {
    } else {
      var s', y := s[..|s| - 1], s[|s| - 1];
      InsertLastSorted(s', x, key);
      var r' := InsertLast(s', x, key);
      forall i | 0 <= i < |r'|
        ensures !KeyLess(key(y), key(r'[i]))
      {
        assert r'[i] in multiset(r');
        assert r'[i] in multiset(s') + multiset{x};
        if r'[i] in multiset(s') {
          var j :| 0 <= j < |s'| && s'[j] == r'[i];
          assert s[j] == s'[j];
        }
      }
    }
  }

  /** The result is ordered by key. */
  lemma {:induction false} SortIsSorted<T>(s: seq<T>, key: T -> Key)
    ensures SortedBy(Sort(s, key), key)
  {
    if s != [] {
      SortIsSorted(s[..|s| - 1], key);
      InsertLastSorted(Sort(s[..|s| - 1], key), s[|s| - 1], key);
    }
  }

  lemma SortSnoc<T>(s: seq<T>, i: nat, key: T -> Key)
    requires i < |s|
    ensures Sort(s[..i + 1], key) == InsertLast(Sort(s[..i], key), s[i], key)
  {
    assert s[..i + 1][..i] == s[..i];
  }

  /** Insertion sort in place, as the library sort rearranges the array it is called on. */
  method SortInPlace<T>(a: array<T>, key: T -> Key)
    modifies a
    ensures a[..] == Sort(old(a[..]), key)
  {
    ghost var input := a[..];
    var i := 0;
    while i < a.Length
      invariant 0 <= i <= a.Length
      invariant a[..i] == Sort(input[..i], key)
      invariant forall k :: i <= k < a.Length ==> a[k] == input[k]
    {
      InsertInPlace(a, i, key);
      SortSnoc(input, i, key);
      i := i + 1;
    }
    assert input[..a.Length] == input;
  }

  /** One step of the in-place sort: a[i] moves left past the elements of a[..i] that it
      strictly precedes. */
  method InsertInPlace<T>(a: array<T>, i: nat, key: T -> Key)
    requires i < a.Length
    modifies a
    ensures a[..i + 1] == InsertLast(old(a[..i]), old(a[i]), key)
    ensures a[i + 1..] == old(a[i + 1..])
  {
    var x := a[i];
    ghost var sorted := a[..i];
    ghost var rest := a[i + 1..];
    var j := i;
    while j > 0 && KeyLess(key(x), key(a[j - 1]))
      invariant 0 <= j <= i
      invariant a[..j] == sorted[..j]
      invariant a[j + 1..i + 1] == sorted[j..]
      invariant a[i + 1..] == rest
      invariant forall m :: j <= m < i ==> KeyLess(key(x), key(sorted[m]))
    {
      assert a[j - 1] == sorted[j - 1];
      ShiftRight(a, j, i, sorted, rest);
      j := j - 1;
    }
    assert j > 0 ==> a[j - 1] == sorted[j - 1];
    InsertLastSplit(sorted, j, x, key);
    Place(a, j, i, x, sorted, rest);
  }

  /** InsertLast places x right after the last element it does not strictly precede, when every
      element from there on is strictly after it. */
  lemma {:induction false} InsertLastSplit<T>(s: seq<T>, j: nat, x: T, key: T -> Key)
    requires j <= |s|
    requires j == 0 || !KeyLess(key(x), key(s[j - 1]))
    requires forall m :: j <= m < |s| ==> KeyLess(key(x), key(s[m]))
    ensures InsertLast(s, x, key) == s[..j] + [x] + s[j..]
    decreases |s|
  {
    if |s| == j {
      assert s[..j] == s && s[j..] == [];
    } else {
      var s', y := s[..|s| - 1], s[|s| - 1];
      assert KeyLess(key(x), key(y));
      assert InsertLast(s, x, key) == InsertLast(s', x, key) + [y];
      assert j > 0 ==> s'[j - 1] == s[j - 1];
      InsertLastSplit(s', j, x, key);
      SplitSnoc(s, j, x);
    }
  }

  lemma SplitSnoc<T>(s: seq<T>, j: nat, x: T)
    requires j < |s|
    ensures s[..|s| - 1][..j] + [x] + s[..|s| - 1][j..] + [s[|s| - 1]] == s[..j] + [x] + s[j..]
  {
    assert s[j..] == s[..|s| - 1][j..] + [s[|s| - 1]];
  }

  /** The loop step of InsertInPlace: the element before the gap moves into it. */
  method ShiftRight<T>(a: array<T>, j: nat, i: nat, ghost sorted: seq<T>, ghost rest: seq<T>)
    requires 0 < j <= i < a.Length && |sorted| == i
    requires a[..j] == sorted[..j] && a[j + 1..i + 1] == sorted[j..] && a[i + 1..] == rest
    modifies a
    ensures a[..j - 1] == sorted[..j - 1] && a[j..i + 1] == sorted[j - 1..] && a[i + 1..] == rest
  {
    a[j] := a[j - 1];
    assert a[j..i + 1] == [old(a[j - 1])] + old(a[j + 1..i + 1]);
    assert sorted[j - 1..] == [sorted[j - 1]] + sorted[j..];
  }

  /** The last step of InsertInPlace: the held element fills the gap. */
  method Place<T>(a: array<T>, j: nat, i: nat, x: T, ghost sorted: seq<T>, ghost rest: seq<T>)
    requires j <= i < a.Length && |sorted| == i
    requires a[..j] == sorted[..j] && a[j + 1..i + 1] == sorted[j..] && a[i + 1..] == rest
    modifies a
    ensures a[..i + 1] == sorted[..j] + [x] + sorted[j..] && a[i + 1..] == rest
  {
    a[j] := x;
    assert a[..i + 1] == a[..j] + [x] + a[j + 1..i + 1];
  }
}
