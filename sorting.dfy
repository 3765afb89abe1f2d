/** `Array.prototype.sort` with a numeric comparator `(a, b) => key(a) - key(b)`:
    a stable sort, ascending by an integer key. `SortBy` is the specification
    (insertion sort on sequences); `SortInPlace` sorts an array in place. */
module Sorting {
  import opened Seqs

  ghost predicate Sorted<T>(s: seq<T>, key: T -> int)
  {
    forall i, j :: 0 <= i < j < |s| ==> key(s[i]) <= key(s[j])
  }

  /** Inserts `x` after every element whose key is not greater than its key. */
  function Ins<T>(s: seq<T>, x: T, key: T -> int): seq<T>
    decreases |s|
  {
    if |s| == 0 || key(s[|s| - 1]) <= key(x) then s + [x]
    else Ins(s[..|s| - 1], x, key) + [s[|s| - 1]]
  }

  lemma {:induction false} InsMultiset<T>(s: seq<T>, x: T, key: T -> int)
    ensures multiset(Ins(s, x, key)) == multiset(s) + multiset{x}
    ensures |Ins(s, x, key)| == |s| + 1
    decreases |s|
  {
    if |s| > 0 && key(s[|s| - 1]) > key(x) {
      var s' := s[..|s| - 1];
      assert s == s' + [s[|s| - 1]];
      InsMultiset(s', x, key);
    }
  }

  lemma {:induction false} InsSorted<T>(s: seq<T>, x: T, key: T -> int)
    requires Sorted(s, key)
    ensures Sorted(Ins(s, x, key), key)
    decreases |s|
  {
    if |s| > 0 && key(s[|s| - 1]) > key(x) {
      var s', last := s[..|s| - 1], s[|s| - 1];
      InsSorted(s', x, key);
      InsMultiset(s', x, key);
      var t := Ins(s', x, key);
      forall i | 0 <= i < |t| ensures key(t[i]) <= key(last) {
        assert t[i] in multiset(t);
        assert t[i] in s' || t[i] == x;
      }
    }
  }

  /** Insertion keeps, for every key value, the order of the elements with that value,
      and puts `x` last among them. */
  lemma {:induction false} InsStable<T>(s: seq<T>, x: T, key: T -> int, v: int)
    ensures WithKey(Ins(s, x, key), key, v) == WithKey(s, key, v) + (if key(x) == v then [x] else [])
    decreases |s|
  {
    if |s| == 0 || key(s[|s| - 1]) <= key(x) {
      WithKeySnoc(s, x, key, v);
    } else {
      var s', last := s[..|s| - 1], s[|s| - 1];
      assert s == s' + [last];
      InsStable(s', x, key, v);
      WithKeySnoc(Ins(s', x, key), last, key, v);
      WithKeySnoc(s', last, key, v);
    }
  }

  /** When the elements from position `j` on are exactly those with a greater key,
      `x` goes at position `j`. */
  lemma {:induction false} InsAt<T>(s: seq<T>, x: T, key: T -> int, j: nat)
    requires j <= |s|
    requires j == 0 || key(s[j - 1]) <= key(x)
    requires forall m :: j <= m < |s| ==> key(s[m]) > key(x)
    ensures Ins(s, x, key) == s[..j] + [x] + s[j..]
    decreases |s|
  {
    if j < |s| {
      var s' := s[..|s| - 1];
      InsAt(s', x, key, j);
      assert s'[..j] == s[..j];
      assert s'[j..] + [s[|s| - 1]] == s[j..];
    }
  }

  function SortBy<T>(s: seq<T>, key: T -> int): (r: seq<T>)
    ensures Sorted(r, key)
    ensures multiset(r) == multiset(s)
    ensures |r| == |s|
    decreases |s|
  {
    if |s| == 0 then []
    else
      var s', x := s[..|s| - 1], s[|s| - 1];
      assert s == s' + [x];
      var r' := SortBy(s', key);
      InsSorted(r', x, key);
      InsMultiset(r', x, key);
      Ins(r', x, key)
  }

  /** The sort is stable: for each key value, the elements with that value keep
      their relative order. */
  lemma {:induction false} SortByStable<T>(s: seq<T>, key: T -> int, v: int)
    ensures WithKey(SortBy(s, key), key, v) == WithKey(s, key, v)
    decreases |s|
  {
    if |s| > 0 {
      var s', x := s[..|s| - 1], s[|s| - 1];
      assert s == s' + [x];
      SortByStable(s', key, v);
      InsStable(SortBy(s', key), x, key, v);
      WithKeySnoc(s', x, key, v);
    }
  }

  /** Sorting permutes the parts of a flattened sequence. */
  lemma {:induction false} InsFlatten<T, U>(s: seq<T>, x: T, key: T -> int, f: T -> seq<U>)
    ensures multiset(Flatten(Ins(s, x, key), f)) == multiset(Flatten(s, f)) + multiset(f(x))
    decreases |s|
  {
    if |s| == 0 || key(s[|s| - 1]) <= key(x) {
      FlattenSnoc(s, x, f);
    } else {
      var s', last := s[..|s| - 1], s[|s| - 1];
      assert s == s' + [last];
      InsFlatten(s', x, key, f);
      FlattenSnoc(Ins(s', x, key), last, f);
      FlattenSnoc(s', last, f);
    }
  }

  lemma {:induction false} SortByFlatten<T, U>(s: seq<T>, key: T -> int, f: T -> seq<U>)
    ensures multiset(Flatten(SortBy(s, key), f)) == multiset(Flatten(s, f))
    decreases |s|
  {
    if |s| > 0 {
      var s', x := s[..|s| - 1], s[|s| - 1];
      assert s == s' + [x];
      SortByFlatten(s', key, f);
      InsFlatten(SortBy(s', key), x, key, f);
      FlattenSnoc(s', x, f);
    }
  }

  /** One pass of insertion sort: moves `a[i]` left past the elements of the sorted
      prefix `a[..i]` whose key is strictly greater. */
  method InsertInPlace<T>(a: array<T>, key: T -> int, i: nat)
    requires i < a.Length
    modifies a
    ensures a[..i + 1] == Ins(old(a[..i]), old(a[i]), key)
    ensures forall m :: i < m < a.Length ==> a[m] == old(a[m])
  {
    ghost var sorted := a[..i];
    var x := a[i];
    var j := i;
    while j > 0 && key(a[j - 1]) > key(x)
      invariant 0 <= j <= i
      invariant forall m :: 0 <= m < j ==> a[m] == sorted[m]
      invariant forall m :: j < m <= i ==> a[m] == sorted[m - 1]
      invariant forall m :: j <= m < i ==> key(sorted[m]) > key(x)
      invariant forall m :: i < m < a.Length ==> a[m] == old(a[m])
    {
      a[j] := a[j - 1];
      j := j - 1;
    }
    a[j] := x;
    InsAt(sorted, x, key, j);
    assert a[..i + 1] == sorted[..j] + [x] + sorted[j..];
  }

  lemma SortBySnoc<T>(s: seq<T>, x: T, key: T -> int)
    ensures SortBy(s + [x], key) == Ins(SortBy(s, key), x, key)
  {
    assert (s + [x])[..|s|] == s;
  }

  /** Insertion sort in place: each element moves left past the elements with a
      strictly greater key, so equal keys keep their order. */
  method SortInPlace<T>(a: array<T>, key: T -> int)
    modifies a
    ensures a[..] == SortBy(old(a[..]), key)
  {
    ghost var input := a[..];
    for i := 0 to a.Length
      invariant a[..i] == SortBy(input[..i], key)
      invariant forall m :: i <= m < a.Length ==> a[m] == input[m]
    {
      assert a[..i] == SortBy(input[..i], key) && a[i] == input[i];
      InsertInPlace(a, key, i);
      assert a[..i + 1] == Ins(SortBy(input[..i], key), input[i], key);
      assert input[..i + 1] == input[..i] + [input[i]];
      SortBySnoc(input[..i], input[i], key);
    }
    assert input[..a.Length] == input;
    assert a[..a.Length] == a[..];
  }
}
