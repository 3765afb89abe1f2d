/** Sequence operations the page script borrows from JavaScript arrays and d3:
    filter, flatMap, d3.max and d3.greatest. */
module Seqs {

  /** `s.filter(p)`: the elements of `s` that satisfy `p`, in their order. */
  function Where<T>(s: seq<T>, p: T -> bool): (r: seq<T>)
    ensures |r| <= |s|
    decreases |s|
  {
    if |s| == 0 then []
    else Where(s[..|s| - 1], p) + (if p(s[|s| - 1]) then [s[|s| - 1]] else [])
  }

  /** The filtered elements are exactly the elements that pass. */
  lemma {:induction false} WhereMembers<T>(s: seq<T>, p: T -> bool)
    ensures forall x :: x in Where(s, p) ==> x in s && p(x)
    ensures forall x :: x in s && p(x) ==> x in Where(s, p)
    decreases |s|
  {
    if |s| > 0 {
      assert s == s[..|s| - 1] + [s[|s| - 1]];
      WhereMembers(s[..|s| - 1], p);
    }
  }

  lemma WhereSnoc<T>(s: seq<T>, x: T, p: T -> bool)
    ensures Where(s + [x], p) == Where(s, p) + (if p(x) then [x] else [])
  {
    assert (s + [x])[..|s|] == s;
  }

  lemma {:induction false} WhereAppend<T>(a: seq<T>, b: seq<T>, p: T -> bool)
    ensures Where(a + b, p) == Where(a, p) + Where(b, p)
    decreases |b|
  {
    if |b| == 0 {
      assert a + b == a;
    } else {
      var b', y := b[..|b| - 1], b[|b| - 1];
      WhereAppend(a, b', p);
      WhereAppendStep(a, b', y, p);
      assert b' + [y] == b;
    }
  }

  lemma WhereAppendStep<T>(a: seq<T>, b: seq<T>, y: T, p: T -> bool)
    requires Where(a + b, p) == Where(a, p) + Where(b, p)
    ensures Where(a + (b + [y]), p) == Where(a, p) + Where(b + [y], p)
  {
    assert a + (b + [y]) == (a + b) + [y];
    WhereSnoc(a + b, y, p);
    WhereSnoc(b, y, p);
  }

  /** Filtering keeps everything when every element passes. */
  lemma {:induction false} WhereAll<T>(s: seq<T>, p: T -> bool)
    requires forall x :: x in s ==> p(x)
    ensures Where(s, p) == s
    decreases |s|
  {
    if |s| > 0 {
      assert s == s[..|s| - 1] + [s[|s| - 1]];
      WhereAll(s[..|s| - 1], p);
    }
  }

  /** The multiplicity of each value after filtering. */
  lemma {:induction false} WhereMultiset<T>(s: seq<T>, p: T -> bool)
    ensures forall x :: multiset(Where(s, p))[x] == if p(x) then multiset(s)[x] else 0
    decreases |s|
  {
    if |s| > 0 {
      var s' := s[..|s| - 1];
      assert s == s' + [s[|s| - 1]];
      WhereMultiset(s', p);
    }
  }

  /** Filtering two permutations of each other gives permutations of each other. */
  lemma WherePermutation<T>(a: seq<T>, b: seq<T>, p: T -> bool)
    requires multiset(a) == multiset(b)
    ensures multiset(Where(a, p)) == multiset(Where(b, p))
  {
    var wa, wb := Where(a, p), Where(b, p);
    WhereMultiset(a, p);
    WhereMultiset(b, p);
    forall x ensures multiset(wa)[x] == multiset(wb)[x] {
      assert multiset(a)[x] == multiset(b)[x];
    }
    MultisetExt(multiset(wa), multiset(wb));
  }

  lemma MultisetExt<T>(m1: multiset<T>, m2: multiset<T>)
    requires forall x :: m1[x] == m2[x]
    ensures m1 == m2
  {
  }

  /** The elements of `s` whose key is `k`, in order: one group of `d3.groups`. */
  function WithKey<T, K(==)>(s: seq<T>, key: T -> K, k: K): (r: seq<T>)
    ensures |r| <= |s|
    ensures forall x :: x in r ==> x in s && key(x) == k
    ensures forall x :: x in s && key(x) == k ==> x in r
  {
    var p := x => key(x) == k;
    WhereMembers(s, p);
    Where(s, p)
  }

  lemma WithKeySnoc<T, K>(s: seq<T>, x: T, key: T -> K, k: K)
    ensures WithKey(s + [x], key, k) == WithKey(s, key, k) + (if key(x) == k then [x] else [])
  {
    WhereSnoc(s, x, y => key(y) == k);
  }

  lemma WithKeyAppend<T, K>(a: seq<T>, b: seq<T>, key: T -> K, k: K)
    ensures WithKey(a + b, key, k) == WithKey(a, key, k) + WithKey(b, key, k)
  {
    WhereAppend(a, b, x => key(x) == k);
  }

  lemma WithKeyPermutation<T, K>(a: seq<T>, b: seq<T>, key: T -> K, k: K)
    requires multiset(a) == multiset(b)
    ensures multiset(WithKey(a, key, k)) == multiset(WithKey(b, key, k))
    ensures |WithKey(a, key, k)| == |WithKey(b, key, k)|
  {
    WherePermutation(a, b, x => key(x) == k);
    assert |multiset(WithKey(a, key, k))| == |multiset(WithKey(b, key, k))|;
  }

  /** Filtering keeps nothing when no element passes. */
  lemma {:induction false} WhereNone<T>(s: seq<T>, p: T -> bool)
    requires forall x :: x in s ==> !p(x)
    ensures Where(s, p) == []
    decreases |s|
  {
    if |s| > 0 {
      assert s == s[..|s| - 1] + [s[|s| - 1]];
      WhereNone(s[..|s| - 1], p);
    }
  }

  /** The group of the first element whose key is `k` starts with that element. */
  lemma WithKeyFirst<T, K>(s: seq<T>, key: T -> K, p: nat)
    requires p < |s|
    requires forall q :: 0 <= q < p ==> key(s[q]) != key(s[p])
    ensures |WithKey(s, key, key(s[p]))| > 0 && WithKey(s, key, key(s[p]))[0] == s[p]
  {
    var k := key(s[p]);
    assert s == s[..p] + ([s[p]] + s[p + 1..]);
    WithKeyAppend(s[..p], [s[p]] + s[p + 1..], key, k);
    WithKeyAppend([s[p]], s[p + 1..], key, k);
    WhereNone(s[..p], x => key(x) == k);
    WithKeySnoc([], s[p], key, k);
    assert [] + [s[p]] == [s[p]];
  }

  /** Two elements with the same key make a group of at least two. */
  lemma WithKeyTwo<T, K>(s: seq<T>, key: T -> K, i: nat, j: nat)
    requires i < j < |s|
    ensures key(s[i]) == key(s[j]) ==> |WithKey(s, key, key(s[i]))| >= 2
  {
    if key(s[i]) == key(s[j]) {
      var k := key(s[i]);
      assert s == s[..j] + s[j..];
      WithKeyAppend(s[..j], s[j..], key, k);
      assert s[i] in s[..j];
      assert s[j] in s[j..];
      assert WithKey(s[..j], key, k) != [] by {
        assert s[i] in WithKey(s[..j], key, k);
      }
      assert WithKey(s[j..], key, k) != [] by {
        assert s[j] in WithKey(s[j..], key, k);
      }
    }
  }

  /** At most one element per key means the keys are pairwise distinct. */
  lemma AtMostOnePerKey<T, K>(s: seq<T>, key: T -> K)
    requires forall k :: |WithKey(s, key, k)| <= 1
    ensures forall i, j :: 0 <= i < j < |s| ==> key(s[i]) != key(s[j])
  {
    forall i, j | 0 <= i < j < |s|
      ensures key(s[i]) != key(s[j])
    {
      WithKeyTwo(s, key, i, j);
      assert |WithKey(s, key, key(s[i]))| <= 1;
    }
  }

  /** Pairwise distinct keys leave at most one element per key. */
  lemma {:induction false} DistinctAtMostOne<T, K>(s: seq<T>, key: T -> K, k: K)
    requires forall i, j :: 0 <= i < j < |s| ==> key(s[i]) != key(s[j])
    ensures |WithKey(s, key, k)| <= 1
    decreases |s|
  {
    if |s| > 0 {
      var s', x := s[..|s| - 1], s[|s| - 1];
      assert s == s' + [x];
      DistinctAtMostOne(s', key, k);
      WithKeySnoc(s', x, key, k);
      if key(x) == k {
        forall y | y in s' ensures key(y) != k {
          var a :| 0 <= a < |s'| && s'[a] == y;
          assert s[a] == y;
        }
        WhereNone(s', y => key(y) == k);
      }
    }
  }

  /** A permutation of a sequence with pairwise distinct keys has pairwise distinct keys. */
  lemma DistinctPermutation<T, K>(a: seq<T>, b: seq<T>, key: T -> K)
    requires multiset(a) == multiset(b)
    requires forall i, j :: 0 <= i < j < |a| ==> key(a[i]) != key(a[j])
    ensures forall i, j :: 0 <= i < j < |b| ==> key(b[i]) != key(b[j])
  {
    forall k ensures |WithKey(b, key, k)| <= 1 {
      DistinctAtMostOne(a, key, k);
      WithKeyPermutation(a, b, key, k);
    }
    AtMostOnePerKey(b, key);
  }

  /** The elements of `s` whose time is at or before `cutoff`:
      `s.filter((d) => d.datetime <= cutoff)`. */
  function UpTo<T>(s: seq<T>, time: T -> int, cutoff: int): (r: seq<T>)
    ensures |r| <= |s|
    ensures forall x :: x in r ==> x in s && time(x) <= cutoff
    ensures forall x :: x in s && time(x) <= cutoff ==> x in r
  {
    var p := x => time(x) <= cutoff;
    WhereMembers(s, p);
    Where(s, p)
  }

  lemma UpToAppend<T>(a: seq<T>, b: seq<T>, time: T -> int, cutoff: int)
    ensures UpTo(a + b, time, cutoff) == UpTo(a, time, cutoff) + UpTo(b, time, cutoff)
  {
    WhereAppend(a, b, x => time(x) <= cutoff);
  }

  lemma UpToSnoc<T>(s: seq<T>, x: T, time: T -> int, cutoff: int)
    ensures UpTo(s + [x], time, cutoff) == UpTo(s, time, cutoff) + (if time(x) <= cutoff then [x] else [])
  {
    WhereSnoc(s, x, y => time(y) <= cutoff);
  }

  lemma UpToAll<T>(s: seq<T>, time: T -> int, cutoff: int)
    requires forall x :: x in s ==> time(x) <= cutoff
    ensures UpTo(s, time, cutoff) == s
  {
    WhereAll(s, x => time(x) <= cutoff);
  }

  lemma UpToPermutation<T>(a: seq<T>, b: seq<T>, time: T -> int, cutoff: int)
    requires multiset(a) == multiset(b)
    ensures multiset(UpTo(a, time, cutoff)) == multiset(UpTo(b, time, cutoff))
  {
    WherePermutation(a, b, x => time(x) <= cutoff);
  }

  /** `s.flatMap(f)`. */
  function Flatten<T, U>(s: seq<T>, f: T -> seq<U>): seq<U>
    decreases |s|
  {
    if |s| == 0 then [] else Flatten(s[..|s| - 1], f) + f(s[|s| - 1])
  }

  lemma FlattenSnoc<T, U>(s: seq<T>, x: T, f: T -> seq<U>)
    ensures Flatten(s + [x], f) == Flatten(s, f) + f(x)
  {
    assert (s + [x])[..|s|] == s;
  }

  lemma {:induction false} FlattenAppend<T, U>(a: seq<T>, b: seq<T>, f: T -> seq<U>)
    ensures Flatten(a + b, f) == Flatten(a, f) + Flatten(b, f)
    decreases |b|
  {
    if |b| == 0 {
      assert a + b == a;
    } else {
      var b' := b[..|b| - 1];
      assert b == b' + [b[|b| - 1]];
      assert a + b == (a + b') + [b[|b| - 1]];
      FlattenAppend(a, b', f);
      FlattenSnoc(a + b', b[|b| - 1], f);
      FlattenSnoc(b', b[|b| - 1], f);
    }
  }

  /** Every element of a flattened sequence comes from one of the parts. */
  lemma {:induction false} FlattenMember<T, U>(s: seq<T>, f: T -> seq<U>, y: U)
    requires y in Flatten(s, f)
    ensures exists x :: x in s && y in f(x)
    decreases |s|
  {
    var s' := s[..|s| - 1];
    assert s == s' + [s[|s| - 1]];
    if y !in f(s[|s| - 1]) {
      FlattenMember(s', f, y);
      var x :| x in s' && y in f(x);
      assert x in s;
    }
  }

  /** `d3.max(s, f)` on a non-empty sequence whose values are all numbers. */
  function MaxBy<T>(s: seq<T>, f: T -> int): (m: int)
    requires |s| > 0
    ensures forall x :: x in s ==> f(x) <= m
    ensures exists x :: x in s && f(x) == m
    decreases |s|
  {
    if |s| == 1 then f(s[0])
    else
      var s' := s[..|s| - 1];
      assert s == s' + [s[|s| - 1]];
      var m' := MaxBy(s', f);
      if m' < f(s[|s| - 1]) then f(s[|s| - 1]) else m'
  }

  /** The index `d3.greatest(s, f)` picks: a maximal element, and the first one
      among several maximal elements (it replaces only on a strictly greater value). */
  function Greatest<T>(s: seq<T>, f: T -> int): (i: nat)
    requires |s| > 0
    ensures i < |s|
    ensures forall j :: 0 <= j < |s| ==> f(s[j]) <= f(s[i])
    ensures forall j :: 0 <= j < i ==> f(s[j]) < f(s[i])
    decreases |s|
  {
    if |s| == 1 then 0
    else
      var i' := Greatest(s[..|s| - 1], f);
      if f(s[i']) < f(s[|s| - 1]) then |s| - 1 else i'
  }
}
