/** `d3.groups(xs, key)`: one pass over `xs` that appends each element to the
    group of its key, opening a new group at the end when the key is new. Keys
    keep their first-occurrence order and each group keeps insertion order. */
module Grouping {
  import opened Seqs

  datatype Group<K, T> = Group(key: K, members: seq<T>)

  function Members<K, T>(g: Group<K, T>): seq<T> { g.members }

  /** The position of the group with key `k`, or `|gs|` when there is none
      (the lookup `map.get(k)` of the grouping pass). */
  function IndexOf<K(==), T>(gs: seq<Group<K, T>>, k: K): (m: nat)
    ensures m <= |gs|
    ensures m < |gs| ==> gs[m].key == k
    ensures forall j :: 0 <= j < m ==> gs[j].key != k
    decreases |gs|
  {
    if |gs| == 0 then 0
    else if gs[0].key == k then 0
    else 1 + IndexOf(gs[1..], k)
  }

  /** One step of the pass: push `x` onto the group of `k`, or open a new group. */
  function Insert<K(==), T>(gs: seq<Group<K, T>>, k: K, x: T): seq<Group<K, T>>
  {
    var m := IndexOf(gs, k);
    if m < |gs| then gs[m := Group(k, gs[m].members + [x])]
    else gs + [Group(k, [x])]
  }

  function GroupBy<T, K(==)>(xs: seq<T>, key: T -> K): (gs: seq<Group<K, T>>)
    ensures forall i :: 0 <= i < |gs| ==> |gs[i].members| > 0
    decreases |xs|
  {
    if |xs| == 0 then []
    else Insert(GroupBy(xs[..|xs| - 1], key), key(xs[|xs| - 1]), xs[|xs| - 1])
  }

  /** One group per key. */
  ghost predicate DistinctKeys<K, T>(gs: seq<Group<K, T>>)
  {
    forall i, j :: 0 <= i < j < |gs| ==> gs[i].key != gs[j].key
  }

  /** A group holds exactly the elements with its key, in input order. */
  ghost predicate MembersByKey<T, K>(gs: seq<Group<K, T>>, xs: seq<T>, key: T -> K)
  {
    forall i :: 0 <= i < |gs| ==> |gs[i].members| > 0 && gs[i].members == WithKey(xs, key, gs[i].key)
  }

  /** Every element's key has a group. */
  ghost predicate CoversKeys<T, K>(gs: seq<Group<K, T>>, xs: seq<T>, key: T -> K)
  {
    forall x :: x in xs ==> exists i :: 0 <= i < |gs| && gs[i].key == key(x)
  }

  /** Some element before position `q` of `xs` has key `k`. */
  ghost predicate KeyBefore<T, K>(xs: seq<T>, key: T -> K, k: K, q: int)
  {
    exists p :: 0 <= p < q && p < |xs| && key(xs[p]) == k
  }

  /** Groups come in the order in which their keys first occur in `xs`: wherever
      the key of a later group occurs, the key of an earlier group occurred before. */
  ghost predicate FirstOccurrenceOrder<T, K>(gs: seq<Group<K, T>>, xs: seq<T>, key: T -> K)
  {
    forall i, j, q :: 0 <= i < j < |gs| && 0 <= q < |xs| && key(xs[q]) == gs[j].key ==>
      KeyBefore(xs, key, gs[i].key, q)
  }

  /** What it means for `gs` to be the grouping of `xs` by `key`. */
  ghost predicate IsGrouping<T, K>(gs: seq<Group<K, T>>, xs: seq<T>, key: T -> K)
  {
    DistinctKeys(gs) && MembersByKey(gs, xs, key) && CoversKeys(gs, xs, key) && FirstOccurrenceOrder(gs, xs, key)
  }

  /** The key of every group occurs in `xs` (its first member has it). */
  lemma GroupKeyOccurs<T, K>(gs: seq<Group<K, T>>, xs: seq<T>, key: T -> K, i: nat)
    requires MembersByKey(gs, xs, key) && i < |gs|
    ensures KeyBefore(xs, key, gs[i].key, |xs|)
  {
    var y := gs[i].members[0];
    assert y in WithKey(xs, key, gs[i].key);
    var p :| 0 <= p < |xs| && xs[p] == y;
  }

  // ----- appending an element whose key already has group m -----

  lemma ExistingMembers<T, K>(gs: seq<Group<K, T>>, xs: seq<T>, key: T -> K, x: T, m: nat)
    requires DistinctKeys(gs) && MembersByKey(gs, xs, key)
    requires m < |gs| && gs[m].key == key(x)
    ensures MembersByKey(gs[m := Group(key(x), gs[m].members + [x])], xs + [x], key)
  {
    var gs' := gs[m := Group(key(x), gs[m].members + [x])];
    forall i | 0 <= i < |gs'|
      ensures |gs'[i].members| > 0 && gs'[i].members == WithKey(xs + [x], key, gs'[i].key)
    {
      WithKeySnoc(xs, x, key, gs[i].key);
    }
  }

  lemma ExistingCovers<T, K>(gs: seq<Group<K, T>>, xs: seq<T>, key: T -> K, x: T, m: nat)
    requires CoversKeys(gs, xs, key)
    requires m < |gs| && gs[m].key == key(x)
    ensures CoversKeys(gs[m := Group(key(x), gs[m].members + [x])], xs + [x], key)
  {
    var gs' := gs[m := Group(key(x), gs[m].members + [x])];
    forall y | y in xs + [x]
      ensures exists i :: 0 <= i < |gs'| && gs'[i].key == key(y)
    {
      if y != x {
        assert y in xs;
        var i :| 0 <= i < |gs| && gs[i].key == key(y);
        assert gs'[i].key == gs[i].key;
      } else {
        assert gs'[m].key == key(y);
      }
    }
  }

  lemma ExistingOrder<T, K>(gs: seq<Group<K, T>>, xs: seq<T>, key: T -> K, x: T, m: nat)
    requires MembersByKey(gs, xs, key) && FirstOccurrenceOrder(gs, xs, key)
    requires m < |gs| && gs[m].key == key(x)
    ensures FirstOccurrenceOrder(gs[m := Group(key(x), gs[m].members + [x])], xs + [x], key)
  {
    var gs' := gs[m := Group(key(x), gs[m].members + [x])];
    var xs' := xs + [x];
    forall i, j, q | 0 <= i < j < |gs'| && 0 <= q < |xs'| && key(xs'[q]) == gs'[j].key
      ensures KeyBefore(xs', key, gs'[i].key, q)
    {
      assert gs'[i].key == gs[i].key && gs'[j].key == gs[j].key;
      if q < |xs| {
        assert xs'[q] == xs[q];
        assert KeyBefore(xs, key, gs[i].key, q);
        var p :| 0 <= p < q && p < |xs| && key(xs[p]) == gs[i].key;
        assert xs'[p] == xs[p];
      } else {
        GroupKeyOccurs(gs, xs, key, i);
        var p :| 0 <= p < |xs| && p < |xs| && key(xs[p]) == gs[i].key;
        assert xs'[p] == xs[p];
      }
    }
  }

  // ----- appending an element whose key has no group yet -----

  lemma NewDistinct<K, T>(gs: seq<Group<K, T>>, k: K, x: T)
    requires DistinctKeys(gs)
    requires forall j :: 0 <= j < |gs| ==> gs[j].key != k
    ensures DistinctKeys(gs + [Group(k, [x])])
  {
  }

  lemma NewMembers<T, K>(gs: seq<Group<K, T>>, xs: seq<T>, key: T -> K, x: T)
    requires MembersByKey(gs, xs, key) && CoversKeys(gs, xs, key)
    requires forall j :: 0 <= j < |gs| ==> gs[j].key != key(x)
    ensures MembersByKey(gs + [Group(key(x), [x])], xs + [x], key)
  {
    var k := key(x);
    var gs' := gs + [Group(k, [x])];
    forall i | 0 <= i < |gs'|
      ensures |gs'[i].members| > 0 && gs'[i].members == WithKey(xs + [x], key, gs'[i].key)
    {
      WithKeySnoc(xs, x, key, gs'[i].key);
      if i == |gs| {
        forall y | y in xs ensures key(y) != k {
          var i' :| 0 <= i' < |gs| && gs[i'].key == key(y);
        }
        WhereNone(xs, y => key(y) == k);
      }
    }
  }

  lemma NewCovers<T, K>(gs: seq<Group<K, T>>, xs: seq<T>, key: T -> K, x: T)
    requires CoversKeys(gs, xs, key)
    ensures CoversKeys(gs + [Group(key(x), [x])], xs + [x], key)
  {
    var gs' := gs + [Group(key(x), [x])];
    forall y | y in xs + [x]
      ensures exists i :: 0 <= i < |gs'| && gs'[i].key == key(y)
    {
      if y != x {
        assert y in xs;
        var i :| 0 <= i < |gs| && gs[i].key == key(y);
        assert gs'[i] == gs[i];
      } else {
        assert gs'[|gs|].key == key(y);
      }
    }
  }

  /** A key without a group does not occur in `xs`. */
  lemma NewKeyAbsent<T, K>(gs: seq<Group<K, T>>, xs: seq<T>, key: T -> K, k: K)
    requires CoversKeys(gs, xs, key)
    requires forall j :: 0 <= j < |gs| ==> gs[j].key != k
    ensures forall q :: 0 <= q < |xs| ==> key(xs[q]) != k
  {
    forall q | 0 <= q < |xs| ensures key(xs[q]) != k {
      assert xs[q] in xs;
      var i :| 0 <= i < |gs| && gs[i].key == key(xs[q]);
    }
  }

  lemma NewOrder<T, K>(gs: seq<Group<K, T>>, xs: seq<T>, key: T -> K, x: T)
    requires MembersByKey(gs, xs, key) && FirstOccurrenceOrder(gs, xs, key)
    requires forall q :: 0 <= q < |xs| ==> key(xs[q]) != key(x)
    ensures FirstOccurrenceOrder(gs + [Group(key(x), [x])], xs + [x], key)
  {
    var gs' := gs + [Group(key(x), [x])];
    var xs' := xs + [x];
    forall i, j, q | 0 <= i < j < |gs'| && 0 <= q < |xs'| && key(xs'[q]) == gs'[j].key
      ensures KeyBefore(xs', key, gs'[i].key, q)
    {
      assert gs'[i] == gs[i];
      if q < |xs| {
        assert xs'[q] == xs[q];
        // the new key does not occur in xs, so group j is an old one
        assert j < |gs|;
        assert gs'[j] == gs[j];
        assert KeyBefore(xs, key, gs[i].key, q);
        var p :| 0 <= p < q && p < |xs| && key(xs[p]) == gs[i].key;
        assert xs'[p] == xs[p];
      } else {
        GroupKeyOccurs(gs, xs, key, i);
        var p :| 0 <= p < |xs| && p < |xs| && key(xs[p]) == gs[i].key;
        assert xs'[p] == xs[p];
      }
    }
  }

  lemma InsertKeepsGrouping<T, K>(gs: seq<Group<K, T>>, xs: seq<T>, key: T -> K, x: T)
    requires IsGrouping(gs, xs, key)
    ensures IsGrouping(Insert(gs, key(x), x), xs + [x], key)
  {
    var m := IndexOf(gs, key(x));
    if m < |gs| {
      var gs' := gs[m := Group(key(x), gs[m].members + [x])];
      assert DistinctKeys(gs') by {
        assert forall i :: 0 <= i < |gs| ==> gs'[i].key == gs[i].key;
      }
      ExistingMembers(gs, xs, key, x, m);
      ExistingCovers(gs, xs, key, x, m);
      ExistingOrder(gs, xs, key, x, m);
    } else {
      NewDistinct(gs, key(x), x);
      NewMembers(gs, xs, key, x);
      NewCovers(gs, xs, key, x);
      NewKeyAbsent(gs, xs, key, key(x));
      NewOrder(gs, xs, key, x);
    }
  }

  /** The single pass of `d3.groups` computes the grouping. */
  lemma {:induction false} GroupByIsGrouping<T, K>(xs: seq<T>, key: T -> K)
    ensures IsGrouping(GroupBy(xs, key), xs, key)
    decreases |xs|
  {
    if |xs| > 0 {
      var xs', x := xs[..|xs| - 1], xs[|xs| - 1];
      assert xs' + [x] == xs;
      assert GroupBy(xs, key) == Insert(GroupBy(xs', key), key(x), x);
      GroupByIsGrouping(xs', key);
      InsertKeepsGrouping(GroupBy(xs', key), xs', key, x);
    }
  }

  // ----- the conjuncts of the grouping, one at a time -----

  lemma GroupByDistinct<T, K>(xs: seq<T>, key: T -> K)
    ensures DistinctKeys(GroupBy(xs, key))
  {
    GroupByIsGrouping(xs, key);
  }

  lemma GroupByMembers<T, K>(xs: seq<T>, key: T -> K)
    ensures MembersByKey(GroupBy(xs, key), xs, key)
  {
    GroupByIsGrouping(xs, key);
  }

  lemma GroupByCovers<T, K>(xs: seq<T>, key: T -> K)
    ensures CoversKeys(GroupBy(xs, key), xs, key)
  {
    GroupByIsGrouping(xs, key);
  }

  lemma GroupByOrder<T, K>(xs: seq<T>, key: T -> K)
    ensures FirstOccurrenceOrder(GroupBy(xs, key), xs, key)
  {
    GroupByIsGrouping(xs, key);
  }

  /** One instance of the first-occurrence order. */
  lemma GroupBefore<T, K>(xs: seq<T>, key: T -> K, i: nat, j: nat, q: nat)
    requires i < j < |GroupBy(xs, key)| && q < |xs| && key(xs[q]) == GroupBy(xs, key)[j].key
    ensures KeyBefore(xs, key, GroupBy(xs, key)[i].key, q)
  {
    GroupByOrder(xs, key);
  }

  /** Each step of the pass adds exactly the new element to the groups. */
  lemma InsertPartition<K, T>(gs: seq<Group<K, T>>, k: K, x: T)
    ensures multiset(Flatten(Insert(gs, k, x), Members)) == multiset(Flatten(gs, Members)) + multiset{x}
  {
    var m := IndexOf(gs, k);
    if m < |gs| {
      var g' := Group(k, gs[m].members + [x]);
      assert gs == gs[..m] + [gs[m]] + gs[m + 1..];
      assert gs[m := g'] == gs[..m] + [g'] + gs[m + 1..];
      FlattenAppend(gs[..m] + [gs[m]], gs[m + 1..], Members);
      FlattenAppend(gs[..m] + [g'], gs[m + 1..], Members);
      FlattenSnoc(gs[..m], gs[m], Members);
      FlattenSnoc(gs[..m], g', Members);
    } else {
      FlattenSnoc(gs, Group(k, [x]), Members);
    }
  }

  /** The groups partition the input: together they hold every element exactly
      as often as the input does. */
  lemma {:induction false} GroupByPartition<T, K>(xs: seq<T>, key: T -> K)
    ensures multiset(Flatten(GroupBy(xs, key), Members)) == multiset(xs)
    ensures |Flatten(GroupBy(xs, key), Members)| == |xs|
    decreases |xs|
  {
    if |xs| > 0 {
      var xs', x := xs[..|xs| - 1], xs[|xs| - 1];
      assert xs' + [x] == xs;
      GroupByPartition(xs', key);
      InsertPartition(GroupBy(xs', key), key(x), x);
    }
    assert |multiset(Flatten(GroupBy(xs, key), Members))| == |multiset(xs)|;
  }

  /** Distinct keys: the number of groups is the number of different keys. */
  lemma {:induction false} DistinctKeyCount<K, T>(gs: seq<Group<K, T>>)
    requires DistinctKeys(gs)
    ensures |set i | 0 <= i < |gs| :: gs[i].key| == |gs|
    decreases |gs|
  {
    if |gs| > 0 {
      var gs' := gs[..|gs| - 1];
      DistinctKeyCount(gs');
      var ks' := set i | 0 <= i < |gs'| :: gs'[i].key;
      assert (set i | 0 <= i < |gs| :: gs[i].key) == ks' + {gs[|gs| - 1].key};
      assert gs[|gs| - 1].key !in ks';
    }
  }

  /** The different keys of the elements. */
  ghost function KeySet<T, K>(xs: seq<T>, key: T -> K): set<K>
  {
    set x | x in xs :: key(x)
  }

  /** `d3.group(xs, key).size`: there are as many groups as different keys. */
  lemma GroupCount<T, K>(xs: seq<T>, key: T -> K)
    ensures |GroupBy(xs, key)| == |KeySet(xs, key)|
  {
    var gs := GroupBy(xs, key);
    GroupByMembers(xs, key);
    GroupByDistinct(xs, key);
    GroupByCovers(xs, key);
    DistinctKeyCount(gs);
    var groupKeys := set i | 0 <= i < |gs| :: gs[i].key;
    forall k | k in groupKeys ensures k in KeySet(xs, key) {
      var i :| 0 <= i < |gs| && gs[i].key == k;
      assert gs[i].members[0] in WithKey(xs, key, k);
    }
    assert groupKeys == KeySet(xs, key);
  }

  /** A key has a group exactly when some element has it, and then that group holds
      the elements with the key. */
  lemma GroupOf<T, K>(xs: seq<T>, key: T -> K, k: K)
    ensures IndexOf(GroupBy(xs, key), k) < |GroupBy(xs, key)| <==> |WithKey(xs, key, k)| > 0
    ensures IndexOf(GroupBy(xs, key), k) < |GroupBy(xs, key)| ==>
      GroupBy(xs, key)[IndexOf(GroupBy(xs, key), k)].members == WithKey(xs, key, k)
  {
    var gs := GroupBy(xs, key);
    GroupByMembers(xs, key);
    GroupByCovers(xs, key);
    if |WithKey(xs, key, k)| > 0 {
      assert WithKey(xs, key, k)[0] in WithKey(xs, key, k);
      var i :| 0 <= i < |gs| && gs[i].key == k;
    }
  }

  /** A non-empty input has at least one group. */
  lemma GroupByNonEmpty<T, K>(xs: seq<T>, key: T -> K)
    requires |xs| > 0
    ensures |GroupBy(xs, key)| > 0
  {
    GroupByCovers(xs, key);
    assert xs[0] in xs;
  }

  /** `d3.rollups(xs, (v) => v.length, key)` over the groups: each key with its count. */
  function Counts<K, T>(gs: seq<Group<K, T>>): seq<(K, int)>
  {
    seq(|gs|, i requires 0 <= i < |gs| => (gs[i].key, |gs[i].members|))
  }

  function Count<K>(e: (K, int)): int { e.1 }
}
