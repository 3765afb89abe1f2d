/** `processCommits`: groups the rows by commit id, turns every group into a
    commit record and sorts the records by `datetime`. */
module Aggregation {
  import opened Seqs
  import opened Grouping
  import opened Sorting
  import opened Records

  /** The record built from one group: provenance from its first row, the group
      size as `totalLines` and the rows themselves as `lines`. */
  function ToCommit(g: Group<string, Row>): Commit
    requires |g.members| > 0
  {
    var first := g.members[0];
    Commit(g.key, first.author, first.date, first.time, first.timezone, first.datetime,
           HourFrac(first.hour, first.minute), |g.members|, g.members)
  }

  function ToCommits(gs: seq<Group<string, Row>>): seq<Commit>
    requires forall i :: 0 <= i < |gs| ==> |gs[i].members| > 0
  {
    seq(|gs|, i requires 0 <= i < |gs| => ToCommit(gs[i]))
  }

  /** The records in first-occurrence order of their ids, before the sort. */
  function Grouped(data: seq<Row>): seq<Commit>
  {
    ToCommits(GroupBy(data, CommitOf))
  }

  /** The result of `processCommits`. */
  function Aggregate(data: seq<Row>): seq<Commit>
  {
    SortBy(Grouped(data), CommitTime)
  }

  function SumTotalLines(cs: seq<Commit>): nat
    decreases |cs|
  {
    if |cs| == 0 then 0 else SumTotalLines(cs[..|cs| - 1]) + cs[|cs| - 1].totalLines
  }

  /** `processCommits` with the in-place sort of `processed`. */
  method ProcessCommits(data: seq<Row>) returns (commits: seq<Commit>)
    ensures commits == Aggregate(data)
    ensures Sorted(commits, CommitTime)
    ensures SumTotalLines(commits) == |data|
    ensures forall i, j :: 0 <= i < j < |commits| ==> commits[i].id != commits[j].id
  {
    var grouped := GroupBy(data, CommitOf);
    var records := ToCommits(grouped);
    var processed := new Commit[|records|](i requires 0 <= i < |records| => records[i]);
    assert processed[..] == records;
    SortInPlace(processed, CommitTime);
    commits := processed[..];
    TotalLinesCoverRows(data);
    DistinctIds(data);
  }

  // ----- the records before sorting -----

  lemma ToCommitsSnoc(gs: seq<Group<string, Row>>)
    requires |gs| > 0 && forall i :: 0 <= i < |gs| ==> |gs[i].members| > 0
    ensures ToCommits(gs) == ToCommits(gs[..|gs| - 1]) + [ToCommit(gs[|gs| - 1])]
  {
  }

  lemma {:induction false} ToCommitsLines(gs: seq<Group<string, Row>>)
    requires forall i :: 0 <= i < |gs| ==> |gs[i].members| > 0
    ensures Flatten(ToCommits(gs), CommitLines) == Flatten(gs, Members)
    decreases |gs|
  {
    if |gs| > 0 {
      ToCommitsLines(gs[..|gs| - 1]);
      ToCommitsSnoc(gs);
      FlattenSnoc(ToCommits(gs[..|gs| - 1]), ToCommit(gs[|gs| - 1]), CommitLines);
    }
  }

  lemma {:induction false} ToCommitsIdCount(gs: seq<Group<string, Row>>, k: string)
    requires forall i :: 0 <= i < |gs| ==> |gs[i].members| > 0
    requires DistinctKeys(gs)
    ensures |WithKey(ToCommits(gs), CommitId, k)| == if exists i :: 0 <= i < |gs| && gs[i].key == k then 1 else 0
    decreases |gs|
  {
    if |gs| > 0 {
      var gs' := gs[..|gs| - 1];
      ToCommitsIdCount(gs', k);
      ToCommitsSnoc(gs);
      WithKeySnoc(ToCommits(gs'), ToCommit(gs[|gs| - 1]), CommitId, k);
      if gs[|gs| - 1].key == k {
        assert forall i :: 0 <= i < |gs'| ==> gs'[i].key != k;
      } else {
        assert (exists i :: 0 <= i < |gs| && gs[i].key == k) == (exists i :: 0 <= i < |gs'| && gs'[i].key == k) by {
          forall i | 0 <= i < |gs| && gs[i].key == k ensures i < |gs'| && gs'[i].key == k { }
        }
      }
    }
  }

  /** Before the sort the records come in the order in which their ids first occur:
      wherever a later record's id occurs in the input, an earlier record's id
      occurred before. */
  lemma GroupedInFirstOccurrenceOrder(data: seq<Row>)
    ensures forall i, j, q :: 0 <= i < j < |Grouped(data)| && 0 <= q < |data| && data[q].commit == Grouped(data)[j].id ==>
      KeyBefore(data, CommitOf, Grouped(data)[i].id, q)
  {
    GroupByOrder(data, CommitOf);
  }

  // ----- properties of processCommits -----

  /** Every record is built from the group of its id. */
  lemma CommitIsGroup(data: seq<Row>, c: Commit)
    requires c in Aggregate(data)
    ensures |c.lines| > 0 && c.lines == WithKey(data, CommitOf, c.id)
    ensures c == ToCommit(Group(c.id, c.lines))
  {
    var gs := GroupBy(data, CommitOf);
    GroupByMembers(data, CommitOf);
    assert c in multiset(Aggregate(data));
    assert c in Grouped(data);
    var i :| 0 <= i < |gs| && c == ToCommit(gs[i]);
  }

  /** Aggregation partitions the rows: the commits' lines are the input rows,
      each exactly as often as in the input. */
  lemma AggregatePartition(data: seq<Row>)
    ensures multiset(Flatten(Aggregate(data), CommitLines)) == multiset(data)
  {
    SortByFlatten(Grouped(data), CommitTime, CommitLines);
    ToCommitsLines(GroupBy(data, CommitOf));
    GroupByPartition(data, CommitOf);
  }

  lemma {:induction false} SumTotalLinesIsLineCount(cs: seq<Commit>)
    requires forall c :: c in cs ==> c.totalLines == |c.lines|
    ensures SumTotalLines(cs) == |Flatten(cs, CommitLines)|
    decreases |cs|
  {
    if |cs| > 0 {
      var cs' := cs[..|cs| - 1];
      assert cs == cs' + [cs[|cs| - 1]];
      SumTotalLinesIsLineCount(cs');
      FlattenSnoc(cs', cs[|cs| - 1], CommitLines);
    }
  }

  /** Every commit counts its own rows, has at least one, and the counts add up
      to the number of input rows. */
  lemma TotalLinesCoverRows(data: seq<Row>)
    ensures forall c :: c in Aggregate(data) ==> c.totalLines == |c.lines| >= 1
    ensures SumTotalLines(Aggregate(data)) == |data|
  {
    forall c | c in Aggregate(data) ensures c.totalLines == |c.lines| >= 1 {
      CommitIsGroup(data, c);
    }
    SumTotalLinesIsLineCount(Aggregate(data));
    AggregatePartition(data);
    assert |multiset(Flatten(Aggregate(data), CommitLines))| == |multiset(data)|;
  }

  /** Each commit id of the input yields exactly one commit, and no other id does. */
  lemma OneCommitPerId(data: seq<Row>, k: string)
    ensures |WithKey(Aggregate(data), CommitId, k)| == if exists r :: r in data && r.commit == k then 1 else 0
  {
    var gs := GroupBy(data, CommitOf);
    GroupByDistinct(data, CommitOf);
    GroupByMembers(data, CommitOf);
    GroupByCovers(data, CommitOf);
    ToCommitsIdCount(gs, k);
    WithKeyPermutation(Aggregate(data), Grouped(data), CommitId, k);
    if exists r :: r in data && r.commit == k {
      var r :| r in data && r.commit == k;
      var i :| 0 <= i < |gs| && gs[i].key == CommitOf(r);
    } else {
      forall i | 0 <= i < |gs| ensures gs[i].key != k {
        assert gs[i].members[0] in WithKey(data, CommitOf, gs[i].key);
      }
    }
  }

  lemma DistinctIds(data: seq<Row>)
    ensures forall i, j :: 0 <= i < j < |Aggregate(data)| ==> Aggregate(data)[i].id != Aggregate(data)[j].id
  {
    forall k ensures |WithKey(Aggregate(data), CommitId, k)| <= 1 {
      OneCommitPerId(data, k);
    }
    AtMostOnePerKey(Aggregate(data), CommitId);
  }

  /** A commit's author, date, time, timezone, datetime and hour fraction are those
      of the first input row with its id. */
  lemma CommitFromFirstRow(data: seq<Row>, c: Commit, p: nat)
    requires c in Aggregate(data)
    requires p < |data| && data[p].commit == c.id
    requires forall q :: 0 <= q < p ==> data[q].commit != c.id
    ensures c.author == data[p].author && c.date == data[p].date && c.time == data[p].time
    ensures c.timezone == data[p].timezone && c.datetime == data[p].datetime
    ensures c.hourFrac == HourFrac(data[p].hour, data[p].minute)
  {
    CommitIsGroup(data, c);
    WithKeyFirst(data, CommitOf, p);
  }

  /** With browser clock readings, every commit's `hourFrac` lies in [0, 24). */
  lemma HourFracInDay(data: seq<Row>)
    requires forall r :: r in data ==> ValidClock(r)
    ensures forall c :: c in Aggregate(data) ==> 0.0 <= c.hourFrac < 24.0
  {
    forall c | c in Aggregate(data) ensures 0.0 <= c.hourFrac < 24.0 {
      CommitIsGroup(data, c);
      assert c.lines[0] in WithKey(data, CommitOf, c.id);
    }
  }

  /** The sort keeps commits with equal `datetime` in their first-occurrence order. */
  lemma TiesKeepGroupedOrder(data: seq<Row>, t: int)
    ensures WithKey(Aggregate(data), CommitTime, t) == WithKey(Grouped(data), CommitTime, t)
  {
    SortByStable(Grouped(data), CommitTime, t);
  }
}
