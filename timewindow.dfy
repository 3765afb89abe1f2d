/** The time filters of the slider (`onTimeSliderChange`) and of the scroll
    narrative (`onStepEnter`): keep the commits, and separately the rows, whose
    `datetime` is at or before a cutoff. */
module TimeWindow {
  import opened Seqs
  import opened Sorting
  import opened Records
  import opened Aggregation

  /** The slider's commit selection: the commits at or before the cutoff, or the
      first commit alone when there are none. */
  function SliderWindow(commits: seq<Commit>, cutoff: int): seq<Commit>
    requires |commits| > 0
  {
    var filtered := UpTo(commits, CommitTime, cutoff);
    if |filtered| == 0 then [commits[0]] else filtered
  }

  /** The scroll step's commit selection: the commits at or before the step's
      own commit; there is no fallback. */
  function StepWindow(commits: seq<Commit>, i: nat): seq<Commit>
    requires i < |commits|
  {
    UpTo(commits, CommitTime, commits[i].datetime)
  }

  /** Every row of one commit id carries the same `datetime`. */
  ghost predicate ConsistentTimes(data: seq<Row>)
  {
    forall r1, r2 :: r1 in data && r2 in data && r1.commit == r2.commit ==> r1.datetime == r2.datetime
  }

  lemma UpToNone<T>(s: seq<T>, time: T -> int, cutoff: int)
    requires forall x :: x in s ==> time(x) > cutoff
    ensures UpTo(s, time, cutoff) == []
  {
    WhereNone(s, x => time(x) <= cutoff);
  }

  /** When the last of a sorted sequence is at or before the cutoff, so are all. */
  lemma UpToSortedAll<T>(s: seq<T>, time: T -> int, cutoff: int)
    requires Sorted(s, time) && |s| > 0 && time(s[|s| - 1]) <= cutoff
    ensures UpTo(s, time, cutoff) == s
  {
    forall x | x in s ensures time(x) <= cutoff {
      var i :| 0 <= i < |s| && s[i] == x;
      assert i == |s| - 1 || time(s[i]) <= time(s[|s| - 1]);
    }
    UpToAll(s, time, cutoff);
  }

  /** Appending an element after the cutoff keeps the filtered prefix. */
  lemma UpToPrefixStep<T>(s: seq<T>, x: T, time: T -> int, cutoff: int)
    requires time(x) > cutoff
    requires UpTo(s, time, cutoff) == s[..|UpTo(s, time, cutoff)|]
    requires forall j :: |UpTo(s, time, cutoff)| <= j < |s| ==> time(s[j]) > cutoff
    ensures UpTo(s + [x], time, cutoff) == (s + [x])[..|UpTo(s + [x], time, cutoff)|]
    ensures forall j :: |UpTo(s + [x], time, cutoff)| <= j < |s + [x]| ==> time((s + [x])[j]) > cutoff
  {
    UpToSnoc(s, x, time, cutoff);
    var k := |UpTo(s, time, cutoff)|;
    assert s[..k] == (s + [x])[..k];
  }

  /** On a sequence sorted by time the filtered elements are a contiguous prefix:
      all of them are at or before the cutoff and every later one is after it. */
  lemma {:induction false} UpToPrefix<T>(s: seq<T>, time: T -> int, cutoff: int)
    requires Sorted(s, time)
    ensures UpTo(s, time, cutoff) == s[..|UpTo(s, time, cutoff)|]
    ensures forall j :: |UpTo(s, time, cutoff)| <= j < |s| ==> time(s[j]) > cutoff
    decreases |s|
  {
    if |s| > 0 {
      var s', x := s[..|s| - 1], s[|s| - 1];
      if time(x) <= cutoff {
        UpToSortedAll(s, time, cutoff);
        assert s[..|s|] == s;
      } else {
        assert Sorted(s', time);
        UpToPrefix(s', time, cutoff);
        UpToPrefixStep(s', x, time, cutoff);
        assert s' + [x] == s;
      }
    }
  }

  /** On commits sorted by time the filtered commits are a contiguous prefix:
      all of them are at or before the cutoff and every later one is after it. */
  lemma UpToIsPrefix(commits: seq<Commit>, cutoff: int)
    requires Sorted(commits, CommitTime)
    ensures UpTo(commits, CommitTime, cutoff) == commits[..|UpTo(commits, CommitTime, cutoff)|]
    ensures forall j :: |UpTo(commits, CommitTime, cutoff)| <= j < |commits| ==> commits[j].datetime > cutoff
  {
    UpToPrefix(commits, CommitTime, cutoff);
    forall j | |UpTo(commits, CommitTime, cutoff)| <= j < |commits| ensures commits[j].datetime > cutoff {
      assert CommitTime(commits[j]) > cutoff;
    }
  }

  /** The slider selection is never empty and is a prefix of the commits. Outside the
      fallback it is exactly the commits at or before the cutoff; the fallback happens
      when the cutoff precedes the earliest commit and yields that commit alone. */
  lemma SliderWindowShape(commits: seq<Commit>, cutoff: int)
    requires |commits| > 0 && Sorted(commits, CommitTime)
    ensures SliderWindow(commits, cutoff) != [] && SliderWindow(commits, cutoff) <= commits
    ensures cutoff >= commits[0].datetime ==> SliderWindow(commits, cutoff) == UpTo(commits, CommitTime, cutoff)
    ensures cutoff < commits[0].datetime ==>
      SliderWindow(commits, cutoff) == [commits[0]] && forall c :: c in commits ==> commits[0].datetime <= c.datetime
  {
    UpToIsPrefix(commits, cutoff);
    if cutoff < commits[0].datetime {
      UpToNone(commits, CommitTime, cutoff);
    } else {
      assert commits[0] in UpTo(commits, CommitTime, cutoff);
    }
  }

  /** The slider selection is a non-empty prefix of the commits. */
  lemma SliderWindowPrefix(commits: seq<Commit>, cutoff: int)
    requires |commits| > 0 && Sorted(commits, CommitTime)
    ensures SliderWindow(commits, cutoff) != [] && SliderWindow(commits, cutoff) <= commits
  {
    SliderWindowShape(commits, cutoff);
  }

  /** A later cutoff extends the selection. */
  lemma UpToMonotone(commits: seq<Commit>, t1: int, t2: int)
    requires Sorted(commits, CommitTime) && t1 <= t2
    ensures UpTo(commits, CommitTime, t1) <= UpTo(commits, CommitTime, t2)
  {
    UpToIsPrefix(commits, t1);
    UpToIsPrefix(commits, t2);
    var k1 := |UpTo(commits, CommitTime, t1)|;
    var k2 := |UpTo(commits, CommitTime, t2)|;
    if k1 > 0 {
      assert commits[k1 - 1] in UpTo(commits, CommitTime, t1);
      assert commits[k1 - 1].datetime <= t2;
      assert k1 - 1 < k2;
    }
    assert commits[..k1] == commits[..k2][..k1];
  }

  /** Moving the slider later extends its selection, fallback included. */
  lemma SliderWindowMonotone(commits: seq<Commit>, t1: int, t2: int)
    requires |commits| > 0 && Sorted(commits, CommitTime) && t1 <= t2
    ensures SliderWindow(commits, t1) <= SliderWindow(commits, t2)
  {
    SliderWindowShape(commits, t1);
    SliderWindowShape(commits, t2);
    UpToMonotone(commits, t1, t2);
  }

  /** The step selection at commit `i` is a prefix of the commits that contains it. */
  lemma StepWindowShape(commits: seq<Commit>, i: nat)
    requires i < |commits| && Sorted(commits, CommitTime)
    ensures |StepWindow(commits, i)| > i && StepWindow(commits, i) <= commits
    ensures StepWindow(commits, i)[i] == commits[i]
  {
    UpToIsPrefix(commits, commits[i].datetime);
  }

  /** Filtering the commits and taking their lines is filtering their lines, when
      every line carries its commit's time. */
  lemma {:induction false} LinesOfFilteredCommits(commits: seq<Commit>, cutoff: int)
    requires forall c, r :: c in commits && r in c.lines ==> r.datetime == c.datetime
    ensures Flatten(UpTo(commits, CommitTime, cutoff), CommitLines)
         == UpTo(Flatten(commits, CommitLines), RowTime, cutoff)
    decreases |commits|
  {
    if |commits| > 0 {
      var cs', c := commits[..|commits| - 1], commits[|commits| - 1];
      assert commits == cs' + [c];
      LinesOfFilteredCommits(cs', cutoff);
      UpToSnoc(cs', c, CommitTime, cutoff);
      FlattenSnoc(cs', c, CommitLines);
      UpToAppend(Flatten(cs', CommitLines), c.lines, RowTime, cutoff);
      if c.datetime <= cutoff {
        UpToAll(c.lines, RowTime, cutoff);
        FlattenSnoc(UpTo(cs', CommitTime, cutoff), c, CommitLines);
      } else {
        assert c in commits;
        UpToNone(c.lines, RowTime, cutoff);
        assert UpTo(commits, CommitTime, cutoff) == UpTo(cs', CommitTime, cutoff);
        assert Flatten(commits, CommitLines) == Flatten(cs', CommitLines) + c.lines;
        assert UpTo(Flatten(commits, CommitLines), RowTime, cutoff)
            == UpTo(Flatten(cs', CommitLines), RowTime, cutoff) + [];
      }
    }
  }

  lemma CommitRowsShareTime(data: seq<Row>)
    requires ConsistentTimes(data)
    ensures forall c, r :: c in Aggregate(data) && r in c.lines ==> r.datetime == c.datetime
  {
    forall c, r | c in Aggregate(data) && r in c.lines ensures r.datetime == c.datetime {
      CommitIsGroup(data, c);
      assert c.lines[0] in WithKey(data, CommitOf, c.id);
    }
  }

  /** The rows the page filters directly are, as a multiset, the lines of the commits
      it filters, when every row carries its commit's time. */
  lemma RowsMatchCommits(data: seq<Row>, cutoff: int)
    requires ConsistentTimes(data)
    ensures multiset(UpTo(data, RowTime, cutoff))
         == multiset(Flatten(UpTo(Aggregate(data), CommitTime, cutoff), CommitLines))
  {
    CommitRowsShareTime(data);
    LinesOfFilteredCommits(Aggregate(data), cutoff);
    AggregatePartition(data);
    UpToPermutation(data, Flatten(Aggregate(data), CommitLines), RowTime, cutoff);
  }

  /** In the slider's fallback no row passes the filter. */
  lemma FallbackHasNoRows(data: seq<Row>, cutoff: int)
    requires ConsistentTimes(data)
    requires |Aggregate(data)| > 0 && UpTo(Aggregate(data), CommitTime, cutoff) == []
    ensures UpTo(data, RowTime, cutoff) == []
    ensures SliderWindow(Aggregate(data), cutoff) == [Aggregate(data)[0]]
  {
    RowsMatchCommits(data, cutoff);
    assert |multiset(UpTo(data, RowTime, cutoff))| == 0;
  }
}
