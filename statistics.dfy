/** `renderCommitInfo`: the summary statistics of the rows and commits currently
    shown. */
module Statistics {
  import opened Seqs
  import opened Grouping
  import opened Records

  /** The seven displayed values, or the zero branch (0, 0, 0 and four dashes). */
  datatype Summary =
    | NoData
    | Stats(numCommits: nat, numFiles: nat, totalLoc: nat, maxDepth: int,
            longestLine: int, maxLines: int, peakPeriod: string)

  /** `d3.group(rows, (d) => d.file).size`. */
  function FileCount(rows: seq<Row>): nat
  {
    |GroupBy(rows, FileOf)|
  }

  /** `d3.rollups(xs, (v) => d3.max(v, f), key)` over the groups: each key with the
      largest value of `f` in its group. */
  function GroupMaxima<K, T>(gs: seq<Group<K, T>>, f: T -> int): seq<(K, int)>
    requires forall i :: 0 <= i < |gs| ==> |gs[i].members| > 0
  {
    seq(|gs|, i requires 0 <= i < |gs| => (gs[i].key, MaxBy(gs[i].members, f)))
  }

  /** `d3.max` over the group maxima. */
  function MaxOfMaxima<T, K(==)>(xs: seq<T>, key: T -> K, f: T -> int): int
    requires |xs| > 0
  {
    GroupByNonEmpty(xs, key);
    MaxBy(GroupMaxima(GroupBy(xs, key), f), Count)
  }

  /** `d3.greatest` over the group counts, keeping only the key. */
  function Peak<T, K(==)>(xs: seq<T>, key: T -> K): K
    requires |xs| > 0
  {
    var counts := Counts(GroupBy(xs, key));
    GroupByNonEmpty(xs, key);
    counts[Greatest(counts, Count)].0
  }

  /** `maxLines`: the largest of the per-file maxima of `line`. */
  function MaxLines(rows: seq<Row>): int
    requires |rows| > 0
  {
    MaxOfMaxima(rows, FileOf, LineOf)
  }

  /** `peakPeriod`: the day period with the most rows. */
  function PeakPeriod(rows: seq<Row>): string
    requires |rows| > 0
  {
    Peak(rows, PeriodOf)
  }

  /** The summary `renderCommitInfo` displays. */
  function Summarize(rows: seq<Row>, commits: seq<Commit>): (s: Summary)
    ensures s.NoData? <==> |rows| == 0 || |commits| == 0
  {
    if |rows| == 0 || |commits| == 0 then NoData
    else Stats(|commits|, FileCount(rows), |rows|, MaxBy(rows, DepthOf), MaxBy(rows, LengthOf),
               MaxLines(rows), PeakPeriod(rows))
  }

  /** The largest line number among the rows of one file. */
  function FileMaxLine(rows: seq<Row>, f: string): int
    requires |WithKey(rows, FileOf, f)| > 0
  {
    MaxBy(WithKey(rows, FileOf, f), LineOf)
  }

  // ----- properties -----

  /** The file count is the number of different file names. */
  lemma FileCountIsDistinctFiles(rows: seq<Row>)
    ensures FileCount(rows) == |set r | r in rows :: r.file|
  {
    GroupCount(rows, FileOf);
    forall y | y in KeySet(rows, FileOf) ensures y in (set r | r in rows :: r.file) {
      var x :| x in rows && FileOf(x) == y;
    }
    assert KeySet(rows, FileOf) == set r | r in rows :: r.file;
  }

  // The maximum of the group maxima.

  lemma GroupMaxBound<T, K>(xs: seq<T>, key: T -> K, f: T -> int, k: K)
    requires |WithKey(xs, key, k)| > 0
    ensures MaxBy(WithKey(xs, key, k), f) <= MaxOfMaxima(xs, key, f)
  {
    var gs := GroupBy(xs, key);
    GroupOf(xs, key, k);
    var gm := GroupMaxima(gs, f);
    assert gm[IndexOf(gs, k)] in gm;
  }

  lemma GroupMaxAttained<T, K>(xs: seq<T>, key: T -> K, f: T -> int)
    requires |xs| > 0
    ensures exists k :: |WithKey(xs, key, k)| > 0 && MaxBy(WithKey(xs, key, k), f) == MaxOfMaxima(xs, key, f)
  {
    var gs := GroupBy(xs, key);
    GroupByNonEmpty(xs, key);
    var gm := GroupMaxima(gs, f);
    var m := MaxBy(gm, Count);
    assert MaxOfMaxima(xs, key, f) == m;
    var e :| e in gm && Count(e) == m;
    var i :| 0 <= i < |gm| && gm[i] == e;
    GroupByMembers(xs, key);
    assert gs[i].members == WithKey(xs, key, gs[i].key);
  }

  /** `maxLines` is the maximum over the files of each file's largest line number. */
  lemma MaxLinesIsMaxPerFile(rows: seq<Row>)
    requires |rows| > 0
    ensures forall f :: |WithKey(rows, FileOf, f)| > 0 ==> FileMaxLine(rows, f) <= MaxLines(rows)
    ensures exists f :: |WithKey(rows, FileOf, f)| > 0 && FileMaxLine(rows, f) == MaxLines(rows)
  {
    forall f | |WithKey(rows, FileOf, f)| > 0 ensures FileMaxLine(rows, f) <= MaxLines(rows) {
      GroupMaxBound(rows, FileOf, LineOf, f);
    }
    GroupMaxAttained(rows, FileOf, LineOf);
  }

  /** Consequently `maxLines` bounds every row's line number and some row attains it. */
  lemma MaxLinesBoundsRows(rows: seq<Row>)
    requires |rows| > 0
    ensures forall r :: r in rows ==> r.line <= MaxLines(rows)
    ensures exists r :: r in rows && r.line == MaxLines(rows)
  {
    MaxLinesIsMaxPerFile(rows);
    forall r | r in rows ensures r.line <= MaxLines(rows) {
      assert r in WithKey(rows, FileOf, r.file);
    }
    var f :| |WithKey(rows, FileOf, f)| > 0 && FileMaxLine(rows, f) == MaxLines(rows);
    var r :| r in WithKey(rows, FileOf, f) && LineOf(r) == FileMaxLine(rows, f);
  }

  // The key with the largest group.

  /** The peak is the key of the group `d3.greatest` picks. */
  lemma PeakGroup<T, K>(xs: seq<T>, key: T -> K)
    requires |xs| > 0
    ensures IndexOf(GroupBy(xs, key), Peak(xs, key)) == Greatest(Counts(GroupBy(xs, key)), Count)
    ensures |WithKey(xs, key, Peak(xs, key))| > 0
  {
    var gs := GroupBy(xs, key);
    GroupByNonEmpty(xs, key);
    GroupByDistinct(xs, key);
    var i := Greatest(Counts(gs), Count);
    var m := IndexOf(gs, gs[i].key);
    GroupOf(xs, key, gs[i].key);
    assert gs[m].key == gs[i].key;
  }

  /** No key has more elements than the peak. */
  lemma PeakBound<T, K>(xs: seq<T>, key: T -> K, k: K)
    requires |xs| > 0
    ensures |WithKey(xs, key, k)| <= |WithKey(xs, key, Peak(xs, key))|
  {
    var gs := GroupBy(xs, key);
    var counts := Counts(gs);
    PeakGroup(xs, key);
    GroupOf(xs, key, k);
    GroupOf(xs, key, Peak(xs, key));
    if |WithKey(xs, key, k)| > 0 {
      assert Count(counts[IndexOf(gs, k)]) <= Count(counts[IndexOf(gs, Peak(xs, key))]);
    }
  }

  /** A key with as many elements as the peak either is the peak or occurs only
      after the peak first occurs. */
  lemma PeakFirst<T, K>(xs: seq<T>, key: T -> K, q: nat)
    requires q < |xs|
    requires |WithKey(xs, key, key(xs[q]))| == |WithKey(xs, key, Peak(xs, key))|
    ensures key(xs[q]) == Peak(xs, key) || KeyBefore(xs, key, Peak(xs, key), q)
  {
    var gs := GroupBy(xs, key);
    var k, p := key(xs[q]), Peak(xs, key);
    PeakGroup(xs, key);
    assert xs[q] in WithKey(xs, key, k);
    GroupOf(xs, key, k);
    GroupOf(xs, key, p);
    var i, j := IndexOf(gs, p), IndexOf(gs, k);
    assert i <= j by {
      var counts := Counts(gs);
      assert Count(counts[j]) == Count(counts[i]);
    }
    if i < j {
      GroupBefore(xs, key, i, j, q);
    }
  }

  /** The period of row `r` has as many rows as the peak period. */
  ghost predicate TiesPeak(rows: seq<Row>, r: Row)
    requires |rows| > 0
  {
    |WithKey(rows, PeriodOf, PeriodOf(r))| == |WithKey(rows, PeriodOf, PeakPeriod(rows))|
  }

  /** `peakPeriod` is the period of some row, no period has more rows, and among
      periods with as many rows the one whose rows occur first wins. */
  lemma PeakPeriodIsPeak(rows: seq<Row>)
    requires |rows| > 0
    ensures exists r :: r in rows && PeriodOf(r) == PeakPeriod(rows)
    ensures forall period :: |WithKey(rows, PeriodOf, period)| <= |WithKey(rows, PeriodOf, PeakPeriod(rows))|
    ensures forall q :: 0 <= q < |rows| && TiesPeak(rows, rows[q]) ==>
      PeriodOf(rows[q]) == PeakPeriod(rows) || KeyBefore(rows, PeriodOf, PeakPeriod(rows), q)
  {
    PeakGroup(rows, PeriodOf);
    assert WithKey(rows, PeriodOf, PeakPeriod(rows))[0] in WithKey(rows, PeriodOf, PeakPeriod(rows));
    forall period ensures |WithKey(rows, PeriodOf, period)| <= |WithKey(rows, PeriodOf, PeakPeriod(rows))| {
      PeakBound(rows, PeriodOf, period);
    }
    forall q | 0 <= q < |rows| && TiesPeak(rows, rows[q])
      ensures PeriodOf(rows[q]) == PeakPeriod(rows) || KeyBefore(rows, PeriodOf, PeakPeriod(rows), q)
    {
      PeakFirst(rows, PeriodOf, q);
    }
  }

  /** What the summary shows on non-empty input. */
  lemma SummaryOfRows(rows: seq<Row>, commits: seq<Commit>)
    requires |rows| > 0 && |commits| > 0
    ensures Summarize(rows, commits).numCommits == |commits|
    ensures Summarize(rows, commits).totalLoc == |rows|
    ensures Summarize(rows, commits).numFiles == |set r | r in rows :: r.file|
    ensures forall r :: r in rows ==> r.depth <= Summarize(rows, commits).maxDepth
    ensures exists r :: r in rows && r.depth == Summarize(rows, commits).maxDepth
    ensures forall r :: r in rows ==> r.length <= Summarize(rows, commits).longestLine
    ensures exists r :: r in rows && r.length == Summarize(rows, commits).longestLine
    ensures forall r :: r in rows ==> r.line <= Summarize(rows, commits).maxLines
    ensures exists r :: r in rows && r.line == Summarize(rows, commits).maxLines
  {
    FileCountIsDistinctFiles(rows);
    MaxLinesBoundsRows(rows);
    var r :| r in rows && DepthOf(r) == MaxBy(rows, DepthOf);
    var r' :| r' in rows && LengthOf(r') == MaxBy(rows, LengthOf);
  }

  /** The peak period is one of the four day periods. */
  lemma PeakIsDayPeriod(rows: seq<Row>)
    requires |rows| > 0
    ensures PeakPeriod(rows) in {"Night", "Morning", "Afternoon", "Evening"}
  {
    PeakPeriodIsPeak(rows);
    var r :| r in rows && PeriodOf(r) == PeakPeriod(rows);
  }
}
