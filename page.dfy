/** The state of the commit page and its two event handlers: the module-level
    variables `data`, `commits`, `filteredCommits`, `commitProgress` and
    `commitMaxTime`, updated by `onTimeSliderChange` and `onStepEnter`. */
module Page {
  import opened Seqs
  import opened Sorting
  import opened Records
  import opened Aggregation
  import opened TimeWindow
  import opened Statistics
  import opened FileDisplay
  import opened Languages

  /** What one handler renders: the summary statistics and the file display. */
  datatype View = View(summary: Summary, files: seq<FileView>)

  /** The view rendered for some rows and the commits shown with them. */
  function ViewOf(rows: seq<Row>, shown: seq<Commit>): View
  {
    View(Summarize(rows, shown), FileGroups(shown))
  }

  class MetaPage {
    const data: seq<Row>
    const commits: seq<Commit>
    /** `timeScale.invert`: slider progress to a time. */
    const invert: real -> int
    /** `timeScale`: a time to slider progress. */
    const scale: int -> real

    var filteredCommits: seq<Commit>
    var commitProgress: real
    var commitMaxTime: int

    /** The commits are in time order and the shown commits are always a prefix
        of them. (That the commits are the aggregated rows is fixed at start-up:
        both are constants.) */
    ghost predicate Valid()
      reads this
    {
      Sorted(commits, CommitTime) && filteredCommits <= commits
    }

    /** The start-up: `commits = processCommits(data)`, then everything shown and the
        slider at 100. */
    constructor (data: seq<Row>, invert: real -> int, scale: int -> real)
      ensures Valid() && commits == Aggregate(data)
      ensures this.data == data && this.invert == invert && this.scale == scale
      ensures filteredCommits == commits
      ensures commitProgress == 100.0 && commitMaxTime == invert(100.0)
    {
      var processed := ProcessCommits(data);
      this.data := data;
      this.commits := processed;
      this.invert := invert;
      this.scale := scale;
      filteredCommits := processed;
      commitProgress := 100.0;
      commitMaxTime := invert(100.0);
    }

    /** `onTimeSliderChange` with the slider at `progress`. */
    method OnSliderChange(progress: real) returns (view: View)
      requires Valid() && |commits| > 0
      modifies this
      ensures Valid() && |filteredCommits| > 0
      ensures commitProgress == progress && commitMaxTime == invert(progress)
      ensures filteredCommits == SliderWindow(commits, commitMaxTime)
      ensures view == ViewOf(UpTo(data, RowTime, commitMaxTime), filteredCommits)
    {
      var cutoff := invert(progress);
      var filtered := UpTo(commits, CommitTime, cutoff);
      if |filtered| == 0 {
        filtered := [commits[0]];
      }
      assert filtered == SliderWindow(commits, cutoff);
      SliderWindowPrefix(commits, cutoff);
      view := ViewOf(UpTo(data, RowTime, cutoff), filtered);
      commitProgress := progress;
      commitMaxTime := cutoff;
      filteredCommits := filtered;
    }

    /** `onStepEnter` for the step of commit `i`. */
    method OnStepEnter(i: nat) returns (view: View)
      requires Valid() && i < |commits|
      modifies this
      ensures Valid() && |filteredCommits| > i
      ensures commitMaxTime == commits[i].datetime && commitProgress == scale(commitMaxTime)
      ensures filteredCommits == StepWindow(commits, i)
      ensures view == ViewOf(UpTo(data, RowTime, commitMaxTime), filteredCommits)
    {
      var cutoff := commits[i].datetime;
      var filtered := StepWindow(commits, i);
      StepWindowShape(commits, i);
      view := ViewOf(UpTo(data, RowTime, cutoff), filtered);
      commitMaxTime := cutoff;
      commitProgress := scale(cutoff);
      filteredCommits := filtered;
    }

    /** `renderLanguageBreakdown(selection)`: the base commits are `filteredCommits`,
        which is always set once the page has started. */
    method LanguageBreakdown(selection: Selection) returns (entries: seq<Entry>)
      ensures entries == Breakdown(AllLines(RequiredCommits(filteredCommits, selection)))
    {
      var required := RequiredCommits(filteredCommits, selection);
      var lines := Flatten(required, CommitLines);
      entries := BreakdownEntries(lines);
    }
  }

  // ----- what the handlers show -----

  lemma FirstCommitLines(window: seq<Commit>)
    requires |window| > 0
    ensures window[0].lines <= AllLines(window)
    ensures |AllLines(window)| >= |window[0].lines|
  {
    assert window == [window[0]] + window[1..];
    FlattenAppend([window[0]], window[1..], CommitLines);
    FlattenSnoc([], window[0], CommitLines);
    assert [] + [window[0]] == [window[0]];
    assert Flatten([window[0]], CommitLines) == window[0].lines;
  }

  /** The rows the summary counts are, as a multiset, the lines of the shown commits
      whenever the shown commits are those at or before the cutoff. */
  lemma RowsAreShownLines(data: seq<Row>, cutoff: int)
    requires ConsistentTimes(data)
    ensures |UpTo(data, RowTime, cutoff)| == |AllLines(UpTo(Aggregate(data), CommitTime, cutoff))|
  {
    RowsMatchCommits(data, cutoff);
    assert |multiset(UpTo(data, RowTime, cutoff))| == |multiset(AllLines(UpTo(Aggregate(data), CommitTime, cutoff)))|;
  }

  /** After the slider moves, the summary takes the zero branch exactly when the
      cutoff precedes the first commit; otherwise it counts the shown commits and
      its line total is the number of lines in the file display. */
  lemma SliderView(data: seq<Row>, cutoff: int)
    requires ConsistentTimes(data) && |Aggregate(data)| > 0
    ensures ViewOf(UpTo(data, RowTime, cutoff), SliderWindow(Aggregate(data), cutoff)).summary.NoData?
        <==> cutoff < Aggregate(data)[0].datetime
    ensures cutoff >= Aggregate(data)[0].datetime ==>
      var view := ViewOf(UpTo(data, RowTime, cutoff), SliderWindow(Aggregate(data), cutoff));
      view.summary.numCommits == |UpTo(Aggregate(data), CommitTime, cutoff)| &&
      view.summary.totalLoc == |Flatten(view.files, ViewLines)|
  {
    var commits := Aggregate(data);
    var window := SliderWindow(commits, cutoff);
    SliderWindowShape(commits, cutoff);
    if cutoff < commits[0].datetime {
      FallbackHasNoRows(data, cutoff);
    } else {
      RowsAreShownLines(data, cutoff);
      FirstCommitLines(window);
      TotalLinesCoverRows(data);
      assert commits[0] in commits;
      FileGroupsPartition(window);
    }
  }

  /** After a step is entered, the summary never takes the zero branch, counts at
      least the commits up to the step's, and its line total is the number of lines
      in the file display. */
  lemma StepView(data: seq<Row>, i: nat)
    requires ConsistentTimes(data) && i < |Aggregate(data)|
    ensures
      var view := ViewOf(UpTo(data, RowTime, Aggregate(data)[i].datetime), StepWindow(Aggregate(data), i));
      view.summary.Stats? && view.summary.numCommits > i &&
      view.summary.totalLoc == |Flatten(view.files, ViewLines)|
  {
    var commits := Aggregate(data);
    var window := StepWindow(commits, i);
    StepWindowShape(commits, i);
    RowsAreShownLines(data, commits[i].datetime);
    FirstCommitLines(window);
    TotalLinesCoverRows(data);
    assert commits[0] in commits;
    FileGroupsPartition(window);
  }
}
