/** `updateFileDisplay`: the lines of the shown commits, grouped by file, each
    group tagged with a type and the groups ordered by size, largest first. */
module FileDisplay {
  import opened Seqs
  import opened Grouping
  import opened Sorting
  import opened Records

  /** One file of the display: its name, its lines and the type of its first line. */
  datatype FileView = FileView(name: string, lines: seq<Row>, kind: string)

  function ToView(g: Group<string, Row>): FileView
    requires |g.members| > 0
  {
    FileView(g.key, g.members, g.members[0].kind)
  }

  function ToViews(gs: seq<Group<string, Row>>): seq<FileView>
    requires forall i :: 0 <= i < |gs| ==> |gs[i].members| > 0
  {
    seq(|gs|, i requires 0 <= i < |gs| => ToView(gs[i]))
  }

  function ViewName(v: FileView): string { v.name }
  function ViewLines(v: FileView): seq<Row> { v.lines }

  /** The sort key of `(a, b) => b.lines.length - a.lines.length`: ascending by the
      negated size is descending by size. */
  function NegLineCount(v: FileView): int { -|v.lines| }

  /** All lines of the shown commits, `currentCommits.flatMap((d) => d.lines)`. */
  function AllLines(commits: seq<Commit>): seq<Row>
  {
    Flatten(commits, CommitLines)
  }

  /** The views in the order `d3.groups` yields them, before the sort. */
  function UnsortedViews(commits: seq<Commit>): seq<FileView>
  {
    ToViews(GroupBy(AllLines(commits), FileOf))
  }

  /** The files displayed; none when there are no lines. */
  function FileGroups(commits: seq<Commit>): seq<FileView>
  {
    if |AllLines(commits)| == 0 then [] else SortBy(UnsortedViews(commits), NegLineCount)
  }

  // ----- properties -----

  lemma {:induction false} ToViewsLines(gs: seq<Group<string, Row>>)
    requires forall i :: 0 <= i < |gs| ==> |gs[i].members| > 0
    ensures Flatten(ToViews(gs), ViewLines) == Flatten(gs, Members)
    decreases |gs|
  {
    if |gs| > 0 {
      var gs' := gs[..|gs| - 1];
      ToViewsLines(gs');
      assert ToViews(gs) == ToViews(gs') + [ToView(gs[|gs| - 1])];
      FlattenSnoc(ToViews(gs'), ToView(gs[|gs| - 1]), ViewLines);
    }
  }

  /** The files partition the lines: every line is in exactly as many files as it
      occurs among the lines, and the file sizes add up to the line count. */
  lemma FileGroupsPartition(commits: seq<Commit>)
    ensures multiset(Flatten(FileGroups(commits), ViewLines)) == multiset(AllLines(commits))
    ensures |Flatten(FileGroups(commits), ViewLines)| == |AllLines(commits)|
  {
    var lines := AllLines(commits);
    if |lines| > 0 {
      SortByFlatten(UnsortedViews(commits), NegLineCount, ViewLines);
      ToViewsLines(GroupBy(lines, FileOf));
      GroupByPartition(lines, FileOf);
    }
    assert |multiset(Flatten(FileGroups(commits), ViewLines))| == |multiset(lines)|;
  }

  /** Larger files come first. */
  lemma FileGroupsBySize(commits: seq<Commit>)
    ensures forall i, j :: 0 <= i < j < |FileGroups(commits)| ==>
      |FileGroups(commits)[i].lines| >= |FileGroups(commits)[j].lines|
  {
    if |AllLines(commits)| > 0 {
      assert Sorted(FileGroups(commits), NegLineCount);
    }
  }

  /** Each file name appears once. */
  lemma FileNamesDistinct(commits: seq<Commit>)
    ensures forall i, j :: 0 <= i < j < |FileGroups(commits)| ==>
      FileGroups(commits)[i].name != FileGroups(commits)[j].name
  {
    var lines := AllLines(commits);
    if |lines| > 0 {
      var views := UnsortedViews(commits);
      GroupByDistinct(lines, FileOf);
      assert forall i, j :: 0 <= i < j < |views| ==> ViewName(views[i]) != ViewName(views[j]);
      DistinctPermutation(views, FileGroups(commits), ViewName);
    }
  }

  /** A file holds exactly the lines with its name, in their order among all lines,
      and carries the type of the first of them. */
  lemma FileViewContents(commits: seq<Commit>, v: FileView)
    requires v in FileGroups(commits)
    ensures |v.lines| > 0 && v.lines == WithKey(AllLines(commits), FileOf, v.name)
    ensures v.kind == v.lines[0].kind
  {
    var lines := AllLines(commits);
    GroupByMembers(lines, FileOf);
    assert v in multiset(FileGroups(commits));
    assert v in UnsortedViews(commits);
  }

  /** Every line's file is displayed. */
  lemma EveryFileShown(commits: seq<Commit>, r: Row)
    requires r in AllLines(commits)
    ensures exists v :: v in FileGroups(commits) && v.name == r.file
  {
    var lines := AllLines(commits);
    var gs := GroupBy(lines, FileOf);
    GroupOf(lines, FileOf, r.file);
    assert r in WithKey(lines, FileOf, r.file);
    var v := UnsortedViews(commits)[IndexOf(gs, r.file)];
    assert v in multiset(UnsortedViews(commits));
    assert v in FileGroups(commits);
  }

  /** Files of equal size stay in the order in which their names first occur: for
      every sort key value `k` (the size negated) the files with that key are in the
      same order as before the sort. */
  lemma {:induction false} EqualSizesKeepOrder(commits: seq<Commit>, k: int)
    requires |AllLines(commits)| > 0
    ensures WithKey(FileGroups(commits), NegLineCount, k) == WithKey(UnsortedViews(commits), NegLineCount, k)
  {
    SortByStable(UnsortedViews(commits), NegLineCount, k);
  }
}
