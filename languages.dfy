/** `renderLanguageBreakdown`: the lines of the selected commits, or of all shown
    commits when none is selected, counted per type. */
module Languages {
  import opened Seqs
  import opened Grouping
  import opened Records

  datatype Option<T> = None | Some(value: T)

  /** The brush selection is abstracted as the predicate `isCommitSelected(selection, _)`;
      no brush is `None`. */
  type Selection = Option<Commit -> bool>

  /** `selection ? baseCommits.filter((d) => isCommitSelected(selection, d)) : []`. */
  function Selected(base: seq<Commit>, selection: Selection): (r: seq<Commit>)
    ensures selection.None? ==> r == []
    ensures forall c :: c in r <==> selection.Some? && c in base && selection.value(c)
  {
    match selection
    case None => []
    case Some(p) => WhereMembers(base, p); Where(base, p)
  }

  /** `requiredCommits`: the selected commits, or the base commits when none is selected. */
  function RequiredCommits(base: seq<Commit>, selection: Selection): seq<Commit>
  {
    var selected := Selected(base, selection);
    if |selected| > 0 then selected else base
  }

  /** One `<dt>`/`<dd>` pair: a type, its line count and its share of all lines. */
  datatype Entry = Entry(language: string, count: int, share: real)

  /** `d3.rollup(lines, (v) => v.length, (d) => d.type)`, in first-occurrence order. */
  function TypeCounts(lines: seq<Row>): seq<(string, int)>
  {
    Counts(GroupBy(lines, KindOf))
  }

  /** One entry per group, its share taken of `n` lines. */
  function Entries(gs: seq<Group<string, Row>>, n: int): seq<Entry>
    requires n > 0
  {
    seq(|gs|, i requires 0 <= i < |gs| => Entry(gs[i].key, |gs[i].members|, |gs[i].members| as real / n as real))
  }

  /** The entries the breakdown writes, in order; none when there are no lines. */
  function Breakdown(lines: seq<Row>): seq<Entry>
  {
    if |lines| == 0 then [] else Entries(GroupBy(lines, KindOf), |lines|)
  }

  /** The `for` loop that appends one entry per type. */
  method BreakdownEntries(lines: seq<Row>) returns (entries: seq<Entry>)
    ensures entries == Breakdown(lines)
  {
    entries := [];
    if |lines| == 0 {
      return;
    }
    var breakdown := TypeCounts(lines);
    assert |breakdown| == |Breakdown(lines)|;
    for i := 0 to |breakdown|
      invariant entries == Breakdown(lines)[..i]
    {
      var (language, count) := breakdown[i];
      var proportion := count as real / |lines| as real;
      entries := entries + [Entry(language, count, proportion)];
    }
  }

  function SumCounts(es: seq<Entry>): int
    decreases |es|
  {
    if |es| == 0 then 0 else SumCounts(es[..|es| - 1]) + es[|es| - 1].count
  }

  function SumShares(es: seq<Entry>): real
    decreases |es|
  {
    if |es| == 0 then 0.0 else SumShares(es[..|es| - 1]) + es[|es| - 1].share
  }

  // ----- properties -----

  lemma {:induction false} GroupSizesSum(gs: seq<Group<string, Row>>, n: int)
    requires n > 0
    ensures SumCounts(Entries(gs, n)) == |Flatten(gs, Members)|
    ensures SumShares(Entries(gs, n)) == |Flatten(gs, Members)| as real / n as real
    decreases |gs|
  {
    if |gs| > 0 {
      var gs', g := gs[..|gs| - 1], gs[|gs| - 1];
      var es := Entries(gs, n);
      assert es[..|es| - 1] == Entries(gs', n);
      assert gs == gs' + [g];
      GroupSizesSum(gs', n);
      FlattenSnoc(gs', g, Members);
      var a, b := |Flatten(gs', Members)| as real, |g.members| as real;
      assert a / n as real + b / n as real == (a + b) / n as real;
    }
  }

  /** The counts add up to the number of lines, and the shares to one. */
  lemma BreakdownTotals(lines: seq<Row>)
    requires |lines| > 0
    ensures SumCounts(Breakdown(lines)) == |lines|
    ensures SumShares(Breakdown(lines)) == 1.0
  {
    var gs := GroupBy(lines, KindOf);
    var n := |lines|;
    assert Breakdown(lines) == Entries(gs, n);
    GroupSizesSum(gs, n);
    GroupByPartition(lines, KindOf);
    assert |Flatten(gs, Members)| == n;
    WholeShare(n);
  }

  lemma WholeShare(n: int)
    requires n > 0
    ensures n as real / n as real == 1.0
  {
  }

  /** Every entry counts the lines of its type, which is at least one; each type
      is listed once; and every line's type is listed. */
  lemma BreakdownCounts(lines: seq<Row>)
    ensures forall e :: e in Breakdown(lines) ==> e.count == |WithKey(lines, KindOf, e.language)| && e.count > 0
    ensures forall i, j :: 0 <= i < j < |Breakdown(lines)| ==> Breakdown(lines)[i].language != Breakdown(lines)[j].language
    ensures forall r :: r in lines ==> exists e :: e in Breakdown(lines) && e.language == r.kind
  {
    var gs := GroupBy(lines, KindOf);
    GroupByMembers(lines, KindOf);
    GroupByDistinct(lines, KindOf);
    forall r | r in lines ensures exists e :: e in Breakdown(lines) && e.language == r.kind {
      GroupOf(lines, KindOf, r.kind);
      assert r in WithKey(lines, KindOf, r.kind);
      assert Breakdown(lines)[IndexOf(gs, r.kind)] in Breakdown(lines);
    }
  }

  /** With a brush that selects some shown commit the breakdown covers exactly the
      selected commits; otherwise it covers all shown commits. */
  lemma RequiredCommitsFallback(base: seq<Commit>, selection: Selection)
    ensures (exists c :: c in base && selection.Some? && selection.value(c)) ==>
      forall c :: c in RequiredCommits(base, selection) <==> c in base && selection.value(c)
    ensures !(exists c :: c in base && selection.Some? && selection.value(c)) ==>
      RequiredCommits(base, selection) == base
  {
    var selected := Selected(base, selection);
    if exists c :: c in base && selection.Some? && selection.value(c) {
      var c :| c in base && selection.Some? && selection.value(c);
      assert c in selected;
    } else if selection.Some? {
      WhereNone(base, selection.value);
    }
  }
}
