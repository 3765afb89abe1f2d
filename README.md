# Commit-history pipeline of the portfolio's meta page

This project models the data pipeline behind the portfolio's "meta" page (`meta/main.js`).
The page reads one row per changed line of code. `processCommits` groups those rows into
commit records and sorts the records by time. A time slider and a scrolling narrative then
choose the commits, and the rows, at or before a cutoff. Three displays are computed from
that selection:

- a summary of seven statistics (`renderCommitInfo`);
- a per-file view of the lines (`updateFileDisplay`);
- a line count per language for the brushed commits (`renderLanguageBreakdown`).

The modules follow the pipeline:

- `Seqs`: the generic sequence operations the script borrows from JavaScript and d3.
  - `Where`/`WithKey`/`UpTo` model `Array.prototype.filter`.
  - `Flatten` models `flatMap`.
  - `MaxBy` models `d3.max`; `Greatest` models `d3.greatest`.
- `Grouping`: `d3.groups` as the single pass it performs (`GroupBy`), proved to be a
  grouping. Its keys are distinct and come in first-occurrence order, each group holds
  exactly the elements with its key, and together the groups partition the input.
- `Sorting`: the stable `Array.prototype.sort` with a numeric comparator.
  - `SortBy` is its specification, proved sorted, a permutation and stable.
  - `SortInPlace` sorts an array in place and is proved to produce `SortBy`.
- `Records`: the row and commit records, `getDayPeriodLabel` and the hour fraction.
- `Aggregation`: `processCommits`.
- `TimeWindow`: the slider and step filters.
- `Statistics`: the summary.
- `FileDisplay`: the file grouping.
- `Languages`: the language breakdown.
- `Page`: the page state as a class.
  - The fields `filteredCommits`, `commitProgress` and `commitMaxTime` are reassigned by
    `OnSliderChange` and `OnStepEnter`.
  - The commits are constants, fixed at start-up as the aggregated rows.
  - The invariant: the commits are in time order, and the shown commits are always a
    prefix of them.

Times are integers (instants). A row's `hour` and `minute` are the browser's local clock
reading of its `datetime`. The column `type` is called `kind`, because `type` is reserved
in Dafny.

The row/commit agreement lemmas assume `ConsistentTimes`: every row of one commit carries
the same `datetime`. The script itself never checks this.

## Model

| member | source | states |
|---|---|---|
| Records.DayPeriod | meta/main.js:68-74 | "Night" exactly for hours below 6, "Morning" for 6-11, "Afternoon" for 12-17, "Evening" from 18; the four bands are disjoint and cover every hour |
| Records.HourFrac | meta/main.js:47 | for a clock reading the result lies in [0, 24) and its whole part is the hour |
| Seqs.UpTo | meta/main.js:491-493 | an element is kept exactly when it is in the input and its time is at or before the cutoff |
| Seqs.MaxBy | meta/main.js:105-106 | the maximum bounds every element's value and some element attains it |
| Seqs.Greatest | meta/main.js:120 | the chosen index holds a maximal value, and every earlier index holds a strictly smaller one (ties go to the first) |
| Seqs.DistinctPermutation | meta/main.js:427 | a permutation of a sequence with pairwise distinct keys has pairwise distinct keys |
| Grouping.GroupBy | meta/main.js:33 | no group is empty |
| Grouping.GroupByIsGrouping | meta/main.js:33 | the groups have distinct keys, each holds exactly the input elements with its key in input order, every element's key has a group, and groups come in first-occurrence order of their keys |
| Grouping.GroupByPartition | meta/main.js:33 | concatenating the groups gives a permutation of the input, of the same length |
| Grouping.GroupOf | meta/main.js:33 | a key has a group exactly when some element has it, and that group is the elements with the key |
| Grouping.GroupByNonEmpty | meta/main.js:33 | a non-empty input has at least one group |
| Grouping.GroupCount | meta/main.js:103 | the number of groups is the number of different keys |
| Sorting.SortBy | meta/main.js:62 | the result is sorted by the key and is a permutation of the input |
| Sorting.SortByStable | meta/main.js:62 | for every key value, the elements with that value keep their relative order |
| Sorting.SortByFlatten | meta/main.js:62 | sorting does not change the multiset of the elements' parts |
| Sorting.InsertInPlace | meta/main.js:62 | one insertion step leaves the prefix equal to the specification's insertion and the rest of the array unchanged |
| Sorting.SortInPlace | meta/main.js:62 | the array ends up holding the stable sort of its old contents |
| Aggregation.ProcessCommits | meta/main.js:32-64 | returns the aggregated commits, sorted ascending by `datetime`, with `totalLines` summing to the row count and pairwise distinct ids |
| Aggregation.CommitIsGroup | meta/main.js:35-58 | every commit's `lines` are exactly the rows with its id in input order, and its other fields are built from them |
| Aggregation.AggregatePartition | meta/main.js:33-58 | the commits' lines together are the input rows, each as often as in the input |
| Aggregation.TotalLinesCoverRows | meta/main.js:48 | every commit has `totalLines == lines.length >= 1`, and the totals add up to the number of rows |
| Aggregation.OneCommitPerId | meta/main.js:33-40 | an id yields exactly one commit if some row has it and none otherwise |
| Aggregation.DistinctIds | meta/main.js:33-40 | no two commits share an id |
| Aggregation.CommitFromFirstRow | meta/main.js:36-47 | author, date, time, timezone, datetime and hourFrac are those of the first row with the commit's id |
| Aggregation.HourFracInDay | meta/main.js:47 | with valid clock readings every `hourFrac` lies in [0, 24) |
| Aggregation.GroupedInFirstOccurrenceOrder | meta/main.js:33-35 | before the sort, records come in the order in which their ids first occur |
| Aggregation.TiesKeepGroupedOrder | meta/main.js:62 | commits with equal `datetime` keep their first-occurrence order after the sort |
| TimeWindow.UpToIsPrefix | meta/main.js:491-493 | on time-sorted commits the filtered commits are a contiguous prefix, and every later commit is after the cutoff |
| TimeWindow.SliderWindowShape | meta/main.js:491-496 | the slider selection is a non-empty prefix; from the first commit's time on it is exactly the filtered commits, and before that it is the earliest commit alone |
| TimeWindow.UpToMonotone | meta/main.js:491-493 | a later cutoff extends the filtered commits |
| TimeWindow.SliderWindowMonotone | meta/main.js:491-496 | a later slider cutoff extends the selection, fallback included |
| TimeWindow.StepWindowShape | meta/main.js:552-568 | the step selection for commit i is a prefix of the commits, longer than i, that contains commit i |
| TimeWindow.LinesOfFilteredCommits | meta/main.js:415 | when lines carry their commit's time, the lines of the filtered commits are the filtered lines |
| TimeWindow.CommitRowsShareTime | meta/main.js:36-46 | under `ConsistentTimes` every line of a commit has the commit's `datetime` |
| TimeWindow.RowsMatchCommits | meta/main.js:491-500 | under `ConsistentTimes` the directly filtered rows are, as a multiset, the lines of the filtered commits |
| TimeWindow.FallbackHasNoRows | meta/main.js:491-500 | in the slider's fallback no row passes the filter while the earliest commit is shown |
| Statistics.Summarize | meta/main.js:91-129 | the zero branch is taken exactly when there are no rows or no commits |
| Statistics.FileCountIsDistinctFiles | meta/main.js:103 | the file count is the number of different file names |
| Statistics.GroupMaxBound | meta/main.js:108-113 | each group's maximum is at most the maximum of the group maxima |
| Statistics.GroupMaxAttained | meta/main.js:108-113 | some group's maximum equals the maximum of the group maxima |
| Statistics.MaxLinesIsMaxPerFile | meta/main.js:108-113 | `maxLines` is the maximum over the files of each file's largest line number |
| Statistics.MaxLinesBoundsRows | meta/main.js:108-113 | `maxLines` bounds every row's line number and some row attains it |
| Statistics.PeakGroup | meta/main.js:115-121 | the peak's group is the one `d3.greatest` picks, and the peak has rows |
| Statistics.PeakBound | meta/main.js:115-121 | no key has more elements than the peak |
| Statistics.PeakFirst | meta/main.js:115-121 | a key with as many elements as the peak is the peak or occurs only after the peak first occurs |
| Statistics.PeakPeriodIsPeak | meta/main.js:115-121 | the peak period is some row's period, no period has more rows, and ties go to the period that occurs first |
| Statistics.PeakIsDayPeriod | meta/main.js:68-74 | the peak period is one of the four day periods |
| Statistics.SummaryOfRows | meta/main.js:102-113 | on non-empty input the commit count, the LOC total and the distinct file count are right, and max depth, longest line and max lines bound every row and are attained |
| FileDisplay.ToViewsLines | meta/main.js:418-426 | the files' lines in order are the groups' members in order |
| FileDisplay.FileGroupsPartition | meta/main.js:415-427 | the files partition the lines of the shown commits, and the file sizes add up to the line count |
| FileDisplay.FileGroupsBySize | meta/main.js:427 | files come in non-increasing order of size |
| FileDisplay.FileNamesDistinct | meta/main.js:418-419 | each file name appears once |
| FileDisplay.FileViewContents | meta/main.js:418-426 | a file holds exactly the lines with its name, in their order, and has the type of the first of them |
| FileDisplay.EveryFileShown | meta/main.js:415-419 | every line's file is displayed |
| FileDisplay.EqualSizesKeepOrder | meta/main.js:427 | files of equal size keep first-occurrence order |
| Languages.Selected | meta/main.js:360-362 | no brush selects nothing; otherwise a commit is selected exactly when it is shown and the brush predicate holds |
| Languages.RequiredCommitsFallback | meta/main.js:367-368 | if the brush selects some shown commit the breakdown covers exactly the selected commits; otherwise it covers all shown commits |
| Languages.BreakdownEntries | meta/main.js:383-391 | the loop produces the breakdown's entries, one per type in first-occurrence order |
| Languages.GroupSizesSum | meta/main.js:377-385 | the entries' counts add up to the grouped lines, and their shares to that count over the line total |
| Languages.BreakdownTotals | meta/main.js:377-385 | the counts add up to the number of lines and the shares to one |
| Languages.BreakdownCounts | meta/main.js:377-381 | each entry counts the lines of its type, at least one; each type is listed once; every line's type is listed |
| Page.MetaPage.constructor | meta/main.js:592-594 | the commits are the aggregated rows, all of them are shown, and the slider is at 100 |
| Page.MetaPage.OnSliderChange | meta/main.js:482-504 | stores the progress and its time, shows the slider selection (never empty, still a prefix) and renders the summary of the filtered rows and the files of the shown commits |
| Page.MetaPage.OnStepEnter | meta/main.js:547-575 | sets the cutoff to the step's commit time and the progress from it, shows the step selection (longer than the step index, still a prefix) and renders its view |
| Page.MetaPage.LanguageBreakdown | meta/main.js:358-391 | the entries are the breakdown of the lines of the required commits of the shown commits |
| Page.FirstCommitLines | meta/main.js:415 | the lines of a selection begin with those of its first commit, so there are at least as many |
| Page.RowsAreShownLines | meta/main.js:498-500 | under `ConsistentTimes` the filtered rows are as many as the lines of the filtered commits |
| Page.SliderView | meta/main.js:491-504 | the summary takes the zero branch exactly when the cutoff precedes the first commit; otherwise it counts the filtered commits and its LOC total equals the lines in the file display |
| Page.StepView | meta/main.js:566-575 | after a step the summary is never the zero branch, counts more commits than the step index, and its LOC total equals the lines in the file display |

## Left out

- Loading and parsing `loc.csv` (meta/main.js:20-30) is not modelled. That covers the
  asynchronous fetch, `Number(...)` coercions that may give NaN, and `Date` parsing with
  timezones. Rows are given as typed records, and `hour`/`minute` are given fields.
- Because rows are typed, `d3.max` never sees `undefined` or NaN in this model.
- `timeScale` and its inverse are floating-point library mappings. They are inputs of the
  page (`scale`, `invert`) and are not modelled.
- The other scales, the scatter plot (`renderScatterPlot`, `updateScatterPlot`), the brush
  geometry and `isCommitSelected` are not modelled either. The brush selection is a
  predicate on commits supplied from outside.
- DOM and text output is not modelled: the stats panel markup, `toLocaleString`,
  `d3.format` (shares are exact reals), tooltips, the step narrative HTML (including its
  per-commit file count), scrollama and the resize listener.
- renderSelectionCount's "N commits selected" text is not modelled. The set it counts is
  `Languages.Selected`.
- The commit URL (meta/main.js:41) is not modelled: it is plain string concatenation.
- global.js and projects/projects.js are not modelled: they are navigation, theme, form
  and fetch plumbing.
- Page.MetaPage.OnSliderChange: requires at least one commit. With no commits the
  script's fallback is `[undefined]` and the next render fails, so the empty case has no
  behaviour to model.
- Page.MetaPage.constructor: models the start-up assignments (meta/main.js:462, 473-475,
  592-594) but not the first `onTimeSliderChange()` call (line 510). A caller makes that
  call as `OnSliderChange(100.0)`.
- The early returns when a DOM element or `timeScale` is missing are not modelled.
- `filteredCommits ?? commits` is modelled as `filteredCommits`, which start-up always
  sets.
- Sorting.SortInPlace: the sort is modelled as insertion sort. Any stable sort by the
  same key gives the same sequence, but the engine's algorithm and its comparison count
  are not modelled.
- Records.HourFrac: `hourFrac` is an exact real, `hour + minute / 60`. The script computes
  it in floating point (meta/main.js:47), and that rounding is not modelled. Only the
  scatter plot reads the value.
- TimeWindow.RowsMatchCommits: holds only under `ConsistentTimes`, an assumption about
  the data that the script does not enforce.
