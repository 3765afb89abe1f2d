/** The records of the commit page: one `Row` per changed line (a line of
    loc.csv after its numeric and date fields are converted) and one `Commit`
    per commit id. */
module Records {

  /** One changed line. Times are integers (instants); `hour` and `minute` are
      the local clock reading of `datetime` (`getHours()`, `getMinutes()`).
      `kind` is the csv column `type`, a reserved word here. */
  datatype Row = Row(
    commit: string,
    file: string,
    line: int,
    kind: string,
    depth: int,
    length: int,
    author: string,
    date: int,
    time: string,
    timezone: string,
    datetime: int,
    hour: int,
    minute: int)

  /** A clock reading the browser can produce. */
  predicate ValidClock(r: Row)
  {
    0 <= r.hour < 24 && 0 <= r.minute < 60
  }

  /** A commit. `lines` is the non-enumerable property of the page script:
      the rows of the commit, in input order. The commit URL is not modelled. */
  datatype Commit = Commit(
    id: string,
    author: string,
    date: int,
    time: string,
    timezone: string,
    datetime: int,
    hourFrac: real,
    totalLines: nat,
    lines: seq<Row>)

  /** `datetime.getHours() + datetime.getMinutes() / 60`: the time of day in hours.
      Its whole part is the hour. */
  function HourFrac(hour: int, minute: int): (h: real)
    ensures 0 <= hour < 24 && 0 <= minute < 60 ==> 0.0 <= h < 24.0
    ensures 0 <= minute < 60 ==> h.Floor == hour
  {
    hour as real + minute as real / 60.0
  }

  /** `getDayPeriodLabel`: the part of the day an hour falls in. */
  function DayPeriod(hour: int): (period: string)
    ensures period == "Night" <==> hour < 6
    ensures period == "Morning" <==> 6 <= hour < 12
    ensures period == "Afternoon" <==> 12 <= hour < 18
    ensures period == "Evening" <==> 18 <= hour
  {
    if hour < 6 then "Night"
    else if hour < 12 then "Morning"
    else if hour < 18 then "Afternoon"
    else "Evening"
  }

  // Keys by which the page groups, sorts and filters.

  function CommitOf(r: Row): string { r.commit }
  function FileOf(r: Row): string { r.file }
  function KindOf(r: Row): string { r.kind }
  function LineOf(r: Row): int { r.line }
  function DepthOf(r: Row): int { r.depth }
  function LengthOf(r: Row): int { r.length }
  function RowTime(r: Row): int { r.datetime }
  function PeriodOf(r: Row): string { DayPeriod(r.hour) }

  function CommitId(c: Commit): string { c.id }
  function CommitTime(c: Commit): int { c.datetime }
  function CommitLines(c: Commit): seq<Row> { c.lines }
}
