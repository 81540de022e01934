/**
 * `api_metrics_get`: the time range a request asks for, the rows of the
 * `metrics` table that the query returns, and the points sent back.
 */
module ServerQuery {
  import opened Wrappers
  import opened ServerIngest

  /** The `interval` query parameter. */
  datatype Interval = Minute1 | Minute5 | Minute15 | Hour1 | Hour4 | Day

  /** How far back an interval reaches, in seconds. */
  function Span(interval: Interval): (seconds: nat)
    ensures 60 <= seconds <= 86400 && seconds % 60 == 0
    ensures interval == Minute1 <==> seconds == 60
    ensures interval == Minute5 <==> seconds == 5 * 60
    ensures interval == Minute15 <==> seconds == 15 * 60
    ensures interval == Hour1 <==> seconds == 3600
    ensures interval == Hour4 <==> seconds == 4 * 3600
    ensures interval == Day <==> seconds == 24 * 3600
  {
    match interval
    case Minute1 => 60
    case Minute5 => 5 * 60
    case Minute15 => 15 * 60
    case Hour1 => 60 * 60
    case Hour4 => 4 * 60 * 60
    case Day => 24 * 60 * 60
  }

  /**
   * The start of the range. A given `range_start` is parsed, and one that does
   * not parse is `now`; without one, the range reaches back one interval, one
   * minute when no interval is given either.
   */
  function RangeStart(now: int, interval: Option<Interval>, rangeStart: Option<string>,
                      parse: string -> Option<int>): (start: int)
    ensures rangeStart.Some? && parse(rangeStart.value).None? ==> start == now
    ensures rangeStart.Some? && parse(rangeStart.value).Some? ==> start == parse(rangeStart.value).value
    ensures rangeStart.None? ==> start == now - Span(interval.GetOr(Minute1))
    ensures rangeStart.None? ==> now - 86400 <= start <= now - 60
    ensures rangeStart.None? && interval.None? ==> start == now - 60
  {
    match rangeStart
    case Some(text) => parse(text).GetOr(now)
    case None => now - Span(interval.GetOr(Minute1))
  }

  /** The end of the range: a given `range_end` parsed, and `now` when it is missing or does not parse. */
  function RangeEnd(now: int, rangeEnd: Option<string>, parse: string -> Option<int>): (end: int)
    ensures rangeEnd.Some? && parse(rangeEnd.value).Some? ==> end == parse(rangeEnd.value).value
    ensures rangeEnd.None? || parse(rangeEnd.value).None? ==> end == now
  {
    match rangeEnd
    case Some(text) => parse(text).GetOr(now)
    case None => now
  }

  /** A row of the `metrics` table. */
  datatype Stored = Stored(id: int, metricId: int, value: real, recordedAt: int)

  /** The query's `WHERE`: a row of the named metric recorded strictly inside the range. */
  predicate Selected(table: NameTable, name: string, start: int, end: int, r: Stored) {
    name in table.ids && r.metricId == table.ids[name] && start < r.recordedAt < end
  }

  /** The rows the `WHERE` keeps, in table order. */
  function Select(stored: seq<Stored>, table: NameTable, name: string, start: int, end: int): (rows: seq<Stored>)
    ensures forall r :: r in rows <==> r in stored && Selected(table, name, start, end, r)
    ensures multiset(rows) <= multiset(stored)
    ensures forall r :: multiset(rows)[r] == if Selected(table, name, start, end, r) then multiset(stored)[r] else 0
  {
    if |stored| == 0 then []
    else
      var rest := Select(stored[1..], table, name, start, end);
      assert stored == [stored[0]] + stored[1..];
      if Selected(table, name, start, end, stored[0]) then [stored[0]] + rest else rest
  }

  /** `ORDER BY recorded_at ASC`. */
  predicate Ascending(rows: seq<Stored>) {
    forall i, j :: 0 <= i < j < |rows| ==> rows[i].recordedAt <= rows[j].recordedAt
  }

  /** The first of rows in time order is the earliest. */
  lemma HeadEarliest(rows: seq<Stored>)
    requires |rows| > 0 && Ascending(rows)
    ensures forall y :: y in rows ==> rows[0].recordedAt <= y.recordedAt
  {
    forall y | y in rows
      ensures rows[0].recordedAt <= y.recordedAt
    {
      var j :| 0 <= j < |rows| && rows[j] == y;
    }
  }

  /** A row no later than any of rows in time order can go in front of them. */
  lemma ConsAscending(x: Stored, rows: seq<Stored>)
    requires Ascending(rows)
    requires forall y :: y in rows ==> x.recordedAt <= y.recordedAt
    ensures Ascending([x] + rows)
  {
    var s := [x] + rows;
    forall i, j | 0 <= i < j < |s|
      ensures s[i].recordedAt <= s[j].recordedAt
    {
      assert s[j] == rows[j - 1];
      if i > 0 {
        assert s[i] == rows[i - 1];
      }
    }
  }

  /** One row put into its place among rows already in time order. */
  function InsertByTime(x: Stored, rows: seq<Stored>): (r: seq<Stored>)
    requires Ascending(rows)
    ensures Ascending(r)
    ensures multiset(r) == multiset(rows) + multiset{x}
    ensures forall y :: y in r ==> y == x || y in rows
  {
    if |rows| == 0 then [x]
    else if x.recordedAt <= rows[0].recordedAt then
      HeadEarliest(rows);
      ConsAscending(x, rows);
      [x] + rows
    else
      assert rows == [rows[0]] + rows[1..];
      assert Ascending(rows[1..]) by {
        forall i, j | 0 <= i < j < |rows| - 1
          ensures rows[1..][i].recordedAt <= rows[1..][j].recordedAt
        {
          assert rows[1..][i] == rows[i + 1] && rows[1..][j] == rows[j + 1];
        }
      }
      var rest := InsertByTime(x, rows[1..]);
      HeadEarliest(rows);
      ConsAscending(rows[0], rest);
      [rows[0]] + rest
  }

  /** The rows in time order: the same rows, ascending by `recorded_at`. */
  function SortByTime(rows: seq<Stored>): (sorted: seq<Stored>)
    ensures Ascending(sorted)
    ensures multiset(sorted) == multiset(rows)
  {
    if |rows| == 0 then []
    else
      assert rows == [rows[0]] + rows[1..];
      InsertByTime(rows[0], SortByTime(rows[1..]))
  }

  /**
   * The rows the query returns: the named metric's rows strictly inside the
   * range, each once for each time it is stored, ascending by time. Rows
   * recorded at the same instant come back in an order the database does not
   * fix; the model keeps table order among them.
   */
  function Query(stored: seq<Stored>, table: NameTable, name: string, start: int, end: int): (rows: seq<Stored>)
    ensures Ascending(rows)
    ensures multiset(rows) == multiset(Select(stored, table, name, start, end))
    ensures forall r :: r in rows <==> r in stored && Selected(table, name, start, end, r)
  {
    var sorted := SortByTime(Select(stored, table, name, start, end));
    assert forall r :: r in sorted <==> r in multiset(sorted);
    sorted
  }

  /** A point of the answer: the row's value and its time as text. */
  datatype MetricPoint = MetricPoint(value: real, recordedAt: string)

  /** The rows copied into points, in order; `show` is the timestamp's `to_string`. */
  function ToPoints(rows: seq<Stored>, show: int -> string): (points: seq<MetricPoint>)
    ensures |points| == |rows|
    ensures forall i :: 0 <= i < |rows| ==> points[i] == MetricPoint(rows[i].value, show(rows[i].recordedAt))
  {
    if |rows| == 0 then [] else [MetricPoint(rows[0].value, show(rows[0].recordedAt))] + ToPoints(rows[1..], show)
  }

  /**
   * `api_metrics_get` for the metric `name`: the points of the rows the query
   * returns for the range the request resolves to, one for each selected row.
   */
  function MetricsGet(stored: seq<Stored>, table: NameTable, name: string, interval: Option<Interval>,
                      rangeStart: Option<string>, rangeEnd: Option<string>, now: int,
                      parse: string -> Option<int>, show: int -> string): (points: seq<MetricPoint>)
    ensures |points| == |Select(stored, table, name, RangeStart(now, interval, rangeStart, parse), RangeEnd(now, rangeEnd, parse))|
  {
    var start := RangeStart(now, interval, rangeStart, parse);
    var end := RangeEnd(now, rangeEnd, parse);
    var rows := Query(stored, table, name, start, end);
    assert |multiset(rows)| == |multiset(Select(stored, table, name, start, end))|;
    ToPoints(rows, show)
  }

  /**
   * `points` answers the query over (start, end) with the rows `rows`: there is
   * one point per selected row, and the points are the values of stored rows of
   * the named metric, recorded strictly inside the range, in ascending time.
   */
  predicate Answers(points: seq<MetricPoint>, rows: seq<Stored>, stored: seq<Stored>, table: NameTable, name: string,
                    start: int, end: int, show: int -> string) {
    && |points| == |Select(stored, table, name, start, end)|
    && |points| == |rows|
    && (forall i :: 0 <= i < |rows| ==>
          && rows[i] in stored && Selected(table, name, start, end, rows[i])
          && points[i] == MetricPoint(rows[i].value, show(rows[i].recordedAt)))
    && Ascending(rows)
  }

  /** The points of the rows the query returns answer it, for any range. */
  lemma PointsAnswer(stored: seq<Stored>, table: NameTable, name: string, start: int, end: int, show: int -> string)
    ensures var rows := Query(stored, table, name, start, end);
      Answers(ToPoints(rows, show), rows, stored, table, name, start, end, show)
  {
    var rows := Query(stored, table, name, start, end);
    assert |multiset(rows)| == |multiset(Select(stored, table, name, start, end))|;
  }

  /** The answer, point by point, for the range the request resolves to. */
  lemma MetricsGetAnswer(stored: seq<Stored>, table: NameTable, name: string, interval: Option<Interval>,
                         rangeStart: Option<string>, rangeEnd: Option<string>, now: int,
                         parse: string -> Option<int>, show: int -> string)
    ensures var start, end := RangeStart(now, interval, rangeStart, parse), RangeEnd(now, rangeEnd, parse);
      Answers(MetricsGet(stored, table, name, interval, rangeStart, rangeEnd, now, parse, show),
              Query(stored, table, name, start, end), stored, table, name, start, end, show)
  {
    PointsAnswer(stored, table, name, RangeStart(now, interval, rangeStart, parse), RangeEnd(now, rangeEnd, parse), show);
  }

  /** A range with no instant strictly inside it selects nothing. */
  lemma EmptyRange(stored: seq<Stored>, table: NameTable, name: string, start: int, end: int)
    requires end <= start + 1
    ensures Query(stored, table, name, start, end) == []
  {
    var rows := Query(stored, table, name, start, end);
    assert forall i :: 0 <= i < |rows| ==> rows[i] in rows;
  }

  /**
   * A `range_start` that does not parse becomes `now`, and so does a missing or
   * unparsable `range_end`; the range is then empty and so is the answer.
   */
  lemma UnparsableStartAnswersNothing(stored: seq<Stored>, table: NameTable, name: string, interval: Option<Interval>,
                                      rangeStart: Option<string>, rangeEnd: Option<string>, now: int,
                                      parse: string -> Option<int>, show: int -> string)
    requires rangeStart.Some? && parse(rangeStart.value).None?
    requires rangeEnd.None? || parse(rangeEnd.value).None?
    ensures MetricsGet(stored, table, name, interval, rangeStart, rangeEnd, now, parse, show) == []
  {
    EmptyRange(stored, table, name, now, now);
  }

  /**
   * Without bounds, the range is the last interval (a minute when none is
   * given) up to `now`: one point per row of the named metric recorded strictly
   * inside that window, each a stored row, in ascending time.
   */
  lemma DefaultRange(stored: seq<Stored>, table: NameTable, name: string, interval: Option<Interval>,
                     now: int, parse: string -> Option<int>, show: int -> string)
    ensures var start := now - Span(interval.GetOr(Minute1));
      Answers(MetricsGet(stored, table, name, interval, None, None, now, parse, show),
              Query(stored, table, name, start, now), stored, table, name, start, now, show)
  {
    var start := now - Span(interval.GetOr(Minute1));
    assert RangeStart(now, interval, None, parse) == start;
    assert RangeEnd(now, None, parse) == now;
    MetricsGetAnswer(stored, table, name, interval, None, None, now, parse, show);
  }
}
