/**
 * The meaning of the statistics SQL: the four windowed counts of page views
 * (`COUNT(*)`) and unique visitors (`COUNT(DISTINCT visitor_id)`), and the
 * zero-filled daily series built from `generate_series` left-joined with a
 * per-day aggregate. The `visits` table is a sequence of rows; times are
 * whole seconds since the epoch in UTC, and a day is a day number.
 */
module Aggregation {
  import opened Wrappers
  import opened Text
  import VisitsTable

  const SecondsPerDay: int := 86400

  /** A row of the `visits` table. */
  datatype Row = Row(ts: int, visitorId: string, path: string)

  datatype Counts = Counts(pageViews: nat, uniqueVisitors: nat)

  /** The four windows `getVisitStats` reports. */
  datatype Stats = Stats(today: Counts, d7: Counts, d30: Counts, all: Counts)

  /** `date_trunc('day', ts)` as a day number: the division rounds towards
      minus infinity, as truncation to the start of a day does. */
  function DayOf(ts: int): int {
    ts / SecondsPerDay
  }

  /** `date_trunc('day', ts)` as a time. */
  function DayStart(ts: int): (start: int)
    ensures start <= ts < start + SecondsPerDay
    ensures start % SecondsPerDay == 0
  {
    DayOf(ts) * SecondsPerDay
  }

  /** `recent` holds each row of `rows` at or after `start` as often as
      `rows` does, and no other row: `COUNT(*)` counts equal rows apart. */
  ghost predicate KeepsEveryCopySince(recent: seq<Row>, rows: seq<Row>, start: int) {
    forall r :: multiset(recent)[r] == if r.ts >= start then multiset(rows)[r] else 0
  }

  /** `WHERE ts >= start`, keeping the order of the rows. */
  function Since(rows: seq<Row>, start: int): (recent: seq<Row>)
    ensures |recent| <= |rows|
    ensures forall r :: r in recent <==> r in rows && r.ts >= start
  {
    if rows == [] then []
    else
      var before := Since(rows[..|rows| - 1], start);
      var last := rows[|rows| - 1];
      assert rows == rows[..|rows| - 1] + [last];
      if last.ts >= start then before + [last] else before
  }

  /** The window keeps every copy of a row: equal rows are distinct
      records of the table, and `COUNT(*)` counts each of them. */
  lemma {:induction false} SinceKeepsCopies(rows: seq<Row>, start: int)
    ensures KeepsEveryCopySince(Since(rows, start), rows, start)
  {
    if rows != [] {
      var n := |rows| - 1;
      SinceKeepsCopies(rows[..n], start);
      assert rows == rows[..n] + [rows[n]];
      assert multiset(rows) == multiset(rows[..n]) + multiset{rows[n]};
    }
  }

  /** The distinct visitor ids of `rows`; there are never more of them
      than rows. */
  function Visitors(rows: seq<Row>): (ids: set<string>)
    ensures |ids| <= |rows|
  {
    if rows == [] then {}
    else Visitors(rows[..|rows| - 1]) + {rows[|rows| - 1].visitorId}
  }

  /** `Visitors` holds exactly the ids that occur in the rows. */
  lemma {:induction false} VisitorsAreIds(rows: seq<Row>)
    ensures forall v :: v in Visitors(rows) <==> exists r :: r in rows && r.visitorId == v
  {
    if rows != [] {
      var n := |rows| - 1;
      VisitorsAreIds(rows[..n]);
      assert rows == rows[..n] + [rows[n]];
    }
  }

  /** `COUNT(*)` and `COUNT(DISTINCT visitor_id)` over `rows`. */
  function CountsOf(rows: seq<Row>): (c: Counts)
    ensures c.uniqueVisitors <= c.pageViews
    ensures c.pageViews == 0 <==> rows == []
  {
    Counts(|rows|, |Visitors(rows)|)
  }

  /** `getVisitStats()` over the rows present at time `now`: since the
      start of today, the last 7 and 30 days, and all time. */
  function WindowStats(rows: seq<Row>, now: int): (s: Stats)
    ensures s.all.pageViews == |rows|
    ensures s.today.pageViews <= s.d7.pageViews <= s.d30.pageViews <= s.all.pageViews
  {
    SinceMonotone(rows, now - 7 * SecondsPerDay, DayStart(now));
    SinceMonotone(rows, now - 30 * SecondsPerDay, now - 7 * SecondsPerDay);
    Stats(
      CountsOf(Since(rows, DayStart(now))),
      CountsOf(Since(rows, now - 7 * SecondsPerDay)),
      CountsOf(Since(rows, now - 30 * SecondsPerDay)),
      CountsOf(rows))
  }

  /** A later window start keeps a sub-sequence of the rows. */
  lemma {:induction false} SinceMonotone(rows: seq<Row>, early: int, late: int)
    requires early <= late
    ensures |Since(rows, late)| <= |Since(rows, early)|
    ensures Visitors(Since(rows, late)) <= Visitors(Since(rows, early))
  {
    if rows != [] {
      var n := |rows| - 1;
      SinceMonotone(rows[..n], early, late);
      var lateBefore := Since(rows[..n], late);
      var earlyBefore := Since(rows[..n], early);
      if rows[n].ts >= late {
        VisitorsSnoc(lateBefore, rows[n]);
        VisitorsSnoc(earlyBefore, rows[n]);
      } else if rows[n].ts >= early {
        VisitorsSnoc(earlyBefore, rows[n]);
      }
    }
  }

  lemma VisitorsSnoc(rows: seq<Row>, r: Row)
    ensures Visitors(rows + [r]) == Visitors(rows) + {r.visitorId}
  {
    assert (rows + [r])[..|rows|] == rows;
  }

  lemma SubsetCardinality(a: set<string>, b: set<string>)
    requires a <= b
    ensures |a| <= |b|
  {
    assert b == a + (b - a);
  }

  /** In every window the unique visitors are at most the page views, and
      the windows are nested: all time, then 30 days, then 7 days, then
      today, for both counts. */
  lemma StatsNested(rows: seq<Row>, now: int)
    ensures var s := WindowStats(rows, now);
      && s.today.uniqueVisitors <= s.today.pageViews
      && s.d7.uniqueVisitors <= s.d7.pageViews
      && s.d30.uniqueVisitors <= s.d30.pageViews
      && s.all.uniqueVisitors <= s.all.pageViews
      && s.all.pageViews >= s.d30.pageViews >= s.d7.pageViews >= s.today.pageViews
      && s.all.uniqueVisitors >= s.d30.uniqueVisitors >= s.d7.uniqueVisitors >= s.today.uniqueVisitors
  {
    var t0, t7, t30 := DayStart(now), now - 7 * SecondsPerDay, now - 30 * SecondsPerDay;
    SinceMonotone(rows, t7, t0);
    SinceMonotone(rows, t30, t7);
    SinceAll(rows, t30);
    SubsetCardinality(Visitors(Since(rows, t0)), Visitors(Since(rows, t7)));
    SubsetCardinality(Visitors(Since(rows, t7)), Visitors(Since(rows, t30)));
    SubsetCardinality(Visitors(Since(rows, t30)), Visitors(rows));
  }

  /** Any window keeps a sub-sequence of all rows. */
  lemma {:induction false} SinceAll(rows: seq<Row>, start: int)
    ensures Visitors(Since(rows, start)) <= Visitors(rows)
  {
    if rows != [] {
      var n := |rows| - 1;
      SinceAll(rows[..n], start);
      VisitorsSnoc(rows[..n], rows[n]);
      assert rows[..n] + [rows[n]] == rows;
      if rows[n].ts >= start {
        VisitorsSnoc(Since(rows[..n], start), rows[n]);
      }
    }
  }

  /** Five visits by two visitors: five page views, two unique visitors. */
  lemma TwoVisitorsFiveViews(a: string, b: string, t: int)
    requires a != b
    ensures CountsOf([Row(t, a, "/"), Row(t + 1, a, "/"), Row(t + 2, b, "/x"), Row(t + 3, a, "/"), Row(t + 4, b, "/")])
         == Counts(5, 2)
  {
    var r0, r1, r2, r3, r4 := Row(t, a, "/"), Row(t + 1, a, "/"), Row(t + 2, b, "/x"), Row(t + 3, a, "/"), Row(t + 4, b, "/");
    VisitorsSnoc([], r0);
    assert [] + [r0] == [r0];
    VisitorsSnoc([r0], r1);
    assert [r0] + [r1] == [r0, r1];
    VisitorsSnoc([r0, r1], r2);
    assert [r0, r1] + [r2] == [r0, r1, r2];
    VisitorsSnoc([r0, r1, r2], r3);
    assert [r0, r1, r2] + [r3] == [r0, r1, r2, r3];
    VisitorsSnoc([r0, r1, r2, r3], r4);
    assert [r0, r1, r2, r3] + [r4] == [r0, r1, r2, r3, r4];
    assert Visitors([r0, r1, r2, r3, r4]) == {a, b};
  }

  /** A window whose start no row precedes keeps every row. */
  lemma {:induction false} SinceOfRecent(rows: seq<Row>, start: int)
    requires forall i :: 0 <= i < |rows| ==> rows[i].ts >= start
    ensures Since(rows, start) == rows
  {
    if rows != [] {
      var n := |rows| - 1;
      SinceOfRecent(rows[..n], start);
      assert rows[..n] + [rows[n]] == rows;
    }
  }

  /** Five visits today by two visitors, checked through the windows:
      today, the last 7 and 30 days and all time each count five page views
      and two unique visitors. */
  lemma TodayTwoVisitorsFiveViews(a: string, b: string, now: int, t: int)
    requires a != b
    requires DayStart(now) <= t && t + 4 <= now
    ensures var rows := [Row(t, a, "/"), Row(t + 1, a, "/"), Row(t + 2, b, "/x"), Row(t + 3, a, "/"), Row(t + 4, b, "/")];
      var c := Counts(5, 2);
      WindowStats(rows, now) == Stats(c, c, c, c)
  {
    var rows := [Row(t, a, "/"), Row(t + 1, a, "/"), Row(t + 2, b, "/x"), Row(t + 3, a, "/"), Row(t + 4, b, "/")];
    SinceOfRecent(rows, DayStart(now));
    SinceOfRecent(rows, now - 7 * SecondsPerDay);
    SinceOfRecent(rows, now - 30 * SecondsPerDay);
    TwoVisitorsFiveViews(a, b, t);
  }

  // ---------------------------------------------------------------------
  // The daily series

  /** `Number.parseInt(String(days), 10) || 30`, for the query parameter
      `days ?? "30"`: a value that does not parse, or parses to 0, is 30. */
  function RequestedDays(days: Option<string>): (n: int)
    ensures n != 0
  {
    var text := match days case Some(s) => s case None => "30";
    match ParseInt(text)
    case None => 30
    case Some(n) => if n == 0 then 30 else n
  }

  /** `Math.max(1, Math.min(365, n))`. */
  function ClampDays(n: int): (d: int)
    ensures 1 <= d <= 365
    ensures 1 <= n <= 365 ==> d == n
    ensures n < 1 ==> d == 1
    ensures n > 365 ==> d == 365
  {
    var capped := if n < 365 then n else 365;
    if capped > 1 then capped else 1
  }

  /** The number of days the series covers. */
  function SeriesDays(days: Option<string>): (d: int)
    ensures 1 <= d <= 365
  {
    ClampDays(RequestedDays(days))
  }

  lemma PrintsThirty()
    ensures IntToString(30) == "30"
  {
    assert NatToString(30) == NatToString(3) + [DigitChar(0)];
  }

  lemma ParsesThirty()
    ensures ParseInt("30") == Some(30)
  {
    PrintsThirty();
    ParseIntOfIntToString(30);
  }

  /** Without a `days` parameter, and for one that is not a number or is
      zero, the series covers 30 days. */
  lemma SeriesDaysDefault(days: Option<string>)
    requires days.None? || ParseInt(days.value) in {None, Some(0)}
    ensures RequestedDays(days) == 30 && SeriesDays(days) == 30
  {
    ParsesThirty();
  }

  /** `picked` holds each row of `rows` on `day` as often as `rows` does,
      and no other row. */
  ghost predicate KeepsEveryCopyOnDay(picked: seq<Row>, rows: seq<Row>, day: int) {
    forall r :: multiset(picked)[r] == if DayOf(r.ts) == day then multiset(rows)[r] else 0
  }

  /** The rows whose day is `day`. */
  function OnDay(rows: seq<Row>, day: int): (picked: seq<Row>)
    ensures forall r :: r in picked <==> r in rows && DayOf(r.ts) == day
  {
    if rows == [] then []
    else
      var before := OnDay(rows[..|rows| - 1], day);
      var last := rows[|rows| - 1];
      assert rows == rows[..|rows| - 1] + [last];
      if DayOf(last.ts) == day then before + [last] else before
  }

  /** The rows of a day keep every copy of a row, as `COUNT(*)` in the
      per-day `GROUP BY` counts them. */
  lemma {:induction false} OnDayKeepsCopies(rows: seq<Row>, day: int)
    ensures KeepsEveryCopyOnDay(OnDay(rows, day), rows, day)
  {
    if rows != [] {
      var n := |rows| - 1;
      OnDayKeepsCopies(rows[..n], day);
      assert rows == rows[..n] + [rows[n]];
      assert multiset(rows) == multiset(rows[..n]) + multiset{rows[n]};
    }
  }

  /** The days on which some row falls. */
  function DaysOf(rows: seq<Row>): set<int> {
    set r | r in rows :: DayOf(r.ts)
  }

  /** The `agg` table: per day, the counts over the rows since `start`,
      for the days that have such rows. */
  function Agg(rows: seq<Row>, start: int): (agg: map<int, Counts>)
    ensures forall day :: day in agg ==> 1 <= agg[day].pageViews && day >= DayOf(start)
  {
    var recent := Since(rows, start);
    DaysHaveRows(recent, start);
    map day | day in DaysOf(recent) :: CountsOf(OnDay(recent, day))
  }

  /** Each day on which a row at or after `start` falls has such a row, and
      is not before the day of `start`. */
  lemma DaysHaveRows(recent: seq<Row>, start: int)
    requires forall r :: r in recent ==> r.ts >= start
    ensures forall day :: day in DaysOf(recent) ==> OnDay(recent, day) != [] && day >= DayOf(start)
  {
    forall day | day in DaysOf(recent)
      ensures OnDay(recent, day) != [] && day >= DayOf(start)
    {
      var r :| r in recent && DayOf(r.ts) == day;
      assert r in OnDay(recent, day);
      DayOfMonotone(start, r.ts);
    }
  }

  lemma DayOfMonotone(a: int, b: int)
    requires a <= b
    ensures DayOf(a) <= DayOf(b)
  {
  }

  /** One row of the series. */
  datatype DayRow = DayRow(day: int, pageViews: nat, uniqueVisitors: nat)

  /** `getVisitTimeSeries` for a clamped day count `d` at time `now`: the
      `days` table of the `d` days ending today, left-joined with `agg`,
      missing counts read as 0, in ascending order. */
  function Series(rows: seq<Row>, now: int, d: int): (series: seq<DayRow>)
    requires 1 <= d
    ensures |series| == d && series[d - 1].day == DayOf(now)
  {
    var first := FirstDay(now, d);
    var agg := Agg(rows, first * SecondsPerDay);
    var series := seq(d, k requires 0 <= k < d => JoinedRow(agg, first + k));
    assert series[d - 1] == JoinedRow(agg, first + (d - 1));
    series
  }

  /** The first day of a series of `d` days ending today. */
  function FirstDay(now: int, d: int): int {
    DayOf(now) - (d - 1)
  }

  /** One row of `days LEFT JOIN agg`, with `COALESCE(…, 0)`. */
  function JoinedRow(agg: map<int, Counts>, day: int): (row: DayRow)
    ensures row.day == day
    ensures day !in agg ==> row.pageViews == 0 && row.uniqueVisitors == 0
  {
    if day in agg then DayRow(day, agg[day].pageViews, agg[day].uniqueVisitors)
    else DayRow(day, 0, 0)
  }

  /** The series has one row per day, for consecutive ascending days
      ending today. */
  lemma SeriesDaysConsecutive(rows: seq<Row>, now: int, d: int)
    requires 1 <= d
    ensures |Series(rows, now, d)| == d
    ensures Series(rows, now, d)[d - 1].day == DayOf(now)
    ensures forall k :: 0 <= k < d - 1 ==> Series(rows, now, d)[k + 1].day == Series(rows, now, d)[k].day + 1
  {
    forall k | 0 <= k < d - 1
      ensures Series(rows, now, d)[k + 1].day == Series(rows, now, d)[k].day + 1
    {
      SeriesStep(rows, now, d, k);
    }
  }

  lemma SeriesStep(rows: seq<Row>, now: int, d: int, k: int)
    requires 1 <= d && 0 <= k < d - 1
    ensures Series(rows, now, d)[k + 1].day == Series(rows, now, d)[k].day + 1
  {
    SeriesAt(rows, now, d, k);
    SeriesAt(rows, now, d, k + 1);
  }

  /** Counting the rows of a day in the window gives the counts of that
      day over all rows: the window starts at the first day's midnight. */
  lemma {:induction false} OnDayOfRecent(rows: seq<Row>, first: int, day: int)
    requires day >= first
    ensures OnDay(Since(rows, first * SecondsPerDay), day) == OnDay(rows, day)
  {
    if rows != [] {
      var n := |rows| - 1;
      OnDayOfRecent(rows[..n], first, day);
      var r := rows[n];
      if DayOf(r.ts) == day {
        assert r.ts >= first * SecondsPerDay;
      }
      var recent := Since(rows[..n], first * SecondsPerDay);
      if r.ts >= first * SecondsPerDay {
        assert (recent + [r])[..|recent|] == recent;
      }
    }
  }

  /** For a day in the window, `agg` holds exactly the days with visits,
      with that day's counts over all rows. */
  lemma AggAt(rows: seq<Row>, first: int, day: int)
    requires day >= first
    ensures var agg := Agg(rows, first * SecondsPerDay);
      && (day in agg <==> OnDay(rows, day) != [])
      && (day in agg ==> agg[day] == CountsOf(OnDay(rows, day)))
  {
    var recent := Since(rows, first * SecondsPerDay);
    OnDayOfRecent(rows, first, day);
    if day in DaysOf(recent) {
      var r :| r in recent && DayOf(r.ts) == day;
      assert r in OnDay(recent, day);
    }
  }

  /** Each row of the series carries the page views and unique visitors of
      its day over all rows, and 0 for a day without visits. */
  lemma SeriesCounts(rows: seq<Row>, now: int, d: int, k: int)
    requires 1 <= d && 0 <= k < d
    ensures var row := Series(rows, now, d)[k];
      && row.pageViews == |OnDay(rows, row.day)|
      && row.uniqueVisitors == |Visitors(OnDay(rows, row.day))|
      && (OnDay(rows, row.day) == [] ==> row.pageViews == 0 && row.uniqueVisitors == 0)
  {
    var first := FirstDay(now, d);
    var day := first + k;
    var agg := Agg(rows, first * SecondsPerDay);
    SeriesAt(rows, now, d, k);
    AggAt(rows, first, day);
    JoinedCounts(agg, day, OnDay(rows, day));
  }

  /** A row of the left join carries the counts of `picked` when `agg`
      holds exactly the days with rows, with their counts. */
  lemma JoinedCounts(agg: map<int, Counts>, day: int, picked: seq<Row>)
    requires day in agg <==> picked != []
    requires day in agg ==> agg[day] == CountsOf(picked)
    ensures JoinedRow(agg, day).pageViews == |picked|
    ensures JoinedRow(agg, day).uniqueVisitors == |Visitors(picked)|
  {
  }

  /** Row `k` of the series is day `first + k` of the left join. */
  lemma SeriesAt(rows: seq<Row>, now: int, d: int, k: int)
    requires 1 <= d && 0 <= k < d
    ensures Series(rows, now, d)[k]
         == JoinedRow(Agg(rows, FirstDay(now, d) * SecondsPerDay), FirstDay(now, d) + k)
  {
  }

  lemma PrintsFourHundred()
    ensures IntToString(400) == "400"
  {
    assert NatToString(40) == NatToString(4) + [DigitChar(0)];
    assert NatToString(400) == NatToString(40) + [DigitChar(0)];
  }

  lemma ParsesFourHundred()
    ensures ParseInt("400") == Some(400)
  {
    PrintsFourHundred();
    ParseIntOfIntToString(400);
  }

  lemma ParsesMinusFive()
    ensures ParseInt("-5") == Some(-5)
  {
    assert NatToString(5) == [DigitChar(5)] == "5";
    assert IntToString(-5) == "-" + "5" == "-5";
    ParseIntOfIntToString(-5);
  }

  /** The `days` echoed by the endpoint is the unclamped request while the
      series is clamped: asking for 400 days echoes 400 with 365 rows, and
      asking for -5 echoes -5 with one row. */
  lemma EchoIsUnclamped(rows: seq<Row>, now: int)
    ensures RequestedDays(Some("400")) == 400
    ensures |Series(rows, now, SeriesDays(Some("400")))| == 365
    ensures RequestedDays(Some("-5")) == -5
    ensures |Series(rows, now, SeriesDays(Some("-5")))| == 1
  {
    ParsesFourHundred();
    ParsesMinusFive();
  }

  // ---------------------------------------------------------------------
  // The two admin API endpoints

  datatype ApiResponse<T> = ApiOk(body: T) | ApiError(status: nat, error: string)

  const DatabaseUrlNotSet: string := "DATABASE_URL not set"

  /** The body of a successful time-series response: the echoed day count
      and the series. */
  datatype SeriesBody = SeriesBody(days: int, series: seq<DayRow>)

  /** `getVisitStats()`: nothing without a pool; otherwise the latch is
      run (its answer is not looked at) and the windows are counted. */
  method GetVisitStats(latch: VisitsTable.SchemaLatch, outcome: VisitsTable.QueryOutcome, rows: seq<Row>, now: int)
    returns (stats: Option<Stats>)
    requires latch.Valid()
    modifies latch
    ensures latch.Valid()
    ensures !latch.poolConfigured ==> stats.None? && unchanged(latch)
    ensures latch.poolConfigured ==> stats == Some(WindowStats(rows, now))
    ensures latch.poolConfigured ==> latch.State() == VisitsTable.AfterEnsure(true, old(latch.State()), outcome).0
  {
    if !latch.poolConfigured { return None; }
    var _ := latch.Ensure(outcome);
    stats := Some(WindowStats(rows, now));
  }

  /** `getVisitTimeSeries(days)`. */
  method GetVisitTimeSeries(latch: VisitsTable.SchemaLatch, outcome: VisitsTable.QueryOutcome,
                            days: Option<string>, rows: seq<Row>, now: int)
    returns (series: Option<seq<DayRow>>)
    requires latch.Valid()
    modifies latch
    ensures latch.Valid()
    ensures !latch.poolConfigured ==> series.None? && unchanged(latch)
    ensures latch.poolConfigured ==> series == Some(Series(rows, now, SeriesDays(days)))
    ensures latch.poolConfigured ==> latch.State() == VisitsTable.AfterEnsure(true, old(latch.State()), outcome).0
  {
    if !latch.poolConfigured { return None; }
    var _ := latch.Ensure(outcome);
    var d := SeriesDays(days);
    series := Some(Series(rows, now, d));
  }

  /** `GET /admin/api/visits`: 400 without a pool, otherwise the stats. */
  method VisitsApi(latch: VisitsTable.SchemaLatch, outcome: VisitsTable.QueryOutcome, rows: seq<Row>, now: int)
    returns (response: ApiResponse<Stats>)
    requires latch.Valid()
    modifies latch
    ensures latch.Valid()
    ensures !latch.poolConfigured ==> response == ApiError(400, DatabaseUrlNotSet)
    ensures latch.poolConfigured ==> response == ApiOk(WindowStats(rows, now))
    ensures !latch.poolConfigured ==> unchanged(latch)
    ensures latch.poolConfigured ==> latch.State() == VisitsTable.AfterEnsure(true, old(latch.State()), outcome).0
  {
    var stats := GetVisitStats(latch, outcome, rows, now);
    if stats.None? { return ApiError(400, DatabaseUrlNotSet); }
    response := ApiOk(stats.value);
  }

  /** `GET /admin/api/visits/timeseries`: 400 without a pool, otherwise the
      series for the clamped day count together with the UNCLAMPED
      requested count. */
  method TimeSeriesApi(latch: VisitsTable.SchemaLatch, outcome: VisitsTable.QueryOutcome,
                       days: Option<string>, rows: seq<Row>, now: int)
    returns (response: ApiResponse<SeriesBody>)
    requires latch.Valid()
    modifies latch
    ensures latch.Valid()
    ensures !latch.poolConfigured ==> response == ApiError(400, DatabaseUrlNotSet)
    ensures latch.poolConfigured ==>
              response == ApiOk(SeriesBody(RequestedDays(days), Series(rows, now, SeriesDays(days))))
    ensures !latch.poolConfigured ==> unchanged(latch)
    ensures latch.poolConfigured ==> latch.State() == VisitsTable.AfterEnsure(true, old(latch.State()), outcome).0
  {
    var series := GetVisitTimeSeries(latch, outcome, days, rows, now);
    if series.None? { return ApiError(400, DatabaseUrlNotSet); }
    response := ApiOk(SeriesBody(RequestedDays(days), series.value));
  }
}
