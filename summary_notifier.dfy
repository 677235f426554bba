/** The computation behind `send_summary_message_to_telegram`: yesterday's values measured
    against goals rounded up from the averages of the preceding year, and the latest weight. */
module SummaryNotifier {

  import opened Wrappers
  import opened Calendar
  import opened Rounding
  import opened HealthDumpStore
  import HealthGoals

  const CheckMark := "\U{2705}"
  const CrossMark := "\U{274C}"

  /** `_goal_reached`: the check mark for a percent of at least 100, the cross otherwise. */
  function GoalReached(percent: real): (mark: string)
    ensures mark == CheckMark <==> percent >= 1.0
    ensures mark == CrossMark <==> percent < 1.0
  {
    if percent >= 1.0 then CheckMark else CrossMark
  }

  /** `value / goal`: the share of a goal reached. Python raises `ZeroDivisionError` for a 0 goal. */
  function Percent(value: real, goal: int): real
    requires goal != 0
  {
    value / goal as real
  }

  /** A goal counts as reached exactly when the day's value is at least the (positive) goal. */
  lemma GoalReachedMeansGoalMet(value: real, goal: int)
    requires goal > 0
    ensures GoalReached(Percent(value, goal)) == CheckMark <==> value >= goal as real
  {
    var g := goal as real;
    assert Percent(value, goal) == value / g;
    if value >= g {
      assert value / g >= 1.0;
    } else {
      assert value / g < 1.0;
    }
  }

  /** The window handed to the query: from 365 days ago up to yesterday, as ISO strings;
      `None` where Python's date arithmetic would overflow. */
  function SummaryWindow(today: Date): (w: Option<(string, string)>)
    requires Valid(today)
    ensures w.Some? <==> MinusDays(today, 365).Some?
    ensures w.Some? ==> today != FirstDate && MinusDays(today, 1) == Some(PrevDay(today))
    ensures w.Some? ==> w.value.0 == Iso(MinusDays(today, 365).value) && w.value.1 == Iso(PrevDay(today))
    ensures w.Some? ==> Before(MinusDays(today, 365).value, PrevDay(today))
    ensures w.Some? <==> Ordinal(today) > 365
  {
    var start := MinusDays(today, 365);
    if start.None? then None
    else
      assert today != FirstDate;
      assert MinusDays(today, 1) == MinusDays(PrevDay(today), 0);
      assert start == MinusDays(PrevDay(today), 364);
      Some((Iso(start.value), Iso(PrevDay(today))))
  }

  /** The window's two ISO strings name the dates exactly 365 days and 1 day before today. */
  lemma SummaryWindowDays(today: Date)
    requires Valid(today) && SummaryWindow(today).Some?
    ensures var w := SummaryWindow(today).value;
      && IsoDecode(w.0).Some? && Ordinal(IsoDecode(w.0).value) == Ordinal(today) - 365
      && IsoDecode(w.1).Some? && Ordinal(IsoDecode(w.1).value) == Ordinal(today) - 1
  {
    IsoRoundTrip(MinusDays(today, 365).value);
    IsoRoundTrip(PrevDay(today));
    OrdinalOfPrevDay(today);
  }

  /** `filter(None, flights)`: drops `None` and 0, keeps the rest in order. */
  function TruthyFlights(rows: seq<HealthRecord>): (fs: seq<int>)
    ensures |fs| <= |rows|
    ensures forall j :: 0 <= j < |fs| ==> fs[j] != 0
  {
    if rows == [] then []
    else (if rows[0].flightsClimbed.Some? && rows[0].flightsClimbed.value != 0
          then [rows[0].flightsClimbed.value] else [])
         + TruthyFlights(rows[1..])
  }

  /** `filter(None, weights)`: drops `None` and 0.0, keeps the rest in order. */
  function TruthyWeights(rows: seq<HealthRecord>): (ws: seq<real>)
    ensures |ws| <= |rows|
    ensures forall j :: 0 <= j < |ws| ==> ws[j] != 0.0
  {
    if rows == [] then []
    else (if rows[0].weight.Some? && rows[0].weight.value != 0.0 then [rows[0].weight.value] else [])
         + TruthyWeights(rows[1..])
  }

  function StepsOf(rows: seq<HealthRecord>): (col: seq<real>)
    ensures |col| == |rows| && forall i :: 0 <= i < |rows| ==> col[i] == rows[i].steps as real
  {
    seq(|rows|, i requires 0 <= i < |rows| => rows[i].steps as real)
  }

  function KcalsOf(rows: seq<HealthRecord>): (col: seq<real>)
    ensures |col| == |rows| && forall i :: 0 <= i < |rows| ==> col[i] == rows[i].kcals
  {
    seq(|rows|, i requires 0 <= i < |rows| => rows[i].kcals)
  }

  function KmOf(rows: seq<HealthRecord>): (col: seq<real>)
    ensures |col| == |rows| && forall i :: 0 <= i < |rows| ==> col[i] == rows[i].km
  {
    seq(|rows|, i requires 0 <= i < |rows| => rows[i].km)
  }

  function AsReals(xs: seq<int>): (ys: seq<real>)
    ensures |ys| == |xs| && forall i :: 0 <= i < |xs| ==> ys[i] == xs[i] as real
  {
    seq(|xs|, i requires 0 <= i < |xs| => xs[i] as real)
  }

  /** `today_stats` is `health_stats[0]` itself, so `today_stats["kcals"] = int(...)` truncates
      the first record's kcals inside the list that the filters and averages read afterwards. */
  function WithTruncatedKcals(rows: seq<HealthRecord>): (stats: seq<HealthRecord>)
    requires rows != []
    ensures |stats| == |rows| && stats[1..] == rows[1..]
    ensures stats[0] == rows[0].(kcals := Trunc(rows[0].kcals) as real)
  {
    rows[0 := rows[0].(kcals := Trunc(rows[0].kcals) as real)]
  }

  /** The truncation touches no flights or weight value, so both filters are unchanged. */
  lemma TruncationKeepsFilters(rows: seq<HealthRecord>)
    requires rows != []
    ensures TruthyFlights(WithTruncatedKcals(rows)) == TruthyFlights(rows)
    ensures TruthyWeights(WithTruncatedKcals(rows)) == TruthyWeights(rows)
  {
    var stats := WithTruncatedKcals(rows);
    assert stats[1..] == rows[1..];
  }

  datatype Metric = Steps | Kcals | Km | Flights

  /** The exceptions the computation raises. */
  datatype SummaryError =
    | DateOutOfRange                           // OverflowError of date - timedelta
    | NoRecords                                // IndexError of health_stats[0]
    | WrongDate(expected: string, got: string) // the RuntimeError of the date guard
    | NoWeight                                 // IndexError of weights[0]
    | NoFlights                                // ZeroDivisionError of the flights average
    | ZeroGoal(metric: Metric)                 // ZeroDivisionError of a percent
    | MissingTodayFlights                      // TypeError of None / int

  /** Everything the message is built from. */
  datatype DailySummary = DailySummary(
    date: string,
    steps: int,
    kcals: int,
    km: real,
    flightsClimbed: int,
    goals: HealthGoals.Goals,
    stepsPercent: real,
    kcalsPercent: real,
    kmPercent: real,
    flightsPercent: real,
    latestWeight: real)

  /** The goals of the summary: means over all rows (zeros included) for steps, kcals and km,
      the mean of the truthy flights for flights, each rounded up. */
  function SummaryGoals(rows: seq<HealthRecord>, flights: seq<int>): (g: HealthGoals.Goals)
    requires rows != [] && flights != []
    ensures g.steps % 1000 == 0 && g.kcals % 100 == 0
    ensures g.flightsClimbed as real >= HealthGoals.Sum(AsReals(flights)) / |flights| as real
  {
    var n := |rows| as real;
    HealthGoals.Goals(
      RoundUpToNearest(HealthGoals.Sum(StepsOf(rows)) / n, HealthGoals.StepsNearest),
      RoundUpToNearest(HealthGoals.Sum(KcalsOf(rows)) / n, HealthGoals.KcalsNearest),
      RoundUpToNearest(HealthGoals.Sum(KmOf(rows)) / n, HealthGoals.KmNearest),
      RoundUpToNearest(HealthGoals.Sum(AsReals(flights)) / |flights| as real, HealthGoals.FlightsNearest))
  }

  /** The computation of `send_summary_message_to_telegram` on the rows the query returned
      for the window, in the order Python evaluates it. */
  function Summarize(today: Date, rows: seq<HealthRecord>): (r: Result<DailySummary, SummaryError>)
    requires Valid(today)
    ensures MinusDays(today, 365).None? ==> r == Failure(DateOutOfRange)
    ensures MinusDays(today, 365).Some? && rows == [] ==> r == Failure(NoRecords)
    ensures r.Success? ==> rows != [] && rows[0].date == Iso(PrevDay(today)) && r == SummaryOfRows(rows)
  {
    match SummaryWindow(today)
    case None => Failure(DateOutOfRange)
    case Some((_, endDate)) =>
      if rows == [] then Failure(NoRecords)
      else if rows[0].date != endDate then Failure(WrongDate(endDate, rows[0].date))
      else SummaryOfRows(rows)
  }

  /** Everything after the date guard: the filters, the latest weight, the goals and the percents. */
  function SummaryOfRows(rows: seq<HealthRecord>): (r: Result<DailySummary, SummaryError>)
    requires rows != []
    ensures TruthyWeights(rows) == [] ==> r == Failure(NoWeight)
    ensures TruthyWeights(rows) != [] && TruthyFlights(rows) == [] ==> r == Failure(NoFlights)
    ensures r.Success? ==> && r.value.date == rows[0].date && r.value.kcals == Trunc(rows[0].kcals)
                           && r.value.latestWeight != 0.0
  {
    var stats := WithTruncatedKcals(rows);
    var first := stats[0];
    var kcals := Trunc(rows[0].kcals);
    var flights := TruthyFlights(stats);
    var weights := TruthyWeights(stats);
    TruncationKeepsFilters(rows);
    if weights == [] then Failure(NoWeight)
    else if flights == [] then Failure(NoFlights)
    else
      var goals := SummaryGoals(stats, flights);
      if goals.steps == 0 then Failure(ZeroGoal(Steps))
      else if goals.kcals == 0 then Failure(ZeroGoal(Kcals))
      else if goals.km == 0 then Failure(ZeroGoal(Km))
      else if first.flightsClimbed.None? then Failure(MissingTodayFlights)
      else if goals.flightsClimbed == 0 then Failure(ZeroGoal(Flights))
      else
        Success(DailySummary(
          first.date, first.steps, kcals, first.km, first.flightsClimbed.value, goals,
          Percent(first.steps as real, goals.steps),
          Percent(kcals as real, goals.kcals),
          Percent(first.km, goals.km),
          Percent(first.flightsClimbed.value as real, goals.flightsClimbed),
          weights[0]))
  }

  // Properties

  /** The filters keep record order: filtering a concatenation concatenates the filtered parts. */
  lemma {:induction false} TruthyFiltersAppend(a: seq<HealthRecord>, b: seq<HealthRecord>)
    ensures TruthyFlights(a + b) == TruthyFlights(a) + TruthyFlights(b)
    ensures TruthyWeights(a + b) == TruthyWeights(a) + TruthyWeights(b)
  {
    if a == [] {
      assert a + b == b;
    } else {
      assert (a + b)[1..] == a[1..] + b;
      TruthyFiltersAppend(a[1..], b);
    }
  }

  /** A flights value survives the filter exactly when it is present and nonzero. */
  lemma {:induction false} TruthyFlightsMembers(rows: seq<HealthRecord>, x: int)
    ensures x in TruthyFlights(rows) <==> x != 0 && exists i :: 0 <= i < |rows| && rows[i].flightsClimbed == Some(x)
  {
    if rows != [] {
      TruthyFlightsMembers(rows[1..], x);
      if x in TruthyFlights(rows[1..]) {
        var i :| 0 <= i < |rows[1..]| && rows[1..][i].flightsClimbed == Some(x);
        assert rows[i + 1] == rows[1..][i];
      }
      if x != 0 && exists i :: 0 <= i < |rows| && rows[i].flightsClimbed == Some(x) {
        var i :| 0 <= i < |rows| && rows[i].flightsClimbed == Some(x);
        if i > 0 {
          assert rows[1..][i - 1] == rows[i];
        }
      }
    }
  }

  /** The first truthy weight is that of the earliest row, in record order, whose weight is set and nonzero. */
  lemma {:induction false} FirstTruthyWeight(rows: seq<HealthRecord>)
    requires TruthyWeights(rows) != []
    ensures exists i :: 0 <= i < |rows| && rows[i].weight == Some(TruthyWeights(rows)[0])
                        && forall j :: 0 <= j < i ==> rows[j].weight.None? || rows[j].weight == Some(0.0)
  {
    if rows[0].weight.Some? && rows[0].weight.value != 0.0 {
      assert rows[0].weight == Some(TruthyWeights(rows)[0]);
    } else {
      assert TruthyWeights(rows) == TruthyWeights(rows[1..]);
      FirstTruthyWeight(rows[1..]);
      var i :| 0 <= i < |rows[1..]| && rows[1..][i].weight == Some(TruthyWeights(rows[1..])[0])
               && forall j :: 0 <= j < i ==> rows[1..][j].weight.None? || rows[1..][j].weight == Some(0.0);
      assert rows[i + 1] == rows[1..][i];
      forall j | 0 <= j < i + 1
        ensures rows[j].weight.None? || rows[j].weight == Some(0.0)
      {
        if j > 0 {
          assert rows[j] == rows[1..][j - 1];
        }
      }
    }
  }

  /** The computation succeeds exactly when the window is representable, the most recent row is
      yesterday's, some weight and some flights value are truthy, yesterday has a flights value
      and no goal rounds to 0. */
  lemma SummarizeSucceedsIff(today: Date, rows: seq<HealthRecord>)
    requires Valid(today)
    ensures Summarize(today, rows).Success? <==>
      && MinusDays(today, 365).Some?
      && rows != [] && rows[0].date == Iso(PrevDay(today))
      && TruthyWeights(rows) != [] && TruthyFlights(rows) != []
      && rows[0].flightsClimbed.Some?
      && var g := SummaryGoals(WithTruncatedKcals(rows), TruthyFlights(rows));
         g.steps != 0 && g.kcals != 0 && g.km != 0 && g.flightsClimbed != 0
  {
    if rows != [] {
      TruncationKeepsFilters(rows);
    }
  }

  /** The guard: with a representable window and at least one row, anything but yesterday's
      date as the first row is rejected. */
  lemma WrongFirstDateRejected(today: Date, rows: seq<HealthRecord>)
    requires Valid(today) && MinusDays(today, 365).Some? && rows != []
    requires rows[0].date != Iso(PrevDay(today))
    ensures Summarize(today, rows) == Failure(WrongDate(Iso(PrevDay(today)), rows[0].date))
  {
  }

  /** A successful summary reports yesterday's row, its percents against the rounded averages,
      and the first truthy weight in record order. */
  lemma SummaryContents(today: Date, rows: seq<HealthRecord>)
    requires Valid(today) && Summarize(today, rows).Success?
    ensures rows != [] && Summarize(today, rows) == SummaryOfRows(rows)
    ensures Summarize(today, rows).value.date == Iso(PrevDay(today)) == rows[0].date
  {
    var s := SummaryOfRows(rows);
    assert s.Success?;
    SummaryOfRowsContents(rows);
  }

  /** A successful summary reports the first row's values, its percents against the rounded
      averages, and the first truthy weight in record order. */
  lemma SummaryOfRowsContents(rows: seq<HealthRecord>)
    requires rows != [] && SummaryOfRows(rows).Success?
    ensures var s := SummaryOfRows(rows).value;
      && s.date == rows[0].date
      && s.steps == rows[0].steps && s.kcals == Trunc(rows[0].kcals) && s.km == rows[0].km
      && rows[0].flightsClimbed == Some(s.flightsClimbed)
      && s.goals == SummaryGoals(WithTruncatedKcals(rows), TruthyFlights(rows))
      && s.stepsPercent == Percent(s.steps as real, s.goals.steps)
      && s.kcalsPercent == Percent(s.kcals as real, s.goals.kcals)
      && s.kmPercent == Percent(s.km, s.goals.km)
      && s.flightsPercent == Percent(s.flightsClimbed as real, s.goals.flightsClimbed)
      && s.latestWeight == TruthyWeights(rows)[0] && s.latestWeight != 0.0
  {
    TruncationKeepsFilters(rows);
    var stats := WithTruncatedKcals(rows);
    var first, kcals := rows[0], Trunc(rows[0].kcals);
    assert stats[0].date == first.date && stats[0].steps == first.steps;
    assert stats[0].km == first.km && stats[0].flightsClimbed == first.flightsClimbed;
    var goals := SummaryGoals(stats, TruthyFlights(rows));
    assert SummaryOfRows(rows) == Success(DailySummary(
      first.date, first.steps, kcals, first.km, first.flightsClimbed.value, goals,
      Percent(first.steps as real, goals.steps),
      Percent(kcals as real, goals.kcals),
      Percent(first.km, goals.km),
      Percent(first.flightsClimbed.value as real, goals.flightsClimbed),
      TruthyWeights(rows)[0]));
  }

  /** Every summary goal is the least multiple of its step not below its mean: steps, kcals and
      km over all the rows it is given, zero days included, and flights over the truthy values. */
  lemma SummaryGoalsAreLeastMultiples(rows: seq<HealthRecord>, flights: seq<int>, k: int)
    requires rows != [] && flights != []
    ensures var g := SummaryGoals(rows, flights);
            var n := |rows| as real;
            && g.steps % 1000 == 0 && g.steps as real >= HealthGoals.Sum(StepsOf(rows)) / n
            && g.kcals % 100 == 0 && g.kcals as real >= HealthGoals.Sum(KcalsOf(rows)) / n
            && g.km as real >= HealthGoals.Sum(KmOf(rows)) / n
            && g.flightsClimbed as real >= HealthGoals.Sum(AsReals(flights)) / |flights| as real
            && ((k * 1000) as real >= HealthGoals.Sum(StepsOf(rows)) / n ==> g.steps <= k * 1000)
            && ((k * 100) as real >= HealthGoals.Sum(KcalsOf(rows)) / n ==> g.kcals <= k * 100)
            && (k as real >= HealthGoals.Sum(KmOf(rows)) / n ==> g.km <= k)
            && (k as real >= HealthGoals.Sum(AsReals(flights)) / |flights| as real ==> g.flightsClimbed <= k)
  {
    var n := |rows| as real;
    if (k * 1000) as real >= HealthGoals.Sum(StepsOf(rows)) / n {
      RoundUpIsLeastMultiple(HealthGoals.Sum(StepsOf(rows)) / n, 1000, k);
    }
    if (k * 100) as real >= HealthGoals.Sum(KcalsOf(rows)) / n {
      RoundUpIsLeastMultiple(HealthGoals.Sum(KcalsOf(rows)) / n, 100, k);
    }
    if k as real >= HealthGoals.Sum(KmOf(rows)) / n {
      RoundUpIsLeastMultiple(HealthGoals.Sum(KmOf(rows)) / n, 1, k);
    }
    var f := |flights| as real;
    if k as real >= HealthGoals.Sum(AsReals(flights)) / f {
      RoundUpIsLeastMultiple(HealthGoals.Sum(AsReals(flights)) / f, 1, k);
    }
  }

  function AsStats(r: HealthRecord): HealthGoals.HealthStats {
    HealthGoals.HealthStats(Some(r.steps), Some(r.kcals), Some(r.km), r.flightsClimbed)
  }

  function AllAsStats(rows: seq<HealthRecord>): (stats: seq<HealthGoals.HealthStats>)
    ensures |stats| == |rows| && forall i :: 0 <= i < |rows| ==> stats[i] == AsStats(rows[i])
  {
    seq(|rows|, i requires 0 <= i < |rows| => AsStats(rows[i]))
  }

  /** On rows with non-negative metrics the notifier's steps and km goals agree with the API's
      `_compute_goals` on the same rows; its kcals goal agrees only once the first row's kcals
      are truncated as the notifier does. */
  lemma GoalsAgreeWithApi(rows: seq<HealthRecord>, flights: seq<int>)
    requires rows != [] && flights != []
    requires forall i :: 0 <= i < |rows| ==> rows[i].steps >= 0 && rows[i].kcals >= 0.0 && rows[i].km >= 0.0
    ensures var g := SummaryGoals(WithTruncatedKcals(rows), flights);
            && g.steps == HealthGoals.ComputeGoals(AllAsStats(rows)).steps
            && g.km == HealthGoals.ComputeGoals(AllAsStats(rows)).km
            && g.kcals == HealthGoals.ComputeGoals(AllAsStats(WithTruncatedKcals(rows))).kcals
  {
    var adjusted := WithTruncatedKcals(rows);
    assert StepsOf(adjusted) == StepsOf(rows);
    assert KmOf(adjusted) == KmOf(rows);
    forall i | 0 <= i < |adjusted|
      ensures adjusted[i].steps >= 0 && adjusted[i].kcals >= 0.0 && adjusted[i].km >= 0.0
    {
      if i == 0 {
        assert Trunc(rows[0].kcals) >= 0;
      } else {
        assert adjusted[i] == adjusted[1..][i - 1] == rows[i];
      }
    }
    GoalsAgreeOnRows(adjusted, flights);
    GoalsAgreeOnRows(rows, flights);
  }

  /** `SummaryGoals` and `_compute_goals` agree on steps, kcals and km for the same non-negative rows. */
  lemma GoalsAgreeOnRows(rows: seq<HealthRecord>, flights: seq<int>)
    requires rows != [] && flights != []
    requires forall i :: 0 <= i < |rows| ==> rows[i].steps >= 0 && rows[i].kcals >= 0.0 && rows[i].km >= 0.0
    ensures var g := SummaryGoals(rows, flights);
            var api := HealthGoals.ComputeGoals(AllAsStats(rows));
            g.steps == api.steps && g.kcals == api.kcals && g.km == api.km
  {
    var stats := AllAsStats(rows);
    var n := |rows| as real;
    assert HealthGoals.StepsColumn(stats) == StepsOf(rows);
    assert HealthGoals.KcalsColumn(stats) == KcalsOf(rows);
    assert HealthGoals.KmColumn(stats) == KmOf(rows);
    HealthGoals.GoalsAreRoundedMeans(stats);
    HealthGoals.SumNonNegative(StepsOf(rows));
    HealthGoals.SumNonNegative(KcalsOf(rows));
    HealthGoals.SumNonNegative(KmOf(rows));
    HealthGoals.GoalForNonNegative(HealthGoals.Sum(StepsOf(rows)) / n, 1000);
    HealthGoals.GoalForNonNegative(HealthGoals.Sum(KcalsOf(rows)) / n, 100);
    HealthGoals.GoalForNonNegative(HealthGoals.Sum(KmOf(rows)) / n, 1);
  }

  /** The truncation moves the kcals goal: yesterday at 100.5 kcals meets a goal of 100 in the
      summary, while `_compute_goals` on the stored rows asks for 200. */
  lemma KcalsGoalsDiverge()
    ensures var rows := [HealthRecord("2024-03-01", 5000, 100.5, 5.0, Some(10), Some(70.0))];
            && SummaryOfRows(rows).Success?
            && SummaryOfRows(rows).value.goals.kcals == 100
            && SummaryOfRows(rows).value.kcalsPercent == 1.0
            && GoalReached(SummaryOfRows(rows).value.kcalsPercent) == CheckMark
            && HealthGoals.ComputeGoals(AllAsStats(rows)).kcals == 200
  {
    var rows := [HealthRecord("2024-03-01", 5000, 100.5, 5.0, Some(10), Some(70.0))];
    var adjusted := WithTruncatedKcals(rows);
    assert adjusted == [HealthRecord("2024-03-01", 5000, 100.0, 5.0, Some(10), Some(70.0))];
    SingleRowGoals(adjusted);
    assert TruthyFlights(rows) == [10] && TruthyWeights(rows) == [70.0] by {
      assert rows[1..] == [];
    }
    var stats := AllAsStats(rows);
    assert stats == [AsStats(rows[0])];
    assert HealthGoals.KcalsColumn(stats) == [100.5];
    assert HealthGoals.Sum([100.5]) == 100.5;
    RoundUpIsLeastMultiple(100.5, 100, 2);
  }

  /** Yesterday at 0.5 kcals truncates to 0, so the kcals goal is 0 and the percent divides by
      zero, although the stored mean is positive. */
  lemma TruncatedKcalsZeroGoal()
    ensures var rows := [HealthRecord("2024-03-01", 5000, 0.5, 5.0, Some(10), Some(70.0))];
            && SummaryOfRows(rows) == Failure(ZeroGoal(Kcals))
            && HealthGoals.ComputeGoals(AllAsStats(rows)).kcals == 100
  {
    var rows := [HealthRecord("2024-03-01", 5000, 0.5, 5.0, Some(10), Some(70.0))];
    var adjusted := WithTruncatedKcals(rows);
    assert adjusted == [HealthRecord("2024-03-01", 5000, 0.0, 5.0, Some(10), Some(70.0))];
    SingleRowGoals(adjusted);
    assert TruthyFlights(rows) == [10] && TruthyWeights(rows) == [70.0] by {
      assert rows[1..] == [];
    }
    var stats := AllAsStats(rows);
    assert stats == [AsStats(rows[0])];
    assert HealthGoals.KcalsColumn(stats) == [0.5];
    assert HealthGoals.Sum([0.5]) == 0.5;
    RoundUpIsLeastMultiple(0.5, 100, 1);
  }

  /** The goals of a single row are its own values rounded up. */
  lemma SingleRowGoals(rows: seq<HealthRecord>)
    requires |rows| == 1 && rows[0].flightsClimbed.Some? && rows[0].flightsClimbed.value != 0
    ensures TruthyFlights(rows) == [rows[0].flightsClimbed.value]
    ensures SummaryGoals(rows, TruthyFlights(rows)) == HealthGoals.Goals(
              RoundUpToNearest(rows[0].steps as real, 1000), RoundUpToNearest(rows[0].kcals, 100),
              RoundUpToNearest(rows[0].km, 1), RoundUpToNearest(rows[0].flightsClimbed.value as real, 1))
  {
    assert rows[1..] == [];
    SingleRowMeans(rows);
  }

  /** The means of a single row are its own values. */
  lemma SingleRowMeans(rows: seq<HealthRecord>)
    requires |rows| == 1 && rows[0].flightsClimbed.Some?
    ensures HealthGoals.Sum(StepsOf(rows)) / |rows| as real == rows[0].steps as real
    ensures HealthGoals.Sum(KcalsOf(rows)) / |rows| as real == rows[0].kcals
    ensures HealthGoals.Sum(KmOf(rows)) / |rows| as real == rows[0].km
    ensures var f := [rows[0].flightsClimbed.value];
            HealthGoals.Sum(AsReals(f)) / |f| as real == rows[0].flightsClimbed.value as real
  {
    var r := rows[0];
    var f := r.flightsClimbed.value;
    assert StepsOf(rows) == [r.steps as real];
    assert KcalsOf(rows) == [r.kcals];
    assert KmOf(rows) == [r.km];
    assert AsReals([f]) == [f as real];
    HealthGoals.SumSingleton(r.steps as real);
    HealthGoals.SumSingleton(r.kcals);
    HealthGoals.SumSingleton(r.km);
    HealthGoals.SumSingleton(f as real);
  }

  /** The flights goals differ: the notifier drops zero days that the API averages in. */
  lemma FlightsGoalsDiverge()
    ensures var rows := [HealthRecord("2024-03-02", 0, 0.0, 0.0, Some(4), None),
                         HealthRecord("2024-03-01", 0, 0.0, 0.0, Some(0), None)];
            && SummaryGoals(WithTruncatedKcals(rows), TruthyFlights(rows)).flightsClimbed == 4
            && HealthGoals.ComputeGoals(AllAsStats(rows)).flightsClimbed == 2
  {
    var rows := [HealthRecord("2024-03-02", 0, 0.0, 0.0, Some(4), None),
                 HealthRecord("2024-03-01", 0, 0.0, 0.0, Some(0), None)];
    assert WithTruncatedKcals(rows) == rows;
    assert rows[1..][1..] == [];
    assert TruthyFlights(rows[1..]) == [];
    assert TruthyFlights(rows) == [4];
    assert AsReals([4]) == [4.0];
    assert HealthGoals.Sum([4.0]) == 4.0;
    RoundUpIsLeastMultiple(4.0, 1, 4);
    var stats := AllAsStats(rows);
    assert stats == [AsStats(rows[0]), AsStats(rows[1])];
    assert stats[1..][1..] == [];
    assert HealthGoals.FlightValues(stats) == [4.0, 0.0];
    assert HealthGoals.Sum([4.0, 0.0]) == 4.0;
    assert HealthGoals.FlightsAverage(stats) == 2.0;
    RoundUpIsLeastMultiple(2.0, 1, 2);
  }
}
