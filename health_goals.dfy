/** `_compute_goals` and `get_goals`: daily goals from the averages of past records,
    rounded up to whole thousands of steps, hundreds of kcals, km and flights. */
module HealthGoals {

  import opened Wrappers
  import opened Rounding

  /** One record as `_compute_goals` reads it: each metric may be missing or `null`. */
  datatype HealthStats = HealthStats(
    steps: Option<int>,
    kcals: Option<real>,
    km: Option<real>,
    flightsClimbed: Option<int>)

  /** The goal dict: steps, kcals, km, flights_climbed. */
  datatype Goals = Goals(steps: int, kcals: int, km: int, flightsClimbed: int)

  const StepsNearest := 1000
  const KcalsNearest := 100
  const KmNearest := 1
  const FlightsNearest := 1

  function Sum(xs: seq<real>): real {
    if xs == [] then 0.0 else xs[0] + Sum(xs[1..])
  }

  lemma {:induction false} SumAppend(a: seq<real>, b: seq<real>)
    ensures Sum(a + b) == Sum(a) + Sum(b)
  {
    if a == [] {
      assert a + b == b;
    } else {
      assert (a + b)[1..] == a[1..] + b;
      SumAppend(a[1..], b);
    }
  }

  lemma SumSingleton(x: real)
    ensures Sum([x]) == x
  {
    assert [x][1..] == [];
  }

  lemma {:induction false} SumNonNegative(xs: seq<real>)
    requires forall i :: 0 <= i < |xs| ==> xs[i] >= 0.0
    ensures Sum(xs) >= 0.0
  {
    if xs != [] {
      SumNonNegative(xs[1..]);
    }
  }

  /** `s.get(key) or 0`: a missing or null value reads as zero. */
  function OrZero(v: Option<real>): real {
    if v.Some? then v.value else 0.0
  }

  function IntOrZero(v: Option<int>): real {
    if v.Some? then v.value as real else 0.0
  }

  function StepsColumn(stats: seq<HealthStats>): (col: seq<real>)
    ensures |col| == |stats| && forall i :: 0 <= i < |stats| ==> col[i] == IntOrZero(stats[i].steps)
  {
    seq(|stats|, i requires 0 <= i < |stats| => IntOrZero(stats[i].steps))
  }

  function KcalsColumn(stats: seq<HealthStats>): (col: seq<real>)
    ensures |col| == |stats| && forall i :: 0 <= i < |stats| ==> col[i] == OrZero(stats[i].kcals)
  {
    seq(|stats|, i requires 0 <= i < |stats| => OrZero(stats[i].kcals))
  }

  function KmColumn(stats: seq<HealthStats>): (col: seq<real>)
    ensures |col| == |stats| && forall i :: 0 <= i < |stats| ==> col[i] == OrZero(stats[i].km)
  {
    seq(|stats|, i requires 0 <= i < |stats| => OrZero(stats[i].km))
  }

  /** The list comprehension of flights values that are not `None`, zeros kept, in record order. */
  function FlightValues(stats: seq<HealthStats>): (vs: seq<real>)
    ensures |vs| <= |stats|
  {
    if stats == [] then []
    else (if stats[0].flightsClimbed.Some? then [stats[0].flightsClimbed.value as real] else [])
         + FlightValues(stats[1..])
  }

  /** Mean over all records; the caller guarantees there is at least one. */
  function Mean(total: real, n: nat): real
    requires n > 0
  {
    total / n as real
  }

  function FlightsAverage(stats: seq<HealthStats>): real {
    var vs := FlightValues(stats);
    if vs == [] then 0.0 else Mean(Sum(vs), |vs|)
  }

  /** `_round_up_to_nearest(avg, nearest) if avg > 0 else 0`. */
  function GoalFor(avg: real, nearest: int): (g: int)
    requires nearest > 0
    ensures avg <= 0.0 ==> g == 0
    ensures avg > 0.0 ==> g % nearest == 0 && g as real >= avg && g as real < avg + nearest as real
    ensures avg > 0.0 ==> forall k :: (k * nearest) as real >= avg ==> g <= k * nearest
  {
    if avg > 0.0 then
      assert forall k :: (k * nearest) as real >= avg ==> RoundUpToNearest(avg, nearest) <= k * nearest by {
        forall k | (k * nearest) as real >= avg {
          RoundUpIsLeastMultiple(avg, nearest, k);
        }
      }
      RoundUpToNearest(avg, nearest)
    else 0
  }

  /** For a non-negative average the `if avg > 0 else 0` guard changes nothing: 0 rounds to 0. */
  lemma GoalForNonNegative(avg: real, nearest: int)
    requires nearest > 0 && avg >= 0.0
    ensures GoalFor(avg, nearest) == RoundUpToNearest(avg, nearest)
  {
    RoundUpSign(avg, nearest);
  }

  /** `_compute_goals`. */
  function ComputeGoals(stats: seq<HealthStats>): (g: Goals)
    ensures stats == [] ==> g == Goals(0, 0, 0, 0)
  {
    if stats == [] then Goals(0, 0, 0, 0)
    else
      var n := |stats|;
      Goals(
        GoalFor(Mean(Sum(StepsColumn(stats)), n), StepsNearest),
        GoalFor(Mean(Sum(KcalsColumn(stats)), n), KcalsNearest),
        GoalFor(Mean(Sum(KmColumn(stats)), n), KmNearest),
        GoalFor(FlightsAverage(stats), FlightsNearest))
  }

  /** `get_goals(data)`: supplied data is used as it is; `fetched` stands for the rows the
      database returns for the trailing window and is read only when no data is supplied. */
  function GetGoals(data: Option<seq<HealthStats>>, fetched: seq<HealthStats>): (g: Goals)
    ensures data.Some? ==> g == ComputeGoals(data.value)
    ensures data.None? ==> g == ComputeGoals(fetched)
  {
    if data.Some? then ComputeGoals(data.value) else ComputeGoals(fetched)
  }

  // Properties

  /** The steps, kcals and km goals are the rounded means over every record, missing values as 0. */
  lemma GoalsAreRoundedMeans(stats: seq<HealthStats>)
    requires stats != []
    ensures ComputeGoals(stats).steps == GoalFor(Sum(StepsColumn(stats)) / |stats| as real, StepsNearest)
    ensures ComputeGoals(stats).kcals == GoalFor(Sum(KcalsColumn(stats)) / |stats| as real, KcalsNearest)
    ensures ComputeGoals(stats).km == GoalFor(Sum(KmColumn(stats)) / |stats| as real, KmNearest)
    ensures ComputeGoals(stats).flightsClimbed == GoalFor(FlightsAverage(stats), FlightsNearest)
  {
  }

  /** A missing or `null` steps, kcals or km value weighs exactly like an explicit 0. */
  lemma MissingCountsAsZero(stats: seq<HealthStats>, i: nat)
    requires i < |stats|
    ensures ComputeGoals(stats[i := stats[i].(steps := None)]) == ComputeGoals(stats[i := stats[i].(steps := Some(0))])
    ensures ComputeGoals(stats[i := stats[i].(kcals := None)]) == ComputeGoals(stats[i := stats[i].(kcals := Some(0.0))])
    ensures ComputeGoals(stats[i := stats[i].(km := None)]) == ComputeGoals(stats[i := stats[i].(km := Some(0.0))])
  {
    var a, b := stats[i := stats[i].(steps := None)], stats[i := stats[i].(steps := Some(0))];
    assert StepsColumn(a) == StepsColumn(b);
    assert KcalsColumn(a) == KcalsColumn(b) && KmColumn(a) == KmColumn(b);
    FlightValuesPointwise(a, b);
    a, b := stats[i := stats[i].(kcals := None)], stats[i := stats[i].(kcals := Some(0.0))];
    assert StepsColumn(a) == StepsColumn(b);
    assert KcalsColumn(a) == KcalsColumn(b) && KmColumn(a) == KmColumn(b);
    FlightValuesPointwise(a, b);
    a, b := stats[i := stats[i].(km := None)], stats[i := stats[i].(km := Some(0.0))];
    assert StepsColumn(a) == StepsColumn(b);
    assert KcalsColumn(a) == KcalsColumn(b) && KmColumn(a) == KmColumn(b);
    FlightValuesPointwise(a, b);
  }

  lemma {:induction false} FlightValuesPointwise(a: seq<HealthStats>, b: seq<HealthStats>)
    requires |a| == |b| && forall i :: 0 <= i < |a| ==> a[i].flightsClimbed == b[i].flightsClimbed
    ensures FlightValues(a) == FlightValues(b)
  {
    if a != [] {
      FlightValuesPointwise(a[1..], b[1..]);
    }
  }

  lemma {:induction false} FlightValuesAppend(a: seq<HealthStats>, b: seq<HealthStats>)
    ensures FlightValues(a + b) == FlightValues(a) + FlightValues(b)
  {
    if a == [] {
      assert a + b == b;
    } else {
      var head := if a[0].flightsClimbed.Some? then [a[0].flightsClimbed.value as real] else [];
      assert (a + b)[0] == a[0];
      assert (a + b)[1..] == a[1..] + b;
      assert FlightValues(a + b) == head + FlightValues(a[1..] + b);
      FlightValuesAppend(a[1..], b);
      assert FlightValues(a) == head + FlightValues(a[1..]);
    }
  }

  /** The flights list holds, in record order, exactly the non-null flights values; zeros included. */
  lemma {:induction false} FlightValuesMembers(stats: seq<HealthStats>, x: real)
    ensures x in FlightValues(stats) <==> exists i :: 0 <= i < |stats| && stats[i].flightsClimbed.Some? && stats[i].flightsClimbed.value as real == x
  {
    if stats != [] {
      FlightValuesMembers(stats[1..], x);
      if x in FlightValues(stats[1..]) {
        var i :| 0 <= i < |stats[1..]| && stats[1..][i].flightsClimbed.Some? && stats[1..][i].flightsClimbed.value as real == x;
        assert stats[i + 1] == stats[1..][i];
      }
      if exists i :: 0 <= i < |stats| && stats[i].flightsClimbed.Some? && stats[i].flightsClimbed.value as real == x {
        var i :| 0 <= i < |stats| && stats[i].flightsClimbed.Some? && stats[i].flightsClimbed.value as real == x;
        if i > 0 {
          assert stats[1..][i - 1] == stats[i];
        }
      }
    }
  }

  /** A record without a flights value does not move the flights average. */
  lemma NullFlightsIgnored(stats: seq<HealthStats>, r: HealthStats)
    requires r.flightsClimbed.None?
    ensures FlightsAverage(stats + [r]) == FlightsAverage(stats)
    ensures FlightsAverage([r] + stats) == FlightsAverage(stats)
  {
    FlightValuesAppend(stats, [r]);
    FlightValuesAppend([r], stats);
    assert [r][1..] == [];
    assert FlightValues([r]) == [];
    assert FlightValues(stats) + [] == FlightValues(stats);
    assert [] + FlightValues(stats) == FlightValues(stats);
  }

  /** A zero flights value does count: it pulls the flights goal down. */
  lemma ZeroFlightsCount()
    ensures ComputeGoals([HealthStats(None, None, None, Some(4))]).flightsClimbed == 4
    ensures ComputeGoals([HealthStats(None, None, None, Some(4)), HealthStats(None, None, None, Some(0))]).flightsClimbed == 2
  {
    var one := [HealthStats(None, None, None, Some(4))];
    var two := one + [HealthStats(None, None, None, Some(0))];
    assert FlightValues(one) == [4.0];
    assert FlightValues([HealthStats(None, None, None, Some(0))]) == [0.0];
    FlightValuesAppend(one, [HealthStats(None, None, None, Some(0))]);
    assert FlightValues(two) == [4.0, 0.0];
    assert Sum([4.0, 0.0]) == 4.0;
    assert FlightsAverage(two) == 2.0;
    RoundUpIsLeastMultiple(2.0, 1, 2);
    RoundUpIsLeastMultiple(4.0, 1, 4);
  }

  /** With non-negative inputs every goal is non-negative and at least its average. */
  lemma GoalsCoverAverages(stats: seq<HealthStats>)
    requires stats != []
    requires forall i :: 0 <= i < |stats| ==>
      IntOrZero(stats[i].steps) >= 0.0 && OrZero(stats[i].kcals) >= 0.0 && OrZero(stats[i].km) >= 0.0
    requires forall i :: 0 <= i < |stats| ==> IntOrZero(stats[i].flightsClimbed) >= 0.0
    ensures var g := ComputeGoals(stats);
            && g.steps >= 0 && g.steps as real >= Sum(StepsColumn(stats)) / |stats| as real
            && g.kcals >= 0 && g.kcals as real >= Sum(KcalsColumn(stats)) / |stats| as real
            && g.km >= 0 && g.km as real >= Sum(KmColumn(stats)) / |stats| as real
            && g.flightsClimbed >= 0 && g.flightsClimbed as real >= FlightsAverage(stats)
  {
    SumNonNegative(StepsColumn(stats));
    SumNonNegative(KcalsColumn(stats));
    SumNonNegative(KmColumn(stats));
    FlightValuesNonNegative(stats);
    SumNonNegative(FlightValues(stats));
  }

  lemma {:induction false} FlightValuesNonNegative(stats: seq<HealthStats>)
    requires forall i :: 0 <= i < |stats| ==> IntOrZero(stats[i].flightsClimbed) >= 0.0
    ensures forall j :: 0 <= j < |FlightValues(stats)| ==> FlightValues(stats)[j] >= 0.0
  {
    if stats != [] {
      FlightValuesNonNegative(stats[1..]);
    }
  }

  /** Supplied data is never replaced by fetched rows. */
  lemma SuppliedDataWins(data: seq<HealthStats>, fetched1: seq<HealthStats>, fetched2: seq<HealthStats>)
    ensures GetGoals(Some(data), fetched1) == GetGoals(Some(data), fetched2) == ComputeGoals(data)
  {
  }
}
