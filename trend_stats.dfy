/**
 * The second loop of `main` in map_station_trends.py: for every station, walk its
 * `{timestamp: bikes}` series pair by pair, keep the change in bikes over each pair that
 * spans exactly one hour and starts in the requested interval, and summarise those
 * changes by their mean and spread. A station with fewer than two changes stops the run.
 */
module TrendStats {
  import opened Wrappers
  import opened Feed
  import opened TrendTime
  import opened HourlySelection

  /** The pair test of the loop body: `second` is one hour after `first`, and `first` is in the interval. */
  predicate Qualifies(first: (int, int), second: (int, int), clock: int -> LocalTime, desiredHour: int, isWeekend: bool)
  {
    IsOneHourAfter(clock(second.0), clock(first.0)) && InTimeInterval(clock(first.0), desiredHour, isWeekend)
  }

  /** The number of adjacent pairs, `len(timestamp_items) - 1`, or none for an empty series. */
  function PairCount(items: Series): nat
  {
    if |items| == 0 then 0 else |items| - 1
  }

  /** The deltas collected from the first `n` adjacent pairs. */
  function DeltasUpTo(items: Series, clock: int -> LocalTime, desiredHour: int, isWeekend: bool, n: nat): seq<int>
    requires n <= PairCount(items)
  {
    if n == 0 then []
    else
      DeltasUpTo(items, clock, desiredHour, isWeekend, n - 1) +
      (if Qualifies(items[n - 1], items[n], clock, desiredHour, isWeekend) then [items[n].1 - items[n - 1].1] else [])
  }

  function Deltas(items: Series, clock: int -> LocalTime, desiredHour: int, isWeekend: bool): seq<int>
  {
    DeltasUpTo(items, clock, desiredHour, isWeekend, PairCount(items))
  }

  /**
   * What a delta is: the change in bikes from a sample at the desired hour, on a day of
   * the requested class, to the sample stored right after it, which is exactly one local
   * hour later.
   */
  predicate MeasuredChange(items: Series, i: int, clock: int -> LocalTime, desiredHour: int, isWeekend: bool)
    requires 0 <= i && i + 1 < |items|
  {
    var t := clock(items[i].0);
    && clock(items[i + 1].0) == NextHour(t)
    && t.hour == desiredHour
    && IsWeekendDay(t.day) == isWeekend
  }

  lemma QualifiesIsMeasuredChange(items: Series, i: int, clock: int -> LocalTime, desiredHour: int, isWeekend: bool)
    requires 0 <= i && i + 1 < |items|
    ensures Qualifies(items[i], items[i + 1], clock, desiredHour, isWeekend) <==> MeasuredChange(items, i, clock, desiredHour, isWeekend)
  {
    OneHourAfterIsNextHour(clock(items[i + 1].0), clock(items[i].0));
    InTimeIntervalClassifies(clock(items[i].0), desiredHour, isWeekend);
  }

  /**
   * The deltas are exactly the changes over measured pairs: every delta comes from such a
   * pair among the first `n`, and every such pair contributes its change.
   */
  lemma {:induction false} DeltasUpToMembers(items: Series, clock: int -> LocalTime, desiredHour: int, isWeekend: bool, n: nat)
    requires n <= PairCount(items)
    ensures forall d :: d in DeltasUpTo(items, clock, desiredHour, isWeekend, n) <==>
      exists i :: 0 <= i < n && MeasuredChange(items, i, clock, desiredHour, isWeekend) && d == items[i + 1].1 - items[i].1
    ensures |DeltasUpTo(items, clock, desiredHour, isWeekend, n)| <= n
  {
    if n > 0 {
      DeltasUpToMembers(items, clock, desiredHour, isWeekend, n - 1);
      QualifiesIsMeasuredChange(items, n - 1, clock, desiredHour, isWeekend);
      var prev := DeltasUpTo(items, clock, desiredHour, isWeekend, n - 1);
      var last: seq<int> := if Qualifies(items[n - 1], items[n], clock, desiredHour, isWeekend) then [items[n].1 - items[n - 1].1] else [];
      forall d
        ensures d in prev + last <==>
          exists i :: 0 <= i < n && MeasuredChange(items, i, clock, desiredHour, isWeekend) && d == items[i + 1].1 - items[i].1
      {
        if d in prev + last && d !in prev {
          assert MeasuredChange(items, n - 1, clock, desiredHour, isWeekend) && d == items[n].1 - items[n - 1].1;
        }
      }
    }
  }

  /** Both directions for the whole series, and at most one delta per adjacent pair. */
  lemma DeltasMembers(items: Series, clock: int -> LocalTime, desiredHour: int, isWeekend: bool)
    ensures forall d :: d in Deltas(items, clock, desiredHour, isWeekend) <==>
      exists i :: 0 <= i && i + 1 < |items| && MeasuredChange(items, i, clock, desiredHour, isWeekend) && d == items[i + 1].1 - items[i].1
    ensures |Deltas(items, clock, desiredHour, isWeekend)| <= PairCount(items)
  {
    DeltasUpToMembers(items, clock, desiredHour, isWeekend, PairCount(items));
  }

  /** The indices of the measured pairs among the first `n`. */
  ghost function MeasuredPairs(items: Series, clock: int -> LocalTime, desiredHour: int, isWeekend: bool, n: nat): set<int>
    requires n <= PairCount(items)
  {
    set i | 0 <= i < n && MeasuredChange(items, i, clock, desiredHour, isWeekend)
  }

  lemma MeasuredPairsStep(items: Series, clock: int -> LocalTime, desiredHour: int, isWeekend: bool, n: nat)
    requires 0 < n <= PairCount(items)
    ensures n - 1 !in MeasuredPairs(items, clock, desiredHour, isWeekend, n - 1)
    ensures MeasuredPairs(items, clock, desiredHour, isWeekend, n) ==
      MeasuredPairs(items, clock, desiredHour, isWeekend, n - 1) +
      (if MeasuredChange(items, n - 1, clock, desiredHour, isWeekend) then {n - 1} else {})
  {
  }

  /** One delta per measured pair: a change seen twice is counted twice. */
  lemma {:induction false} DeltasUpToCount(items: Series, clock: int -> LocalTime, desiredHour: int, isWeekend: bool, n: nat)
    requires n <= PairCount(items)
    ensures |DeltasUpTo(items, clock, desiredHour, isWeekend, n)| == |MeasuredPairs(items, clock, desiredHour, isWeekend, n)|
  {
    if n > 0 {
      DeltasUpToCount(items, clock, desiredHour, isWeekend, n - 1);
      QualifiesIsMeasuredChange(items, n - 1, clock, desiredHour, isWeekend);
      MeasuredPairsStep(items, clock, desiredHour, isWeekend, n);
    } else {
      assert MeasuredPairs(items, clock, desiredHour, isWeekend, n) == {};
    }
  }

  /** The whole series yields exactly as many deltas as it has measured pairs. */
  lemma DeltasCount(items: Series, clock: int -> LocalTime, desiredHour: int, isWeekend: bool)
    ensures |Deltas(items, clock, desiredHour, isWeekend)| ==
      |set i | 0 <= i && i + 1 < |items| && MeasuredChange(items, i, clock, desiredHour, isWeekend)|
  {
    DeltasUpToCount(items, clock, desiredHour, isWeekend, PairCount(items));
    assert MeasuredPairs(items, clock, desiredHour, isWeekend, PairCount(items)) ==
      set i | 0 <= i && i + 1 < |items| && MeasuredChange(items, i, clock, desiredHour, isWeekend);
  }

  /** The delta loop over one station's `timestamp_items`. */
  method ComputeDeltas(items: Series, clock: int -> LocalTime, desiredHour: int, isWeekend: bool) returns (deltas: seq<int>)
    ensures deltas == Deltas(items, clock, desiredHour, isWeekend)
  {
    deltas := [];
    for i := 0 to PairCount(items)
      invariant deltas == DeltasUpTo(items, clock, desiredHour, isWeekend, i)
    {
      var first := items[i];
      var second := items[i + 1];
      if IsOneHourAfter(clock(second.0), clock(first.0)) {
        if InTimeInterval(clock(first.0), desiredHour, isWeekend) {
          deltas := deltas + [second.1 - first.1];
        }
      }
    }
  }

  // ---------------------------------------------------------------------------
  // Mean and spread

  /** `sum(deltas)`. */
  function Sum(xs: seq<int>): int
  {
    if xs == [] then 0 else Sum(xs[..|xs| - 1]) + xs[|xs| - 1]
  }

  /** `sum(deltas) / len(deltas)`, in exact arithmetic. */
  function Mean(xs: seq<int>): real
    requires |xs| > 0
  {
    Sum(xs) as real / |xs| as real
  }

  lemma {:induction false} SumBounds(xs: seq<int>, lo: int, hi: int)
    requires forall i :: 0 <= i < |xs| ==> lo <= xs[i] <= hi
    ensures lo * |xs| <= Sum(xs) <= hi * |xs|
  {
    if xs != [] {
      SumBounds(xs[..|xs| - 1], lo, hi);
      assert lo * |xs| == lo * (|xs| - 1) + lo;
      assert hi * |xs| == hi * (|xs| - 1) + hi;
    }
  }

  lemma ScaleBounds(lo: real, s: real, hi: real, n: real)
    requires n > 0.0 && lo * n <= s <= hi * n
    ensures lo <= s / n <= hi
  {
  }

  /** The mean lies between the smallest and the largest delta. */
  lemma MeanWithinBounds(xs: seq<int>, lo: int, hi: int)
    requires |xs| > 0
    requires forall i :: 0 <= i < |xs| ==> lo <= xs[i] <= hi
    ensures lo as real <= Mean(xs) <= hi as real
  {
    SumBounds(xs, lo, hi);
    ScaleBounds(lo as real, Sum(xs) as real, hi as real, |xs| as real);
  }

  function Square(e: int): (r: int)
    ensures r >= 0
    ensures r == 0 <==> e == 0
  {
    e * e
  }

  /**
   * `n²` times the sum of squared deviations of `xs` from the mean `total / n`, kept in
   * integers: each term is `(n·x − total)²`, which is `n²·(x − total/n)²`.
   */
  function ScaledDeviations(xs: seq<int>, total: int, n: int): (r: int)
    ensures r >= 0
  {
    if xs == [] then 0
    else ScaledDeviations(xs[..|xs| - 1], total, n) + Square(n * xs[|xs| - 1] - total)
  }

  /**
   * The square of `statistics.stdev(deltas)`: the sample variance
   * `Σ (x − mean)² / (n − 1)`, written as `ScaledDeviations / (n² · (n − 1))`.
   */
  function SampleVariance(xs: seq<int>): real
    requires |xs| >= 2
  {
    var n := |xs|;
    ScaledDeviations(xs, Sum(xs), n) as real / (n * n * (n - 1)) as real
  }

  lemma {:induction false} ScaledDeviationsZero(xs: seq<int>, total: int, n: int)
    ensures ScaledDeviations(xs, total, n) == 0 <==> forall i :: 0 <= i < |xs| ==> n * xs[i] == total
  {
    if xs != [] {
      var init := xs[..|xs| - 1];
      ScaledDeviationsZero(init, total, n);
      var last := Square(n * xs[|xs| - 1] - total);
      assert ScaledDeviations(xs, total, n) == ScaledDeviations(init, total, n) + last;
      assert forall i :: 0 <= i < |init| ==> init[i] == xs[i];
    }
  }

  lemma PositiveQuotient(a: int, b: int)
    requires a >= 0 && b > 0
    ensures a as real / b as real >= 0.0
    ensures a as real / b as real == 0.0 <==> a == 0
  {
  }

  lemma Cancel(n: int, a: int, b: int)
    requires n > 0 && n * a == n * b
    ensures a == b
  {
  }

  predicate AllEqual(xs: seq<int>)
  {
    forall i, j :: 0 <= i < |xs| && 0 <= j < |xs| ==> xs[i] == xs[j]
  }

  lemma AllEqualAtMean(xs: seq<int>)
    requires |xs| > 0
    ensures AllEqual(xs) <==> forall i :: 0 <= i < |xs| ==> |xs| * xs[i] == Sum(xs)
  {
    var n := |xs|;
    if AllEqual(xs) {
      SumBounds(xs, xs[0], xs[0]);
    }
    if forall i :: 0 <= i < |xs| ==> n * xs[i] == Sum(xs) {
      forall i, j | 0 <= i < |xs| && 0 <= j < |xs| ensures xs[i] == xs[j] {
        Cancel(n, xs[i], xs[j]);
      }
    }
  }

  /** The spread is never negative, and nil exactly when every delta is the same. */
  lemma SampleVarianceZero(xs: seq<int>)
    requires |xs| >= 2
    ensures SampleVariance(xs) >= 0.0
    ensures SampleVariance(xs) == 0.0 <==> AllEqual(xs)
  {
    var n := |xs|;
    var d := n * n * (n - 1);
    assert d > 0 by {
      assert n * n > 0;
    }
    ScaledDeviationsZero(xs, Sum(xs), n);
    PositiveQuotient(ScaledDeviations(xs, Sum(xs), n), d);
    AllEqualAtMean(xs);
  }

  /** `Σ (x − m)²` over `xs`, in exact real arithmetic: the textbook numerator of the variance. */
  function SquaredDeviations(xs: seq<int>, m: real): real
  {
    if xs == [] then 0.0
    else SquaredDeviations(xs[..|xs| - 1], m) + (xs[|xs| - 1] as real - m) * (xs[|xs| - 1] as real - m)
  }

  /** `a`, read as a real, is `c` times `p`. */
  ghost predicate ScaledBy(a: int, c: real, p: real)
  {
    a as real == c * p
  }

  /** One integer term `(n·x − total)²` is `n²` times the squared deviation of `x` from the mean `m = total / n`. */
  lemma ScaledTerm(x: int, total: int, n: int, m: real)
    requires n > 0 && n as real * m == total as real
    ensures ScaledBy(Square(n * x - total), (n * n) as real, (x as real - m) * (x as real - m))
  {
    var d := x as real - m;
    var e := n * x - total;
    assert e as real == n as real * d;
    assert Square(e) as real == e as real * e as real;
    assert (n * n) as real == n as real * n as real;
    assert (n as real * d) * (n as real * d) == (n as real * n as real) * (d * d);
  }

  lemma ScaledSum(a: int, b: int, c: real, p: real, q: real)
    requires ScaledBy(a, c, p) && ScaledBy(b, c, q)
    ensures ScaledBy(a + b, c, p + q)
  {
  }

  /** Summed over `xs`, the integer form is `n²` times the sum of squared deviations from the mean `m = total / n`. */
  lemma {:induction false} ScaledDeviationsReal(xs: seq<int>, total: int, n: int, m: real)
    requires n > 0 && n as real * m == total as real
    ensures ScaledBy(ScaledDeviations(xs, total, n), (n * n) as real, SquaredDeviations(xs, m))
  {
    if xs != [] {
      var init := xs[..|xs| - 1];
      var x := xs[|xs| - 1];
      ScaledDeviationsReal(init, total, n, m);
      ScaledTerm(x, total, n, m);
      ScaledSum(ScaledDeviations(init, total, n), Square(n * x - total), (n * n) as real,
        SquaredDeviations(init, m), (x as real - m) * (x as real - m));
    }
  }

  lemma CancelFactor(c: real, a: real, k: real)
    requires c > 0.0 && k > 0.0
    ensures (c * a) / (c * k) == a / k
  {
    assert (c * k) * (a / k) == c * a;
  }

  lemma RealProduct(n: int)
    ensures (n * n * (n - 1)) as real == (n * n) as real * (n - 1) as real
  {
  }

  /** `SampleVariance` is the textbook sample variance: `Σ (x − mean)² / (n − 1)`. */
  lemma SampleVarianceIsTextbook(xs: seq<int>)
    requires |xs| >= 2
    ensures SampleVariance(xs) == SquaredDeviations(xs, Mean(xs)) / (|xs| - 1) as real
  {
    var n := |xs|;
    ScaledDeviationsReal(xs, Sum(xs), n, Mean(xs));
    RealProduct(n);
    assert (n * n) as real > 0.0 by {
      assert n * n > 0;
    }
    CancelFactor((n * n) as real, SquaredDeviations(xs, Mean(xs)), (n - 1) as real);
  }

  // ---------------------------------------------------------------------------
  // The per-station loop

  /** `all_station_statistics[station] = [avg, stdev]`, with the variance for the stdev. */
  datatype StationStat = StationStat(station: StationId, mean: real, variance: real)

  datatype StatsError =
    | TooFewDeltas(station: StationId)   // `ValueError`: fewer than two deltas for this station
    | NoStations                         // the unpacking `zip(*{}.items())` of an empty result

  function StationDeltas(stations: Stations, s: StationId, clock: int -> LocalTime, desiredHour: int, isWeekend: bool): seq<int>
  {
    Deltas(SeriesOf(stations, s), clock, desiredHour, isWeekend)
  }

  /** Every one of the first `n` stations has at least two deltas. */
  predicate EnoughDeltasUpTo(stations: Stations, clock: int -> LocalTime, desiredHour: int, isWeekend: bool, n: nat)
    requires n <= |stations.order|
  {
    forall k :: 0 <= k < n ==> |StationDeltas(stations, stations.order[k], clock, desiredHour, isWeekend)| >= 2
  }

  /**
   * The statistics loop over the stations in the order they were first seen. It succeeds
   * iff there is a station and every station has at least two deltas, and then gives each
   * station's mean and variance in that order; otherwise it names the first station that
   * has too few.
   */
  method StationStatistics(stations: Stations, clock: int -> LocalTime, desiredHour: int, isWeekend: bool)
    returns (r: Result<seq<StationStat>, StatsError>)
    ensures r.Ok? <==> |stations.order| > 0 && EnoughDeltasUpTo(stations, clock, desiredHour, isWeekend, |stations.order|)
    ensures r.Ok? ==> |r.value| == |stations.order|
    ensures r.Ok? ==> forall k :: 0 <= k < |r.value| ==>
      var d := StationDeltas(stations, stations.order[k], clock, desiredHour, isWeekend);
      |d| >= 2 && r.value[k] == StationStat(stations.order[k], Mean(d), SampleVariance(d))
    ensures r == Err(NoStations) <==> |stations.order| == 0
    ensures r.Err? && r.error.TooFewDeltas? ==>
      exists k :: 0 <= k < |stations.order| && stations.order[k] == r.error.station &&
        EnoughDeltasUpTo(stations, clock, desiredHour, isWeekend, k) &&
        |StationDeltas(stations, stations.order[k], clock, desiredHour, isWeekend)| < 2
  {
    var stats: seq<StationStat> := [];
    for k := 0 to |stations.order|
      invariant |stats| == k
      invariant EnoughDeltasUpTo(stations, clock, desiredHour, isWeekend, k)
      invariant forall j :: 0 <= j < k ==>
        var d := StationDeltas(stations, stations.order[j], clock, desiredHour, isWeekend);
        |d| >= 2 && stats[j] == StationStat(stations.order[j], Mean(d), SampleVariance(d))
    {
      var station := stations.order[k];
      var deltas := ComputeDeltas(SeriesOf(stations, station), clock, desiredHour, isWeekend);
      if |deltas| < 2 {
        return Err(TooFewDeltas(station));
      }
      stats := stats + [StationStat(station, Mean(deltas), SampleVariance(deltas))];
    }
    if |stats| == 0 {
      return Err(NoStations);
    }
    return Ok(stats);
  }

  // ---------------------------------------------------------------------------
  // A worked run

  function Sample(ts: int, bikes: int): SnapshotFile
  {
    SnapshotFile(ts, [("3", CompactRecord(true, bikes, 0, 20, None))])
  }

  /** Station "3" sampled at 10:00, 10:15 and 11:00 on a Thursday with 12, 14 and 9 bikes. */
  function ThreeSamples(): seq<SnapshotFile>
  {
    [Sample(36000, 12), Sample(36900, 14), Sample(39600, 9)]
  }

  /** Three files whose first two share a date-hour that the third does not: the selection keeps the first and the third. */
  lemma ThreeSampleSelection(files: seq<SnapshotFile>, clock: int -> LocalTime)
    requires |files| == 3
    requires clock(files[0].timestamp) == clock(files[1].timestamp) != clock(files[2].timestamp)
    ensures Selected(files, clock) == [files[0], files[2]]
  {
    SelectedStep(files, clock, 0);
    SelectedStep(files, clock, 1);
    SelectedStep(files, clock, 2);
  }

  /** The two kept files give the station the series 10:00 -> 12, 11:00 -> 9. */
  lemma ThreeSampleSeries()
    ensures SeriesOf(CollectAll([ThreeSamples()[0], ThreeSamples()[2]]), "3") == [(36000, 12), (39600, 9)]
  {
    var a, b := Sample(36000, 12), Sample(39600, 9);
    var kept := [a, b];
    assert kept == [ThreeSamples()[0], ThreeSamples()[2]];
    CollectAllSeries(kept, "3");
    assert Find(a.contents, "3") == Some(CompactRecord(true, 12, 0, 20, None));
    assert Find(b.contents, "3") == Some(CompactRecord(true, 9, 0, 20, None));
    assert kept[..1] == [a] && [a][..0] == [];
    assert Readings([a], "3") == [(36000, 12)];
    assert Readings(kept, "3") == Readings([a], "3") + [(39600, 9)];
  }

  /** With 10:00 and 11:00 on a Thursday, that series gives the 10:00 weekday bucket the one delta -3. */
  lemma ThreeSampleDeltas(clock: int -> LocalTime)
    requires clock(36000) == LocalTime(0, 10) && clock(39600) == LocalTime(0, 11)
    ensures Deltas([(36000, 12), (39600, 9)], clock, 10, false) == [-3]
  {
    var items: Series := [(36000, 12), (39600, 9)];
    assert Weekday(0) == 3;
    assert Qualifies(items[0], items[1], clock, 10, false);
    assert DeltasUpTo(items, clock, 10, false, 1) == [-3];
  }

  /**
   * End to end: the selection keeps 10:00 and 11:00, and the 10:00 weekday bucket of
   * station "3" gets the one delta -3.
   */
  lemma ThreeSampleRun()
    ensures Selected(ThreeSamples(), UtcClock) == [ThreeSamples()[0], ThreeSamples()[2]]
    ensures SeriesOf(CollectAll(Selected(ThreeSamples(), UtcClock)), "3") == [(36000, 12), (39600, 9)]
    ensures StationDeltas(CollectAll(Selected(ThreeSamples(), UtcClock)), "3", UtcClock, 10, false) == [-3]
  {
    ExampleHours();
    ThreeSampleSelection(ThreeSamples(), UtcClock);
    ThreeSampleSeries();
    ThreeSampleDeltas(UtcClock);
  }
}
