/**
 The z-score engine for resource gauges. It compares the mean of the last minute with the mean
 and the population standard deviation of the last ten minutes, which contain that minute.
 */
module ResourceMetrics {
  import opened Prelude
  import opened Statistics

  const BASELINE_MINUTES := 10
  const CURRENT_MINUTES := 1
  const MIN_SAMPLES := 5
  const METRIC_Z_THRESHOLD := 4.0
  const METRIC_MIN_REL_DELTA := 0.25
  const METRIC_MIN_ABS_DELTA := 5.0

  /** One stored point of one series, of a gauge or not; it carries a double, an integer, or neither. */
  datatype Point = Point(time: int, gauge: bool, double: Option<real>, integer: Option<int>)

  /** A point as docker_stats stores it. */
  function Sample(time: int, value: real): Point { Point(time, true, Some(value), None) }

  function ValueOf(p: Point): Option<real>
  {
    if p.double.Some? then p.double
    else if p.integer.Some? then Some(p.integer.value as real)
    else None
  }

  function TimeOf(): Point -> int { (p: Point) => p.time }

  predicate Within(p: Point, now: int, minutes: int)
  {
    now - minutes * NS_PER_MINUTE <= p.time <= now
  }

  function Baseline(points: seq<Point>, now: int): seq<real>
  {
    if points == [] then []
    else
      var init, p := Baseline(points[..|points|-1], now), points[|points|-1];
      if Within(p, now, BASELINE_MINUTES) && ValueOf(p).Some? then init + [ValueOf(p).value] else init
  }

  function Is(v: real): real -> bool { x => x == v }

  /** Points of the window that stand for a value. */
  function Stands(now: int, v: real): Point -> bool
  {
    (p: Point) => Within(p, now, BASELINE_MINUTES) && ValueOf(p) == Some(v)
  }

  /** A value is in the baseline once for every point of the window that stands for it. */
  lemma {:induction false} BaselineHolds(points: seq<Point>, now: int, v: real)
    ensures Count(Baseline(points, now), Is(v)) == Count(points, Stands(now, v))
  {
    if points != [] {
      var init, p := points[..|points|-1], points[|points|-1];
      BaselineHolds(init, now, v);
      var values := Baseline(points, now);
      if Within(p, now, BASELINE_MINUTES) && ValueOf(p).Some? {
        assert values[..|values|-1] == Baseline(init, now);
      }
    }
  }

  /** Points of the last ten minutes with this double, or without a double and with this integer. */
  function ReadsAs(now: int, v: real): Point -> bool
  {
    (p: Point) =>
      && now - 600_000_000_000 <= p.time <= now
      && (p.double == Some(v) || (p.double.None? && p.integer.Some? && p.integer.value as real == v))
  }

  /** The values in the order of the points, each as often as points of the window read as it. */
  method FetchBaseline(points: seq<Point>, now: int) returns (values: seq<real>)
    ensures values == Baseline(points, now)
    ensures forall v :: Count(values, Is(v)) == Count(points, ReadsAs(now, v))
  {
    values := [];
    for i := 0 to |points|
      invariant values == Baseline(points[..i], now)
    {
      assert points[..i+1][..i] == points[..i];
      if Within(points[i], now, BASELINE_MINUTES) {
        var v := if points[i].double.Some? then points[i].double
                 else if points[i].integer.Some? then Some(points[i].integer.value as real) else None;
        if v.Some? {
          values := values + [v.value];
        }
      }
    }
    assert points[..|points|] == points;
    forall v
      ensures Count(values, Is(v)) == Count(points, ReadsAs(now, v))
    {
      BaselineHolds(points, now, v);
      CountImplies(points, Stands(now, v), ReadsAs(now, v));
    }
  }

  predicate CurrentDouble(p: Point, now: int) { Within(p, now, CURRENT_MINUTES) && p.double.Some? }
  predicate CurrentInteger(p: Point, now: int) { Within(p, now, CURRENT_MINUTES) && p.integer.Some? }

  /** The points that the current mean averages: the doubles, or the integers if there is no double. */
  function Averaged(points: seq<Point>, now: int): Point -> bool
  {
    if exists p | p in points :: CurrentDouble(p, now)
    then (p: Point) => CurrentDouble(p, now)
    else (p: Point) => CurrentInteger(p, now)
  }

  /** Values added up, each moved by a center and raised to a power of 0, 1 or 2. */
  function Moment(points: seq<Point>, sel: Point -> bool, center: real, power: nat): real
  {
    if points == [] then 0.0
    else
      var init, p := Moment(points[..|points|-1], sel, center, power), points[|points|-1];
      if !sel(p) || ValueOf(p).None? then init
      else
        var d := ValueOf(p).value - center;
        init + if power == 0 then 1.0 else if power == 1 then d else Times(d, d)
  }

  /** avg(value_double), else avg(value_int), over the current window. */
  function CurrentMean(points: seq<Point>, now: int): Option<real>
  {
    var sel := Averaged(points, now);
    var m := Count(points, sel);
    if m == 0 then None else Some(Divide(Moment(points, sel, 0.0, 1), m as real))
  }

  /** The values of these points, in order. */
  function Values(points: seq<Point>, sel: Point -> bool, value: Point -> real): seq<real>
  {
    if points == [] then []
    else
      var init, p := Values(points[..|points|-1], sel, value), points[|points|-1];
      if sel(p) then init + [value(p)] else init
  }

  lemma SumOneMore(v: seq<real>, x: real)
    ensures Sum(v + [x]) == Sum(v) + x
  {
    assert (v + [x])[..|v|] == v;
  }

  lemma {:induction false} MomentOfValues(points: seq<Point>, sel: Point -> bool, value: Point -> real)
    requires forall p | p in points && sel(p) :: ValueOf(p) == Some(value(p))
    ensures Moment(points, sel, 0.0, 1) == Sum(Values(points, sel, value))
    ensures Count(points, sel) == |Values(points, sel, value)|
  {
    if points != [] {
      var init, p := points[..|points|-1], points[|points|-1];
      MomentOfValues(init, sel, value);
      if sel(p) {
        SumOneMore(Values(init, sel, value), value(p));
      }
    }
  }

  function DoubleOf(p: Point): real { if p.double.Some? then p.double.value else 0.0 }
  function IntegerOf(p: Point): real { if p.integer.Some? then p.integer.value as real else 0.0 }

  function DoublesSince(from: int, to: int): Point -> bool { (p: Point) => from <= p.time <= to && p.double.Some? }
  function IntegersSince(from: int, to: int): Point -> bool { (p: Point) => from <= p.time <= to && p.integer.Some? }

  /** The doubles, and the integers, of the last minute. */
  function Doubles(points: seq<Point>, now: int): seq<real>
  {
    Values(points, DoublesSince(now - 60_000_000_000, now), DoubleOf)
  }

  function Integers(points: seq<Point>, now: int): seq<real>
  {
    Values(points, IntegersSince(now - 60_000_000_000, now), IntegerOf)
  }

  lemma {:induction false} ValuesAlike(points: seq<Point>, p: Point -> bool, q: Point -> bool, value: Point -> real)
    requires forall x | x in points :: p(x) <==> q(x)
    ensures Values(points, p, value) == Values(points, q, value)
  {
    if points != [] {
      ValuesAlike(points[..|points|-1], p, q, value);
    }
  }

  /** The current mean is that of the doubles of the last minute, or of its integers if it has no double. */
  lemma CurrentMeanExact(points: seq<Point>, now: int)
    ensures var doubles, integers := Doubles(points, now), Integers(points, now);
            CurrentMean(points, now) ==
              if doubles != [] then Some(Mean(doubles)) else if integers != [] then Some(Mean(integers)) else None
  {
    var sel, from := Averaged(points, now), now - 60_000_000_000;
    MomentOfValues(points, DoublesSince(from, now), DoubleOf);
    CountPositive(points, DoublesSince(from, now));
    if p :| p in points && CurrentDouble(p, now) {
      MomentOfValues(points, sel, DoubleOf);
      ValuesAlike(points, sel, DoublesSince(from, now), DoubleOf);
    } else {
      MomentOfValues(points, sel, IntegerOf);
      ValuesAlike(points, sel, IntegersSince(from, now), IntegerOf);
    }
  }

  /** (z, mean, stddev), or None; stddev is math.sqrt of the variance. */
  function ComputeZScore(baseline: seq<real>, currentMean: real, stddev: real): Option<(real, real, real)>
    requires baseline != [] ==> stddev >= 0.0 && Times(stddev, stddev) == Variance(baseline)
  {
    if |baseline| < MIN_SAMPLES || stddev == 0.0 then None
    else Some((Divide(currentMean - Mean(baseline), stddev), Mean(baseline), stddev))
  }

  /** The thresholds of run_anomaly_scan. */
  predicate Passes(z: real, mean: real, currentMean: real)
  {
    && Abs(z) >= METRIC_Z_THRESHOLD
    && Abs(currentMean - mean) >= METRIC_MIN_ABS_DELTA
    && Abs(currentMean - mean) >= METRIC_MIN_REL_DELTA * Abs(mean)
  }

  ghost predicate MetricFires(points: seq<Point>, now: int, stddev: real)
    requires Baseline(points, now) != [] ==> stddev >= 0.0 && Times(stddev, stddev) == Variance(Baseline(points, now))
  {
    && CurrentMean(points, now).Some?
    && var c := CurrentMean(points, now).value;
       var stats := ComputeZScore(Baseline(points, now), c, stddev);
       stats.Some? && Passes(stats.value.0, stats.value.1, c)
  }

  // ---- the current samples are baseline samples -----------------------------------------

  function InBaseline(now: int): Point -> bool
  {
    (p: Point) => Within(p, now, BASELINE_MINUTES) && ValueOf(p).Some?
  }

  function Except(p: Point -> bool, q: Point -> bool): Point -> bool { (x: Point) => p(x) && !q(x) }

  lemma AveragedAreBaseline(points: seq<Point>, now: int)
    ensures forall p | p in points && Averaged(points, now)(p) :: InBaseline(now)(p)
    ensures 0 <= Count(points, Averaged(points, now)) <= |Baseline(points, now)|
  {
    BaselineMoments(points, now, 0.0);
    CountImplies(points, Averaged(points, now), InBaseline(now));
  }

  /** Sums over the fetched values are sums over the points in the window. */
  lemma {:induction false} BaselineMoments(points: seq<Point>, now: int, center: real)
    ensures |Baseline(points, now)| == Count(points, InBaseline(now))
    ensures Sum(Baseline(points, now)) == Moment(points, InBaseline(now), 0.0, 1)
    ensures SquaredDeviations(Baseline(points, now), center) == Moment(points, InBaseline(now), center, 2)
  {
    if points != [] {
      var init, p := points[..|points|-1], points[|points|-1];
      BaselineMoments(init, now, center);
      var v := Baseline(points, now);
      if InBaseline(now)(p) {
        assert v[..|v|-1] == Baseline(init, now);
      }
    }
  }

  lemma {:induction false} MomentSplits(points: seq<Point>, sel: Point -> bool, part: Point -> bool, center: real,
      power: nat)
    requires forall p | p in points && part(p) :: sel(p)
    ensures Moment(points, sel, center, power) ==
              Moment(points, part, center, power) + Moment(points, Except(sel, part), center, power)
    ensures Count(points, sel) == Count(points, part) + Count(points, Except(sel, part))
  {
    if points != [] {
      MomentSplits(points[..|points|-1], sel, part, center, power);
    }
  }

  lemma {:induction false} NothingToAdd(points: seq<Point>, sel: Point -> bool, center: real, power: nat)
    requires Count(points, sel) == 0
    ensures Moment(points, sel, center, power) == 0.0
  {
    if points != [] {
      NothingToAdd(points[..|points|-1], sel, center, power);
    }
  }

  /** The first moment moves with the center. */
  lemma {:induction false} MomentMoves(points: seq<Point>, sel: Point -> bool, center: real, n: real)
    requires forall p | p in points && sel(p) :: ValueOf(p).Some?
    requires n == Count(points, sel) as real
    ensures Moment(points, sel, center, 1) == Moment(points, sel, 0.0, 1) - Times(n, center)
  {
    if points != [] {
      var init, p := points[..|points|-1], points[|points|-1];
      MomentMoves(init, sel, center, Count(init, sel) as real);
      OneMore(Count(init, sel) as real, center);
    }
  }

  lemma OneMore(n: real, x: real)
    ensures Times(n + 1.0, x) == Times(n, x) + x
  {
  }

  /** A sum of squares around any other center is not negative. */
  lemma {:induction false} SquaresAround(points: seq<Point>, sel: Point -> bool, center: real, t: real, n: real)
    requires forall p | p in points && sel(p) :: ValueOf(p).Some?
    requires n == Count(points, sel) as real
    ensures Moment(points, sel, center, 2) - 2.0 * Times(t, Moment(points, sel, center, 1))
        + Times(n, Times(t, t)) >= 0.0
  {
    if points != [] {
      var init, p := points[..|points|-1], points[|points|-1];
      SquaresAround(init, sel, center, t, Count(init, sel) as real);
      if sel(p) {
        SquareOfDifference(ValueOf(p).value - center, t, Moment(init, sel, center, 1));
        OneMore(Count(init, sel) as real, Times(t, t));
      }
    }
  }

  lemma SquareIsNotNegative(x: real)
    ensures Times(x, x) >= 0.0
  {
    if x < 0.0 {
      PositiveProduct(-x, -x);
    }
  }

  lemma SquareOfDifference(d: real, t: real, m1: real)
    ensures Times(t, m1 + d) == Times(t, m1) + Times(t, d)
    ensures Times(d, d) - 2.0 * Times(t, d) + Times(t, t) >= 0.0
  {
    SquareIsNotNegative(d - t);
  }

  // ---- arithmetic -----------------------------------------------------------------------

  lemma CancelFactor(f: real, x: real, y: real)
    requires f > 0.0 && Times(f, x) <= Times(f, y)
    ensures x <= y
  {
    assert x > y ==> f * (x - y) > 0.0;
  }

  /** The sum of squares of m deviations with mean d. */
  lemma SquaresOfSelected(m: real, d: real, total: real, squares: real)
    requires total == Times(m, d)
    requires squares - 2.0 * Times(d, total) + Times(m, Times(d, d)) >= 0.0
    ensures squares >= Times(m, Times(d, d))
  {
    assert d * (m * d) == m * (d * d);
  }

  /** The sum of squares of k deviations with mean t and the opposite total of m times d. */
  lemma SquaresOfOthers(m: real, d: real, k: real, t: real, squares: real)
    requires k > 0.0 && Times(k, t) == -Times(m, d)
    requires squares - 2.0 * Times(t, -Times(m, d)) + Times(k, Times(t, t)) >= 0.0
    ensures Times(k, squares) >= Times(m, Times(m, Times(d, d)))
  {
    var total := k * t;
    assert t * total == k * (t * t);
    assert squares >= t * total;
    assert k * (squares - t * total) >= 0.0;
    assert k * (t * total) == total * total;
    assert total * total == (m * d) * (m * d);
    assert (m * d) * (m * d) == m * (m * (d * d));
  }

  /** q1 and q2 are the sums of squares, around the mean of all, of the m samples and of the k others. */
  lemma ContainedSamples(m: real, k: real, dd: real, q1: real, q2: real)
    requires k >= 0.0 && q1 >= Times(m, dd) && Times(k, q2) >= Times(m, Times(m, dd))
    ensures Times(m + k, Times(m, dd)) <= Times(k, q1 + q2)
  {
    assert k * (q1 - m * dd) >= 0.0;
    assert (m + k) * (m * dd) == m * (m * dd) + k * (m * dd);
  }

  lemma PositiveProduct(x: real, y: real)
    requires x > 0.0 && y > 0.0
    ensures Times(x, y) > 0.0
  {
  }

  /** Squares and signs of a product with a positive factor. */
  lemma SquareOfProduct(s: real, z: real)
    requires s > 0.0
    ensures Times(s, s) > 0.0
    ensures Times(Times(s, z), Times(s, z)) == Times(Times(s, s), Times(z, z))
  {
    PositiveProduct(s, s);
    assert (s * z) * (s * z) == (s * s) * (z * z);
  }

  lemma Exchange(x: real, y: real, z: real)
    ensures Times(x, y) == Times(y, x)
    ensures Times(x, Times(y, z)) == Times(y, Times(x, z))
  {
  }

  /** Dividing by the number of samples. */
  lemma ClearCount(m: real, k: real, n: real, dd: real, variance: real, squares: real)
    requires n > 0.0 && squares == Times(n, variance)
    requires Times(n, Times(m, dd)) <= Times(k, squares)
    ensures Times(m, dd) <= Times(k, variance)
  {
    Exchange(k, n, variance);
    CancelFactor(n, Times(m, dd), Times(k, variance));
  }

  /** Dividing by the variance. */
  lemma ClearVariance(m: real, k: real, d: real, z: real, stddev: real)
    requires stddev > 0.0 && d == Times(stddev, z)
    requires Times(m, Times(d, d)) <= Times(k, Times(stddev, stddev))
    ensures Times(m, Times(z, z)) <= k
  {
    var variance := Times(stddev, stddev);
    SquareOfProduct(stddev, z);
    Exchange(m, variance, Times(z, z));
    Exchange(k, variance, 1.0);
    CancelFactor(variance, Times(m, Times(z, z)), k);
  }

  // ---- the bound ------------------------------------------------------------------------

  /** m points of sel are among the points of all, k are not, and every point of all has a value. */
  ghost predicate Parted(points: seq<Point>, all: Point -> bool, sel: Point -> bool, m: real, k: real)
  {
    && (forall p | p in points && sel(p) :: all(p))
    && (forall p | p in points && all(p) :: ValueOf(p).Some?)
    && m == Count(points, sel) as real && k == Count(points, Except(all, sel)) as real
  }

  /** All samples balance around their mean, so the others outweigh the m selected ones. */
  lemma FirstMoments(points: seq<Point>, all: Point -> bool, sel: Point -> bool, m: real, k: real, mean: real, d: real)
    requires Parted(points, all, sel, m, k)
    requires Times(m + k, mean) == Moment(points, all, 0.0, 1)
    requires Times(m, mean + d) == Moment(points, sel, 0.0, 1)
    ensures Moment(points, sel, mean, 1) == Times(m, d)
    ensures Moment(points, Except(all, sel), mean, 1) == -Times(m, d)
  {
    MomentSplits(points, all, sel, mean, 1);
    MomentMoves(points, all, mean, m + k);
    MomentMoves(points, sel, mean, m);
    SquareOfDifference(d, m, mean);
  }

  lemma SecondMoments(points: seq<Point>, all: Point -> bool, sel: Point -> bool, m: real, k: real, mean: real, d: real)
    requires Parted(points, all, sel, m, k)
    requires Moment(points, sel, mean, 1) == Times(m, d)
    requires Moment(points, Except(all, sel), mean, 1) == -Times(m, d)
    ensures Times(m + k, Times(m, Times(d, d))) <= Times(k, Moment(points, all, mean, 2))
  {
    var rest := Except(all, sel);
    MomentSplits(points, all, sel, mean, 2);
    SquaresAround(points, sel, mean, d, m);
    SquaresOfSelected(m, d, Moment(points, sel, mean, 1), Moment(points, sel, mean, 2));
    if k > 0.0 {
      var t := Divide(-Times(m, d), k);
      SquaresAround(points, rest, mean, t, k);
      SquaresOfOthers(m, d, k, t, Moment(points, rest, mean, 2));
    } else {
      NothingToAdd(points, rest, mean, 1);
      NothingToAdd(points, rest, mean, 2);
      assert m * (m * (d * d)) == (m * d) * (m * d);
    }
    ContainedSamples(m, k, Times(d, d), Moment(points, sel, mean, 2), Moment(points, rest, mean, 2));
  }

  /** stddev is the square root of the variance of the baseline, if there is one. */
  ghost predicate IsStddev(points: seq<Point>, now: int, stddev: real)
  {
    Baseline(points, now) != [] ==> stddev >= 0.0 && Times(stddev, stddev) == Variance(Baseline(points, now))
  }

  /**
   Because the m current samples are among the n baseline samples, m times the squared deviation
   of their mean is at most n - m times the variance, for every data set.
   */
  lemma ContainedWindowSquares(points: seq<Point>, now: int)
    requires CurrentMean(points, now).Some?
    ensures var v, m := Baseline(points, now), Count(points, Averaged(points, now));
            && 1 <= m <= |v|
            && var d := CurrentMean(points, now).value - Mean(v);
               Times(m as real, Times(d, d)) <= Times((|v| - m) as real, Variance(v))
  {
    AveragedAreBaseline(points, now);
    var v, all, sel := Baseline(points, now), InBaseline(now), Averaged(points, now);
    var mean := Mean(v);
    BaselineMoments(points, now, mean);
    MomentSplits(points, all, sel, mean, 1);
    var m, k, d := Count(points, sel) as real, Count(points, Except(all, sel)) as real,
        CurrentMean(points, now).value - mean;
    FirstMoments(points, all, sel, m, k, mean, d);
    SecondMoments(points, all, sel, m, k, mean, d);
    ClearCount(m, k, m + k, Times(d, d), Variance(v), SquaredDeviations(v, mean));
  }

  /** So z squared is at most (n - m) / m. */
  lemma ContainedWindowBound(points: seq<Point>, now: int, stddev: real)
    requires IsStddev(points, now, stddev) && CurrentMean(points, now).Some?
    requires ComputeZScore(Baseline(points, now), CurrentMean(points, now).value, stddev).Some?
    ensures var z := ComputeZScore(Baseline(points, now), CurrentMean(points, now).value, stddev).value.0;
            var m, n := Count(points, Averaged(points, now)), |Baseline(points, now)|;
            1 <= m <= n && Times(m as real, Times(z, z)) <= (n - m) as real
  {
    ContainedWindowSquares(points, now);
    var m, n := Count(points, Averaged(points, now)), |Baseline(points, now)|;
    var d := CurrentMean(points, now).value - Mean(Baseline(points, now));
    ClearVariance(m as real, (n - m) as real, d, Divide(d, stddev), stddev);
  }

  lemma LargeScore(z: real, m: nat, n: nat)
    requires Abs(z) >= METRIC_Z_THRESHOLD && m <= n && Times(m as real, Times(z, z)) <= (n - m) as real
    ensures 17 * m <= n
  {
    assert z * z >= 16.0;
    assert m as real * (z * z - 16.0) >= 0.0;
  }

  /** A resource gauge can be reported only if it has 17 baseline samples for each current one. */
  lemma FiresOnlyWithSeventeenTimesTheSamples(points: seq<Point>, now: int, stddev: real)
    requires IsStddev(points, now, stddev)
    ensures MetricFires(points, now, stddev) ==>
              |Baseline(points, now)| >= 17 * Count(points, Averaged(points, now)) >= 17
  {
    if MetricFires(points, now, stddev) {
      ContainedWindowBound(points, now, stddev);
      var z := ComputeZScore(Baseline(points, now), CurrentMean(points, now).value, stddev).value.0;
      LargeScore(z, Count(points, Averaged(points, now)), |Baseline(points, now)|);
    }
  }

  // ---- which sample counts can be reported ----------------------------------------------

  /** The conditions of a report, in terms of the variance instead of its square root. */
  ghost predicate Deviates(points: seq<Point>, now: int)
  {
    && CurrentMean(points, now).Some? && |Baseline(points, now)| >= MIN_SAMPLES
    && Large(CurrentMean(points, now).value, Mean(Baseline(points, now)), Variance(Baseline(points, now)))
  }

  predicate Large(current: real, mean: real, variance: real)
  {
    && variance > 0.0
    && Times(current - mean, current - mean) >= 16.0 * variance
    && Abs(current - mean) >= METRIC_MIN_ABS_DELTA
    && Abs(current - mean) >= METRIC_MIN_REL_DELTA * Abs(mean)
  }

  lemma SquareBeyondFour(z: real)
    ensures Abs(z) >= METRIC_Z_THRESHOLD <==> Times(z, z) >= 16.0
  {
    if Abs(z) < METRIC_Z_THRESHOLD {
      PositiveProduct(4.0 - z, 4.0 + z);
    }
  }

  lemma SquareOfScore(d: real, stddev: real, z: real)
    requires stddev > 0.0 && Times(stddev, z) == d
    ensures Abs(z) >= METRIC_Z_THRESHOLD <==> Times(d, d) >= 16.0 * Times(stddev, stddev)
  {
    SquareOfProduct(stddev, z);
    SquareBeyondFour(z);
    var variance := Times(stddev, stddev);
    Exchange(variance, 16.0, 1.0);
    if Times(z, z) >= 16.0 {
      assert variance * (Times(z, z) - 16.0) >= 0.0;
    } else {
      PositiveProduct(variance, 16.0 - Times(z, z));
    }
  }

  /** Whatever math.sqrt returns for the variance, a series is reported exactly when it deviates. */
  lemma DeviatesExactly(points: seq<Point>, now: int, stddev: real)
    requires IsStddev(points, now, stddev)
    ensures MetricFires(points, now, stddev) <==> Deviates(points, now)
  {
    if CurrentMean(points, now).Some? && |Baseline(points, now)| >= MIN_SAMPLES && stddev != 0.0 {
      var d := CurrentMean(points, now).value - Mean(Baseline(points, now));
      SquareOfScore(d, stddev, Divide(d, stddev));
      PositiveProduct(stddev, stddev);
    }
  }

  lemma CountsOfDeviation(m: nat, k: nat, dd: real, variance: real)
    requires variance > 0.0 && dd >= 16.0 * variance && Times(m as real, dd) <= Times(k as real, variance)
    ensures 16 * m <= k
  {
    assert m as real * (dd - 16.0 * variance) >= 0.0;
    assert k < 16 * m ==> (16.0 * m as real - k as real) * variance > 0.0;
  }

  /** All points that sel selects have one value. */
  lemma {:induction false} MomentOfLevel(points: seq<Point>, sel: Point -> bool, level: real, center: real, n: real)
    requires forall p | p in points && sel(p) :: ValueOf(p) == Some(level)
    requires n == Count(points, sel) as real
    ensures Moment(points, sel, center, 1) == Times(n, level - center)
    ensures Moment(points, sel, center, 2) == Times(n, Times(level - center, level - center))
  {
    if points != [] {
      var init := points[..|points|-1];
      MomentOfLevel(init, sel, level, center, Count(init, sel) as real);
      OneMore(Count(init, sel) as real, level - center);
      OneMore(Count(init, sel) as real, Times(level - center, level - center));
    }
  }

  /** The mean of m samples of n among n samples, the others zero, is m, and the variance is m times n - m. */
  lemma LevelStatistics(m: real, n: real, mean: real, variance: real)
    requires 0.0 < m < n
    requires Times(n, mean) == Times(m, n) + Times(n - m, 0.0)
    requires Times(n, variance) == Times(m, Times(n - mean, n - mean)) + Times(n - m, Times(0.0 - mean, 0.0 - mean))
    ensures mean == m && variance == Times(m, n - m)
  {
    assert n * (mean - m) == 0.0;
    assert mean == m;
    assert m * ((n - m) * (n - m)) + (n - m) * (m * m) == n * (m * (n - m));
    assert n * (variance - m * (n - m)) == 0.0;
  }

  lemma LevelsAreLarge(m: nat, n: nat)
    requires m >= 1 && n >= 17 * m
    ensures Large(n as real, m as real, Times(m as real, (n - m) as real))
  {
    var x, k := m as real, (n - m) as real;
    assert k >= 16.0 * x && k >= 16.0;
    assert k * (k - 16.0 * x) >= 0.0;
    PositiveProduct(x, k);
  }

  /** m current samples stand at n and all other samples of the baseline at zero. */
  ghost predicate TwoLevels(points: seq<Point>, now: int, m: nat, n: nat)
  {
    && Count(points, InBaseline(now)) == n
    && Count(points, Averaged(points, now)) == m
    && (forall p | p in points && InBaseline(now)(p) ::
          ValueOf(p) == Some(if Averaged(points, now)(p) then n as real else 0.0))
  }

  lemma TwoLevelsDeviate(points: seq<Point>, now: int, m: nat, n: nat)
    requires TwoLevels(points, now, m, n) && m >= 1 && n >= 17 * m
    ensures |Baseline(points, now)| == n && Deviates(points, now)
    ensures Variance(Baseline(points, now)) == Times(m as real, (n - m) as real)
  {
    var all, sel, v := InBaseline(now), Averaged(points, now), Baseline(points, now);
    var high := n as real;
    AveragedAreBaseline(points, now);
    BaselineMoments(points, now, 0.0);
    var mean := Mean(v);
    BaselineMoments(points, now, mean);
    MomentSplits(points, all, sel, 0.0, 1);
    MomentSplits(points, all, sel, mean, 2);
    MomentOfLevel(points, sel, high, 0.0, m as real);
    MomentOfLevel(points, sel, high, mean, m as real);
    MomentOfLevel(points, Except(all, sel), 0.0, 0.0, (n - m) as real);
    MomentOfLevel(points, Except(all, sel), 0.0, mean, (n - m) as real);
    LevelStatistics(m as real, high, mean, Variance(v));
    assert CurrentMean(points, now) == Some(high) by {
      var c := Divide(Times(m as real, high), m as real);
      CancelFactor(m as real, c, high);
      CancelFactor(m as real, high, c);
    }
    LevelsAreLarge(m, n);
  }

  /** k idle samples, older than the current window, and then m samples of one value. */
  function Burst(m: nat, k: nat, now: int): seq<Point>
  {
    seq(k, _ => Sample(now - 2 * NS_PER_MINUTE, 0.0)) + seq(m, _ => Sample(now, (m + k) as real))
  }

  lemma BurstHasTwoLevels(m: nat, k: nat, now: int)
    requires m >= 1
    ensures TwoLevels(Burst(m, k, now), now, m, m + k)
  {
    var points := Burst(m, k, now);
    var idle, burst := points[..k], points[k..];
    var sel := Averaged(points, now);
    assert points == idle + burst;
    assert points[k] in points && CurrentDouble(points[k], now);
    assert forall p | p in idle :: !sel(p) && InBaseline(now)(p);
    assert forall p | p in burst :: sel(p) && InBaseline(now)(p);
    CountConcat(idle, burst, sel);
    CountPositive(idle, sel);
    CountAll(burst, sel);
    CountAll(points, InBaseline(now));
  }

  /**
   Exactly these sample counts can be reported: n baseline samples of which m are current can
   deviate for some values if and only if there are at least 17 baseline samples per current one.
   */
  lemma SampleCountsExact(m: nat, n: nat, now: int)
    ensures (exists points ::
               |Baseline(points, now)| == n && Count(points, Averaged(points, now)) == m && Deviates(points, now))
       <==> m >= 1 && n >= 17 * m
  {
    forall points | |Baseline(points, now)| == n && Count(points, Averaged(points, now)) == m && Deviates(points, now)
      ensures m >= 1 && n >= 17 * m
    {
      DeviationCounts(points, now);
    }
    if m >= 1 && n >= 17 * m {
      BurstHasTwoLevels(m, n - m, now);
      TwoLevelsDeviate(Burst(m, n - m, now), now, m, n);
    }
  }

  lemma DeviationCounts(points: seq<Point>, now: int)
    requires Deviates(points, now)
    ensures var m := Count(points, Averaged(points, now)); m >= 1 && |Baseline(points, now)| >= 17 * m
  {
    ContainedWindowSquares(points, now);
    var v, m := Baseline(points, now), Count(points, Averaged(points, now));
    var d := CurrentMean(points, now).value - Mean(v);
    CountsOfDeviation(m, |v| - m, Times(d, d), Variance(v));
  }

  /** The least case: sixteen idle samples and one of 17 have a standard deviation of 4 and a score of 4. */
  lemma SeventeenIsLeast(now: int) returns (points: seq<Point>)
    ensures |Baseline(points, now)| == 17 && Count(points, Averaged(points, now)) == 1
    ensures IsStddev(points, now, 4.0) && MetricFires(points, now, 4.0)
  {
    points := Burst(1, 16, now);
    BurstHasTwoLevels(1, 16, now);
    TwoLevelsDeviate(points, now, 1, 17);
    assert Times(1.0, 16.0) == Times(4.0, 4.0);
    DeviatesExactly(points, now, 4.0);
  }
}
