/**
 When a gauge can be reported at all, given how its samples are spaced: at an exact period, or
 with jitter and gaps.
 */
module GaugeSampling {
  import opened Prelude
  import opened ResourceMetrics

  // ---- a regularly sampled gauge --------------------------------------------------------

  /** Doubles sampled every period nanoseconds, newest first, the newest one age nanoseconds ago. */
  ghost predicate Regular(points: seq<Point>, now: int, age: nat, period: nat)
  {
    forall j | 0 <= j < |points| :: points[j].double.Some? && points[j].time == now - age - j * period
  }

  lemma MorePeriods(c: nat, n: nat, period: nat)
    requires c <= n
    ensures c * period <= n * period
    ensures c < n ==> c * period <= (n - 1) * period
  {
    var more := n - c;
    assert n * period == c * period + more * period;
    if more > 0 {
      assert (n - 1) * period == c * period + (more - 1) * period;
    }
  }

  /** The samples inside a window are the first ones, up to where the window ends. */
  lemma {:induction false} SamplesInWindow(points: seq<Point>, now: int, age: nat, period: nat, minutes: nat,
      sel: Point -> bool)
    requires Regular(points, now, age, period)
    requires forall p | p in points :: sel(p) <==> Within(p, now, minutes)
    ensures var c := Count(points, sel);
            && c <= |points|
            && (c < |points| ==> age + c * period > minutes * NS_PER_MINUTE)
            && (c > 0 ==> age + (c - 1) * period <= minutes * NS_PER_MINUTE)
  {
    if points != [] {
      var init, n := points[..|points|-1], |points| - 1;
      SamplesInWindow(init, now, age, period, minutes, sel);
      MorePeriods(Count(init, sel), n, period);
      MorePeriods(0, n, period);
      assert sel(points[n]) <==> age + n * period <= minutes * NS_PER_MINUTE;
    }
  }

  /** How many of count samples taken every period lie in a window, the newest one being of this age. */
  function SamplesWithin(count: nat, age: nat, period: nat, minutes: nat): nat
  {
    if age > minutes * NS_PER_MINUTE then 0
    else if period == 0 then count
    else
      var fit := (minutes * NS_PER_MINUTE - age) / period + 1;
      if fit < count then fit else count
  }

  /** The samples that fit into a stretch of time. */
  lemma FitIsCount(c: nat, count: nat, period: nat, rest: nat, fit: nat)
    requires period > 0 && fit == rest / period
    requires c <= count && (c < count ==> c * period > rest) && (c > 0 ==> (c - 1) * period <= rest)
    ensures c == if fit + 1 < count then fit + 1 else count
  {
    assert fit * period <= rest < fit * period + period;
    if c > fit + 1 {
      MorePeriods(fit + 1, c - 1, period);
    } else if c <= fit {
      MorePeriods(c, fit, period);
    }
  }

  lemma FirstPeriod(c: nat, period: nat)
    ensures c > 0 ==> (c - 1) * period >= 0
    ensures period == 0 ==> c * period == 0
  {
    if c > 0 {
      MorePeriods(0, c - 1, period);
    }
  }

  lemma RegularCount(points: seq<Point>, now: int, age: nat, period: nat, minutes: nat, sel: Point -> bool)
    requires Regular(points, now, age, period)
    requires forall p | p in points :: sel(p) <==> Within(p, now, minutes)
    ensures Count(points, sel) == SamplesWithin(|points|, age, period, minutes)
  {
    SamplesInWindow(points, now, age, period, minutes, sel);
    FirstPeriod(Count(points, sel), period);
    if age <= minutes * NS_PER_MINUTE && period > 0 {
      var rest := minutes * NS_PER_MINUTE - age;
      FitIsCount(Count(points, sel), |points|, period, rest, rest / period);
    }
  }

  /** The points of a regular gauge that is sampled, since some time, at another value. */
  function Steps(count: nat, now: int, age: nat, period: nat, high: real): seq<Point>
  {
    seq(count, j requires 0 <= j < count =>
          var time := now - age - j * period;
          Sample(time, if now - NS_PER_MINUTE <= time then high else 0.0))
  }

  lemma RegularCounts(points: seq<Point>, now: int, age: nat, period: nat)
    requires Regular(points, now, age, period)
    ensures Count(points, Averaged(points, now)) == SamplesWithin(|points|, age, period, CURRENT_MINUTES)
    ensures Count(points, InBaseline(now)) == SamplesWithin(|points|, age, period, BASELINE_MINUTES)
    ensures forall p | p in points ::
              && (Averaged(points, now)(p) <==> Within(p, now, CURRENT_MINUTES))
              && (InBaseline(now)(p) <==> Within(p, now, BASELINE_MINUTES))
  {
    forall p | p in points
      ensures Averaged(points, now)(p) <==> Within(p, now, CURRENT_MINUTES)
    {
    }
    RegularCount(points, now, age, period, CURRENT_MINUTES, Averaged(points, now));
    RegularCount(points, now, age, period, BASELINE_MINUTES, InBaseline(now));
  }

  lemma StepsDeviate(count: nat, now: int, age: nat, period: nat, m: nat, n: nat)
    requires m == SamplesWithin(count, age, period, CURRENT_MINUTES)
    requires n == SamplesWithin(count, age, period, BASELINE_MINUTES)
    requires m >= 1 && n >= 17 * m
    ensures var points := Steps(count, now, age, period, n as real);
            Regular(points, now, age, period) && Deviates(points, now)
  {
    var points := Steps(count, now, age, period, n as real);
    RegularCounts(points, now, age, period);
    forall p | p in points && InBaseline(now)(p)
      ensures ValueOf(p) == Some(if Averaged(points, now)(p) then n as real else 0.0)
    {
      var j :| 0 <= j < |points| && points[j] == p;
      MorePeriods(0, j, period);
    }
    TwoLevelsDeviate(points, now, m, n);
  }

  /**
   A gauge with this many samples at a regular period can be reported, for some values, exactly
   when the last ten minutes hold at least 17 samples for each one of the last minute, and the
   last minute holds one.
   */
  lemma RegularGaugeExact(count: nat, now: int, age: nat, period: nat)
    ensures (exists points :: |points| == count && Regular(points, now, age, period) && Deviates(points, now))
       <==> var m := SamplesWithin(count, age, period, CURRENT_MINUTES);
            m >= 1 && SamplesWithin(count, age, period, BASELINE_MINUTES) >= 17 * m
  {
    var m, n := SamplesWithin(count, age, period, CURRENT_MINUTES), SamplesWithin(count, age, period, BASELINE_MINUTES);
    forall points | |points| == count && Regular(points, now, age, period) && Deviates(points, now)
      ensures m >= 1 && n >= 17 * m
    {
      RegularCounts(points, now, age, period);
      BaselineMoments(points, now, 0.0);
      DeviationCounts(points, now);
    }
    if m >= 1 && n >= 17 * m {
      StepsDeviate(count, now, age, period, m, n);
      assert |Steps(count, now, age, period, n as real)| == count;
    }
  }

  /** The collection interval of the container gauges in the shipped collector. */
  const DOCKER_STATS_INTERVAL := 15_000_000_000

  lemma ShippedCounts(count: nat, age: nat)
    ensures var m := SamplesWithin(count, age, DOCKER_STATS_INTERVAL, CURRENT_MINUTES);
            var n := SamplesWithin(count, age, DOCKER_STATS_INTERVAL, BASELINE_MINUTES);
            && (m >= 1 && n >= 17 * m ==> 2 * DOCKER_STATS_INTERVAL < age <= NS_PER_MINUTE)
            && (count >= 40 && 2 * DOCKER_STATS_INTERVAL < age <= NS_PER_MINUTE ==> m >= 1 && n >= 17 * m)
  {
  }

  /**
   Container gauges that are stored exactly every 15 s, without a gap, can be reported exactly
   while their newest sample is more than 30 s and at most a minute old.
   */
  lemma GapFreeGaugeExact(now: int, age: nat)
    ensures (exists points :: Regular(points, now, age, DOCKER_STATS_INTERVAL) && Deviates(points, now))
       <==> 2 * DOCKER_STATS_INTERVAL < age <= NS_PER_MINUTE
  {
    forall points | Regular(points, now, age, DOCKER_STATS_INTERVAL) && Deviates(points, now)
      ensures 2 * DOCKER_STATS_INTERVAL < age <= NS_PER_MINUTE
    {
      RegularGaugeExact(|points|, now, age, DOCKER_STATS_INTERVAL);
      ShippedCounts(|points|, age);
    }
    RegularGaugeExact(40, now, age, DOCKER_STATS_INTERVAL);
    ShippedCounts(40, age);
  }

  // ---- samples with jitter and gaps -----------------------------------------------------

  /** Doubles in any order, any two of them at least this far apart in time. */
  ghost predicate Spaced(points: seq<Point>, spacing: nat)
  {
    && (forall p | p in points :: p.double.Some?)
    && (forall i, j | 0 <= i < j < |points| ::
          points[i].time + spacing <= points[j].time || points[j].time + spacing <= points[i].time)
  }

  lemma {:induction false} NewestSample(points: seq<Point>, sel: Point -> bool) returns (newest: Point)
    requires Count(points, sel) > 0
    ensures newest in points && sel(newest)
    ensures forall p | p in points && sel(p) :: p.time <= newest.time
  {
    var init, last := points[..|points|-1], points[|points|-1];
    assert points == init + [last];
    CountPositive(init, sel);
    newest := last;
    if Count(init, sel) > 0 {
      newest := NewestSample(init, sel);
      if sel(last) && last.time > newest.time {
        newest := last;
      }
    }
  }

  function At(time: int): Point -> bool { (p: Point) => p.time == time }
  function Earlier(sel: Point -> bool, time: int): Point -> bool { (p: Point) => sel(p) && p.time < time }

  lemma {:induction false} OneAtATime(points: seq<Point>, spacing: nat, time: int)
    requires Spaced(points, spacing) && spacing > 0
    ensures Count(points, At(time)) <= 1
  {
    if points != [] {
      var init, last := points[..|points|-1], points[|points|-1];
      assert Spaced(init, spacing);
      OneAtATime(init, spacing, time);
      if last.time == time {
        forall p | p in init
          ensures !At(time)(p)
        {
          var i :| 0 <= i < |init| && init[i] == p;
          assert points[i] == p;
        }
        CountPositive(init, At(time));
      }
    }
  }

  lemma EarlierByTheSpacing(points: seq<Point>, spacing: nat, p: Point, q: Point)
    requires Spaced(points, spacing) && p in points && q in points && p.time < q.time
    ensures p.time + spacing <= q.time
  {
    var i :| 0 <= i < |points| && points[i] == p;
    var j :| 0 <= j < |points| && points[j] == q;
  }

  lemma OneLess(points: seq<Point>, sel: Point -> bool, spacing: nat, newest: Point)
    requires Spaced(points, spacing) && spacing > 0
    requires newest in points && sel(newest) && forall p | p in points && sel(p) :: p.time <= newest.time
    ensures Count(points, sel) <= Count(points, Earlier(sel, newest.time)) + 1
  {
    var both := (p: Point) => sel(p) && p.time == newest.time;
    CountDisjoint(points, sel, Earlier(sel, newest.time), both);
    CountImplies(points, both, At(newest.time));
    OneAtATime(points, spacing, newest.time);
  }

  /** c samples take up c - 1 times the spacing. */
  lemma {:induction false} SpacedSamplesTakeTime(points: seq<Point>, spacing: nat, sel: Point -> bool, from: int,
      to: int)
    requires Spaced(points, spacing) && spacing > 0
    requires forall p | p in points && sel(p) :: from <= p.time <= to
    ensures Count(points, sel) > 0 ==> (Count(points, sel) - 1) * spacing <= to - from
    decreases Count(points, sel)
  {
    var c := Count(points, sel);
    if c > 0 {
      var newest := NewestSample(points, sel);
      OneLess(points, sel, spacing, newest);
      var before := Earlier(sel, newest.time);
      var b := Count(points, before);
      if b > 0 {
        FewerBefore(points, sel, newest);
        forall p | p in points && before(p)
          ensures from <= p.time <= newest.time - spacing
        {
          EarlierByTheSpacing(points, spacing, p, newest);
        }
        SpacedSamplesTakeTime(points, spacing, before, from, newest.time - spacing);
        assert b * spacing == (b - 1) * spacing + spacing;
        MorePeriods(c - 1, b, spacing);
      }
    }
  }

  lemma FewerBefore(points: seq<Point>, sel: Point -> bool, newest: Point)
    requires newest in points && sel(newest)
    ensures Count(points, Earlier(sel, newest.time)) < Count(points, sel)
  {
    CountImplies(points, Earlier(sel, newest.time), sel);
  }

  /** m samples of the last minute, and sixteen times as many before it, fit into ten minutes. */
  predicate Fit(m: nat, spacing: nat)
  {
    && m >= 1
    && (17 * m - 1) * spacing <= BASELINE_MINUTES * NS_PER_MINUTE
    && (16 * m - 1) * spacing < (BASELINE_MINUTES - CURRENT_MINUTES) * NS_PER_MINUTE
  }

  function Since(now: int, minutes: int): Point -> bool { (p: Point) => Within(p, now, minutes) }
  function OlderThan(now: int): Point -> bool
  {
    (p: Point) => Within(p, now, BASELINE_MINUTES) && !Within(p, now, CURRENT_MINUTES)
  }

  lemma WindowsOfDoubles(points: seq<Point>, now: int)
    requires forall p | p in points :: p.double.Some?
    ensures forall p | p in points ::
              && (Averaged(points, now)(p) <==> Within(p, now, CURRENT_MINUTES))
              && (InBaseline(now)(p) <==> Within(p, now, BASELINE_MINUTES))
    ensures Count(points, Averaged(points, now)) == Count(points, Since(now, CURRENT_MINUTES))
    ensures |Baseline(points, now)| == Count(points, Since(now, BASELINE_MINUTES))
    ensures Count(points, Since(now, BASELINE_MINUTES)) ==
              Count(points, Since(now, CURRENT_MINUTES)) + Count(points, OlderThan(now))
  {
    forall p | p in points
      ensures Averaged(points, now)(p) <==> Within(p, now, CURRENT_MINUTES)
    {
    }
    BaselineMoments(points, now, 0.0);
    CountImplies(points, Averaged(points, now), Since(now, CURRENT_MINUTES));
    CountImplies(points, InBaseline(now), Since(now, BASELINE_MINUTES));
    CountDisjoint(points, Since(now, BASELINE_MINUTES), Since(now, CURRENT_MINUTES), OlderThan(now));
  }

  lemma SpacedDeviationFits(points: seq<Point>, spacing: nat, now: int, m: nat)
    requires Spaced(points, spacing) && Deviates(points, now)
    requires m == Count(points, Averaged(points, now))
    ensures Fit(m, spacing)
  {
    DeviationCounts(points, now);
    WindowsOfDoubles(points, now);
    var all, idle := Count(points, Since(now, BASELINE_MINUTES)), Count(points, OlderThan(now));
    if spacing > 0 {
      var start := now - BASELINE_MINUTES * NS_PER_MINUTE;
      SpacedSamplesTakeTime(points, spacing, Since(now, BASELINE_MINUTES), start, now);
      SpacedSamplesTakeTime(points, spacing, OlderThan(now), start, now - CURRENT_MINUTES * NS_PER_MINUTE - 1);
      MorePeriods(17 * m - 1, all - 1, spacing);
      MorePeriods(16 * m - 1, idle - 1, spacing);
    }
  }

  /** When sample i of a burst of m after 16 m idle ones is taken, newest first. */
  function BurstTime(m: nat, spacing: nat, now: int, i: nat): int
    requires i < 17 * m
  {
    if i < m then now - i * spacing
    else now - BASELINE_MINUTES * NS_PER_MINUTE + (17 * m - 1 - i) * spacing
  }

  function SpacedBurst(m: nat, spacing: nat, now: int): seq<Point>
  {
    seq(17 * m, i requires 0 <= i < 17 * m =>
          Sample(BurstTime(m, spacing, now, i), if i < m then (17 * m) as real else 0.0))
  }

  lemma ByTheSpacing(a: nat, b: nat, spacing: nat)
    ensures (a + b) * spacing == a * spacing + b * spacing
    ensures b > 0 ==> b * spacing >= spacing
  {
  }

  lemma BurstIsSpaced(m: nat, spacing: nat, now: int, i: nat, j: nat)
    requires Fit(m, spacing) && i < j < 17 * m
    ensures BurstTime(m, spacing, now, j) + spacing <= BurstTime(m, spacing, now, i)
  {
    if j < m || i >= m {
      var d := j - i;
      if j < m {
        ByTheSpacing(i, d, spacing);
      } else {
        ByTheSpacing(17 * m - 1 - j, d, spacing);
      }
    } else {
      ByTheSpacing(17 * m - 1 - j, i, spacing);
      ByTheSpacing(17 * m - 1 - j + i, 1, spacing);
      MorePeriods(17 * m - 1 - j + i + 1, 17 * m - 1, spacing);
    }
  }

  lemma BurstIsInWindow(m: nat, spacing: nat, now: int, i: nat)
    requires Fit(m, spacing) && i < 17 * m
    ensures var p := Sample(BurstTime(m, spacing, now, i), 0.0);
            Within(p, now, BASELINE_MINUTES) && (Within(p, now, CURRENT_MINUTES) <==> i < m)
  {
    if i < m {
      MorePeriods(0, i, spacing);
      MorePeriods(i, m - 1, spacing);
      ByTheSpacing(16 * m, m - 1, spacing);
      MorePeriods(m - 1, 16 * m, spacing);
      TenthOfTheTime(m, spacing);
    } else {
      MorePeriods(0, 17 * m - 1 - i, spacing);
      MorePeriods(17 * m - 1 - i, 16 * m - 1, spacing);
    }
  }

  lemma TenthOfTheTime(m: nat, spacing: nat)
    requires Fit(m, spacing)
    ensures (m - 1) * spacing <= CURRENT_MINUTES * NS_PER_MINUTE
  {
    var x := (m - 1) * spacing;
    assert (17 * m - 1) * spacing == 17 * x + 16 * spacing;
  }

  lemma SpacedBurstDeviates(m: nat, spacing: nat, now: int)
    requires Fit(m, spacing)
    ensures var points := SpacedBurst(m, spacing, now);
            Spaced(points, spacing) && Count(points, Averaged(points, now)) == m && Deviates(points, now)
  {
    var points := SpacedBurst(m, spacing, now);
    forall i, j | 0 <= i < j < |points|
      ensures points[j].time + spacing <= points[i].time
    {
      BurstIsSpaced(m, spacing, now, i, j);
    }
    WindowsOfDoubles(points, now);
    forall i | 0 <= i < |points|
      ensures InBaseline(now)(points[i]) && (Averaged(points, now)(points[i]) <==> i < m)
    {
      assert points[i] in points;
      BurstIsInWindow(m, spacing, now, i);
    }
    BurstCounts(points, now, m);
    TwoLevelsDeviate(points, now, m, 17 * m);
  }

  lemma BurstCounts(points: seq<Point>, now: int, m: nat)
    requires m <= |points|
    requires forall i | 0 <= i < |points| ::
               && InBaseline(now)(points[i]) && (Averaged(points, now)(points[i]) <==> i < m)
               && points[i].double == Some(if i < m then |points| as real else 0.0)
    ensures TwoLevels(points, now, m, |points|)
  {
    var sel := Averaged(points, now);
    var burst, idle := points[..m], points[m..];
    assert points == burst + idle;
    CountConcat(burst, idle, sel);
    CountAll(burst, sel);
    CountPositive(idle, sel);
    CountAll(points, InBaseline(now));
  }

  /**
   A gauge whose samples are at least this far apart, with any jitter and any gaps, can be
   reported with m samples in the last minute exactly when these and sixteen times as many older
   ones fit into the ten minutes.
   */
  lemma SpacedGaugeExact(m: nat, spacing: nat, now: int)
    ensures (exists points ::
               Spaced(points, spacing) && Count(points, Averaged(points, now)) == m && Deviates(points, now))
       <==> Fit(m, spacing)
  {
    forall points | Spaced(points, spacing) && Count(points, Averaged(points, now)) == m && Deviates(points, now)
      ensures Fit(m, spacing)
    {
      SpacedDeviationFits(points, spacing, now, m);
    }
    if Fit(m, spacing) {
      SpacedBurstDeviates(m, spacing, now);
    }
  }

  lemma OneOrTwoFit(m: nat, spacing: nat)
    requires 11_500_000_000 <= spacing <= 17_000_000_000
    ensures Fit(m, spacing) <==> m == 1 || m == 2
  {
    if m >= 3 {
      MorePeriods(47, 16 * m - 1, spacing);
    }
  }

  /**
   The container gauges of the shipped set-up are sampled every 15 s. As long as no two stored
   samples are closer than 11.5 s, a gauge can be reported exactly with one or two samples in
   the last minute, where four are due.
   */
  lemma ShippedGaugeExact(m: nat, spacing: nat, now: int)
    requires 11_500_000_000 <= spacing <= 17_000_000_000
    ensures (exists points ::
               Spaced(points, spacing) && Count(points, Averaged(points, now)) == m && Deviates(points, now))
       <==> m == 1 || m == 2
  {
    SpacedGaugeExact(m, spacing, now);
    OneOrTwoFit(m, spacing);
  }
}
