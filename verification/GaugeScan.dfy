/** Stage B of a scan: the z-score engine over the resource gauges of every service. */
module GaugeScan {
  import opened Prelude
  import opened Statistics
  import opened Red
  import opened Scan
  import opened Telemetry
  import opened ResourceMetrics

  type Series = (string, string)

  function Round3(x: real): (r: real)
    ensures Near(r, x, 0.0005)
  {
    Nearest(x * 1000.0) as real / 1000.0
  }

  lemma RoundsToThousandths(x: real, n: int)
    requires x * 1000.0 - 0.5 < n as real < x * 1000.0 + 0.5
    ensures Round3(x) == n as real / 1000.0
  {
    NearestIsUnique(x * 1000.0, n);
  }

  /** The detection for one series, if its current mean passes the thresholds. */
  function GaugeDetection(series: Series, points: seq<Point>, now: int, stddev: real): Option<Detection>
    requires IsStddev(points, now, stddev)
  {
    if CurrentMean(points, now).None? then None
    else
      var c := CurrentMean(points, now).value;
      var stats := ComputeZScore(Baseline(points, now), c, stddev);
      if stats.None? || !Passes(stats.value.0, stats.value.1, c) then None
      else
        var (z, mean, std) := stats.value;
        var direction := if z > 0.0 then Spike else Drop;
        Some(Detection(series.0, series.1, Round3(z), Round4(mean), Round4(std), Round4(c), direction))
  }

  /** The sign of a quotient by a positive number. */
  lemma QuotientSign(x: real, y: real)
    requires y > 0.0
    ensures Divide(x, y) > 0.0 <==> x > 0.0
  {
    var q := Divide(x, y);
    assert y * q == x;
    assert q > 0.0 ==> y * q > 0.0;
    assert q <= 0.0 ==> y * -q >= 0.0;
  }

  /** A report quotes the mean of the minute and of the baseline to within rounding, and says which is larger. */
  lemma GaugeQuotes(series: Series, points: seq<Point>, now: int, stddev: real)
    requires IsStddev(points, now, stddev) && GaugeDetection(series, points, now, stddev).Some?
    ensures CurrentMean(points, now).Some? && Baseline(points, now) != []
    ensures var d := GaugeDetection(series, points, now, stddev).value;
            var c, mean := CurrentMean(points, now).value, Mean(Baseline(points, now));
            && Near(d.current, c, 0.00005) && Near(d.baselineMean, mean, 0.00005)
            && Near(d.baselineStddev, stddev, 0.00005)
            && (exists z :: Times(z, stddev) == c - mean && Near(d.z, z, 0.0005))
            && (d.direction == Spike <==> c > mean)
  {
    var z := Divide(CurrentMean(points, now).value - Mean(Baseline(points, now)), stddev);
    assert Times(z, stddev) == Times(stddev, z);
    QuotientSign(CurrentMean(points, now).value - Mean(Baseline(points, now)), stddev);
  }

  /** The score and both deltas pass, with the division by the deviation cleared. */
  predicate Passing(c: real, mean: real, stddev: real)
  {
    && stddev > 0.0
    && Abs(c - mean) >= 4.0 * stddev && Abs(c - mean) >= 5.0 && Abs(c - mean) >= 0.25 * Abs(mean)
  }

  lemma ScorePasses(d: real, stddev: real, z: real)
    requires stddev > 0.0 && Times(stddev, z) == d
    ensures Abs(z) >= 4.0 <==> Abs(d) >= 4.0 * stddev
  {
    if z >= 4.0 {
      assert stddev * (z - 4.0) >= 0.0;
    } else if z <= -4.0 {
      assert stddev * (-4.0 - z) >= 0.0;
    } else {
      PositiveProduct(stddev, 4.0 - z);
      PositiveProduct(stddev, z + 4.0);
    }
  }

  /** A series is reported exactly when its change passes; then its baseline has at least 17 samples. */
  lemma GaugeFiresExactly(series: Series, points: seq<Point>, now: int, stddev: real)
    requires IsStddev(points, now, stddev)
    ensures GaugeDetection(series, points, now, stddev).Some? <==> MetricFires(points, now, stddev)
    ensures GaugeDetection(series, points, now, stddev).Some? <==>
              && CurrentMean(points, now).Some? && |Baseline(points, now)| >= 5
              && Passing(CurrentMean(points, now).value, Mean(Baseline(points, now)), stddev)
    ensures GaugeDetection(series, points, now, stddev).Some? ==>
              GaugeDetection(series, points, now, stddev).value.Key() == series && |Baseline(points, now)| >= 17
  {
    FiresOnlyWithSeventeenTimesTheSamples(points, now, stddev);
    if CurrentMean(points, now).Some? && |Baseline(points, now)| >= 5 && stddev != 0.0 {
      var d := CurrentMean(points, now).value - Mean(Baseline(points, now));
      ScorePasses(d, stddev, Divide(d, stddev));
    }
  }

  /** An allow-listed gauge of a named service that is not ignored, with a point since ten minutes ago. */
  ghost predicate Candidate(s: Series, points: seq<Point>, now: int, ignored: set<string>)
  {
    && s.1 in METRIC_ALLOWLIST && s.0 != "" && s.0 !in ignored
    && exists p :: p in points && p.gauge && p.time >= now - BASELINE_MINUTES * NS_PER_MINUTE
  }

  /** A list of the candidate series, each once, in any order. */
  ghost predicate ListsCandidates(candidates: seq<Series>, points: Series -> seq<Point>, now: int, ignored: set<string>)
  {
    Distinct(candidates) && forall s :: s in candidates <==> Candidate(s, points(s), now, ignored)
  }

  /** The detections of the candidate series, in their order. */
  function GaugeDetections(candidates: seq<Series>, points: Series -> seq<Point>, now: int,
      stddev: Series -> real): seq<Detection>
    requires forall s | s in candidates :: IsStddev(points(s), now, stddev(s))
  {
    if candidates == [] then []
    else
      var init, s := candidates[..|candidates|-1], candidates[|candidates|-1];
      var r := GaugeDetection(s, points(s), now, stddev(s));
      GaugeDetections(init, points, now, stddev) + if r.Some? then [r.value] else []
  }

  ghost predicate SeriesFires(points: seq<Point>, now: int, stddev: real)
  {
    IsStddev(points, now, stddev) && MetricFires(points, now, stddev)
  }

  /** Every candidate series that fires is reported, and no other one. */
  lemma {:induction false} GaugeDetectionsAre(candidates: seq<Series>, points: Series -> seq<Point>, now: int,
      stddev: Series -> real)
    requires forall s | s in candidates :: s.1 in METRIC_ALLOWLIST
    requires forall s | s in candidates :: IsStddev(points(s), now, stddev(s))
    ensures var detected := GaugeDetections(candidates, points, now, stddev);
            && FromGauges(detected)
            && (forall s | s in candidates :: Reported(detected, s) <==> SeriesFires(points(s), now, stddev(s)))
            && (forall d | d in detected :: d.Key() in candidates)
            && (Distinct(candidates) ==> UniqueKeys(detected))
  {
    if candidates != [] {
      var init, s := candidates[..|candidates|-1], candidates[|candidates|-1];
      assert candidates == init + [s];
      GaugeDetectionsAre(init, points, now, stddev);
      GaugeFiresExactly(s, points(s), now, stddev(s));
      Extended(GaugeDetections(init, points, now, stddev), GaugeDetection(s, points(s), now, stddev(s)),
               GaugeDetections(candidates, points, now, stddev), init, s);
    }
  }

  /** stddev is math.sqrt of the variance of each baseline. */
  method ScanGauges(candidates: seq<Series>, points: Series -> seq<Point>, now: int, stddev: Series -> real)
    returns (detected: seq<Detection>)
    requires forall s | s in candidates :: s.1 in METRIC_ALLOWLIST
    requires forall s | s in candidates :: IsStddev(points(s), now, stddev(s))
    ensures detected == GaugeDetections(candidates, points, now, stddev)
    ensures FromGauges(detected)
    ensures forall s | s in candidates :: Reported(detected, s) <==> SeriesFires(points(s), now, stddev(s))
    ensures forall d | d in detected :: d.Key() in candidates
    ensures Distinct(candidates) ==> UniqueKeys(detected)
  {
    detected := [];
    for i := 0 to |candidates|
      invariant detected == GaugeDetections(candidates[..i], points, now, stddev)
    {
      assert candidates[..i+1][..i] == candidates[..i];
      var r := GaugeDetection(candidates[i], points(candidates[i]), now, stddev(candidates[i]));
      if r.Some? {
        detected := detected + [r.value];
      }
    }
    assert candidates[..|candidates|] == candidates;
    GaugeDetectionsAre(candidates, points, now, stddev);
  }

  lemma Extended(before: seq<Detection>, r: Option<Detection>, after: seq<Detection>, earlier: seq<Series>, s: Series)
    requires after == before + if r.Some? then [r.value] else []
    requires r.Some? ==> r.value.Key() == s
    requires forall d | d in before :: d.Key() in earlier
    ensures forall k :: Reported(after, k) <==> Reported(before, k) || (r.Some? && k == s)
    ensures s !in earlier && UniqueKeys(before) ==> UniqueKeys(after)
  {
    if r.Some? {
      assert r.value in after;
      forall k | Reported(before, k)
        ensures Reported(after, k)
      {
        var d :| d in before && d.Key() == k;
        assert d in after;
      }
    }
  }

  /** Everything that a scan detects. */
  ghost function Detections(spans: seq<Span>, points: Series -> seq<Point>, now: int, p95: seq<Span> -> real,
                            order: seq<string>, candidates: seq<Series>, stddev: Series -> real): seq<Detection>
    requires forall s | s in candidates :: IsStddev(points(s), now, stddev(s))
  {
    Merged(JudgeAll(CurrentRows(spans, now, p95), BaselineRows(spans, now, p95), order),
           GaugeDetections(candidates, points, now, stddev))
  }
}
