/**
 The RED detectors: silence, error rate and p95 latency of one service, judged against the
 medians of its own minutes of history.
 */
module Red {
  import opened Prelude
  import opened Statistics

  const RED_CURRENT_SECONDS := 120
  const RED_BASELINE_MINUTES := 15
  const RED_MIN_REQUESTS := 5
  const RED_MIN_BASELINE_BUCKETS := 5
  const ERR_MIN_RATE := 0.10
  const ERR_MIN_DELTA := 0.10
  const ERR_STD_FLOOR := 0.02
  const LAT_MIN_RATIO := 2.0
  const LAT_MIN_DELTA_MS := 100.0
  const SILENCE_MIN_EXPECTED := 6.0
  const RED_Z_MIN := 3.0
  const Z_CAP := 50.0
  const MAD_SCALE := 1.4826

  const SILENT := "span.service_silent"
  const ERROR_RATE := "span.error_rate"
  const LATENCY_P95 := "span.latency_p95"

  datatype Direction = Spike | Drop

  datatype Detection = Detection(service: string, metric: string, z: real, baselineMean: real,
                                 baselineStddev: real, current: real, direction: Direction)
  {
    function Key(): (string, string) { (service, metric) }
  }

  lemma QuotientAtLeast(x: real, y: real, c: real)
    requires y > 0.0
    ensures x / y >= c <==> x >= c * y
  {
    assert x == (x / y) * y;
    if x / y >= c {
      assert (x / y - c) * y >= 0.0;
    } else {
      assert (c - x / y) * y > 0.0;
    }
  }

  /** How many spreads an excess amounts to. */
  function Score(excess: real, spread: real): (z: real)
    requires spread > 0.0
    ensures Times(z, spread) == excess
    ensures z >= RED_Z_MIN <==> excess >= RED_Z_MIN * spread
  {
    QuotientAtLeast(excess, spread, RED_Z_MIN);
    excess / spread
  }

  /** The requests one service handled in one time window. */
  datatype RedWindow = RedWindow(requests: nat, errors: nat, p95: Option<real>)
  {
    function ErrorRate(): (rate: real)
      ensures rate >= 0.0 && (rate == 0.0 <==> requests == 0 || errors == 0)
      ensures Times(rate, requests as real) == if requests == 0 then 0.0 else errors as real
      ensures requests > 0 ==> (rate >= ERR_MIN_RATE <==> 10 * errors >= requests)
    {
      if requests == 0 then 0.0
      else
        QuotientAtLeast(errors as real, requests as real, ERR_MIN_RATE);
        QuotientAtLeast(errors as real, requests as real, 0.0);
        errors as real / requests as real
    }
  }

  /** round(x) of a scaled value: the nearest integer, ties to the even one. */
  function Nearest(x: real): (n: int)
    ensures x - 0.5 <= n as real <= x + 0.5
    ensures n as real in {x - 0.5, x + 0.5} ==> n % 2 == 0
  {
    var below := x.Floor;
    var rest := x - below as real;
    if rest < 0.5 || (rest == 0.5 && below % 2 == 0) then below else below + 1
  }

  /** Two numbers no farther apart than half a unit of the last decimal. */
  predicate Near(x: real, y: real, half: real) { y - half <= x <= y + half }

  function Round2(x: real): (r: real)
    ensures Near(r, x, 0.005)
  {
    Nearest(x * 100.0) as real / 100.0
  }

  function Round4(x: real): (r: real)
    ensures Near(r, x, 0.00005)
  {
    Nearest(x * 10000.0) as real / 10000.0
  }

  /** A number of hundredths, or of ten thousandths, that is nearer than half of one is what rounding gives. */
  lemma RoundsToNearest(x: real, n: int)
    ensures x * 100.0 - 0.5 < n as real < x * 100.0 + 0.5 ==> Round2(x) == n as real / 100.0
    ensures x * 10000.0 - 0.5 < n as real < x * 10000.0 + 0.5 ==> Round4(x) == n as real / 10000.0
  {
    NearestIsUnique(x * 100.0, n);
    NearestIsUnique(x * 10000.0, n);
  }

  lemma NearestIsUnique(x: real, n: int)
    ensures x - 0.5 < n as real < x + 0.5 ==> Nearest(x) == n
  {
  }

  function Cap(z: real): (c: real)
    ensures -Z_CAP <= c <= Z_CAP
    ensures Abs(z) <= Z_CAP ==> Near(c, z, 0.005)
    ensures z >= Z_CAP ==> c == Z_CAP
    ensures z >= RED_Z_MIN ==> c >= RED_Z_MIN
  {
    Round2(MaxReal(-Z_CAP, MinReal(Z_CAP, z)))
  }

  /** Error rates of the minutes that had traffic. */
  function Busy(baseline: seq<RedWindow>): seq<real>
  {
    if baseline == [] then []
    else
      var init, last := Busy(baseline[..|baseline|-1]), baseline[|baseline|-1];
      if last.requests != 0 then init + [last.ErrorRate()] else init
  }

  /** Latencies of the minutes that have one. */
  function Latencies(baseline: seq<RedWindow>): seq<real>
  {
    if baseline == [] then []
    else
      var init, last := Latencies(baseline[..|baseline|-1]), baseline[|baseline|-1];
      if last.p95.Some? then init + [last.p95.value] else init
  }

  function TotalRequests(baseline: seq<RedWindow>): nat
  {
    if baseline == [] then 0 else TotalRequests(baseline[..|baseline|-1]) + baseline[|baseline|-1].requests
  }

  /** The greater of 1.4826 median deviations and two points of error rate. */
  function ErrorSpread(busy: seq<real>): (std: real)
    requires busy != []
    ensures std >= 0.02 && std >= 1.4826 * MedianDeviation(busy)
        && (std == 0.02 || std == 1.4826 * MedianDeviation(busy))
  {
    MaxReal(MedianDeviation(busy) * MAD_SCALE, ERR_STD_FLOOR)
  }

  function ErrorDetections(service: string, current: RedWindow, baseline: seq<RedWindow>): seq<Detection>
  {
    var cur, busy := current.ErrorRate(), Busy(baseline);
    if |busy| < RED_MIN_BASELINE_BUCKETS then []
    else
      var mean, std := Median(busy), ErrorSpread(busy);
      var z := Score(cur - mean, std);
      if z >= RED_Z_MIN && cur >= ERR_MIN_RATE && cur - mean >= ERR_MIN_DELTA
      then [Detection(service, ERROR_RATE, Cap(z), Round4(mean), Round4(std), Round4(cur), Spike)]
      else []
  }

  function Largest(a: real, b: real, c: real): real { MaxReal(MaxReal(a, b), c) }

  /** The greatest of 1.4826 median deviations, a tenth of the median, and 5 ms. */
  function LatencySpread(hist: seq<real>): (spread: real)
    requires hist != []
    ensures spread >= 5.0 && spread >= 0.1 * Median(hist) && spread >= 1.4826 * MedianDeviation(hist)
    ensures spread == 5.0 || spread == 0.1 * Median(hist) || spread == 1.4826 * MedianDeviation(hist)
  {
    Largest(MedianDeviation(hist) * MAD_SCALE, 0.1 * Median(hist), 5.0)
  }

  function LatencyDetections(service: string, current: RedWindow, baseline: seq<RedWindow>): seq<Detection>
  {
    var hist := Latencies(baseline);
    if current.p95.None? || |hist| < RED_MIN_BASELINE_BUCKETS then []
    else
      var cur, med, spread := current.p95.value, Median(hist), LatencySpread(hist);
      var z := Score(cur - med, spread);
      if z >= RED_Z_MIN && cur >= med * LAT_MIN_RATIO && cur - med >= LAT_MIN_DELTA_MS
      then [Detection(service, LATENCY_P95, Cap(z), Round2(med), Round2(spread), Round2(cur), Spike)]
      else []
  }

  predicate NoRequests(current: Option<RedWindow>) { current.None? || current.value.requests == 0 }

  function PerMinute(baseline: seq<RedWindow>): real
    requires baseline != []
  {
    TotalRequests(baseline) as real / |baseline| as real
  }

  /** The history predicts at least six requests in the current window. */
  predicate ExpectsTraffic(baseline: seq<RedWindow>)
    requires baseline != []
  {
    PerMinute(baseline) * RED_CURRENT_SECONDS as real / 60.0 >= SILENCE_MIN_EXPECTED
  }

  function EvaluateRed(service: string, current: Option<RedWindow>, baseline: seq<RedWindow>): seq<Detection>
  {
    if |baseline| < RED_MIN_BASELINE_BUCKETS then []
    else if NoRequests(current) && ExpectsTraffic(baseline)
    then [Detection(service, SILENT, Z_CAP, Round2(PerMinute(baseline)), 0.0, 0.0, Drop)]
    else if current.None? || current.value.requests < RED_MIN_REQUESTS then []
    else ErrorDetections(service, current.value, baseline) + LatencyDetections(service, current.value, baseline)
  }

  // ---- what fires -----------------------------------------------------------------------

  predicate Fires(detected: seq<Detection>, metric: string)
  {
    exists d :: d in detected && d.metric == metric
  }

  /** A reported z of the span detectors for errors and latency is between 3 and 50. */
  predicate ZInRange(d: Detection)
  {
    d.metric == ERROR_RATE || d.metric == LATENCY_P95 ==> RED_Z_MIN <= d.z <= Z_CAP
  }

  /** A reported z is the excess in spreads, to within rounding, and at most 50. */
  predicate CountsSpreads(z: real, excess: real, spread: real)
  {
    if excess >= 50.0 * spread then z == 50.0
    else Times(z - 0.005, spread) <= excess <= Times(z + 0.005, spread)
  }

  /** What a detection says of the reading, the normal level, the spread and the excess, to within rounding. */
  predicate Quotes(d: Detection, current: real, normal: real, spread: real, half: real)
  {
    && Near(d.current, current, half) && Near(d.baselineMean, normal, half) && Near(d.baselineStddev, spread, half)
    && d.direction == Spike && CountsSpreads(d.z, current - normal, spread)
  }

  lemma TimesGrows(x: real, y: real, factor: real)
    requires x <= y && factor > 0.0
    ensures Times(x, factor) <= Times(y, factor)
  {
    assert (y - x) * factor >= 0.0;
  }

  lemma CappedScore(excess: real, spread: real)
    requires spread > 0.0 && excess >= RED_Z_MIN * spread
    ensures CountsSpreads(Cap(Score(excess, spread)), excess, spread)
  {
    var z := Score(excess, spread);
    QuotientAtLeast(excess, spread, Z_CAP);
    if z < Z_CAP {
      TimesGrows(Cap(z) - 0.005, z, spread);
      TimesGrows(z, Cap(z) + 0.005, spread);
    }
  }

  /** The error detector, with the division by the spread cleared. */
  lemma ErrorVerdict(service: string, current: RedWindow, baseline: seq<RedWindow>)
    ensures var cur, busy, out := current.ErrorRate(), Busy(baseline), ErrorDetections(service, current, baseline);
            && |out| <= 1
            && (out != [] <==>
                && |busy| >= RED_MIN_BASELINE_BUCKETS
                && cur - Median(busy) >= RED_Z_MIN * ErrorSpread(busy)
                && cur >= ERR_MIN_RATE && cur - Median(busy) >= ERR_MIN_DELTA)
            && forall d | d in out :: d.service == service && d.metric == ERROR_RATE && ZInRange(d)
  {
  }

  /** The latency detector, with the division by the spread cleared. */
  lemma LatencyVerdict(service: string, current: RedWindow, baseline: seq<RedWindow>)
    ensures var hist, out := Latencies(baseline), LatencyDetections(service, current, baseline);
            && |out| <= 1
            && (out != [] <==>
                && current.p95.Some? && |hist| >= RED_MIN_BASELINE_BUCKETS
                && current.p95.value - Median(hist) >= RED_Z_MIN * LatencySpread(hist)
                && current.p95.value >= Median(hist) * LAT_MIN_RATIO
                && current.p95.value - Median(hist) >= LAT_MIN_DELTA_MS)
            && forall d | d in out :: d.service == service && d.metric == LATENCY_P95 && ZInRange(d)
  {
  }

  /** The detections quote the reading, the median, the spread and the excess in spreads, to within rounding. */
  lemma {:induction false} VerdictsQuote(service: string, current: RedWindow, baseline: seq<RedWindow>)
    ensures forall d | d in ErrorDetections(service, current, baseline) ::
              var busy := Busy(baseline);
              busy != [] && Quotes(d, current.ErrorRate(), Median(busy), ErrorSpread(busy), 0.00005)
    ensures forall d | d in LatencyDetections(service, current, baseline) ::
              var hist := Latencies(baseline);
              hist != [] && current.p95.Some? && Quotes(d, current.p95.value, Median(hist), LatencySpread(hist), 0.005)
  {
    var busy, hist := Busy(baseline), Latencies(baseline);
    if ErrorDetections(service, current, baseline) != [] {
      CappedScore(current.ErrorRate() - Median(busy), ErrorSpread(busy));
    }
    if LatencyDetections(service, current, baseline) != [] {
      CappedScore(current.p95.value - Median(hist), LatencySpread(hist));
    }
  }

  /** The branches of EvaluateRed: silence, or the two detectors side by side, or nothing. */
  lemma Branches(service: string, current: Option<RedWindow>, baseline: seq<RedWindow>)
    ensures var out := EvaluateRed(service, current, baseline);
            if |baseline| >= RED_MIN_BASELINE_BUCKETS && NoRequests(current)
                && TotalRequests(baseline) >= 3 * |baseline|
            then |out| == 1 && out[0].Key() == (service, SILENT) && out[0].direction == Drop
                 && out[0].z == 50.0 && out[0].current == 0.0 && out[0].baselineStddev == 0.0
                 && (exists perMinute :: perMinute * |baseline| as real == TotalRequests(baseline) as real
                       && Near(out[0].baselineMean, perMinute, 0.005))
            else if |baseline| >= RED_MIN_BASELINE_BUCKETS && current.Some?
                && current.value.requests >= RED_MIN_REQUESTS
            then out == ErrorDetections(service, current.value, baseline)
                + LatencyDetections(service, current.value, baseline)
            else out == []
  {
    if |baseline| > 0 {
      var total, n := TotalRequests(baseline) as real, |baseline| as real;
      QuotientAtLeast(total, n, 3.0);
      assert PerMinute(baseline) * n == total;
      assert total / n * RED_CURRENT_SECONDS as real / 60.0 == 2.0 * (total / n);
    }
  }

  predicate WellFormed(service: string, d: Detection)
  {
    d.service == service && ZInRange(d) && d.metric in {SILENT, ERROR_RATE, LATENCY_P95}
  }

  /** A service gets at most one detection per metric, under its own name, and z in range. */
  lemma EvaluateRedIsWellFormed(service: string, current: Option<RedWindow>, baseline: seq<RedWindow>)
    ensures forall d | d in EvaluateRed(service, current, baseline) :: WellFormed(service, d)
    ensures var out := EvaluateRed(service, current, baseline);
            |out| <= 2 && (|out| == 2 ==> out[0].metric != out[1].metric)
  {
    Branches(service, current, baseline);
    if current.Some? {
      ErrorVerdict(service, current.value, baseline);
      LatencyVerdict(service, current.value, baseline);
      SideBySide(service, ErrorDetections(service, current.value, baseline),
          LatencyDetections(service, current.value, baseline));
    }
  }

  lemma SideBySide(service: string, errors: seq<Detection>, latencies: seq<Detection>)
    requires |errors| <= 1 && forall d | d in errors :: WellFormed(service, d) && d.metric == ERROR_RATE
    requires |latencies| <= 1 && forall d | d in latencies :: WellFormed(service, d) && d.metric == LATENCY_P95
    ensures forall d | d in errors + latencies :: WellFormed(service, d)
    ensures var out := errors + latencies; |out| <= 2 && (|out| == 2 ==> out[0].metric != out[1].metric)
  {
    assert |errors + latencies| == 2 ==> (errors + latencies)[0] in errors && (errors + latencies)[1] in latencies;
  }

  /** Silence is reported exactly when a learned service that handled 3 a minute handles none. */
  lemma SilenceExact(service: string, current: Option<RedWindow>, baseline: seq<RedWindow>)
    ensures Fires(EvaluateRed(service, current, baseline), SILENT) <==>
              && |baseline| >= RED_MIN_BASELINE_BUCKETS
              && NoRequests(current)
              && TotalRequests(baseline) >= 3 * |baseline|
  {
    Branches(service, current, baseline);
    if current.Some? {
      ErrorVerdict(service, current.value, baseline);
      LatencyVerdict(service, current.value, baseline);
    }
  }

  /** A service that is judged for errors and latency fires exactly as its detectors do. */
  lemma JudgedFires(service: string, current: RedWindow, baseline: seq<RedWindow>)
    requires |baseline| >= RED_MIN_BASELINE_BUCKETS && current.requests >= RED_MIN_REQUESTS
    ensures var out := EvaluateRed(service, Some(current), baseline);
            && (Fires(out, ERROR_RATE) <==> ErrorDetections(service, current, baseline) != [])
            && (Fires(out, LATENCY_P95) <==> LatencyDetections(service, current, baseline) != [])
  {
    Branches(service, Some(current), baseline);
    ErrorVerdict(service, current, baseline);
    LatencyVerdict(service, current, baseline);
    var e, l := ErrorDetections(service, current, baseline), LatencyDetections(service, current, baseline);
    if e != [] {
      assert e[0] in e + l;
    }
    if l != [] {
      assert l[0] in e + l;
    }
  }

  // ---- robustness to bad minutes --------------------------------------------------------

  lemma {:induction false} BusyAndLatenciesAreFew(baseline: seq<RedWindow>)
    ensures |Busy(baseline)| <= |baseline| && |Latencies(baseline)| <= |baseline|
    ensures |Busy(baseline)| == Count(baseline, HadTraffic)
    ensures Count(Busy(baseline), Outside(0.0, 0.0)) == Count(baseline, HadErrors)
  {
    if baseline != [] {
      BusyAndLatenciesAreFew(baseline[..|baseline|-1]);
      var last, busy := baseline[|baseline|-1], Busy(baseline);
      if last.requests != 0 {
        assert busy[..|busy|-1] == Busy(baseline[..|baseline|-1]);
      }
    }
  }

  predicate HadTraffic(w: RedWindow) { w.requests != 0 }
  predicate HadErrors(w: RedWindow) { w.requests != 0 && w.errors > 0 }

  lemma TypicalMinutes(hist: seq<real>, lo: real, hi: real)
    requires hist != [] && lo <= hi && 2 * Count(hist, Outside(lo, hi)) < |hist|
    ensures lo <= Median(hist) <= hi
    ensures LatencySpread(hist) <= Largest((hi - lo) * MAD_SCALE, 0.1 * hi, 5.0)
  {
    MinorityCannotMove(hist, lo, hi);
  }

  /** The slowest p95 that robustly typical minutes in [lo, hi] can excuse. */
  function AlwaysFiresFrom(lo: real, hi: real): real
  {
    Largest(2.0 * hi, hi + 100.0, hi + 3.0 * Largest((hi - lo) * MAD_SCALE, 0.1 * hi, 5.0))
  }

  lemma LatencyThresholds(cur: real, med: real, spread: real, lo: real, hi: real)
    requires lo <= med <= hi && spread <= Largest((hi - lo) * MAD_SCALE, 0.1 * hi, 5.0)
    ensures cur >= AlwaysFiresFrom(lo, hi) ==>
              cur - med >= RED_Z_MIN * spread && cur >= med * LAT_MIN_RATIO && cur - med >= LAT_MIN_DELTA_MS
    ensures cur < MaxReal(2.0 * lo, lo + 100.0) ==> !(cur >= med * LAT_MIN_RATIO && cur - med >= LAT_MIN_DELTA_MS)
  {
  }

  /** When the latency detector fires, in terms of the median and the spread. */
  lemma LatencyFires(service: string, current: RedWindow, baseline: seq<RedWindow>, med: real, spread: real)
    requires current.requests >= RED_MIN_REQUESTS && current.p95.Some?
    requires |Latencies(baseline)| >= RED_MIN_BASELINE_BUCKETS
    requires med == Median(Latencies(baseline)) && spread == LatencySpread(Latencies(baseline))
    ensures Fires(EvaluateRed(service, Some(current), baseline), LATENCY_P95) <==>
              && current.p95.value - med >= RED_Z_MIN * spread
              && current.p95.value >= med * LAT_MIN_RATIO
              && current.p95.value - med >= LAT_MIN_DELTA_MS
  {
    BusyAndLatenciesAreFew(baseline);
    JudgedFires(service, current, baseline);
    LatencyVerdict(service, current, baseline);
  }

  /**
   While fewer than half of at least five historic latencies lie outside [lo, hi], the latency
   detector fires from a bound computed from lo and hi on, and never fires below another one,
   however bad the other minutes were.
   */
  lemma LatencyRobust(service: string, current: RedWindow, baseline: seq<RedWindow>, lo: real, hi: real)
    requires current.requests >= RED_MIN_REQUESTS && current.p95.Some? && lo <= hi
    requires |Latencies(baseline)| >= RED_MIN_BASELINE_BUCKETS
    requires 2 * Count(Latencies(baseline), Outside(lo, hi)) < |Latencies(baseline)|
    ensures var fires := Fires(EvaluateRed(service, Some(current), baseline), LATENCY_P95);
            && (current.p95.value >= AlwaysFiresFrom(lo, hi) ==> fires)
            && (current.p95.value < MaxReal(2.0 * lo, lo + 100.0) ==> !fires)
  {
    var med, spread := Median(Latencies(baseline)), LatencySpread(Latencies(baseline));
    TypicalMinutes(Latencies(baseline), lo, hi);
    LatencyFires(service, current, baseline, med, spread);
    LatencyThresholds(current.p95.value, med, spread, lo, hi);
  }

  lemma CleanBaseline(busy: seq<real>)
    requires busy != [] && 2 * Count(busy, Outside(0.0, 0.0)) < |busy|
    ensures Median(busy) == 0.0 && ErrorSpread(busy) == ERR_STD_FLOOR
  {
    MinorityCannotMove(busy, 0.0, 0.0);
  }

  /**
   While fewer than half of at least five busy minutes had any error, the error detector fires
   exactly when at least a tenth of the current requests failed, however bad those minutes were.
   */
  lemma ErrorRateExact(service: string, current: RedWindow, baseline: seq<RedWindow>)
    requires current.requests >= RED_MIN_REQUESTS
    requires Count(baseline, HadTraffic) >= RED_MIN_BASELINE_BUCKETS
    requires 2 * Count(baseline, HadErrors) < Count(baseline, HadTraffic)
    ensures Fires(EvaluateRed(service, Some(current), baseline), ERROR_RATE) <==>
              10 * current.errors >= current.requests
  {
    BusyAndLatenciesAreFew(baseline);
    CleanBaseline(Busy(baseline));
    JudgedFires(service, current, baseline);
    ErrorVerdict(service, current, baseline);
  }

  lemma CapReachesEight(z: real)
    ensures Cap(z) >= 8.0 <==> z >= 7.995
  {
    var x := MaxReal(-Z_CAP, MinReal(Z_CAP, z)) * 100.0;
    assert x >= 799.5 ==> Nearest(x) >= 799;
  }

  /** Without a spread in the history the floor of two points is the unit: each point of error rate is half a z. */
  lemma ScoreOfRate(current: RedWindow, z: real)
    requires current.requests > 0 && Times(z, ERR_STD_FLOOR) == current.ErrorRate()
    ensures z >= 7.995 <==> 10000 * current.errors >= 1599 * current.requests
  {
    var rate, n := current.ErrorRate(), current.requests as real;
    assert z == 50.0 * rate;
    QuotientAtLeast(current.errors as real, n, 0.1599);
    assert Times(rate, n) == current.errors as real;
    if rate >= 0.1599 {
      TimesGrows(0.1599, rate, n);
    } else {
      assert (0.1599 - rate) * n > 0.0;
    }
  }

  /**
   While fewer than half of at least five busy minutes had any error, a report of the error rate
   has a z of 8 or more exactly when 15.99 % of the current requests failed.
   */
  lemma ErrorZExact(service: string, current: RedWindow, baseline: seq<RedWindow>)
    requires current.requests >= RED_MIN_REQUESTS
    requires Count(baseline, HadTraffic) >= RED_MIN_BASELINE_BUCKETS
    requires 2 * Count(baseline, HadErrors) < Count(baseline, HadTraffic)
    ensures forall d | d in EvaluateRed(service, Some(current), baseline) && d.metric == ERROR_RATE ::
              d.z >= 8.0 <==> 10000 * current.errors >= 1599 * current.requests
  {
    BusyAndLatenciesAreFew(baseline);
    CleanBaseline(Busy(baseline));
    Branches(service, Some(current), baseline);
    LatencyVerdict(service, current, baseline);
    var z := Score(current.ErrorRate() - Median(Busy(baseline)), ErrorSpread(Busy(baseline)));
    CapReachesEight(z);
    ScoreOfRate(current, z);
  }

  // ---- what the verdicts depend on ------------------------------------------------------

  /** With the same history, a higher error rate or a higher p95 never silences a detector that fired. */
  lemma WorseStillFires(service: string, milder: RedWindow, worse: RedWindow, baseline: seq<RedWindow>)
    requires worse.requests >= RED_MIN_REQUESTS
    ensures milder.requests >= RED_MIN_REQUESTS && milder.ErrorRate() <= worse.ErrorRate() ==>
              Fires(EvaluateRed(service, Some(milder), baseline), ERROR_RATE) ==>
              Fires(EvaluateRed(service, Some(worse), baseline), ERROR_RATE)
    ensures milder.p95.Some? && worse.p95.Some? && milder.p95.value <= worse.p95.value ==>
              Fires(EvaluateRed(service, Some(milder), baseline), LATENCY_P95) ==>
              Fires(EvaluateRed(service, Some(worse), baseline), LATENCY_P95)
  {
    FiresMeansJudged(service, milder, baseline);
    if |baseline| >= RED_MIN_BASELINE_BUCKETS {
      JudgedFires(service, worse, baseline);
      ErrorVerdict(service, worse, baseline);
      LatencyVerdict(service, worse, baseline);
      if milder.requests >= RED_MIN_REQUESTS {
        JudgedFires(service, milder, baseline);
        ErrorVerdict(service, milder, baseline);
        LatencyVerdict(service, milder, baseline);
      }
    }
  }

  lemma FiresMeansJudged(service: string, current: RedWindow, baseline: seq<RedWindow>)
    ensures var out := EvaluateRed(service, Some(current), baseline);
            Fires(out, ERROR_RATE) || Fires(out, LATENCY_P95) ==>
              |baseline| >= RED_MIN_BASELINE_BUCKETS && current.requests >= RED_MIN_REQUESTS
  {
    Branches(service, Some(current), baseline);
  }

  function RateIs(p: real -> bool): RedWindow -> bool { (w: RedWindow) => w.requests != 0 && p(w.ErrorRate()) }
  function LatencyIs(p: real -> bool): RedWindow -> bool { (w: RedWindow) => w.p95.Some? && p(w.p95.value) }

  lemma {:induction false} BusyCount(baseline: seq<RedWindow>, p: real -> bool)
    ensures Count(Busy(baseline), p) == Count(baseline, RateIs(p))
  {
    if baseline != [] {
      BusyCount(baseline[..|baseline|-1], p);
      var last, busy := baseline[|baseline|-1], Busy(baseline);
      if last.requests != 0 {
        assert busy[..|busy|-1] == Busy(baseline[..|baseline|-1]);
      }
    }
  }

  lemma {:induction false} LatencyCount(baseline: seq<RedWindow>, p: real -> bool)
    ensures Count(Latencies(baseline), p) == Count(baseline, LatencyIs(p))
  {
    if baseline != [] {
      LatencyCount(baseline[..|baseline|-1], p);
      var last, hist := baseline[|baseline|-1], Latencies(baseline);
      if last.p95.Some? {
        assert hist[..|hist|-1] == Latencies(baseline[..|baseline|-1]);
      }
    }
  }

  lemma HistoriesAlike(a: seq<RedWindow>, b: seq<RedWindow>)
    requires multiset(a) == multiset(b)
    ensures Alike(Busy(a), Busy(b)) && Alike(Latencies(a), Latencies(b))
  {
    forall p: real -> bool
      ensures Count(Busy(a), p) == Count(Busy(b), p) && Count(Latencies(a), p) == Count(Latencies(b), p)
    {
      BusyCount(a, p);
      BusyCount(b, p);
      LatencyCount(a, p);
      LatencyCount(b, p);
      CountOfMultiset(a, b, RateIs(p));
      CountOfMultiset(a, b, LatencyIs(p));
    }
    CountAll(Busy(a), (x: real) => true);
    CountAll(Busy(b), (x: real) => true);
    CountAll(Latencies(a), (x: real) => true);
    CountAll(Latencies(b), (x: real) => true);
  }

  lemma {:induction false} TotalOfMultiset(a: seq<RedWindow>, b: seq<RedWindow>)
    requires multiset(a) == multiset(b)
    ensures TotalRequests(a) == TotalRequests(b) && |a| == |b|
  {
    assert |a| == |multiset(a)| == |multiset(b)| == |b|;
    if a != [] {
      var before, after := TakeAway(a, b);
      TotalOfMultiset(a[..|a|-1], before + after);
      TotalConcat(before, after);
      TotalConcat(before, [a[|a|-1]]);
      TotalConcat(before + [a[|a|-1]], after);
    }
  }

  lemma {:induction false} TotalConcat(a: seq<RedWindow>, b: seq<RedWindow>)
    ensures TotalRequests(a + b) == TotalRequests(a) + TotalRequests(b)
  {
    if b == [] {
      assert a + b == a;
    } else {
      assert (a + b)[..|a + b|-1] == a + b[..|b|-1];
      TotalConcat(a, b[..|b|-1]);
    }
  }

  lemma SpreadsAlike(u: seq<real>, v: seq<real>)
    requires Alike(u, v) && u != []
    ensures v != [] && Median(u) == Median(v)
    ensures ErrorSpread(u) == ErrorSpread(v) && LatencySpread(u) == LatencySpread(v)
  {
    MediansAlike(u, v);
  }

  lemma {:induction false} SameErrorVerdict(service: string, current: RedWindow, a: seq<RedWindow>, b: seq<RedWindow>)
    requires Alike(Busy(a), Busy(b))
    ensures ErrorDetections(service, current, a) == ErrorDetections(service, current, b)
  {
    if |Busy(a)| >= RED_MIN_BASELINE_BUCKETS {
      SpreadsAlike(Busy(a), Busy(b));
    }
  }

  lemma {:induction false} SameLatencyVerdict(service: string, current: RedWindow, a: seq<RedWindow>, b: seq<RedWindow>)
    requires Alike(Latencies(a), Latencies(b))
    ensures LatencyDetections(service, current, a) == LatencyDetections(service, current, b)
  {
    if |Latencies(a)| >= RED_MIN_BASELINE_BUCKETS {
      SpreadsAlike(Latencies(a), Latencies(b));
    }
  }

  lemma SameSilence(service: string, current: Option<RedWindow>, a: seq<RedWindow>, b: seq<RedWindow>)
    requires |a| == |b| && TotalRequests(a) == TotalRequests(b)
    requires current.Some? ==> ErrorDetections(service, current.value, a) == ErrorDetections(service, current.value, b)
    requires current.Some? ==>
        LatencyDetections(service, current.value, a) == LatencyDetections(service, current.value, b)
    ensures EvaluateRed(service, current, a) == EvaluateRed(service, current, b)
  {
    if a != [] {
      assert PerMinute(a) == PerMinute(b);
    }
  }

  /** A service is judged by how many minutes were what, not by when they were. */
  lemma OrderOfMinutesIsIrrelevant(service: string, current: Option<RedWindow>, a: seq<RedWindow>, b: seq<RedWindow>)
    requires multiset(a) == multiset(b)
    ensures EvaluateRed(service, current, a) == EvaluateRed(service, current, b)
  {
    TotalOfMultiset(a, b);
    HistoriesAlike(a, b);
    if current.Some? {
      SameErrorVerdict(service, current.value, a, b);
      SameLatencyVerdict(service, current.value, a, b);
    }
    SameSilence(service, current, a, b);
  }

  /**
   A report can be read without the history: the quoted current value lies above the quoted
   normal one, by ten points of error rate or by doubling and 100 ms, to within rounding.
   */
  lemma ReportsShowTheJump(service: string, current: RedWindow, baseline: seq<RedWindow>)
    ensures forall d | d in ErrorDetections(service, current, baseline) ::
              d.direction == Spike && d.current >= 0.09995 && d.current - d.baselineMean >= 0.0999
    ensures forall d | d in LatencyDetections(service, current, baseline) ::
              d.direction == Spike && d.current - d.baselineMean >= 99.99 && d.current >= 2.0 * d.baselineMean - 0.015
  {
    ErrorVerdict(service, current, baseline);
    LatencyVerdict(service, current, baseline);
    VerdictsQuote(service, current, baseline);
  }
}
