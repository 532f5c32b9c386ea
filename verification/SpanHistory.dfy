/**
 From stored spans to reports: which services a scan judges, what their windows hold, and which
 spans make it report silence, errors or latency.
 */
module SpanHistory {
  import opened Prelude
  import opened Statistics
  import opened Telemetry
  import opened Red
  import opened Scan

  // ---- the spans of a window ------------------------------------------------------------

  /** The requests that a service handled since a time: its SERVER and CONSUMER spans. */
  function HandledSince(service: string, from: int): Span -> bool
  {
    (s: Span) => s.service == Some(service) && (s.kind == 2 || s.kind == 5) && s.start >= from
  }

  /** The time so many minutes before now. */
  function Ago(now: int, minutes: int): int { now - minutes * 60_000_000_000 }

  /** The current window: the last two minutes, and whatever is ahead of the clock. */
  function HandledNow(now: int, service: string): Span -> bool { HandledSince(service, Ago(now, 2)) }

  function HandledBetween(service: string, from: int, to: int): Span -> bool
  {
    (s: Span) => s.service == Some(service) && (s.kind == 2 || s.kind == 5) && from <= s.start < to
  }

  /** The fifteen minutes before the current window, the oldest one first. */
  function InMinute(now: int, service: string, j: nat): Span -> bool
  {
    HandledBetween(service, Ago(now, 17 - j), Ago(now, 16 - j))
  }

  /** The requests, the failed ones, and the percentile if there is any. */
  function WindowOver(spans: seq<Span>, p: Span -> bool, p95: seq<Span> -> real): RedWindow
  {
    RedWindow(Count(spans, p), Count(spans, Failed(p)),
              if Count(spans, p) == 0 then None else Some(p95(Filter(spans, p))))
  }

  lemma {:induction false} FilterAlike(spans: seq<Span>, p: Span -> bool, q: Span -> bool)
    requires forall s | s in spans :: p(s) <==> q(s)
    ensures Filter(spans, p) == Filter(spans, q)
  {
    if spans != [] {
      assert spans == spans[..|spans|-1] + [spans[|spans|-1]];
      FilterAlike(spans[..|spans|-1], p, q);
    }
  }

  /** A group of spans, by another name for its condition. */
  lemma WindowOfGroup(spans: seq<Span>, p: Span -> bool, q: Span -> bool, p95: seq<Span> -> real)
    requires (forall s | s in spans :: p(s) <==> q(s)) && exists s :: s in spans && q(s)
    ensures WindowOf(Filter(spans, p), p95) == WindowOver(spans, q, p95)
  {
    FilterAlike(spans, p, q);
    CountPositive(spans, q);
    FilterSize(spans, q, SpanFailed);
    CountImplies(spans, And(q, SpanFailed), Failed(q));
  }

  /** The window of the service now, if it handled any request. */
  lemma CurrentExact(spans: seq<Span>, now: int, p95: seq<Span> -> real, service: string)
    ensures var p := HandledNow(now, service);
            CurrentOf(CurrentRows(spans, now, p95), service)
              == if Count(spans, p) == 0 then None else Some(WindowOver(spans, p, p95))
  {
    var p := HandledNow(now, service);
    CountPositive(spans, p);
    assert forall s :: InCurrent(now, service)(s) <==> p(s);
    if s :| s in spans && p(s) {
      WindowOfGroup(spans, InCurrent(now, service), p, p95);
    }
  }

  lemma MinuteOf(age: int, j: nat)
    requires age >= 0
    ensures age / 60_000_000_000 == j <==> j * 60_000_000_000 <= age < (j + 1) * 60_000_000_000
  {
  }

  lemma BucketIsMinute(now: int, service: string, j: nat, s: Span)
    requires j < 15
    ensures InBucket(now, service, j)(s) <==> InMinute(now, service, j)(s)
  {
    var age := s.start - Ago(now, 17);
    assert BaselineFrom(now) == Ago(now, 17) && CurrentFrom(now) == Ago(now, 2);
    assert Ago(now, 17 - j) <= s.start < Ago(now, 16 - j) <==> j * 60_000_000_000 <= age < (j + 1) * 60_000_000_000;
    if age >= 0 {
      MinuteOf(age, j);
    }
  }

  lemma MinuteSeen(spans: seq<Span>, now: int, service: string, j: nat)
    requires j < 15
    ensures (service, j) in BaselineKeys(spans, now) <==> exists s :: s in spans && InMinute(now, service, j)(s)
  {
    forall s
      ensures InBucket(now, service, j)(s) <==> InMinute(now, service, j)(s)
    {
      BucketIsMinute(now, service, j, s);
    }
    if s :| s in spans && InMinute(now, service, j)(s) {
      assert InBucket(now, service, j)(s);
    }
  }

  /** The windows of a service that the baseline query returns, by minute. */
  lemma MinuteExact(spans: seq<Span>, now: int, p95: seq<Span> -> real, service: string, j: nat)
    requires j < 15
    ensures var minutes, p := Minutes(BaselineRows(spans, now, p95), service), InMinute(now, service, j);
            && (j in minutes <==> Count(spans, p) > 0)
            && (j in minutes ==> minutes[j] == WindowOver(spans, p, p95))
  {
    MinuteSeen(spans, now, service, j);
    CountPositive(spans, InMinute(now, service, j));
    if (service, j) in BaselineKeys(spans, now) {
      forall s
        ensures InBucket(now, service, j)(s) <==> InMinute(now, service, j)(s)
      {
        BucketIsMinute(now, service, j, s);
      }
      WindowOfGroup(spans, InBucket(now, service, j), InMinute(now, service, j), p95);
    }
  }

  /** The history that starts in the first minute with requests, in terms of the windows of all fifteen. */
  ghost predicate StartsWhenSeen(h: seq<RedWindow>, windows: nat -> RedWindow)
  {
    && |h| <= 15
    && (forall j: nat | j < 15 - |h| :: windows(j).requests == 0)
    && (h != [] ==> windows(15 - |h|).requests > 0)
    && (forall k | 0 <= k < |h| :: h[k] == windows(15 - |h| + k))
  }

  lemma HistoryOfMinutes(minutes: map<int, RedWindow>, windows: nat -> RedWindow)
    requires forall j: nat | j < 15 ::
               && (j in minutes <==> windows(j).requests > 0)
               && windows(j) == if j in minutes then minutes[j] else QUIET
    ensures StartsWhenSeen(History(minutes), windows)
  {
  }

  function WindowsOf(spans: seq<Span>, now: int, p95: seq<Span> -> real, service: string): nat -> RedWindow
  {
    (j: nat) => WindowOver(spans, InMinute(now, service, j), p95)
  }

  lemma NoRequestsNoErrors(spans: seq<Span>, p: Span -> bool, p95: seq<Span> -> real)
    ensures Count(spans, Failed(p)) <= Count(spans, p)
    ensures Count(spans, p) == 0 ==> WindowOver(spans, p, p95) == QUIET
  {
    CountImplies(spans, Failed(p), p);
  }

  /**
   The history of a service: from the first of the fifteen minutes in which it handled a request,
   one window for each minute, with zero counts and no percentile for a minute without requests.
   */
  lemma HistoryExact(spans: seq<Span>, now: int, p95: seq<Span> -> real, service: string)
    ensures StartsWhenSeen(HistoryOf(BaselineRows(spans, now, p95), service), WindowsOf(spans, now, p95, service))
  {
    var minutes, windows := Minutes(BaselineRows(spans, now, p95), service), WindowsOf(spans, now, p95, service);
    forall j: nat | j < 15
      ensures j in minutes <==> windows(j).requests > 0
      ensures windows(j) == if j in minutes then minutes[j] else QUIET
    {
      MinuteExact(spans, now, p95, service, j);
      NoRequestsNoErrors(spans, InMinute(now, service, j), p95);
    }
    HistoryOfMinutes(minutes, windows);
  }

  /** A scan judges a service exactly when it handled a request in the last seventeen minutes and is not ignored. */
  lemma JudgedExactly(spans: seq<Span>, now: int, p95: seq<Span> -> real, ignored: set<string>, service: string)
    ensures service in Seen(CurrentRows(spans, now, p95), BaselineRows(spans, now, p95), ignored) <==>
              service !in ignored && exists s :: s in spans && HandledSince(service, Ago(now, 17))(s)
  {
    if s :| s in spans && HandledSince(service, Ago(now, 17))(s) {
      if s.start >= CurrentFrom(now) {
        assert service in CurrentServices(spans, now);
      } else {
        var bucket := (s.start - BaselineFrom(now)) / NS_PER_MINUTE;
        assert Handled(s) && InHistory(s, now);
        assert (service, bucket) in BaselineRows(spans, now, p95);
      }
    }
  }

  // ---- histories counted by minutes -----------------------------------------------------

  /** How many of the first n minutes satisfy a condition. */
  function MinutesWith(q: nat -> bool, n: nat): nat
  {
    if n == 0 then 0 else MinutesWith(q, n - 1) + if q(n - 1) then 1 else 0
  }

  lemma {:induction false} NoMinutes(q: nat -> bool, n: nat)
    requires forall j: nat | j < n :: !q(j)
    ensures MinutesWith(q, n) == 0
  {
    if n > 0 {
      NoMinutes(q, n - 1);
    }
  }

  lemma {:induction false} WindowsAreMinutes(h: seq<RedWindow>, p: RedWindow -> bool, q: nat -> bool, first: nat)
    requires forall j: nat | j < first :: !q(j)
    requires forall k | 0 <= k < |h| :: p(h[k]) <==> q(first + k)
    ensures Count(h, p) == MinutesWith(q, first + |h|)
  {
    if h == [] {
      NoMinutes(q, first);
    } else {
      WindowsAreMinutes(h[..|h|-1], p, q, first);
    }
  }

  function BusyMinute(spans: seq<Span>, now: int, service: string): nat -> bool
  {
    (j: nat) => Count(spans, InMinute(now, service, j)) > 0
  }

  function MinuteWithErrors(spans: seq<Span>, now: int, service: string): nat -> bool
  {
    (j: nat) => Count(spans, Failed(InMinute(now, service, j))) > 0
  }

  /** A busy minute whose percentile lies outside an interval. */
  function OddMinute(spans: seq<Span>, now: int, p95: seq<Span> -> real, service: string, lo: real,
      hi: real): nat -> bool
  {
    (j: nat) =>
      BusyMinute(spans, now, service)(j) && Outside(lo, hi)(p95(Filter(spans, InMinute(now, service, j))))
  }

  /** A condition on windows that quiet ones do not satisfy, counted over a history. */
  lemma HistoryCount(h: seq<RedWindow>, windows: nat -> RedWindow, p: RedWindow -> bool, q: nat -> bool)
    requires StartsWhenSeen(h, windows)
    requires forall j: nat | j < 15 :: (windows(j).requests == 0 ==> !q(j)) && (p(windows(j)) <==> q(j))
    ensures Count(h, p) == MinutesWith(q, 15)
  {
    WindowsAreMinutes(h, p, q, 15 - |h|);
  }

  /** The busy minutes of the history, and those with errors. */
  lemma {:induction false} ErrorMinutes(spans: seq<Span>, now: int, p95: seq<Span> -> real, service: string)
    ensures var h := HistoryOf(BaselineRows(spans, now, p95), service);
            && Count(h, HadTraffic) == MinutesWith(BusyMinute(spans, now, service), 15)
            && Count(h, HadErrors) == MinutesWith(MinuteWithErrors(spans, now, service), 15)
  {
    var h, windows := HistoryOf(BaselineRows(spans, now, p95), service), WindowsOf(spans, now, p95, service);
    HistoryExact(spans, now, p95, service);
    forall j: nat
      ensures HadTraffic(windows(j)) <==> BusyMinute(spans, now, service)(j)
      ensures HadErrors(windows(j)) <==> MinuteWithErrors(spans, now, service)(j)
      ensures windows(j).requests == 0 ==>
                !BusyMinute(spans, now, service)(j) && !MinuteWithErrors(spans, now, service)(j)
    {
      NoRequestsNoErrors(spans, InMinute(now, service, j), p95);
    }
    HistoryCount(h, windows, HadTraffic, BusyMinute(spans, now, service));
    HistoryCount(h, windows, HadErrors, MinuteWithErrors(spans, now, service));
  }

  /** The latencies of the history, and those outside an interval. */
  lemma {:induction false} LatencyMinutes(spans: seq<Span>, now: int, p95: seq<Span> -> real, service: string, lo: real,
      hi: real)
    ensures var h := HistoryOf(BaselineRows(spans, now, p95), service);
            && |Latencies(h)| == MinutesWith(BusyMinute(spans, now, service), 15)
            && Count(Latencies(h), Outside(lo, hi)) == MinutesWith(OddMinute(spans, now, p95, service, lo, hi), 15)
  {
    var h, windows := HistoryOf(BaselineRows(spans, now, p95), service), WindowsOf(spans, now, p95, service);
    var any := (x: real) => true;
    HistoryExact(spans, now, p95, service);
    HistoryCount(h, windows, LatencyIs(any), BusyMinute(spans, now, service));
    HistoryCount(h, windows, LatencyIs(Outside(lo, hi)), OddMinute(spans, now, p95, service, lo, hi));
    LatencyCount(h, Outside(lo, hi));
    LatencyCount(h, any);
    CountAll(Latencies(h), any);
  }

  /** All requests of the first n minutes. */
  lemma {:induction false} RequestsOfMinutes(spans: seq<Span>, now: int, service: string, n: nat)
    requires n <= 15
    ensures TotalOf(spans, now, service, n) ==
              Count(spans, HandledBetween(service, Ago(now, 17), Ago(now, 17 - n)))
  {
    var from, to := Ago(now, 17), Ago(now, 17 - n);
    assert from <= to;
    if n == 0 {
      CountPositive(spans, HandledBetween(service, from, to));
    } else {
      RequestsOfMinutes(spans, now, service, n - 1);
      var between := Ago(now, 17 - (n - 1));
      assert from <= between <= to == Ago(now, 16 - (n - 1));
      CountDisjoint(spans, HandledBetween(service, from, to), HandledBetween(service, from, between),
                    InMinute(now, service, n - 1));
    }
  }

  function TotalOf(spans: seq<Span>, now: int, service: string, n: nat): nat
  {
    if n == 0 then 0 else TotalOf(spans, now, service, n - 1) + Count(spans, InMinute(now, service, n - 1))
  }

  lemma {:induction false} TotalOfWindows(spans: seq<Span>, now: int, p95: seq<Span> -> real, service: string,
      h: seq<RedWindow>, first: nat)
    requires forall j: nat | j < first :: WindowsOf(spans, now, p95, service)(j).requests == 0
    requires forall k | 0 <= k < |h| :: h[k] == WindowsOf(spans, now, p95, service)(first + k)
    ensures TotalRequests(h) == TotalOf(spans, now, service, first + |h|)
  {
    if h != [] {
      TotalOfWindows(spans, now, p95, service, h[..|h|-1], first);
    } else if first > 0 {
      TotalOfWindows(spans, now, p95, service, h, first - 1);
      assert WindowsOf(spans, now, p95, service)(first - 1).requests == 0;
    }
  }

  /** The requests of a history are all that the service handled in the fifteen minutes. */
  lemma TotalExact(spans: seq<Span>, now: int, p95: seq<Span> -> real, service: string)
    ensures TotalRequests(HistoryOf(BaselineRows(spans, now, p95), service)) ==
              Count(spans, HandledBetween(service, Ago(now, 17), Ago(now, 2)))
  {
    var h := HistoryOf(BaselineRows(spans, now, p95), service);
    HistoryExact(spans, now, p95, service);
    TotalOfWindows(spans, now, p95, service, h, 15 - |h|);
    RequestsOfMinutes(spans, now, service, 15);
  }

  // ---- how much history a service has ---------------------------------------------------

  /** The service first handled a request m whole minutes before the current window, within fifteen. */
  predicate MinutesKnown(spans: seq<Span>, now: int, service: string, m: nat)
  {
    && m <= 15
    && Count(spans, HandledBetween(service, Ago(now, 17), Ago(now, 2 + m))) == 0
    && (m > 0 ==> Count(spans, InMinute(now, service, 15 - m)) > 0)
  }

  lemma {:induction false} NothingBefore(spans: seq<Span>, now: int, service: string, n: nat)
    ensures TotalOf(spans, now, service, n) == 0 <==>
              forall j: nat | j < n :: Count(spans, InMinute(now, service, j)) == 0
  {
    if n > 0 {
      NothingBefore(spans, now, service, n - 1);
    }
  }

  lemma FirstKnown(spans: seq<Span>, now: int, service: string, m: nat)
    requires m <= 15 && forall j: nat | j < 15 - m :: Count(spans, InMinute(now, service, j)) == 0
    requires m > 0 ==> Count(spans, InMinute(now, service, 15 - m)) > 0
    ensures MinutesKnown(spans, now, service, m)
  {
    RequestsOfMinutes(spans, now, service, 15 - m);
    NothingBefore(spans, now, service, 15 - m);
  }

  lemma KnownOnce(spans: seq<Span>, now: int, service: string, m: nat, n: nat)
    requires MinutesKnown(spans, now, service, m) && MinutesKnown(spans, now, service, n)
    ensures m == n
  {
    RequestsOfMinutes(spans, now, service, 15 - m);
    NothingBefore(spans, now, service, 15 - m);
    RequestsOfMinutes(spans, now, service, 15 - n);
    NothingBefore(spans, now, service, 15 - n);
  }

  lemma KnownExact(spans: seq<Span>, now: int, p95: seq<Span> -> real, service: string, m: nat)
    ensures MinutesKnown(spans, now, service, m) <==> |HistoryOf(BaselineRows(spans, now, p95), service)| == m
  {
    var known, windows := |HistoryOf(BaselineRows(spans, now, p95), service)|, WindowsOf(spans, now, p95, service);
    HistoryExact(spans, now, p95, service);
    forall j: nat | j < 15 - known
      ensures Count(spans, InMinute(now, service, j)) == 0
    {
      assert windows(j).requests == 0;
    }
    FirstKnown(spans, now, service, known);
    if MinutesKnown(spans, now, service, m) {
      KnownOnce(spans, now, service, known, m);
    }
  }

  /** A judged service is listed as learning exactly while it has less than five minutes of history. */
  lemma LearningExact(spans: seq<Span>, now: int, p95: seq<Span> -> real, services: set<string>, service: string,
      m: nat)
    requires MinutesKnown(spans, now, service, m)
    ensures var learning := Learners(BaselineRows(spans, now, p95), services);
            && (service in learning <==> service in services && m < 5)
            && (service in learning ==> learning[service] == m)
  {
    KnownExact(spans, now, p95, service, m);
  }

  // ---- reports --------------------------------------------------------------------------

  /** What a scan reports for a service is what it finds when it judges that service. */
  lemma {:induction false} ReportedExactly(current: map<string, RedWindow>, baseline: map<(string, int), RedWindow>,
      order: seq<string>, service: string, metric: string)
    ensures Reported(JudgeAll(current, baseline, order), (service, metric)) <==>
              service in order && Fires(Judge(current, baseline, service), metric)
  {
    if order != [] {
      var init, last := order[..|order|-1], order[|order|-1];
      assert order == init + [last];
      ReportedExactly(current, baseline, init, service, metric);
      var before, more := JudgeAll(current, baseline, init), Judge(current, baseline, last);
      assert forall d :: d in before + more <==> d in before || d in more;
      EvaluateRedIsWellFormed(last, CurrentOf(current, last), HistoryOf(baseline, last));
      if Fires(more, metric) {
        var d :| d in more && d.metric == metric;
        assert d in before + more && d.Key() == (last, metric);
      }
      if Reported(before, (service, metric)) {
        var d :| d in before && d.Key() == (service, metric);
        assert d in before + more;
      }
    }
  }

  /** All that a scan judges, by service. */
  function Verdicts(spans: seq<Span>, now: int, p95: seq<Span> -> real, order: seq<string>): seq<Detection>
  {
    JudgeAll(CurrentRows(spans, now, p95), BaselineRows(spans, now, p95), order)
  }

  /**
   No request in the current window, after at least five minutes of history in which the service
   handled three requests a minute on average.
   */
  ghost predicate Silent(spans: seq<Span>, now: int, service: string)
  {
    && Count(spans, HandledNow(now, service)) == 0
    && exists m: nat :: MinutesKnown(spans, now, service, m) && m >= 5
                   && Count(spans, HandledBetween(service, Ago(now, 17), Ago(now, 2))) >= 3 * m
  }

  /** Of the judged services exactly the silent ones are reported as silent. */
  lemma SilenceIsReported(spans: seq<Span>, now: int, p95: seq<Span> -> real, order: seq<string>, service: string)
    ensures Reported(Verdicts(spans, now, p95, order), (service, SILENT)) <==>
              service in order && Silent(spans, now, service)
  {
    var current, baseline := CurrentRows(spans, now, p95), BaselineRows(spans, now, p95);
    var h := HistoryOf(baseline, service);
    ReportedExactly(current, baseline, order, service, SILENT);
    SilenceExact(service, CurrentOf(current, service), h);
    CurrentExact(spans, now, p95, service);
    TotalExact(spans, now, p95, service);
    KnownExact(spans, now, p95, service, |h|);
    forall m: nat | MinutesKnown(spans, now, service, m)
      ensures m == |h|
    {
      KnownExact(spans, now, p95, service, m);
    }
  }

  /** At least five busy minutes, fewer than half of them with errors, and at least five requests now. */
  predicate UsuallyClean(spans: seq<Span>, now: int, service: string)
  {
    && MinutesWith(BusyMinute(spans, now, service), 15) >= 5
    && 2 * MinutesWith(MinuteWithErrors(spans, now, service), 15) < MinutesWith(BusyMinute(spans, now, service), 15)
    && Count(spans, HandledNow(now, service)) >= 5
  }

  /** At least this many of 10 000 requests in the current window failed. */
  predicate FailsNow(spans: seq<Span>, now: int, service: string, share: nat)
  {
    10000 * Count(spans, Failed(HandledNow(now, service))) >= share * Count(spans, HandledNow(now, service))
  }

  /**
   A judged service that is usually clean is reported for its error rate exactly when a tenth of
   its requests fail now; the reported z is 8 or more exactly when 15.99 % fail.
   */
  lemma FailureIsReported(spans: seq<Span>, now: int, p95: seq<Span> -> real, order: seq<string>, service: string)
    requires UsuallyClean(spans, now, service)
    ensures Reported(Verdicts(spans, now, p95, order), (service, ERROR_RATE)) <==>
              service in order && FailsNow(spans, now, service, 1000)
    ensures forall d | d in Verdicts(spans, now, p95, order) && d.Key() == (service, ERROR_RATE) ::
              d.z >= 8.0 <==> FailsNow(spans, now, service, 1599)
  {
    var current, baseline := CurrentRows(spans, now, p95), BaselineRows(spans, now, p95);
    ReportedExactly(current, baseline, order, service, ERROR_RATE);
    CurrentExact(spans, now, p95, service);
    ErrorMinutes(spans, now, p95, service);
    ErrorRateExact(service, current[service], HistoryOf(baseline, service));
    ErrorZExact(service, current[service], HistoryOf(baseline, service));
    DetectionsOf(current, baseline, order, service);
  }

  /** Detections under the name of a service come from judging it. */
  lemma {:induction false} DetectionsOf(current: map<string, RedWindow>, baseline: map<(string, int), RedWindow>,
      order: seq<string>, service: string)
    ensures forall d | d in JudgeAll(current, baseline, order) && d.service == service ::
              d in Judge(current, baseline, service)
  {
    if order != [] {
      var init, last := order[..|order|-1], order[|order|-1];
      DetectionsOf(current, baseline, init, service);
      EvaluateRedIsWellFormed(last, CurrentOf(current, last), HistoryOf(baseline, last));
    }
  }

  /**
   At least five busy minutes, fewer than half of them with a percentile outside [lo, hi], and at
   least five requests now.
   */
  predicate UsuallyWithin(spans: seq<Span>, now: int, p95: seq<Span> -> real, service: string, lo: real, hi: real)
  {
    && lo <= hi && MinutesWith(BusyMinute(spans, now, service), 15) >= 5
    && 2 * MinutesWith(OddMinute(spans, now, p95, service, lo, hi), 15)
         < MinutesWith(BusyMinute(spans, now, service), 15)
    && Count(spans, HandledNow(now, service)) >= 5
  }

  /**
   A judged service that is usually within an interval of latencies is reported when its p95 now
   reaches a bound computed from the interval, and not below another one.
   */
  lemma SlownessIsReported(spans: seq<Span>, now: int, p95: seq<Span> -> real, order: seq<string>, service: string,
      lo: real, hi: real)
    requires UsuallyWithin(spans, now, p95, service, lo, hi) && service in order
    ensures var slowest := p95(Filter(spans, HandledNow(now, service)));
            && (slowest >= AlwaysFiresFrom(lo, hi) ==>
                  Reported(Verdicts(spans, now, p95, order), (service, LATENCY_P95)))
            && (slowest < MaxReal(2.0 * lo, lo + 100.0) ==>
                  !Reported(Verdicts(spans, now, p95, order), (service, LATENCY_P95)))
  {
    var current, baseline := CurrentRows(spans, now, p95), BaselineRows(spans, now, p95);
    ReportedExactly(current, baseline, order, service, LATENCY_P95);
    CurrentExact(spans, now, p95, service);
    LatencyMinutes(spans, now, p95, service, lo, hi);
    LatencyRobust(service, current[service], HistoryOf(baseline, service), lo, hi);
  }
}
