/**
 One anomaly scan: spans are grouped into windows, every service with traffic or history is
 judged, and the span detections are merged with those of the resource gauges.
 */
module Scan {
  import opened Prelude
  import opened Telemetry
  import opened Red

  const NS_PER_SECOND := 1_000_000_000

  // ---- the windows ----------------------------------------------------------------------

  function CurrentFrom(now: int): int { now - RED_CURRENT_SECONDS * NS_PER_SECOND }
  function BaselineFrom(now: int): int { CurrentFrom(now) - RED_BASELINE_MINUTES * NS_PER_MINUTE }

  /** SERVER and CONSUMER spans of a named service are the requests it handled. */
  predicate Handled(s: Span) { s.kind in {2, 5} && s.service.Some? }

  /** The current window has no upper end. */
  function InCurrent(now: int, service: string): Span -> bool
  {
    (s: Span) => Handled(s) && s.service.value == service && s.start >= CurrentFrom(now)
  }

  predicate InHistory(s: Span, now: int) { BaselineFrom(now) <= s.start < CurrentFrom(now) }

  function InBucket(now: int, service: string, bucket: int): Span -> bool
  {
    (s: Span) =>
      && Handled(s) && s.service.value == service && InHistory(s, now)
      && (s.start - BaselineFrom(now)) / NS_PER_MINUTE == bucket
  }

  predicate SpanFailed(s: Span) { s.IsError() }

  /** GROUP BY: the counts and the percentile of the spans of one group. */
  function WindowOf(group: seq<Span>, p95: seq<Span> -> real): RedWindow
  {
    RedWindow(|group|, Count(group, SpanFailed), Some(p95(group)))
  }

  /** The groups of the two queries. */
  function CurrentServices(spans: seq<Span>, now: int): set<string>
  {
    set s | s in spans && Handled(s) && s.start >= CurrentFrom(now) :: s.service.value
  }

  function BaselineKeys(spans: seq<Span>, now: int): set<(string, int)>
  {
    set s | s in spans && Handled(s) && InHistory(s, now) ::
        (s.service.value, (s.start - BaselineFrom(now)) / NS_PER_MINUTE)
  }

  function CurrentRows(spans: seq<Span>, now: int, p95: seq<Span> -> real): map<string, RedWindow>
  {
    map service | service in CurrentServices(spans, now) ::
      WindowOf(Filter(spans, InCurrent(now, service)), p95)
  }

  function BaselineRows(spans: seq<Span>, now: int, p95: seq<Span> -> real): map<(string, int), RedWindow>
  {
    map key | key in BaselineKeys(spans, now) ::
      WindowOf(Filter(spans, InBucket(now, key.0, key.1)), p95)
  }

  // ---- histories ------------------------------------------------------------------------

  const QUIET := RedWindow(0, 0, None)

  /** service → minute → window, for one service. */
  function Minutes(rows: map<(string, int), RedWindow>, service: string): map<int, RedWindow>
  {
    map key | key in rows && key.0 == service :: key.1 := rows[key]
  }

  /** The first minute on record, or the end of the history. */
  function FirstMinute(minutes: map<int, RedWindow>, i: nat): (f: nat)
    requires i <= RED_BASELINE_MINUTES
    ensures i <= f <= RED_BASELINE_MINUTES
    ensures forall j | i <= j < f :: j !in minutes
    ensures f < RED_BASELINE_MINUTES ==> f in minutes
    decreases RED_BASELINE_MINUTES - i
  {
    if i == RED_BASELINE_MINUTES || i in minutes then i else FirstMinute(minutes, i + 1)
  }

  /** Every minute since the service first appeared; a minute without requests is a quiet one. */
  function History(minutes: map<int, RedWindow>): seq<RedWindow>
  {
    var first := FirstMinute(minutes, 0);
    seq(RED_BASELINE_MINUTES - first, j => if first + j in minutes then minutes[first + j] else QUIET)
  }

  function HistoryOf(rows: map<(string, int), RedWindow>, service: string): seq<RedWindow>
  {
    History(Minutes(rows, service))
  }

  function CurrentOf(rows: map<string, RedWindow>, service: string): Option<RedWindow>
  {
    if service in rows then Some(rows[service]) else None
  }

  function Judge(current: map<string, RedWindow>, baseline: map<(string, int), RedWindow>,
      service: string): seq<Detection>
  {
    EvaluateRed(service, CurrentOf(current, service), HistoryOf(baseline, service))
  }

  function JudgeAll(current: map<string, RedWindow>, baseline: map<(string, int), RedWindow>,
      order: seq<string>): seq<Detection>
  {
    if order == [] then []
    else JudgeAll(current, baseline, order[..|order|-1]) + Judge(current, baseline, order[|order|-1])
  }

  function Seen(current: map<string, RedWindow>, baseline: map<(string, int), RedWindow>,
      ignored: set<string>): set<string>
  {
    current.Keys + (set key | key in baseline :: key.0) - ignored
  }

  function MinutesOf(baseline: map<(string, int), RedWindow>, service: string): nat
  {
    |HistoryOf(baseline, service)|
  }

  /** The services that are still learning what is normal, with their minutes of history. */
  function Learners(baseline: map<(string, int), RedWindow>, services: set<string>): map<string, nat>
  {
    map service | service in services && MinutesOf(baseline, service) < RED_MIN_BASELINE_BUCKETS ::
      MinutesOf(baseline, service)
  }

  lemma OneMoreRow(rows: map<(string, int), RedWindow>, left: set<(string, int)>, key: (string, int), service: string)
    requires key in left && left <= rows.Keys
    ensures Minutes(rows - (left - {key}), service) ==
              if service == key.0 then Minutes(rows - left, service)[key.1 := rows[key]]
                  else Minutes(rows - left, service)
  {
  }

  /** buckets.setdefault(service, {})[minute] = window, for every row. */
  method FillBuckets(rows: map<(string, int), RedWindow>) returns (buckets: map<string, map<int, RedWindow>>)
    ensures buckets.Keys == set key | key in rows :: key.0
    ensures forall service | service in buckets :: buckets[service] == Minutes(rows, service)
  {
    buckets := map[];
    var left := rows.Keys;
    while left != {}
      invariant left <= rows.Keys
      invariant buckets.Keys == set key | key in rows && key !in left :: key.0
      invariant forall service | service in buckets :: buckets[service] == Minutes(rows - left, service)
      decreases left
    {
      var key :| key in left;
      forall service {
        OneMoreRow(rows, left, key, service);
      }
      var minutes := if key.0 in buckets then buckets[key.0] else map[];
      assert minutes == Minutes(rows - left, key.0);
      left := left - {key};
      buckets := buckets[key.0 := minutes[key.1 := rows[key]]];
    }
    assert rows - left == rows;
  }

  lemma OneMoreService(rows: map<(string, int), RedWindow>, services: seq<string>, n: nat)
    requires n < |services|
    ensures var minutes := MinutesOf(rows, services[n]);
            Learners(rows, Members(services[..n+1])) ==
              if minutes < RED_MIN_BASELINE_BUCKETS then Learners(rows, Members(services[..n]))[services[n] := minutes]
              else Learners(rows, Members(services[..n]))
  {
    assert services[..n+1] == services[..n] + [services[n]];
    assert Members(services[..n+1]) == Members(services[..n]) + {services[n]};
    OneMoreLearner(rows, Members(services[..n]), services[n]);
  }

  lemma OneMoreLearner(rows: map<(string, int), RedWindow>, services: set<string>, service: string)
    ensures var minutes := MinutesOf(rows, service);
            Learners(rows, services + {service}) ==
              if minutes < RED_MIN_BASELINE_BUCKETS then Learners(rows, services)[service := minutes]
              else Learners(rows, services)
  {
  }

  /** A service without any bucket has no history. */
  lemma NoBuckets(rows: map<(string, int), RedWindow>, service: string)
    requires forall key | key in rows :: key.0 != service
    ensures HistoryOf(rows, service) == []
  {
    assert Minutes(rows, service) == map[];
  }

  /** After n services: their detections, and those of them that are still learning. */
  ghost predicate Judged(current: map<string, RedWindow>, baseline: map<(string, int), RedWindow>,
      services: seq<string>, n: nat, detected: seq<Detection>, learning: map<string, nat>)
  {
    && n <= |services|
    && detected == JudgeAll(current, baseline, services[..n])
    && learning == Learners(baseline, Members(services[..n]))
  }

  lemma OneMoreJudged(current: map<string, RedWindow>, baseline: map<(string, int), RedWindow>, services: seq<string>,
                      n: nat, detected: seq<Detection>, learning: map<string, nat>, history: seq<RedWindow>)
    requires n < |services| && Judged(current, baseline, services, n, detected, learning)
    requires history == HistoryOf(baseline, services[n])
    ensures var next := if |history| < RED_MIN_BASELINE_BUCKETS then learning[services[n] := |history|] else learning;
            Judged(current, baseline, services, n + 1,
                   detected + EvaluateRed(services[n], CurrentOf(current, services[n]), history), next)
  {
    OneMoreService(baseline, services, n);
    JudgeOneMore(current, baseline, services, n);
    assert |history| == MinutesOf(baseline, services[n]);
  }

  lemma JudgeOneMore(current: map<string, RedWindow>, baseline: map<(string, int), RedWindow>, services: seq<string>,
      n: nat)
    requires n < |services|
    ensures JudgeAll(current, baseline, services[..n+1]) ==
              JudgeAll(current, baseline, services[..n])
              + EvaluateRed(services[n], CurrentOf(current, services[n]), HistoryOf(baseline, services[n]))
  {
    assert services[..n+1][..n] == services[..n];
  }

  // ---- one detection per key ------------------------------------------------------------

  ghost predicate UniqueKeys(detected: seq<Detection>)
  {
    forall i, j | 0 <= i < j < |detected| :: detected[i].Key() != detected[j].Key()
  }

  /** In the order of the names of their services. */
  ghost predicate ByService(detected: seq<Detection>)
  {
    forall i, j | 0 <= i < j < |detected| ::
      detected[i].service == detected[j].service || StringLt(detected[i].service, detected[j].service)
  }

  lemma {:induction false} JudgeAllIsWellFormed(current: map<string, RedWindow>,
      baseline: map<(string, int), RedWindow>, order: seq<string>)
    requires Ascends(order, StringLt)
    ensures UniqueKeys(JudgeAll(current, baseline, order)) && ByService(JudgeAll(current, baseline, order))
    ensures forall d | d in JudgeAll(current, baseline, order) :: d.service in order && WellFormed(d.service, d)
  {
    if order != [] {
      var init, last := order[..|order|-1], order[|order|-1];
      assert order == init + [last];
      JudgeAllIsWellFormed(current, baseline, init);
      EvaluateRedIsWellFormed(last, CurrentOf(current, last), HistoryOf(baseline, last));
      StringOrder();
      assert forall x | x in init :: x != last && StringLt(x, last);
      KeysStayUnique(JudgeAll(current, baseline, init), Judge(current, baseline, last), last);
      OrderKept(JudgeAll(current, baseline, init), Judge(current, baseline, last), last);
    }
  }

  /** Detections of one more service never repeat a key. */
  lemma KeysStayUnique(before: seq<Detection>, more: seq<Detection>, service: string)
    requires UniqueKeys(before) && forall d | d in before :: d.service != service
    requires forall d | d in more :: d.service == service
    requires |more| <= 2 && (|more| == 2 ==> more[0].metric != more[1].metric)
    ensures UniqueKeys(before + more)
  {
    var all := before + more;
    forall i, j | 0 <= i < j < |all|
      ensures all[i].Key() != all[j].Key()
    {
      if i < |before| <= j {
        assert all[i] in before && all[j] in more;
      }
    }
  }

  lemma OrderKept(before: seq<Detection>, more: seq<Detection>, service: string)
    requires ByService(before) && forall d | d in before :: StringLt(d.service, service)
    requires forall d | d in more :: d.service == service
    ensures ByService(before + more)
  {
    var all := before + more;
    assert forall i | 0 <= i < |all| :: if i < |before| then all[i] in before else all[i] in more;
  }

  ghost predicate Reported(detected: seq<Detection>, key: (string, string))
  {
    exists d :: d in detected && d.Key() == key
  }

  /** Span detections first, then the metric detections whose key is not taken yet. */
  ghost function Merged(spanDetected: seq<Detection>, metricDetected: seq<Detection>): seq<Detection>
  {
    if metricDetected == [] then spanDetected
    else
      var init, d := Merged(spanDetected, metricDetected[..|metricDetected|-1]), metricDetected[|metricDetected|-1];
      if Reported(init, d.Key()) then init else init + [d]
  }

  lemma {:induction false} MergedIsSound(spanDetected: seq<Detection>, metricDetected: seq<Detection>)
    ensures var merged := Merged(spanDetected, metricDetected);
            && spanDetected <= merged
            && (forall d | d in merged :: d in spanDetected || d in metricDetected)
            && (forall d | d in metricDetected :: Reported(merged, d.Key()))
            && (UniqueKeys(spanDetected) ==> UniqueKeys(merged))
  {
    if metricDetected != [] {
      var init, d := metricDetected[..|metricDetected|-1], metricDetected[|metricDetected|-1];
      assert metricDetected == init + [d];
      MergedIsSound(spanDetected, init);
      var before, merged := Merged(spanDetected, init), Merged(spanDetected, metricDetected);
      assert before <= merged && (forall e | e in before :: e in merged);
      assert !Reported(before, d.Key()) ==> merged[|before|] == d;
    }
  }

  method MergeDetections(spanDetected: seq<Detection>, metricDetected: seq<Detection>) returns (merged: seq<Detection>)
    ensures merged == Merged(spanDetected, metricDetected)
    ensures spanDetected <= merged
    ensures forall d | d in merged :: d in spanDetected || d in metricDetected
    ensures forall d | d in metricDetected :: Reported(merged, d.Key())
    ensures UniqueKeys(spanDetected) ==> UniqueKeys(merged)
  {
    merged := spanDetected;
    var keys := set d | d in spanDetected :: d.Key();
    for i := 0 to |metricDetected|
      invariant merged == Merged(spanDetected, metricDetected[..i])
      invariant keys == set d | d in merged :: d.Key()
    {
      assert metricDetected[..i+1][..i] == metricDetected[..i];
      var d := metricDetected[i];
      assert d.Key() in keys <==> Reported(merged, d.Key());
      if d.Key() !in keys {
        merged := merged + [d];
        keys := keys + {d.Key()};
      }
    }
    assert metricDetected[..|metricDetected|] == metricDetected;
    MergedIsSound(spanDetected, metricDetected);
  }

  /** METRIC_ALLOWLIST: the only metrics that the z-score engine looks at. */
  const METRIC_ALLOWLIST := ["container.memory.percent", "container.cpu.utilization"]

  predicate FromGauges(detected: seq<Detection>) { forall d | d in detected :: d.metric in METRIC_ALLOWLIST }

  predicate AllInRange(detected: seq<Detection>) { forall d | d in detected :: ZInRange(d) }

  lemma GaugesAreNotSpanMetrics()
    ensures ERROR_RATE !in METRIC_ALLOWLIST && LATENCY_P95 !in METRIC_ALLOWLIST
  {
    assert forall name | name in METRIC_ALLOWLIST :: name[0] == 'c';
  }

  // ---- one scan -------------------------------------------------------------------------

  class Detector {
    /** Services still learning after the last scan, with their minutes of history. */
    var learning: map<string, nat>

    constructor ()
      ensures learning == map[]
    {
      learning := map[];
    }

    /** Judges every service with requests in the windows, except the ignored ones, in name order. */
    method SpanBasedDetections(currentRows: map<string, RedWindow>, baselineRows: map<(string, int), RedWindow>,
                               ignored: set<string>)
      returns (detected: seq<Detection>, ghost order: seq<string>)
      modifies this
      ensures Ascends(order, StringLt) && forall x :: x in order <==> x in Seen(currentRows, baselineRows, ignored)
      ensures detected == JudgeAll(currentRows, baselineRows, order)
      ensures learning == Learners(baselineRows, Seen(currentRows, baselineRows, ignored))
    {
      var buckets := FillBuckets(baselineRows);
      StringOrder();
      var services := SortedBy(currentRows.Keys + buckets.Keys - ignored, StringLt);
      detected, order, learning := [], services, map[];
      for n := 0 to |services|
        invariant Judged(currentRows, baselineRows, services, n, detected, learning)
      {
        var service := services[n];
        var history := [];
        if service in buckets {
          history := History(buckets[service]);
        } else {
          NoBuckets(baselineRows, service);
        }
        OneMoreJudged(currentRows, baselineRows, services, n, detected, learning, history);
        if |history| < RED_MIN_BASELINE_BUCKETS {
          learning := learning[service := |history|];
        }
        var current := if service in currentRows then Some(currentRows[service]) else None;
        detected := detected + EvaluateRed(service, current, history);
      }
      assert services[..|services|] == services;
      assert Members(services) == Seen(currentRows, baselineRows, ignored);
    }

    /** Both engines of a scan: the merged detections have one result per key. */
    method Detect(currentRows: map<string, RedWindow>, baselineRows: map<(string, int), RedWindow>,
                  metricDetected: seq<Detection>, ignored: set<string>)
      returns (detected: seq<Detection>, ghost order: seq<string>)
      requires FromGauges(metricDetected)
      modifies this
      ensures Ascends(order, StringLt) && forall x :: x in order <==> x in Seen(currentRows, baselineRows, ignored)
      ensures detected == Merged(JudgeAll(currentRows, baselineRows, order), metricDetected)
      ensures JudgeAll(currentRows, baselineRows, order) <= detected
      ensures forall d | d in detected :: d in JudgeAll(currentRows, baselineRows, order) || d in metricDetected
      ensures forall d | d in metricDetected :: Reported(detected, d.Key())
      ensures UniqueKeys(detected) && AllInRange(detected)
      ensures learning == Learners(baselineRows, Seen(currentRows, baselineRows, ignored))
    {
      var spanDetected;
      spanDetected, order := SpanBasedDetections(currentRows, baselineRows, ignored);
      JudgeAllIsWellFormed(currentRows, baselineRows, order);
      detected := MergeDetections(spanDetected, metricDetected);
      GaugesAreNotSpanMetrics();
    }
  }

  // ---- retention cannot be seen ---------------------------------------------------------

  lemma GroupsKept(spans: seq<Span>, cutoff: int, now: int)
    ensures cutoff <= CurrentFrom(now) ==>
              CurrentServices(Filter(spans, NoOlderThan(StartOf(), cutoff)), now) == CurrentServices(spans, now)
    ensures cutoff <= BaselineFrom(now) ==>
              BaselineKeys(Filter(spans, NoOlderThan(StartOf(), cutoff)), now) == BaselineKeys(spans, now)
  {
    var kept := Filter(spans, NoOlderThan(StartOf(), cutoff));
    assert forall s :: s in kept <==> s in spans && s.start >= cutoff;
  }

  lemma CurrentRowsKept(spans: seq<Span>, cutoff: int, now: int, p95: seq<Span> -> real)
    requires cutoff <= CurrentFrom(now)
    ensures CurrentRows(Filter(spans, NoOlderThan(StartOf(), cutoff)), now, p95) == CurrentRows(spans, now, p95)
  {
    GroupsKept(spans, cutoff, now);
    forall service | service in CurrentServices(spans, now)
      ensures Filter(Filter(spans, NoOlderThan(StartOf(), cutoff)), InCurrent(now, service))
          == Filter(spans, InCurrent(now, service))
    {
      FilterTwice(spans, NoOlderThan(StartOf(), cutoff), InCurrent(now, service));
    }
  }

  lemma BaselineRowsKept(spans: seq<Span>, cutoff: int, now: int, p95: seq<Span> -> real)
    requires cutoff <= BaselineFrom(now)
    ensures BaselineRows(Filter(spans, NoOlderThan(StartOf(), cutoff)), now, p95) == BaselineRows(spans, now, p95)
  {
    GroupsKept(spans, cutoff, now);
    forall key | key in BaselineKeys(spans, now)
      ensures Filter(Filter(spans, NoOlderThan(StartOf(), cutoff)), InBucket(now, key.0, key.1))
          == Filter(spans, InBucket(now, key.0, key.1))
    {
      FilterTwice(spans, NoOlderThan(StartOf(), cutoff), InBucket(now, key.0, key.1));
    }
  }

  /**
   Deleting spans from before the seventeen minutes that a scan looks back on changes none of the
   windows the scan judges. So a scan never sees a retention of seventeen minutes or more that
   ran at the same time or earlier.
   */
  lemma RetentionIsInvisible(spans: seq<Span>, retainedAt: int, minutes: int, cutoff: int, now: int,
      p95: seq<Span> -> real)
    requires retainedAt <= now && minutes >= 17 && cutoff == retainedAt - minutes * NS_PER_MINUTE
    ensures CurrentRows(Filter(spans, NoOlderThan(StartOf(), cutoff)), now, p95) == CurrentRows(spans, now, p95)
    ensures BaselineRows(Filter(spans, NoOlderThan(StartOf(), cutoff)), now, p95) == BaselineRows(spans, now, p95)
  {
    assert cutoff <= BaselineFrom(now) <= CurrentFrom(now);
    CurrentRowsKept(spans, cutoff, now, p95);
    BaselineRowsKept(spans, cutoff, now, p95);
  }

  /** Seventeen is the least: a shorter retention can delete the oldest minute of a history. */
  lemma ShorterRetentionIsVisible(minutes: int, now: int, p95: seq<Span> -> real)
    requires minutes < 17 && BaselineFrom(now) >= 0
    ensures exists spans: seq<Span> ::
              BaselineRows(Filter(spans, NoOlderThan(StartOf(), now - minutes * NS_PER_MINUTE)), now, p95)
                != BaselineRows(spans, now, p95)
  {
    var s := Span("a", "", Some("svc"), BaselineFrom(now), BaselineFrom(now), 2, None);
    var spans := [s];
    var keep := NoOlderThan(StartOf(), now - minutes * NS_PER_MINUTE);
    assert spans[..0] == [];
    assert Filter(spans, keep) == [];
    assert s in spans && Handled(s) && InHistory(s, now);
    assert ("svc", 0) in BaselineRows(spans, now, p95);
    assert ("svc", 0) !in BaselineRows(Filter(spans, keep), now, p95);
  }
}
