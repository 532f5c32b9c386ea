/** The rule table that turns the active anomalies of a service into a rule and a severity. */
module Rules {
  import opened Prelude
  import opened Red
  import opened Anomalies
  import Statistics

  datatype Rule = ServiceDown | LatencySpikeCritical | HighErrorRate | LatencySpikeHigh | MultiSignal | SingleAnomaly

  datatype Severity = Medium | High | Critical

  datatype RuleMatch = RuleMatch(rule: Rule, severity: Severity)

  const ERROR_KEYWORDS := ["error", "fail", "exception", "fault"]
  const LATENCY_KEYWORDS := ["duration", "latency", "response_time", "rtt"]

  // ---- metric names ---------------------------------------------------------------------

  /** Letters beyond ASCII that Python lowers to ASCII ones complete none of the keywords. */
  function LowerChar(c: char): char
  {
    if 'A' <= c <= 'Z' then c - 'A' + 'a' else c
  }

  function Lower(s: string): string
  {
    seq(|s|, i requires 0 <= i < |s| => LowerChar(s[i]))
  }

  predicate OccursAt(s: string, k: string, i: nat) { i + |k| <= |s| && s[i..i+|k|] == k }

  predicate Contains(s: string, k: string)
  {
    exists i: nat | i <= |s| :: OccursAt(s, k, i)
  }

  predicate IsErrorMetric(name: string) { exists k | k in ERROR_KEYWORDS :: Contains(Lower(name), k) }

  predicate IsLatencyMetric(name: string) { exists k | k in LATENCY_KEYWORDS :: Contains(Lower(name), k) }

  /** The keyword stands at position i of the name, in capitals or not. */
  ghost predicate SpeltAt(name: string, k: string, i: nat)
  {
    && i + |k| <= |name|
    && forall j | 0 <= j < |k| ::
         name[i + j] == k[j] || ('a' <= k[j] <= 'z' && name[i + j] == k[j] - 'a' + 'A')
  }

  ghost predicate SpeltIn(name: string, k: string) { exists i: nat :: SpeltAt(name, k, i) }

  lemma ContainsExactly(name: string, k: string)
    requires forall i | 0 <= i < |k| :: !('A' <= k[i] <= 'Z')
    ensures Contains(Lower(name), k) <==> SpeltIn(name, k)
  {
    forall i: nat
      ensures OccursAt(Lower(name), k, i) <==> SpeltAt(name, k, i)
    {
      if i + |k| <= |name| {
        var lowered := Lower(name)[i..i+|k|];
        assert forall j | 0 <= j < |k| :: lowered[j] == LowerChar(name[i + j]);
      }
    }
  }

  /** The kind of a metric: which keywords its name spells somewhere, in capitals or not. */
  lemma MetricKindExact(name: string)
    ensures IsErrorMetric(name) <==>
              SpeltIn(name, "error") || SpeltIn(name, "fail") || SpeltIn(name, "exception") || SpeltIn(name, "fault")
    ensures IsLatencyMetric(name) <==>
              SpeltIn(name, "duration") || SpeltIn(name, "latency") || SpeltIn(name, "response_time")
              || SpeltIn(name, "rtt")
  {
    forall k | k in ERROR_KEYWORDS || k in LATENCY_KEYWORDS
      ensures Contains(Lower(name), k) <==> SpeltIn(name, k)
    {
      ContainsExactly(name, k);
    }
    assert forall k :: k in ERROR_KEYWORDS <==> k in {"error", "fail", "exception", "fault"};
    assert forall k :: k in LATENCY_KEYWORDS <==> k in {"duration", "latency", "response_time", "rtt"};
  }

  lemma SpanMetricNames()
    ensures IsErrorMetric(ERROR_RATE) && IsLatencyMetric(LATENCY_P95)
  {
    assert OccursAt(Lower(ERROR_RATE), ERROR_KEYWORDS[0], 5);
    assert ERROR_KEYWORDS[0] in ERROR_KEYWORDS && Contains(Lower(ERROR_RATE), ERROR_KEYWORDS[0]);
    assert OccursAt(Lower(LATENCY_P95), LATENCY_KEYWORDS[1], 5);
    assert LATENCY_KEYWORDS[1] in LATENCY_KEYWORDS && Contains(Lower(LATENCY_P95), LATENCY_KEYWORDS[1]);
  }

  // ---- the table ------------------------------------------------------------------------

  predicate Beyond(a: Anomaly, threshold: real) { Statistics.Abs(a.z) >= threshold }

  /** A loop over the anomalies of one kind that returns at the first z beyond a threshold. */
  function AnyBeyond(anomalies: seq<Anomaly>, kind: string -> bool, threshold: real): bool
  {
    if anomalies == [] then false
    else if kind(anomalies[0].metric) && Beyond(anomalies[0], threshold) then true
    else AnyBeyond(anomalies[1..], kind, threshold)
  }

  function EvaluateRules(anomalies: seq<Anomaly>): Option<RuleMatch>
  {
    if anomalies == [] then None
    else if AnyBeyond(anomalies, IsErrorMetric, 8.0) then Some(RuleMatch(ServiceDown, Critical))
    else if AnyBeyond(anomalies, IsLatencyMetric, 8.0) then Some(RuleMatch(LatencySpikeCritical, Critical))
    else if AnyBeyond(anomalies, IsErrorMetric, 3.0) then Some(RuleMatch(HighErrorRate, High))
    else if AnyBeyond(anomalies, IsLatencyMetric, 3.0) then Some(RuleMatch(LatencySpikeHigh, High))
    else if |anomalies| >= 2 then Some(RuleMatch(MultiSignal, High))
    else Some(RuleMatch(SingleAnomaly, Medium))
  }

  lemma {:induction false} AnyBeyondMeans(anomalies: seq<Anomaly>, kind: string -> bool, threshold: real)
    ensures AnyBeyond(anomalies, kind, threshold) <==>
              exists a :: a in anomalies && kind(a.metric) && Beyond(a, threshold)
  {
    if anomalies != [] {
      assert anomalies == [anomalies[0]] + anomalies[1..];
      AnyBeyondMeans(anomalies[1..], kind, threshold);
    }
  }

  predicate ErrorOrLatency(a: Anomaly) { IsErrorMetric(a.metric) || IsLatencyMetric(a.metric) }

  lemma TableMeans(anomalies: seq<Anomaly>)
    ensures forall t | t in {3.0, 8.0} :: AnyBeyond(anomalies, IsErrorMetric, t) <==>
                        exists a :: a in anomalies && IsErrorMetric(a.metric) && Beyond(a, t)
    ensures forall t | t in {3.0, 8.0} :: AnyBeyond(anomalies, IsLatencyMetric, t) <==>
                        exists a :: a in anomalies && IsLatencyMetric(a.metric) && Beyond(a, t)
  {
    AnyBeyondMeans(anomalies, IsErrorMetric, 3.0);
    AnyBeyondMeans(anomalies, IsErrorMetric, 8.0);
    AnyBeyondMeans(anomalies, IsLatencyMetric, 3.0);
    AnyBeyondMeans(anomalies, IsLatencyMetric, 8.0);
  }

  /** The order of the anomalies does not matter, and of repeated ones only that there are two. */
  lemma OnlyTheMultisetMatters(xs: seq<Anomaly>, ys: seq<Anomaly>)
    requires multiset(xs) == multiset(ys)
    ensures EvaluateRules(xs) == EvaluateRules(ys)
  {
    assert |xs| == |multiset(xs)| == |multiset(ys)| == |ys|;
    assert forall a :: a in xs <==> a in multiset(xs);
    assert forall a :: a in ys <==> a in multiset(ys);
    TableMeans(xs);
    TableMeans(ys);
  }

  /** A severity is critical, or at least high, exactly under these conditions. */
  lemma SeverityExact(anomalies: seq<Anomaly>)
    requires anomalies != []
    ensures EvaluateRules(anomalies).Some?
    ensures EvaluateRules(anomalies).value.severity == Critical <==>
              exists a :: a in anomalies && ErrorOrLatency(a) && Beyond(a, 8.0)
    ensures EvaluateRules(anomalies).value.severity != Medium <==>
              |anomalies| >= 2 || exists a :: a in anomalies && ErrorOrLatency(a) && Beyond(a, 3.0)
  {
    TableMeans(anomalies);
  }

  /** Some anomaly of this kind is beyond the threshold. */
  ghost predicate Has(anomalies: seq<Anomaly>, kind: string -> bool, threshold: real)
  {
    exists a :: a in anomalies && kind(a.metric) && (a.z >= threshold || a.z <= -threshold)
  }

  lemma HasMeans(anomalies: seq<Anomaly>, kind: string -> bool, threshold: real)
    ensures Has(anomalies, kind, threshold) <==> AnyBeyond(anomalies, kind, threshold)
  {
    AnyBeyondMeans(anomalies, kind, threshold);
  }

  /** The order of priority: the critical thresholds come before the high ones, errors before latency. */
  lemma RuleExact(anomalies: seq<Anomaly>)
    requires anomalies != []
    ensures var rule := EvaluateRules(anomalies).value.rule;
            && (rule == ServiceDown <==> Has(anomalies, IsErrorMetric, 8.0))
            && (rule == LatencySpikeCritical <==>
                !Has(anomalies, IsErrorMetric, 8.0) && Has(anomalies, IsLatencyMetric, 8.0))
            && (rule == HighErrorRate <==>
                !Has(anomalies, IsErrorMetric, 8.0) && !Has(anomalies, IsLatencyMetric, 8.0)
                    && Has(anomalies, IsErrorMetric, 3.0))
            && (rule == SingleAnomaly <==>
                |anomalies| == 1 && !Has(anomalies, IsErrorMetric, 3.0) && !Has(anomalies, IsLatencyMetric, 3.0))
            && (rule == MultiSignal <==>
                |anomalies| >= 2 && !Has(anomalies, IsErrorMetric, 3.0) && !Has(anomalies, IsLatencyMetric, 3.0))
  {
    HasMeans(anomalies, IsErrorMetric, 3.0);
    HasMeans(anomalies, IsErrorMetric, 8.0);
    HasMeans(anomalies, IsLatencyMetric, 3.0);
    HasMeans(anomalies, IsLatencyMetric, 8.0);
  }

  function Rank(m: Option<RuleMatch>): nat
  {
    if m.None? then 0
    else match m.value.severity case Medium => 1 case High => 2 case Critical => 3
  }

  /** More anomalies never lower the severity. */
  lemma MoreIsNeverLess(fewer: seq<Anomaly>, more: seq<Anomaly>)
    requires |fewer| <= |more| && forall a | a in fewer :: a in more
    ensures Rank(EvaluateRules(fewer)) <= Rank(EvaluateRules(more))
  {
    if fewer != [] {
      SeverityExact(fewer);
      SeverityExact(more);
    }
  }

  /** A span error or latency anomaly with a reported z of 3 or more is at least high. */
  lemma SpanAnomalyIsHigh(anomalies: seq<Anomaly>, a: Anomaly)
    requires a in anomalies && (a.metric == ERROR_RATE || a.metric == LATENCY_P95) && a.z >= RED_Z_MIN
    ensures Rank(EvaluateRules(anomalies)) >= 2
  {
    SpanMetricNames();
    SeverityExact(anomalies);
  }

  lemma StartsAlike(s: string, k: string, i: nat)
    requires |k| >= 3
    ensures OccursAt(s, k, i) ==> i + 3 <= |s| && k[0] == s[i] && k[1] == s[i+1] && k[2] == s[i+2]
  {
    if OccursAt(s, k, i) {
      var t := s[i..i+|k|];
      assert t[0] == s[i] && t[1] == s[i+1] && t[2] == s[i+2];
    }
  }

  lemma SilentIsNeither()
    ensures !IsErrorMetric(SILENT) && !IsLatencyMetric(SILENT)
  {
    var s := Lower(SILENT);
    assert s == SILENT;
    forall k, i: nat | (k in ERROR_KEYWORDS || k in LATENCY_KEYWORDS) && i <= |s|
      ensures !OccursAt(s, k, i)
    {
      assert |k| >= 3;
      StartsAlike(s, k, i);
    }
  }

  /** A service that went silent, and nothing else, is an incident of medium severity only. */
  lemma SilenceAloneIsMedium(a: Anomaly)
    requires a.metric == SILENT
    ensures EvaluateRules([a]) == Some(RuleMatch(SingleAnomaly, Medium))
  {
    SilentIsNeither();
    TableMeans([a]);
  }
}
