/**
 The detection cycle: a scan updates the anomalies table, the incident engine follows it, and the
 root-cause analysis answers for every open incident.
 Cycles are serialised by the pipeline lock.
 */
module Pipeline {
  import opened Prelude
  import opened Telemetry
  import opened Red
  import opened Scan
  import opened Anomalies
  import opened AnomalyHistory
  import opened Rules
  import opened Incidents
  import opened IncidentHistory
  import opened SpanHistory
  import Explanations
  import GaugeScan
  import Rca
  import ResourceMetrics
  import RootCauses

  // ---- incidents as a function of the detection history ---------------------------------

  /** A service has an open incident exactly when a metric of it is active in the closed form. */
  lemma IncidentsFollowHistory(passes: seq<Pass>, incs: Incidents, service: string)
    requires Sound(passes) && OpenServices(incs) == ActiveServices(Run(passes))
    ensures service in OpenServices(incs) <==> exists metric: string, i :: Warm(passes, (service, metric), i)
  {
    var rows := Run(passes);
    if service in OpenServices(incs) {
      var a :| a in rows && a.isActive && a.service == service;
      ActiveClosedForm(passes, (service, a.metric));
      assert IsActive(rows, (service, a.metric));
      var i :| Warm(passes, (service, a.metric), i);
    }
    if metric: string, i :| Warm(passes, (service, metric), i) {
      ActiveClosedForm(passes, (service, metric));
      var a :| a in rows && a.isActive && a.Key() == (service, metric);
      assert a.service == service;
    }
  }

  /** With a clock that never runs back: exactly when a metric of it was detected in the last 90 s. */
  lemma IncidentsFollowRecentDetections(passes: seq<Pass>, incs: Incidents, service: string)
    requires Sound(passes) && Monotone(passes) && passes != []
    requires OpenServices(incs) == ActiveServices(Run(passes))
    ensures service in OpenServices(incs) <==>
              exists metric: string, i: nat :: i < |passes| && Detects(passes[i].detected, (service, metric))
                                               && passes[|passes|-1].now - passes[i].now < 90_000_000_000
  {
    var rows := Run(passes);
    if service in OpenServices(incs) {
      var a :| a in rows && a.isActive && a.service == service;
      ActiveMeansRecent(passes, (service, a.metric));
      assert IsActive(rows, (service, a.metric));
    }
    forall metric: string, i: nat | i < |passes| && Detects(passes[i].detected, (service, metric))
                                    && passes[|passes|-1].now - passes[i].now < 90_000_000_000
      ensures service in OpenServices(incs)
    {
      ActiveMeansRecent(passes, (service, metric));
      var a :| a in rows && a.isActive && a.Key() == (service, metric);
      assert a.service == service;
    }
  }

  /** Rows of the span error and latency metrics keep a z of at least 3. */
  predicate KeepsZ(a: Anomaly)
  {
    a.metric == ERROR_RATE || a.metric == LATENCY_P95 ==> a.z >= RED_Z_MIN
  }

  ghost predicate InRange(passes: seq<Pass>) { forall p | p in passes :: AllInRange(p.detected) }

  lemma {:induction false} SpanRowsKeepZ(passes: seq<Pass>)
    requires InRange(passes)
    ensures forall a | a in Run(passes) :: KeepsZ(a)
  {
    if passes != [] {
      var init, last := passes[..|passes|-1], passes[|passes|-1];
      assert last in passes;
      SpanRowsKeepZ(init);
      ScannedRows(Run(init), last.detected, last.now);
      NewsAre(Run(init), last.detected);
      forall a | a in Run(init)
        ensures KeepsZ(Settled(a, last.detected, last.now))
      {
        LastForDetects(last.detected, a.Key());
      }
    }
  }

  /** An incident whose service has an active span error or latency anomaly is at least high. */
  lemma SpanIncidentIsHigh(passes: seq<Pass>, inc: Incident, a: Anomaly)
    requires InRange(passes)
    requires Reflects(inc, Run(passes))
    requires a in Run(passes) && a.isActive && a.service == inc.affected[0]
    requires a.metric == ERROR_RATE || a.metric == LATENCY_P95
    ensures inc.severity != Medium
  {
    SpanRowsKeepZ(passes);
    GroupMembers(Run(passes), a.service);
    SpanAnomalyIsHigh(Group(Run(passes), a.service), a);
  }

  // ---- from spans to incidents ----------------------------------------------------------

  ghost predicate OpenFor(incs: Incidents, service: string, inc: Incident)
  {
    inc in incs && IsOpen(inc) && inc.affected == [service]
  }

  /** Its open incident is of high severity or above. */
  ghost predicate HasHighIncident(incs: Incidents, service: string)
  {
    exists inc :: OpenFor(incs, service, inc) && inc.severity != Medium
  }

  /** What a cycle owes a service for the spans it has handled. */
  ghost predicate Alerted(incs: Incidents, spans: seq<Span>, now: int, p95: seq<Span> -> real, service: string)
  {
    && (Silent(spans, now, service) ==> exists inc :: OpenFor(incs, service, inc))
    && (UsuallyClean(spans, now, service) && FailsNow(spans, now, service, 1000) ==> HasHighIncident(incs, service))
    && (UsuallyClean(spans, now, service) && FailsNow(spans, now, service, 1599) ==>
          exists inc :: OpenFor(incs, service, inc) && inc.rule == ServiceDown && inc.severity == Critical)
    && (forall lo, hi | UsuallyWithin(spans, now, p95, service, lo, hi)
                        && p95(Filter(spans, HandledNow(now, service))) >= AlwaysFiresFrom(lo, hi) ::
          HasHighIncident(incs, service))
  }

  /** The last pass merged what the scan found in the spans with detections of gauges. */
  ghost predicate Scans(pass: Pass, spans: seq<Span>, now: int, p95: seq<Span> -> real, order: seq<string>)
  {
    && UniqueKeys(pass.detected)
    && (forall d | d in SpanHistory.Verdicts(spans, now, p95, order) :: d in pass.detected)
    && (forall d | d in pass.detected ::
          d in SpanHistory.Verdicts(spans, now, p95, order) || d.metric in METRIC_ALLOWLIST)
  }

  /** The judged services in name order. */
  ghost predicate Orders(order: seq<string>, spans: seq<Span>, now: int, p95: seq<Span> -> real, ignored: set<string>)
  {
    && Ascends(order, StringLt)
    && forall x :: x in order <==> x in Seen(CurrentRows(spans, now, p95), BaselineRows(spans, now, p95), ignored)
  }

  lemma IncidentOf(incs: Incidents, rows: Rows, a: Anomaly) returns (inc: Incident)
    requires Agrees(incs, rows)
    requires a in rows && a.isActive
    ensures OpenFor(incs, a.service, inc) && Reflects(inc, rows)
  {
    assert a.service in OpenServices(incs);
    inc :| inc in incs && IsOpen(inc) && inc.affected != [] && inc.affected[0] == a.service;
    var i :| 0 <= i < |incs| && incs[i] == inc;
  }

  /** The row of a key that the last scan reported is active and has the z of a detection of that key. */
  lemma {:induction false} ReportedRow(passes: seq<Pass>, key: Key) returns (a: Anomaly, d: Detection)
    requires passes != [] && UniqueKeys(passes[|passes|-1].detected)
    requires Reported(passes[|passes|-1].detected, key)
    ensures a in Run(passes) && a.isActive && a.Key() == key
    ensures d in passes[|passes|-1].detected && d.Key() == key && a.z == d.z
  {
    var last := passes[|passes|-1];
    DetectedIsActive(Run(passes[..|passes|-1]), last.detected, last.now, key);
    assert Run(passes) == Scanned(Run(passes[..|passes|-1]), last.detected, last.now);
    a :| a in Run(passes) && a.isActive && a.Key() == key;
    ActiveAfter(Run(passes[..|passes|-1]), last.detected, last.now, a);
    LastForDetects(last.detected, key);
    d := LastFor(last.detected, key).value;
  }

  /** A service reported for its error rate or its latency has such an incident. */
  lemma {:induction false} ReportedIsHigh(passes: seq<Pass>, incs: Incidents, service: string, metric: string)
    requires InRange(passes) && passes != [] && UniqueKeys(passes[|passes|-1].detected) && Agrees(incs, Run(passes))
    requires Reported(passes[|passes|-1].detected, (service, metric)) && metric in {ERROR_RATE, LATENCY_P95}
    ensures HasHighIncident(incs, service)
  {
    var a, d := ReportedRow(passes, (service, metric));
    var inc := IncidentOf(incs, Run(passes), a);
    SpanIncidentIsHigh(passes, inc, a);
  }

  lemma {:induction false} DownIsCritical(passes: seq<Pass>, incs: Incidents, spans: seq<Span>, now: int,
      p95: seq<Span> -> real, order: seq<string>, service: string)
    requires passes != [] && Agrees(incs, Run(passes)) && Scans(passes[|passes|-1], spans, now, p95, order)
    requires Reported(passes[|passes|-1].detected, (service, ERROR_RATE))
    requires UsuallyClean(spans, now, service) && FailsNow(spans, now, service, 1599)
    ensures exists inc :: OpenFor(incs, service, inc) && inc.rule == ServiceDown && inc.severity == Critical
  {
    var a, d := ReportedRow(passes, (service, ERROR_RATE));
    GaugesAreNotSpanMetrics();
    FailureIsReported(spans, now, p95, order, service);
    var inc := IncidentOf(incs, Run(passes), a);
    SpanMetricNames();
    IncidentExact(inc, Run(passes), service);
    assert HasActive(Run(passes), service, IsErrorMetric, 8.0);
  }

  lemma IsJudged(spans: seq<Span>, now: int, p95: seq<Span> -> real, ignored: set<string>, service: string)
    requires service !in ignored && (Silent(spans, now, service) || Count(spans, HandledNow(now, service)) > 0)
    ensures service in Seen(CurrentRows(spans, now, p95), BaselineRows(spans, now, p95), ignored)
  {
    JudgedExactly(spans, now, p95, ignored, service);
    CountPositive(spans, HandledNow(now, service));
    if m: nat :| MinutesKnown(spans, now, service, m) && m >= 5 {
      CountPositive(spans, InMinute(now, service, 15 - m));
    }
  }

  lemma {:induction false} ServiceIsAlerted(passes: seq<Pass>, incs: Incidents, spans: seq<Span>, now: int,
      p95: seq<Span> -> real, ignored: set<string>, order: seq<string>, service: string)
    requires InRange(passes) && passes != [] && Agrees(incs, Run(passes))
    requires Scans(passes[|passes|-1], spans, now, p95, order) && Orders(order, spans, now, p95, ignored)
    requires service !in ignored
    ensures Alerted(incs, spans, now, p95, service)
  {
    if Silent(spans, now, service) {
      IsJudged(spans, now, p95, ignored, service);
      SilenceIsReported(spans, now, p95, order, service);
      StillReported(passes[|passes|-1], spans, now, p95, order, (service, SILENT));
      var a, d := ReportedRow(passes, (service, SILENT));
      var inc := IncidentOf(incs, Run(passes), a);
    }
    if UsuallyClean(spans, now, service) && FailsNow(spans, now, service, 1000) {
      IsJudged(spans, now, p95, ignored, service);
      FailureIsReported(spans, now, p95, order, service);
      StillReported(passes[|passes|-1], spans, now, p95, order, (service, ERROR_RATE));
      ReportedIsHigh(passes, incs, service, ERROR_RATE);
      if FailsNow(spans, now, service, 1599) {
        DownIsCritical(passes, incs, spans, now, p95, order, service);
      }
    }
    forall lo, hi | UsuallyWithin(spans, now, p95, service, lo, hi)
                    && p95(Filter(spans, HandledNow(now, service))) >= AlwaysFiresFrom(lo, hi)
      ensures HasHighIncident(incs, service)
    {
      IsJudged(spans, now, p95, ignored, service);
      SlownessIsReported(spans, now, p95, order, service, lo, hi);
      StillReported(passes[|passes|-1], spans, now, p95, order, (service, LATENCY_P95));
      ReportedIsHigh(passes, incs, service, LATENCY_P95);
    }
  }

  /** Every service that is not ignored has the incidents it is owed. */
  ghost predicate AllAlerted(incs: Incidents, spans: seq<Span>, now: int, p95: seq<Span> -> real, ignored: set<string>)
  {
    forall service | service !in ignored :: Alerted(incs, spans, now, p95, service)
  }

  /** So it is after a cycle. */
  lemma {:induction false} IncidentsFollowSpans(passes: seq<Pass>, incs: Incidents, spans: seq<Span>, now: int,
      p95: seq<Span> -> real, ignored: set<string>, order: seq<string>)
    requires InRange(passes) && passes != [] && Agrees(incs, Run(passes))
    requires Scans(passes[|passes|-1], spans, now, p95, order) && Orders(order, spans, now, p95, ignored)
    ensures AllAlerted(incs, spans, now, p95, ignored)
  {
    forall service | service !in ignored
      ensures Alerted(incs, spans, now, p95, service)
    {
      ServiceIsAlerted(passes, incs, spans, now, p95, ignored, order, service);
    }
  }

  lemma StillReported(pass: Pass, spans: seq<Span>, now: int, p95: seq<Span> -> real, order: seq<string>, key: Key)
    requires Scans(pass, spans, now, p95, order) && Reported(SpanHistory.Verdicts(spans, now, p95, order), key)
    ensures Reported(pass.detected, key)
  {
    var d :| d in SpanHistory.Verdicts(spans, now, p95, order) && d.Key() == key;
    assert d in pass.detected;
  }

  // ---- root causes of the open incidents ------------------------------------------------

  /** The candidates for an incident: services with an active anomaly and a name, and the affected ones. */
  function Suspects(rows: Rows, inc: Incident): set<string>
  {
    (ActiveServices(rows) - {""}) + Members(inc.affected)
  }

  /** After a cycle every open incident has candidates, all with active anomalies: the fallback is never used. */
  lemma SuspectsAreActive(rows: Rows, inc: Incident)
    requires Reflects(inc, rows)
    ensures Suspects(rows, inc) != {} && Suspects(rows, inc) <= ActiveServices(rows)
    ensures inc.affected == [inc.affected[0]] && inc.affected[0] in Suspects(rows, inc)
    ensures forall s :: s in Suspects(rows, inc) <==>
              s in inc.affected || (s != "" && exists a :: a in rows && a.isActive && a.service == s)
  {
    assert inc.affected[0] in Members(inc.affected);
  }

  /** Incident i of the table has this answer. */
  ghost predicate Analysed(incs: Incidents, rows: Rows, calls: seq<Rca.Call>, i: nat, found: Rca.Finding)
  {
    && i < |incs| && IsOpen(incs[i])
    && Rca.Answers(calls, incs[i].affected, Suspects(rows, incs[i]), found)
  }

  method AnalyseIncident(incs: Incidents, rows: Rows, live: seq<Rca.Call>, i: nat) returns (found: Rca.Finding)
    requires i < |incs| && IsOpen(incs[i]) && Reflects(incs[i], rows)
    ensures Analysed(incs, rows, Rca.CANONICAL + live, i, found)
  {
    SuspectsAreActive(rows, incs[i]);
    found := Rca.RunRca(incs[i].affected, ActiveServices(rows) - {""}, live);
  }

  ghost function Verdict(incs: Incidents, rows: Rows, calls: seq<Rca.Call>): (nat, Rca.Finding) -> bool
  {
    (i: nat, found: Rca.Finding) => Analysed(incs, rows, calls, i, found)
  }

  /** One answer for each open incident among the first n, by incident id. */
  ghost predicate OnePerOpen(incs: Incidents, n: nat, findings: map<nat, Rca.Finding>, ok: (nat, Rca.Finding) -> bool)
    requires n <= |incs|
  {
    && (forall i: nat :: i in findings <==> i < n && IsOpen(incs[i]))
    && (forall i | i in findings :: ok(i, findings[i]))
  }

  lemma OneMoreFinding(incs: Incidents, n: nat, findings: map<nat, Rca.Finding>, found: Rca.Finding,
                       ok: (nat, Rca.Finding) -> bool)
    requires n < |incs| && OnePerOpen(incs, n, findings, ok)
    ensures !IsOpen(incs[n]) ==> OnePerOpen(incs, n + 1, findings, ok)
    ensures IsOpen(incs[n]) && ok(n, found) ==> OnePerOpen(incs, n + 1, findings[n := found], ok)
  {
  }

  /** run_rca_for_all_open */
  method AnalyseOpen(incs: Incidents, rows: Rows, live: seq<Rca.Call>) returns (findings: map<nat, Rca.Finding>)
    requires AllReflect(incs, rows)
    ensures OnePerOpen(incs, |incs|, findings, Verdict(incs, rows, Rca.CANONICAL + live))
  {
    ghost var ok := Verdict(incs, rows, Rca.CANONICAL + live);
    findings := map[];
    for n := 0 to |incs|
      invariant OnePerOpen(incs, n, findings, ok)
    {
      if IsOpen(incs[n]) {
        var found := AnalyseIncident(incs, rows, live, n);
        OneMoreFinding(incs, n, findings, found, ok);
        findings := findings[n := found];
      } else {
        OneMoreFinding(incs, n, findings, Rca.Fallback([]), ok);
      }
    }
  }

  /**
   The root cause named for an open incident has an active anomaly itself; it is the incident's
   own service exactly when that one calls no other candidate, or every candidate calls another.
   */
  lemma OpenIncidentBlames(incs: Incidents, rows: Rows, calls: seq<Rca.Call>, i: nat, found: Rca.Finding)
    requires Analysed(incs, rows, calls, i, found) && Reflects(incs[i], rows)
    ensures found.rootCause in ActiveServices(rows)
    ensures found.rootCause == incs[i].affected[0] <==>
              || Rca.Sink(calls, Suspects(rows, incs[i]), incs[i].affected[0])
              || forall t | t in Suspects(rows, incs[i]) :: !Rca.Sink(calls, Suspects(rows, incs[i]), t)
  {
    SuspectsAreActive(rows, incs[i]);
    RootCauses.BlamesItself(calls, incs[i].affected[0], Suspects(rows, incs[i]), found);
  }

  // ---- one cycle after another ----------------------------------------------------------

  /** A scan, then the engine: the table of one more pass, incidents that agree with it, and balanced counts. */
  lemma CycleFacts(passes: seq<Pass>, pass: Pass, rows: Rows, before: Incidents, engineAt: nat,
      newcomers: seq<string>, after: Incidents)
    requires Sound(passes) && InRange(passes) && UniqueKeys(pass.detected) && AllInRange(pass.detected) && pass.now > 0
    requires rows == Scanned(Run(passes), pass.detected, pass.now)
    requires OnePerService(before) && Engine(before, rows, engineAt, newcomers, after)
    ensures rows == Run(passes + [pass]) && Sound(passes + [pass]) && InRange(passes + [pass])
    ensures Agrees(after, rows)
    ensures Count(after, IsOpen) == |ActiveServices(rows)|
    ensures |ActiveServices(rows) - OpenServices(before)| + |ActiveServices(rows) * OpenServices(before)|
        == Count(after, IsOpen)
    ensures Count(before, IsOpen)
        + |ActiveServices(rows) - OpenServices(before)| - |OpenServices(before) - ActiveServices(rows)|
              == Count(after, IsOpen)
  {
    assert (passes + [pass])[..|passes|] == passes;
    EngineAgrees(before, rows, engineAt, newcomers, after);
    OpenIncidentsCount(before);
    OpenIncidentsCount(after);
    BooksBalance(ActiveServices(rows), OpenServices(before));
  }

  /** Explanations are tried for open incidents without one. */
  predicate ReportsOnly(reports: seq<Explanations.Report>, incs: Incidents, explained: set<nat>)
  {
    forall r | r in reports :: r.id < |incs| && incs[r.id].status == Open && r.id !in explained
  }

  lemma ReportsAreOpen(q: Explanations.Queue, incs: Incidents, clock: real, outcome: nat -> Explanations.Outcome)
    ensures ReportsOnly(Explanations.Step(q, Explanations.Cycle(OpenIds(incs), clock, outcome)).1, incs, q.explained)
  {
    var c := Explanations.Cycle(OpenIds(incs), clock, outcome);
    Explanations.StepExact(q, c);
    forall r | r in Explanations.Step(q, c).1
      ensures r.id in c.open - q.explained
    {
      assert r == Explanations.Stored(r.id) || r == Explanations.GaveUp(r.id, r.at);
    }
  }

  class Pipeline {
    const detector: Detector
    const anomalies: AnomalyTable
    const incidents: IncidentTable
    const explainer: Explanations.Explainer
    /** Every scan so far. */
    ghost var history: seq<Pass>

    ghost predicate Valid()
      reads this, anomalies, incidents
    {
      && anomalies.rows == Run(history) && Sound(history) && InRange(history)
      && Agrees(incidents.incidents, anomalies.rows)
    }

    constructor ()
      ensures Valid() && history == []
      ensures fresh(detector) && fresh(anomalies) && fresh(incidents) && fresh(explainer)
    {
      detector := new Detector();
      anomalies := new AnomalyTable();
      incidents := new IncidentTable();
      explainer := new Explanations.Explainer();
      history := [];
    }

    /** Stores the detections of a scan, then lets the incidents follow. */
    method Follow(detected: seq<Detection>, scanAt: nat, engineAt: nat)
      returns (newlyOpened: seq<Key>, closed: seq<Key>, summary: Summary)
      requires Valid() && UniqueKeys(detected) && AllInRange(detected) && scanAt > 0
      modifies this, anomalies, incidents
      ensures Valid() && history == old(history) + [Pass(detected, scanAt)]
      ensures newlyOpened == KeysOf(News(old(anomalies.rows), detected))
      ensures closed == Expired(old(anomalies.rows), detected, scanAt)
      ensures EngineRan(old(incidents.incidents), anomalies.rows, engineAt, incidents.incidents)
      ensures Balanced(old(incidents.incidents), incidents.incidents, summary)
    {
      RowsAreSane(history);
      ghost var before := incidents.incidents;
      newlyOpened, closed := anomalies.Upsert(detected, scanAt);
      ghost var newcomers;
      summary, newcomers := incidents.RunEngine(anomalies.rows, engineAt);
      CycleFacts(history, Pass(detected, scanAt), anomalies.rows, before, engineAt, newcomers, incidents.incidents);
      history := history + [Pass(detected, scanAt)];
    }

    /** run_anomaly_scan up to the merge of both engines. */
    method Detect(db: Database, scanAt: nat, ignored: set<string>, p95: seq<Span> -> real,
                  candidates: seq<GaugeScan.Series>, stddev: GaugeScan.Series -> real)
      returns (detected: seq<Detection>, ghost order: seq<string>)
      requires GaugeScan.ListsCandidates(candidates, db.points, scanAt, ignored)
      requires forall s | s in candidates :: ResourceMetrics.IsStddev(db.points(s), scanAt, stddev(s))
      modifies detector
      ensures Orders(order, db.spans, scanAt, p95, ignored)
      ensures detected == GaugeScan.Detections(db.spans, db.points, scanAt, p95, order, candidates, stddev)
      ensures AllInRange(detected) && Scans(Pass(detected, scanAt), db.spans, scanAt, p95, order)
      ensures detector.learning == Learners(BaselineRows(db.spans, scanAt, p95), Members(order))
    {
      var gauges := GaugeScan.ScanGauges(candidates, db.points, scanAt, stddev);
      detected, order := detector.Detect(CurrentRows(db.spans, scanAt, p95), BaselineRows(db.spans, scanAt, p95),
          gauges, ignored);
      assert Members(order) == Seen(CurrentRows(db.spans, scanAt, p95), BaselineRows(db.spans, scanAt, p95), ignored);
    }

    /**
     run_cycle: detect, incidents, root causes, explanations. p95, stddev, the list of candidate
     series and the outcome of explanation calls come from outside.
     */
    method RunCycle(db: Database, scanAt: nat, engineAt: nat, ignored: set<string>, p95: seq<Span> -> real,
                    candidates: seq<GaugeScan.Series>, stddev: GaugeScan.Series -> real,
                    explain: bool, clock: real, outcome: nat -> Explanations.Outcome)
      returns (newlyOpened: seq<Key>, closed: seq<Key>, summary: Summary, findings: map<nat, Rca.Finding>,
               reports: seq<Explanations.Report>, ghost order: seq<string>)
      requires Valid() && scanAt > 0
      requires GaugeScan.ListsCandidates(candidates, db.points, scanAt, ignored)
      requires forall s | s in candidates :: ResourceMetrics.IsStddev(db.points(s), scanAt, stddev(s))
      modifies this, detector, anomalies, incidents, explainer
      ensures Orders(order, db.spans, scanAt, p95, ignored)
      ensures var detected := GaugeScan.Detections(db.spans, db.points, scanAt, p95, order, candidates, stddev);
              && Valid() && history == old(history) + [Pass(detected, scanAt)]
              && newlyOpened == KeysOf(News(old(anomalies.rows), detected))
              && closed == Expired(old(anomalies.rows), detected, scanAt)
      ensures EngineRan(old(incidents.incidents), anomalies.rows, engineAt, incidents.incidents)
      ensures Balanced(old(incidents.incidents), incidents.incidents, summary)
      ensures OnePerOpen(incidents.incidents, |incidents.incidents|, findings,
                         Verdict(incidents.incidents, anomalies.rows, Rca.CANONICAL + db.calls))
      ensures (explainer.State(), reports)
           == if explain
              then Explanations.Step(old(explainer.State()),
                                     Explanations.Cycle(OpenIds(incidents.incidents), clock, outcome))
              else (old(explainer.State()), [])
      ensures ReportsOnly(reports, incidents.incidents, old(explainer.explained))
      ensures AllAlerted(incidents.incidents, db.spans, scanAt, p95, ignored)
    {
      var merged;
      merged, order := Detect(db, scanAt, ignored, p95, candidates, stddev);
      newlyOpened, closed, summary := Follow(merged, scanAt, engineAt);
      IncidentsFollowSpans(history, incidents.incidents, db.spans, scanAt, p95, ignored, order);
      findings := AnalyseOpen(incidents.incidents, anomalies.rows, db.calls);
      reports := [];
      if explain {
        ReportsAreOpen(explainer.State(), incidents.incidents, clock, outcome);
        reports := explainer.ExplainNewIncidents(Explanations.Cycle(OpenIds(incidents.incidents), clock, outcome));
      }
    }
  }

  /** The tables that a cycle reads: spans, the points of each series, and the dependencies. */
  datatype Database = Database(spans: seq<Span>, points: GaugeScan.Series -> seq<ResourceMetrics.Point>,
      calls: seq<Rca.Call>)

  /** The summary counts the open incidents and accounts for how their number changed. */
  predicate Balanced(before: Incidents, after: Incidents, summary: Summary)
  {
    && summary.openCount == Count(after, IsOpen)
    && summary.created + summary.updated == Count(after, IsOpen)
    && Count(before, IsOpen) + summary.created - summary.resolved == Count(after, IsOpen)
  }

  lemma BooksBalance(now: set<string>, before: set<string>)
    ensures |now - before| + |now * before| == |now|
    ensures |before| + |now - before| - |before - now| == |now|
  {
    assert now == (now - before) + (now * before);
    assert before == (before - now) + (now * before);
  }
}
