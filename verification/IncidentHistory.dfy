/**
 The incidents table over any run of cycles: rows keep their place and never reopen, a service's
 incidents do not flap faster than its anomalies, and older incidents never jump the queue of
 explanations.
 */
module IncidentHistory {
  import opened Prelude
  import opened Anomalies
  import opened AnomalyHistory
  import opened Incidents
  import Explanations

  ghost predicate EngineRan(before: Incidents, rows: Rows, now: nat, after: Incidents)
  {
    OnePerService(before) && exists newcomers :: Engine(before, rows, now, newcomers, after)
  }

  /** tables[n] is the incidents table after the first n scans, each followed by the engine at its own time. */
  ghost predicate Cycles(passes: seq<Pass>, times: seq<nat>, tables: seq<Incidents>)
  {
    && |times| == |passes| && |tables| == |passes| + 1 && tables[0] == []
    && forall n | 0 <= n < |passes| :: EngineRan(tables[n], Run(passes[..n+1]), times[n], tables[n+1])
  }

  /** After every cycle the services with an open incident are those with an active anomaly. */
  lemma {:induction false} TablesAgree(passes: seq<Pass>, times: seq<nat>, tables: seq<Incidents>, n: nat)
    requires Cycles(passes, times, tables) && n <= |passes|
    ensures OnePerService(tables[n]) && OpenServices(tables[n]) == ActiveServices(Run(passes[..n]))
  {
    if n > 0 {
      assert EngineRan(tables[n-1], Run(passes[..n-1+1]), times[n-1], tables[n-1+1]);
      var newcomers :| Engine(tables[n-1], Run(passes[..n]), times[n-1], newcomers, tables[n]);
      EngineAgrees(tables[n-1], Run(passes[..n]), times[n-1], newcomers, tables[n]);
    }
  }

  // ---- rows over time -------------------------------------------------------------------

  /** Rows keep their place, their service and their time of creation, and a resolved one stays as it is. */
  ghost predicate Continues(before: Incidents, after: Incidents)
  {
    && |before| <= |after|
    && forall i | 0 <= i < |before| ::
         && after[i].affected == before[i].affected && after[i].createdAt == before[i].createdAt
         && (if IsOpen(after[i]) then IsOpen(before[i]) && after[i].resolvedAt == before[i].resolvedAt
             else !IsOpen(before[i]) ==> after[i] == before[i])
  }

  lemma EngineContinues(before: Incidents, rows: Rows, now: nat, after: Incidents)
    requires EngineRan(before, rows, now, after)
    ensures Continues(before, after)
  {
    var newcomers :| Engine(before, rows, now, newcomers, after);
    forall i | 0 <= i < |before|
      ensures after[i] == Followed(before[i], rows, now)
    {
    }
  }

  lemma {:induction false} RunContinues(passes: seq<Pass>, times: seq<nat>, tables: seq<Incidents>, m: nat, n: nat)
    requires Cycles(passes, times, tables) && m <= n <= |passes|
    ensures Continues(tables[m], tables[n])
    decreases n
  {
    if m < n {
      RunContinues(passes, times, tables, m, n - 1);
      assert EngineRan(tables[n-1], Run(passes[..n-1+1]), times[n-1], tables[n-1+1]);
      EngineContinues(tables[n-1], Run(passes[..n]), times[n-1], tables[n]);
    }
  }

  /** A row that is resolved in a cycle keeps what it last showed, and records the time of the engine. */
  lemma ResolvedInCycle(before: Incidents, rows: Rows, now: nat, after: Incidents, i: nat)
    requires EngineRan(before, rows, now, after) && i < |before| && IsOpen(before[i]) && !IsOpen(after[i])
    ensures after[i] == before[i].(status := Resolved, resolvedAt := Some(now))
    ensures |before[i].affected| == 1 && before[i].affected[0] !in ActiveServices(rows)
  {
    var newcomers :| Engine(before, rows, now, newcomers, after);
    assert after[i] == Followed(before[i], rows, now);
  }

  lemma ResolvedBefore(passes: seq<Pass>, times: seq<nat>, tables: seq<Incidents>, n: nat, i: nat)
    requires Cycles(passes, times, tables) && n < |passes| && i < |tables[n+1]| && !IsOpen(tables[n+1][i])
    ensures i < |tables[n]|
    ensures if IsOpen(tables[n][i])
            then && |tables[n][i].affected| == 1
                 && tables[n+1][i] == tables[n][i].(status := Resolved, resolvedAt := Some(times[n]))
                 && tables[n][i].affected[0] in ActiveServices(Run(passes[..n]))
                 && tables[n][i].affected[0] !in ActiveServices(Run(passes[..n+1]))
            else tables[n+1][i] == tables[n][i]
  {
    TablesAgree(passes, times, tables, n);
    assert EngineRan(tables[n], Run(passes[..n+1]), times[n], tables[n+1]);
    if i >= |tables[n]| {
      NewIncident(passes, times, tables, n, i);
      assert false;
    }
    EngineContinues(tables[n], Run(passes[..n+1]), times[n], tables[n+1]);
    if IsOpen(tables[n][i]) {
      ResolvedInCycle(tables[n], Run(passes[..n+1]), times[n], tables[n+1], i);
      assert tables[n][i] in tables[n];
    }
  }

  /** Every resolved row was resolved in one cycle, in which its service ceased to have an active anomaly. */
  lemma {:induction false} ResolvedOnce(passes: seq<Pass>, times: seq<nat>, tables: seq<Incidents>, m: nat, i: nat)
    returns (n: nat)
    requires Cycles(passes, times, tables) && m <= |passes| && i < |tables[m]| && !IsOpen(tables[m][i])
    ensures n < m && i < |tables[n]| && IsOpen(tables[n][i]) && |tables[n][i].affected| == 1
    ensures tables[m][i] == tables[n][i].(status := Resolved, resolvedAt := Some(times[n]))
    ensures tables[n][i].affected[0] in ActiveServices(Run(passes[..n]))
    ensures tables[n][i].affected[0] !in ActiveServices(Run(passes[..n+1]))
    decreases m
  {
    n := m - 1;
    ResolvedBefore(passes, times, tables, n, i);
    if !IsOpen(tables[n][i]) {
      n := ResolvedOnce(passes, times, tables, m - 1, i);
    }
  }

  // ---- openings -------------------------------------------------------------------------

  /** Cycle n created row i. */
  predicate CreatedIn(tables: seq<Incidents>, n: nat, i: nat)
  {
    n + 1 < |tables| && |tables[n]| <= i < |tables[n+1]|
  }

  /** A new row is for a service that became active in this very cycle, and for no service twice. */
  lemma {:induction false} NewIncident(passes: seq<Pass>, times: seq<nat>, tables: seq<Incidents>, n: nat, i: nat)
    requires Cycles(passes, times, tables) && CreatedIn(tables, n, i)
    ensures |tables[n+1][i].affected| == 1 && IsOpen(tables[n+1][i])
    ensures tables[n+1][i].createdAt == times[n] && tables[n+1][i].resolvedAt == None
    ensures var after, service := tables[n+1], tables[n+1][i].affected[0];
            && service in ActiveServices(Run(passes[..n+1])) && service !in ActiveServices(Run(passes[..n]))
            && forall j | i < j < |after| :: after[j].affected != [service]
  {
    TablesAgree(passes, times, tables, n);
    assert EngineRan(tables[n], Run(passes[..n+1]), times[n], tables[n+1]);
    var newcomers :| Engine(tables[n], Run(passes[..n+1]), times[n], newcomers, tables[n+1]);
    var first, after := |tables[n]|, tables[n+1];
    assert newcomers[i - first] in newcomers;
    forall j | i < j < |after|
      ensures after[j].affected != [newcomers[i - first]]
    {
      assert newcomers[j - first] in newcomers && newcomers[i - first] != newcomers[j - first];
    }
  }

  /** A service that becomes active in a scan has a metric detected by it, and active after it. */
  lemma DetectedNow(rows: Rows, p: Pass, service: string) returns (metric: string)
    requires service in ActiveServices(Scanned(rows, p.detected, p.now)) && service !in ActiveServices(rows)
    ensures Detects(p.detected, (service, metric))
  {
    var a :| a in Scanned(rows, p.detected, p.now) && a.isActive && a.service == service;
    metric := a.metric;
    ActiveAfter(rows, p.detected, p.now, a);
  }

  /** A service that is inactive after some scans was last detected a cool-down before the last of them. */
  lemma QuietForTheCooldown(passes: seq<Pass>, service: string, metric: string, i: nat)
    requires Sound(passes) && Monotone(passes) && i < |passes|
    requires service !in ActiveServices(Run(passes)) && Detects(passes[i].detected, (service, metric))
    ensures passes[|passes|-1].now - passes[i].now >= COOLDOWN
  {
    ActiveKeyMeansService(Run(passes), service, metric);
    ActiveMeansRecent(passes, (service, metric));
  }

  lemma ActiveKeyMeansService(rows: Rows, service: string, metric: string)
    ensures IsActive(rows, (service, metric)) ==> service in ActiveServices(rows)
  {
    if IsActive(rows, (service, metric)) {
      var a :| a in rows && a.isActive && a.Key() == (service, metric);
      assert a.service == service;
    }
  }

  /** Two incidents of one service come from scans at least 90 s apart. */
  lemma {:induction false} IncidentsAreApart(passes: seq<Pass>, times: seq<nat>, tables: seq<Incidents>, a: nat, b: nat,
      i: nat, j: nat)
    requires Cycles(passes, times, tables) && Sound(passes) && Monotone(passes)
    requires CreatedIn(tables, a, i) && CreatedIn(tables, b, j) && i < j < |tables[|passes|]|
    requires tables[|passes|][i].affected == tables[|passes|][j].affected
    ensures a < b && passes[b].now - passes[a].now >= 90_000_000_000
  {
    SameService(passes, times, tables, a, b, i, j);
    var service := tables[a+1][i].affected[0];
    NewIncident(passes, times, tables, a, i);
    NewIncident(passes, times, tables, b, j);
    assert passes[..a+1][..a] == passes[..a] && passes[..a+1][a] == passes[a];
    var metric := DetectedNow(Run(passes[..a]), passes[a], service);
    QuietUntil(passes, service, metric, a, b);
  }

  lemma {:induction false} QuietUntil(passes: seq<Pass>, service: string, metric: string, a: nat, b: nat)
    requires Sound(passes) && Monotone(passes) && a < b < |passes|
    requires service !in ActiveServices(Run(passes[..b])) && Detects(passes[a].detected, (service, metric))
    ensures passes[b].now - passes[a].now >= COOLDOWN
  {
    var until := passes[..b];
    assert Sound(until) && Monotone(until) by {
      assert forall p | p in until :: p in passes;
    }
    QuietForTheCooldown(until, service, metric, a);
    assert passes[b-1].now <= passes[b].now;
  }

  lemma {:induction false} SameService(passes: seq<Pass>, times: seq<nat>, tables: seq<Incidents>, a: nat, b: nat,
      i: nat, j: nat)
    requires Cycles(passes, times, tables) && CreatedIn(tables, a, i) && CreatedIn(tables, b, j)
        && i < j < |tables[|passes|]|
    requires tables[|passes|][i].affected == tables[|passes|][j].affected
    ensures a < b && tables[a+1][i].affected == tables[b+1][j].affected
  {
    RunContinues(passes, times, tables, a + 1, |passes|);
    RunContinues(passes, times, tables, b + 1, |passes|);
    NewIncident(passes, times, tables, a, i);
    if b < a {
      RunContinues(passes, times, tables, b + 1, a);
    }
  }

  // ---- the queue of explanations --------------------------------------------------------

  /** Ids of the open incidents. */
  function OpenIds(incs: Incidents): set<nat>
  {
    set i: nat | i < |incs| && IsOpen(incs[i])
  }

  /** The cycles of the queue that begin after cycle n see the open incidents of their own table. */
  ghost predicate Sees(tables: seq<Incidents>, n: nat, cycles: seq<Explanations.Cycle>)
  {
    n + |cycles| <= |tables| && forall k | 0 <= k < |cycles| :: cycles[k].open == OpenIds(tables[n+k])
  }

  /** No incident older than an open one opens later. */
  lemma OlderOnlyResolve(passes: seq<Pass>, times: seq<nat>, tables: seq<Incidents>, n: nat, id: nat)
    requires Cycles(passes, times, tables) && n < |passes| && id < |tables[n]|
    ensures Explanations.Before(OpenIds(tables[n+1]), id) <= Explanations.Before(OpenIds(tables[n]), id)
  {
    RunContinues(passes, times, tables, n, n + 1);
  }

  lemma QueueOnlyShrinks(passes: seq<Pass>, times: seq<nat>, tables: seq<Incidents>, n: nat,
                         cycles: seq<Explanations.Cycle>, id: nat)
    requires Cycles(passes, times, tables) && Sees(tables, n, cycles)
    requires |cycles| > 0 ==> id in cycles[0].open
    ensures forall k | 0 < k < |cycles| ::
              Explanations.Before(cycles[k].open, id) <= Explanations.Before(cycles[k-1].open, id)
  {
    forall k | 0 < k < |cycles|
      ensures Explanations.Before(cycles[k].open, id) <= Explanations.Before(cycles[k-1].open, id)
    {
      RunContinues(passes, times, tables, n, n + k - 1);
      assert cycles[0].open == OpenIds(tables[n+0]);
      assert cycles[k-1].open == OpenIds(tables[n+(k-1)]);
      OlderOnlyResolve(passes, times, tables, n + k - 1, id);
    }
  }

  /**
   In every run, when calls succeed, an incident with r older unexplained open ones is explained
   after r / 2 + 1 cycles, as long as it stays open.
   */
  lemma ExplainedInRun(passes: seq<Pass>, times: seq<nat>, tables: seq<Incidents>, n: nat,
                       q: Explanations.Queue, cycles: seq<Explanations.Cycle>, id: nat)
    requires Cycles(passes, times, tables) && Sees(tables, n, cycles)
    requires |cycles| > 0 && |Explanations.Before(cycles[0].open - q.explained, id)| / 2 < |cycles|
    requires forall k | 0 <= k < |cycles| :: Explanations.Succeeds(q, cycles[k]) && id in cycles[k].open
    ensures id in Explanations.From(q, cycles).explained
  {
    QueueOnlyShrinks(passes, times, tables, n, cycles, id);
    Explanations.ExplainedInTime(q, cycles, id);
  }

  /** And not after r / 2 cycles, as long as none of the older ones resolves. */
  lemma NotExplainedEarlierInRun(passes: seq<Pass>, times: seq<nat>, tables: seq<Incidents>, n: nat,
                                 q: Explanations.Queue, cycles: seq<Explanations.Cycle>, id: nat)
    requires Cycles(passes, times, tables) && Sees(tables, n, cycles)
    requires |cycles| > 0 ==> |cycles| <= |Explanations.Before(cycles[0].open - q.explained, id)| / 2
    requires id !in q.explained
    requires forall k | 0 <= k < |cycles| :: Explanations.Succeeds(q, cycles[k]) && id in cycles[k].open
    requires forall k | 0 < k < |cycles| ::
               Explanations.Before(cycles[k-1].open, id) <= Explanations.Before(cycles[k].open, id)
    ensures id !in Explanations.From(q, cycles).explained
  {
    QueueOnlyShrinks(passes, times, tables, n, cycles, id);
    Explanations.NotExplainedEarlier(q, cycles, id);
  }
}
