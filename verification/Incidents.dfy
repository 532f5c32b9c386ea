/**
 The incident engine: one open incident per service with active anomalies, created, updated and
 resolved from the anomalies table.
 */
module Incidents {
  import opened Prelude
  import opened Red
  import opened Anomalies
  import opened Rules

  datatype Status = Open | Resolved

  /** One row; its position in the table is its autoincrement id. */
  datatype Incident = Incident(severity: Severity, status: Status, affected: seq<string>, anomalyIds: seq<nat>,
                               rule: Rule, createdAt: nat, resolvedAt: Option<nat>)

  type Incidents = seq<Incident>

  predicate IsOpen(inc: Incident) { inc.status.Open? }

  /** The open incidents: each affects one service, and no two the same one. */
  ghost predicate OnePerService(incs: Incidents)
  {
    && (forall i | 0 <= i < |incs| && IsOpen(incs[i]) :: |incs[i].affected| == 1)
    && (forall i, j | 0 <= i < j < |incs| && IsOpen(incs[i]) && IsOpen(incs[j]) ::
        incs[i].affected[0] != incs[j].affected[0])
  }

  /** Services with an open incident. */
  function OpenServices(incs: Incidents): set<string>
  {
    set inc | inc in incs && IsOpen(inc) && inc.affected != [] :: inc.affected[0]
  }

  /** Services with an active anomaly. */
  function ActiveServices(rows: Rows): set<string>
  {
    set a | a in rows && a.isActive :: a.service
  }

  /** Ids of the active anomalies of a service, in table order. */
  function GroupIds(rows: Rows, service: string): seq<nat>
  {
    if rows == [] then []
    else
      var init, last := GroupIds(rows[..|rows|-1], service), rows[|rows|-1];
      if last.isActive && last.service == service then init + [|rows| - 1] else init
  }

  function ActiveOf(service: string): Anomaly -> bool { (a: Anomaly) => a.isActive && a.service == service }

  /** The ids ascend, so each is listed once, and they are the positions of exactly these rows. */
  lemma {:induction false} GroupIdsAre(rows: Rows, service: string)
    ensures var ids := GroupIds(rows, service); forall i, j | 0 <= i < j < |ids| :: ids[i] < ids[j]
    ensures forall i: nat ::
              i in GroupIds(rows, service) <==> i < |rows| && rows[i].isActive && rows[i].service == service
    ensures |GroupIds(rows, service)| == Count(rows, ActiveOf(service))
    ensures GroupIds(rows, service) != [] <==> service in ActiveServices(rows)
  {
    if rows != [] {
      var init, last := rows[..|rows|-1], rows[|rows|-1];
      assert rows == init + [last];
      GroupIdsAre(init, service);
      var before := GroupIds(init, service);
      assert forall i | 0 <= i < |before| :: before[i] in before;
      assert ActiveServices(rows) == ActiveServices(init) + if last.isActive then {last.service} else {};
    }
  }

  /** The active anomalies of a service. */
  function Group(rows: Rows, service: string): seq<Anomaly>
  {
    GroupIdsAre(rows, service);
    seq(|GroupIds(rows, service)|, i requires 0 <= i < |GroupIds(rows, service)| =>
          assert GroupIds(rows, service)[i] in GroupIds(rows, service); rows[GroupIds(rows, service)[i]])
  }

  /** The rule that matches the active anomalies of a service that has some. */
  function MatchOf(rows: Rows, service: string): RuleMatch
    requires service in ActiveServices(rows)
  {
    GroupIdsAre(rows, service);
    SeverityExact(Group(rows, service));
    EvaluateRules(Group(rows, service)).value
  }

  // ---- what the engine does to the table ------------------------------------------------

  function Updated(inc: Incident, rows: Rows, service: string): Incident
    requires service in ActiveServices(rows)
  {
    var m := MatchOf(rows, service);
    inc.(severity := m.severity, rule := m.rule, anomalyIds := GroupIds(rows, service))
  }

  function Created(rows: Rows, service: string, now: nat): Incident
    requires service in ActiveServices(rows)
  {
    var m := MatchOf(rows, service);
    Incident(m.severity, Open, [service], GroupIds(rows, service), m.rule, now, None)
  }

  /** An incident after a cycle: updated or resolved if it is open, untouched if not. */
  function Followed(inc: Incident, rows: Rows, now: nat): Incident
    requires IsOpen(inc) ==> |inc.affected| == 1
  {
    if !IsOpen(inc) then inc
    else if inc.affected[0] in ActiveServices(rows) then Updated(inc, rows, inc.affected[0])
    else inc.(status := Resolved, resolvedAt := Some(now))
  }

  ghost function FollowedAll(incs: Incidents, rows: Rows, now: nat): Incidents
    requires OnePerService(incs)
  {
    seq(|incs|, i requires 0 <= i < |incs| => Followed(incs[i], rows, now))
  }

  ghost function CreatedAll(newcomers: seq<string>, rows: Rows, now: nat): Incidents
    requires forall service | service in newcomers :: service in ActiveServices(rows)
  {
    seq(|newcomers|, i requires 0 <= i < |newcomers| =>
          assert newcomers[i] in newcomers; Created(rows, newcomers[i], now))
  }

  /** A run of the engine: the old rows followed, then a row for each service without an open incident. */
  ghost predicate Engine(before: Incidents, rows: Rows, now: nat, newcomers: seq<string>, after: Incidents)
    requires OnePerService(before)
  {
    && Distinct(newcomers)
        && (forall service :: service in newcomers <==> service in ActiveServices(rows) - OpenServices(before))
    && after == FollowedAll(before, rows, now) + CreatedAll(newcomers, rows, now)
  }

  /** The incident of an open row reflects the active anomalies of its service. */
  ghost predicate Reflects(inc: Incident, rows: Rows)
  {
    && |inc.affected| == 1
    && inc.affected[0] in ActiveServices(rows)
    && inc.severity == MatchOf(rows, inc.affected[0]).severity && inc.rule == MatchOf(rows, inc.affected[0]).rule
    && inc.anomalyIds == GroupIds(rows, inc.affected[0])
  }

  /** Every open incident does. */
  ghost predicate AllReflect(incs: Incidents, rows: Rows)
  {
    forall inc | inc in incs && IsOpen(inc) :: Reflects(inc, rows)
  }

  /** The open incidents are those of the services with active anomalies, one each, and reflect them. */
  ghost predicate Agrees(incs: Incidents, rows: Rows)
  {
    OnePerService(incs) && OpenServices(incs) == ActiveServices(rows) && AllReflect(incs, rows)
  }

  /** Some active row of the service is of this kind, at least so many spreads away from normal. */
  ghost predicate HasActive(rows: Rows, service: string, kind: string -> bool, threshold: real)
  {
    exists a :: a in rows && ActiveOf(service)(a) && kind(a.metric) && (a.z >= threshold || a.z <= -threshold)
  }

  lemma GroupMembers(rows: Rows, service: string)
    ensures forall a :: a in Group(rows, service) <==> a in rows && ActiveOf(service)(a)
    ensures |Group(rows, service)| == Count(rows, ActiveOf(service))
  {
    GroupIdsAre(rows, service);
    var ids, group := GroupIds(rows, service), Group(rows, service);
    forall a | a in rows && ActiveOf(service)(a)
      ensures a in group
    {
      var i :| 0 <= i < |rows| && rows[i] == a;
      var n :| 0 <= n < |ids| && ids[n] == i;
      assert group[n] == a;
    }
    forall a | a in group
      ensures a in rows && ActiveOf(service)(a)
    {
      var n :| 0 <= n < |group| && group[n] == a;
      assert ids[n] in ids;
    }
  }

  lemma HasInGroup(rows: Rows, service: string, kind: string -> bool, threshold: real)
    ensures Has(Group(rows, service), kind, threshold) <==> HasActive(rows, service, kind, threshold)
  {
    GroupMembers(rows, service);
  }

  /** What an incident shows of the active rows of its service: their ids, once each, and the rule they match. */
  lemma IncidentExact(inc: Incident, rows: Rows, service: string)
    requires Reflects(inc, rows) && inc.affected == [service]
    ensures forall i, j | 0 <= i < j < |inc.anomalyIds| :: inc.anomalyIds[i] < inc.anomalyIds[j]
    ensures forall i: nat :: i in inc.anomalyIds <==> i < |rows| && rows[i].isActive && rows[i].service == service
    ensures (inc.rule, inc.severity) ==
              if HasActive(rows, service, IsErrorMetric, 8.0) then (ServiceDown, Critical)
              else if HasActive(rows, service, IsLatencyMetric, 8.0) then (LatencySpikeCritical, Critical)
              else if HasActive(rows, service, IsErrorMetric, 3.0) then (HighErrorRate, High)
              else if HasActive(rows, service, IsLatencyMetric, 3.0) then (LatencySpikeHigh, High)
              else if Count(rows, ActiveOf(service)) >= 2 then (MultiSignal, High)
              else (SingleAnomaly, Medium)
  {
    GroupIdsAre(rows, service);
    GroupMembers(rows, service);
    HasInGroup(rows, service, IsErrorMetric, 3.0);
    HasInGroup(rows, service, IsErrorMetric, 8.0);
    HasInGroup(rows, service, IsLatencyMetric, 3.0);
    HasInGroup(rows, service, IsLatencyMetric, 8.0);
    HasMeans(Group(rows, service), IsErrorMetric, 3.0);
    HasMeans(Group(rows, service), IsErrorMetric, 8.0);
    HasMeans(Group(rows, service), IsLatencyMetric, 3.0);
    HasMeans(Group(rows, service), IsLatencyMetric, 8.0);
  }

  /** A service whose only active row is a silence has a medium incident with that one id. */
  lemma SilenceAlone(inc: Incident, rows: Rows, service: string, i: nat)
    requires Reflects(inc, rows) && inc.affected == [service]
    requires i < |rows| && rows[i].isActive && rows[i].service == service && rows[i].metric == SILENT
    requires Count(rows, ActiveOf(service)) == 1
    ensures inc.rule == SingleAnomaly && inc.severity == Medium && inc.anomalyIds == [i]
  {
    GroupIdsAre(rows, service);
    assert Group(rows, service) == [rows[i]];
    SilenceAloneIsMedium(rows[i]);
  }

  lemma OpenRow(before: Incidents, rows: Rows, now: nat, newcomers: seq<string>, after: Incidents, i: nat)
    requires OnePerService(before) && Engine(before, rows, now, newcomers, after)
    requires i < |after| && IsOpen(after[i])
    ensures Reflects(after[i], rows)
    ensures if i < |before| then IsOpen(before[i]) && before[i].affected == after[i].affected
                                 && after[i].affected[0] in OpenServices(before)
            else after[i].affected[0] !in OpenServices(before)
  {
    if i < |before| {
      assert before[i] in before;
    } else {
      assert newcomers[i - |before|] in newcomers;
    }
  }

  lemma StillOnePerService(before: Incidents, rows: Rows, now: nat, newcomers: seq<string>, after: Incidents)
    requires OnePerService(before) && Engine(before, rows, now, newcomers, after)
    ensures OnePerService(after)
  {
    forall i | 0 <= i < |after| && IsOpen(after[i])
      ensures |after[i].affected| == 1
    {
      OpenRow(before, rows, now, newcomers, after, i);
    }
    forall i, j | 0 <= i < j < |after| && IsOpen(after[i]) && IsOpen(after[j])
      ensures after[i].affected[0] != after[j].affected[0]
    {
      OpenRow(before, rows, now, newcomers, after, i);
      OpenRow(before, rows, now, newcomers, after, j);
      if i >= |before| {
        assert newcomers[i - |before|] != newcomers[j - |before|];
      }
    }
  }

  lemma ServiceIsOpen(before: Incidents, rows: Rows, now: nat, newcomers: seq<string>, after: Incidents,
      service: string)
    requires OnePerService(before) && Engine(before, rows, now, newcomers, after) && service in ActiveServices(rows)
    ensures service in OpenServices(after)
  {
    if service in OpenServices(before) {
      var inc :| inc in before && IsOpen(inc) && inc.affected != [] && inc.affected[0] == service;
      var i :| 0 <= i < |before| && before[i] == inc;
      assert after[i] in after && IsOpen(after[i]);
    } else {
      assert service in newcomers;
      var i :| 0 <= i < |newcomers| && newcomers[i] == service;
      assert after[|before| + i] in after && after[|before| + i].affected == [service];
    }
  }

  /** After a cycle the open incidents are those of the services with active anomalies, one each. */
  lemma EngineAgrees(before: Incidents, rows: Rows, now: nat, newcomers: seq<string>, after: Incidents)
    requires OnePerService(before) && Engine(before, rows, now, newcomers, after)
    ensures Agrees(after, rows)
  {
    StillOnePerService(before, rows, now, newcomers, after);
    forall inc | inc in after && IsOpen(inc)
      ensures Reflects(inc, rows)
    {
      var i :| 0 <= i < |after| && after[i] == inc;
      OpenRow(before, rows, now, newcomers, after, i);
    }
    forall service | service in ActiveServices(rows)
      ensures service in OpenServices(after)
    {
      ServiceIsOpen(before, rows, now, newcomers, after, service);
    }
  }

  lemma LastServiceIsNew(init: Incidents, last: Incident)
    requires OnePerService(init + [last]) && IsOpen(last)
    ensures |last.affected| == 1 && OpenServices(init + [last]) == OpenServices(init) + {last.affected[0]}
    ensures last.affected[0] !in OpenServices(init)
  {
    var incs := init + [last];
    assert incs[|init|] == last && last in incs;
    forall i | 0 <= i < |init| && IsOpen(init[i])
      ensures init[i].affected != [] && init[i].affected[0] != last.affected[0]
    {
      assert incs[i] == init[i];
    }
  }

  /** The open incidents are as many as the services they affect. */
  lemma {:induction false} OpenIncidentsCount(incs: Incidents)
    requires OnePerService(incs)
    ensures Count(incs, IsOpen) == |OpenServices(incs)|
  {
    if incs != [] {
      var init, last := incs[..|incs|-1], incs[|incs|-1];
      assert incs == init + [last];
      OpenIncidentsCount(init);
      if IsOpen(last) {
        LastServiceIsNew(init, last);
      } else {
        assert OpenServices(incs) == OpenServices(init);
      }
    }
  }

  // ---- the engine -----------------------------------------------------------------------

  datatype Summary = Summary(created: nat, updated: nat, resolved: nat, openCount: nat)

  /** positions is the dictionary from services to the positions of their open incidents. */
  ghost predicate IndexesOpen(positions: map<string, nat>, incs: Incidents)
    requires OnePerService(incs)
  {
    && (forall j | 0 <= j < |incs| && IsOpen(incs[j]) ::
        incs[j].affected[0] in positions && positions[incs[j].affected[0]] == j)
    && (forall k | k in positions ::
        positions[k] < |incs| && IsOpen(incs[positions[k]]) && incs[positions[k]].affected[0] == k)
  }

  /** Some of the open incidents followed: those of done services updated, those of quiet ones resolved. */
  ghost function FollowedSome(incs: Incidents, rows: Rows, now: nat, done: set<string>, quiet: set<string>): Incidents
    requires OnePerService(incs) && done <= ActiveServices(rows) && done !! quiet
  {
    seq(|incs|, i requires 0 <= i < |incs| =>
          if !IsOpen(incs[i]) then incs[i]
          else if incs[i].affected[0] in done then Updated(incs[i], rows, incs[i].affected[0])
          else if incs[i].affected[0] in quiet then incs[i].(status := Resolved, resolvedAt := Some(now))
          else incs[i])
  }

  lemma PositionsAreOpenServices(positions: map<string, nat>, incs: Incidents)
    requires OnePerService(incs) && IndexesOpen(positions, incs)
    ensures positions.Keys == OpenServices(incs)
  {
    forall service | service in positions
      ensures service in OpenServices(incs)
    {
      assert incs[positions[service]] in incs;
    }
    forall inc | inc in incs && IsOpen(inc)
      ensures inc.affected[0] in positions
    {
      var i :| 0 <= i < |incs| && incs[i] == inc;
    }
  }

  lemma FollowOne(incs: Incidents, rows: Rows, now: nat, done: set<string>, quiet: set<string>,
      positions: map<string, nat>, service: string)
    requires OnePerService(incs) && IndexesOpen(positions, incs) && done <= ActiveServices(rows) && done !! quiet
    requires service !in done && service !in quiet
    ensures var some := FollowedSome(incs, rows, now, done, quiet);
            && (service in ActiveServices(rows) ==>
                  FollowedSome(incs, rows, now, done + {service}, quiet) ==
                    if service in positions
                        then some[positions[service] := Updated(some[positions[service]], rows, service)]
                    else some)
            && (service in positions ==>
                  FollowedSome(incs, rows, now, done, quiet + {service}) ==
                    some[positions[service] := some[positions[service]].(status := Resolved, resolvedAt := Some(now))])
  {
  }

  /** Services with active anomalies, in the order their first one appears. */
  method GroupByService(rows: Rows) returns (services: seq<string>)
    ensures Distinct(services) && forall x :: x in services <==> x in ActiveServices(rows)
  {
    services := [];
    for i := 0 to |rows|
      invariant Distinct(services)
      invariant forall x :: x in services <==> x in ActiveServices(rows[..i])
    {
      assert rows[..i+1] == rows[..i] + [rows[i]];
      if rows[i].isActive && rows[i].service !in services {
        services := services + [rows[i].service];
      }
    }
    assert rows[..|rows|] == rows;
  }

  lemma {:induction false} DistinctMembers(xs: seq<string>)
    requires Distinct(xs)
    ensures |Members(xs)| == |xs|
  {
    if xs != [] {
      var init, last := xs[..|xs|-1], xs[|xs|-1];
      DistinctMembers(init);
      assert xs == init + [last];
      assert Members(xs) == Members(init) + {last};
    }
  }

  /** Counting services by their list, by set, and by what they have in common with others. */
  lemma CountsBySet(all: seq<string>, others: set<string>, rest: seq<string>)
    requires Distinct(all) && Distinct(rest) && forall x :: x in rest <==> x in Members(all) - others
    ensures |rest| == |Members(all) - others|
    ensures |all| - |rest| == |Members(all) * others|
    ensures |all| == |Members(all)|
  {
    DistinctMembers(all);
    DistinctMembers(rest);
    assert Members(rest) == Members(all) - others;
    assert Members(all) == (Members(all) - others) + (Members(all) * others);
  }

  /** One more service updated or created. */
  lemma UpdateStep(before: Incidents, rows: Rows, now: nat, done: set<string>, positions: map<string, nat>,
                   newcomers: seq<string>, service: string)
    requires OnePerService(before) && IndexesOpen(positions, before) && done <= ActiveServices(rows)
    requires service in ActiveServices(rows) && service !in done
    requires forall x | x in newcomers :: x in ActiveServices(rows)
    ensures var incs := FollowedSome(before, rows, now, done, {}) + CreatedAll(newcomers, rows, now);
            var next := FollowedSome(before, rows, now, done + {service}, {});
            if service in positions
            then positions[service] < |incs|
                 && next + CreatedAll(newcomers, rows, now)
                      == incs[positions[service] := Updated(incs[positions[service]], rows, service)]
            else next + CreatedAll(newcomers + [service], rows, now) == incs + [Created(rows, service, now)]
  {
    FollowOne(before, rows, now, done, {}, positions, service);
  }

  /** The table after these services have been updated or created. */
  ghost predicate Following(before: Incidents, rows: Rows, now: nat, done: seq<string>, positions: map<string, nat>,
                            newcomers: seq<string>, incs: Incidents)
    requires OnePerService(before)
  {
    && Members(done) <= ActiveServices(rows)
    && Distinct(newcomers) && (forall x :: x in newcomers <==> x in done && x !in positions)
    && incs == FollowedSome(before, rows, now, Members(done), {}) + CreatedAll(newcomers, rows, now)
  }

  lemma FollowOneMore(before: Incidents, rows: Rows, now: nat, done: seq<string>, positions: map<string, nat>,
                      newcomers: seq<string>, incs: Incidents, service: string)
    requires OnePerService(before) && IndexesOpen(positions, before)
    requires Following(before, rows, now, done, positions, newcomers, incs)
    requires service in ActiveServices(rows) && service !in done
    ensures if service in positions
            then positions[service] < |incs|
                 && Following(before, rows, now, done + [service], positions, newcomers,
                              incs[positions[service] := Updated(incs[positions[service]], rows, service)])
            else Following(before, rows, now, done + [service], positions, newcomers + [service],
                           incs + [Created(rows, service, now)])
  {
    assert Members(done + [service]) == Members(done) + {service};
    assert service !in Members(done);
    UpdateStep(before, rows, now, Members(done), positions, newcomers, service);
  }

  /** The open incidents of some rows, by service and as a list of services. */
  ghost predicate Listed(incs: Incidents, positions: map<string, nat>, services: seq<string>)
  {
    && OnePerService(incs) && IndexesOpen(positions, incs)
    && Distinct(services) && forall x :: x in services <==> x in positions
  }

  lemma ListOneMore(incs: Incidents, last: Incident, positions: map<string, nat>, services: seq<string>)
    requires Listed(incs, positions, services) && OnePerService(incs + [last])
    ensures if IsOpen(last)
            then |last.affected| == 1
                 && Listed(incs + [last], positions[last.affected[0] := |incs|], services + [last.affected[0]])
            else Listed(incs + [last], positions, services)
  {
    var all := incs + [last];
    assert all[|incs|] == last;
    assert forall j | 0 <= j < |incs| :: all[j] == incs[j];
    if IsOpen(last) {
      assert last.affected[0] !in positions;
    }
  }

  /** One more open incident resolved. */
  lemma ResolveStep(before: Incidents, rows: Rows, now: nat, gone: seq<string>, positions: map<string, nat>,
                    newcomers: seq<string>, service: string)
    requires OnePerService(before) && IndexesOpen(positions, before) && service in positions
    requires (forall x | x in gone :: x !in ActiveServices(rows)) && service !in ActiveServices(rows)
        && service !in gone
    requires forall x | x in newcomers :: x in ActiveServices(rows)
    ensures var active := ActiveServices(rows);
            var incs := FollowedSome(before, rows, now, active, Members(gone)) + CreatedAll(newcomers, rows, now);
            && (forall x | x in gone + [service] :: x !in active)
            && positions[service] < |incs|
            && FollowedSome(before, rows, now, active, Members(gone + [service])) + CreatedAll(newcomers, rows, now)
                 == incs[positions[service] := incs[positions[service]].(status := Resolved, resolvedAt := Some(now))]
  {
    assert Members(gone + [service]) == Members(gone) + {service};
    FollowOne(before, rows, now, ActiveServices(rows), Members(gone), positions, service);
  }

  class IncidentTable {
    var incidents: Incidents

    ghost predicate Valid()
      reads this
    {
      OnePerService(incidents)
    }

    constructor ()
      ensures Valid() && incidents == []
    {
      incidents := [];
    }

    /** The open incidents by service, and the services in table order. */
    method OpenIncidents() returns (positions: map<string, nat>, services: seq<string>)
      requires Valid()
      ensures IndexesOpen(positions, incidents)
      ensures Distinct(services) && forall x :: x in services <==> x in positions
    {
      positions, services := map[], [];
      for i := 0 to |incidents|
        invariant Listed(incidents[..i], positions, services)
      {
        assert incidents[..i+1] == incidents[..i] + [incidents[i]];
        ListOneMore(incidents[..i], incidents[i], positions, services);
        if IsOpen(incidents[i]) {
          positions := positions[incidents[i].affected[0] := i];
          services := services + [incidents[i].affected[0]];
        }
      }
      assert incidents[..|incidents|] == incidents;
    }

    /** run_incident_engine over the anomalies table. */
    method RunEngine(rows: Rows, now: nat) returns (summary: Summary, ghost newcomers: seq<string>)
      requires Valid()
      modifies this
      ensures Valid() && Engine(old(incidents), rows, now, newcomers, incidents)
      ensures summary.created == |ActiveServices(rows) - OpenServices(old(incidents))|
      ensures summary.updated == |ActiveServices(rows) * OpenServices(old(incidents))|
      ensures summary.resolved == |OpenServices(old(incidents)) - ActiveServices(rows)|
      ensures summary.openCount == |ActiveServices(rows)|
    {
      ghost var before := incidents;
      var services := GroupByService(rows);
      var positions, open := OpenIncidents();
      PositionsAreOpenServices(positions, before);
      var created, updated;
      created, updated, newcomers := UpdateOrCreate(rows, now, services, positions);
      ghost var gone;
      var resolved;
      resolved, gone := ResolveQuiet(before, rows, now, services, positions, open, newcomers);
      StillOnePerService(before, rows, now, newcomers, incidents);
      assert Members(services) == ActiveServices(rows) && Members(open) == OpenServices(before);
      CountsBySet(services, OpenServices(before), newcomers);
      CountsBySet(open, ActiveServices(rows), gone);
      summary := Summary(created, updated, resolved, |services|);
    }

    /** Updates the open incident of each service, or creates one. */
    method UpdateOrCreate(rows: Rows, now: nat, services: seq<string>, positions: map<string, nat>)
      returns (created: nat, updated: nat, ghost newcomers: seq<string>)
      requires Valid() && IndexesOpen(positions, incidents)
      requires Distinct(services) && forall x :: x in services <==> x in ActiveServices(rows)
      modifies this
      ensures Distinct(newcomers) && forall x :: x in newcomers <==> x in services && x !in positions
      ensures incidents == FollowedSome(old(incidents), rows, now, Members(services), {})
          + CreatedAll(newcomers, rows, now)
      ensures created == |newcomers| && created + updated == |services|
    {
      ghost var before := incidents;
      created, updated, newcomers := 0, 0, [];
      assert Members(services[..0]) == {};
      for n := 0 to |services|
        invariant Following(before, rows, now, services[..n], positions, newcomers, incidents)
        invariant created == |newcomers| && created + updated == n
      {
        var service := services[n];
        assert services[..n+1] == services[..n] + [service];
        FollowOneMore(before, rows, now, services[..n], positions, newcomers, incidents, service);
        if service in positions {
          var i := positions[service];
          incidents := incidents[i := Updated(incidents[i], rows, service)];
          updated := updated + 1;
        } else {
          incidents := incidents + [Created(rows, service, now)];
          newcomers := newcomers + [service];
          created := created + 1;
        }
      }
      assert services[..|services|] == services;
    }

    /** Resolves the open incidents of services that no longer have an active anomaly. */
    method ResolveQuiet(ghost before: Incidents, rows: Rows, now: nat, services: seq<string>,
        positions: map<string, nat>, open: seq<string>, ghost newcomers: seq<string>)
      returns (resolved: nat, ghost gone: seq<string>)
      requires OnePerService(before) && IndexesOpen(positions, before)
      requires Distinct(services) && forall x :: x in services <==> x in ActiveServices(rows)
      requires Distinct(open) && forall x :: x in open <==> x in positions
      requires forall x | x in newcomers :: x in ActiveServices(rows)
      requires incidents == FollowedSome(before, rows, now, ActiveServices(rows), {}) + CreatedAll(newcomers, rows, now)
      modifies this
      ensures incidents == FollowedAll(before, rows, now) + CreatedAll(newcomers, rows, now)
      ensures Distinct(gone) && forall x :: x in gone <==> x in open && x !in services
      ensures resolved == |gone|
    {
      ghost var active := ActiveServices(rows);
      resolved, gone := 0, [];
      assert Members(gone) == {};
      for m := 0 to |open|
        invariant Distinct(gone) && forall x :: x in gone <==> x in open[..m] && x !in services
        invariant incidents == FollowedSome(before, rows, now, active, Members(gone)) + CreatedAll(newcomers, rows, now)
        invariant resolved == |gone|
      {
        assert open[..m+1] == open[..m] + [open[m]];
        var service := open[m];
        if service !in services {
          ResolveStep(before, rows, now, gone, positions, newcomers, service);
          var i := positions[service];
          incidents := incidents[i := incidents[i].(status := Resolved, resolvedAt := Some(now))];
          gone := gone + [service];
          resolved := resolved + 1;
        }
      }
      assert open[..|open|] == open;
      PositionsAreOpenServices(positions, before);
      assert Members(gone) == OpenServices(before) - active;
      AllFollowed(before, rows, now);
    }
  }

  lemma AllFollowed(incs: Incidents, rows: Rows, now: nat)
    requires OnePerService(incs)
    ensures FollowedSome(incs, rows, now, ActiveServices(rows), OpenServices(incs) - ActiveServices(rows))
              == FollowedAll(incs, rows, now)
  {
    forall i | 0 <= i < |incs| && IsOpen(incs[i])
      ensures incs[i].affected[0] in OpenServices(incs)
    {
      assert incs[i] in incs;
    }
  }
}
