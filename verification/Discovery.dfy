/** Service discovery: per-batch service counters, and the rows they upsert. */
module Discovery {
  import opened Prelude
  import opened Upsert
  import opened Telemetry

  /** The service a span is counted for. */
  function ServiceOf(s: Span): Option<string>
  {
    if s.Name() == "" then None else Some(s.Name())
  }

  /** What a batch of spans adds to each named service. */
  function ServiceTotals(spans: seq<Span>): map<string, Counters>
  {
    GroupBy(spans, ServiceOf)
  }

  /** The spans that carry this name; the empty one names no service. */
  function SpansOf(name: string): Span -> bool { (s: Span) => name != "" && s.service == Some(name) }

  lemma SpansOfService(spans: seq<Span>, name: string)
    ensures Counts(Summary(spans, HasKey(ServiceOf, name)), spans, SpansOf(name))
  {
    SummaryCounts(spans, HasKey(ServiceOf, name));
    forall s
      ensures HasKey(ServiceOf, name)(s) <==> SpansOf(name)(s)
    {
      assert HasKey(ServiceOf, name)(s) <==> ServiceOf(s) == Some(name);
    }
    CountsAlike(Summary(spans, HasKey(ServiceOf, name)), spans, HasKey(ServiceOf, name), SpansOf(name));
  }

  method AggregateSpans(spans: seq<Span>) returns (agg: map<string, Counters>)
    ensures agg == ServiceTotals(spans)
    ensures forall name :: Counts(Lookup(agg, name), spans, SpansOf(name))
  {
    agg := map[];
    for i := 0 to |spans|
      invariant agg == ServiceTotals(spans[..i])
    {
      assert spans[..i+1][..i] == spans[..i];
      var svc := spans[i].Name();
      if svc == "" {
        continue;
      }
      var row := CountSpan(if svc in agg then Some(agg[svc]) else None, spans[i]);
      agg := agg[svc := row];
    }
    assert spans[..|spans|] == spans;
    forall name
      ensures Counts(Lookup(agg, name), spans, SpansOf(name))
    {
      GroupCounts(spans, ServiceOf, name);
      SpansOfService(spans, name);
    }
  }

  // ---- the rows a batch of spans upserts -----------------------------------------------

  function ServiceRows(totals: map<string, Counters>): Table
  {
    map name | name in totals :: Service(name) := totals[name]
  }

  /** What one batch of spans upserts into services. */
  function ServiceTable(spans: seq<Span>): Table
  {
    ServiceRows(ServiceTotals(spans))
  }

  lemma ServiceLookup(spans: seq<Span>, k: Key)
    ensures Lookup(ServiceTable(spans), k) ==
              if k.Service? then Summary(spans, HasKey(ServiceOf, k.name)) else None
    ensures k.Service? ==> Counts(Lookup(ServiceTable(spans), k), spans, SpansOf(k.name))
  {
    if k.Service? {
      GroupCounts(spans, ServiceOf, k.name);
      SpansOfService(spans, k.name);
    }
  }

  lemma ServiceTableConcat(a: seq<Span>, b: seq<Span>)
    ensures ServiceTable(a + b) == MergeTable(ServiceTable(a), ServiceTable(b))
  {
    forall k
      ensures Lookup(ServiceTable(a + b), k) == Lookup(MergeTable(ServiceTable(a), ServiceTable(b)), k)
    {
      ServiceLookup(a + b, k);
      ServiceLookup(a, k);
      ServiceLookup(b, k);
      if k.Service? {
        SummaryConcat(a, b, HasKey(ServiceOf, k.name));
      }
    }
    SameTable(ServiceTable(a + b), MergeTable(ServiceTable(a), ServiceTable(b)));
  }

  /** Batches of spans upserted into services one after another, starting from no rows. */
  function StoredServices(batches: seq<seq<Span>>): Table
  {
    if batches == [] then map[]
    else MergeTable(StoredServices(batches[..|batches|-1]), ServiceTable(batches[|batches|-1]))
  }

  /** However the span stream is cut into batches, the services table is that of one batch. */
  lemma {:induction false} SplitIndependent(batches: seq<seq<Span>>)
    ensures StoredServices(batches) == ServiceTable(Flatten(batches))
  {
    if batches == [] {
      assert ServiceTotals(Flatten(batches)) == map[];
    } else {
      var init, last := batches[..|batches|-1], batches[|batches|-1];
      SplitIndependent(init);
      ServiceTableConcat(Flatten(init), last);
    }
  }

  // ---- metric and log rows only touch the seen interval --------------------------------

  predicate Mentions(row: SignalRow, name: string)
  {
    name != "" && row.Name() == name && row.Stamp() != 0
  }

  function SignalNames(rows: seq<SignalRow>): set<string>
  {
    set r | r in rows && Mentions(r, r.Name()) :: r.Name()
  }

  function LatestStamp(rows: seq<SignalRow>, name: string): nat
  {
    if rows == [] then 0
    else
      var before, last := LatestStamp(rows[..|rows|-1], name), rows[|rows|-1];
      if Mentions(last, name) then Max(before, last.Stamp()) else before
  }

  lemma {:induction false} LatestStampIsGreatest(rows: seq<SignalRow>, name: string)
    ensures forall r | r in rows && Mentions(r, name) :: r.Stamp() <= LatestStamp(rows, name)
    ensures if LatestStamp(rows, name) == 0 then forall r | r in rows :: !Mentions(r, name)
            else exists r :: r in rows && Mentions(r, name) && r.Stamp() == LatestStamp(rows, name)
  {
    if rows != [] {
      var init, last := rows[..|rows|-1], rows[|rows|-1];
      assert rows == init + [last];
      LatestStampIsGreatest(init, name);
      if LatestStamp(init, name) != 0 {
        var r :| r in init && Mentions(r, name) && r.Stamp() == LatestStamp(init, name);
        assert r in rows;
      }
    }
  }

  /** The row names the service, and this is its time or, without one, its start time. */
  predicate Stamped(row: SignalRow, name: string, ts: nat)
  {
    name != "" && row.service == Some(name) && ts != 0 && ts == if row.time == 0 then row.startTime else row.time
  }

  method ServiceNamesFromRows(rows: seq<SignalRow>) returns (seen: map<string, nat>)
    ensures seen.Keys == SignalNames(rows)
    ensures forall name, r, ts | r in rows && Stamped(r, name, ts) :: name in seen && ts <= seen[name]
    ensures forall name | name in seen :: exists r :: r in rows && Stamped(r, name, seen[name])
  {
    seen := map[];
    for i := 0 to |rows|
      invariant seen.Keys == SignalNames(rows[..i])
      invariant forall name | name in seen :: seen[name] != 0 && seen[name] == LatestStamp(rows[..i], name)
    {
      assert rows[..i+1] == rows[..i] + [rows[i]] && rows[..i+1][..i] == rows[..i];
      var svc, ts := rows[i].Name(), rows[i].Stamp();
      LatestStampIsGreatest(rows[..i], svc);
      if svc != "" && ts != 0 {
        if svc !in seen || ts > seen[svc] {
          seen := seen[svc := ts];
        }
      }
    }
    assert rows[..|rows|] == rows;
    forall name | name in seen
      ensures exists r :: r in rows && Stamped(r, name, seen[name])
    {
      LatestStampIsGreatest(rows, name);
      var r :| r in rows && Mentions(r, name) && r.Stamp() == seen[name];
      assert Stamped(r, name, seen[name]);
    }
    forall name, r, ts | r in rows && Stamped(r, name, ts)
      ensures name in seen && ts <= seen[name]
    {
      assert Mentions(r, name) && r.Name() == name;
      LatestStampIsGreatest(rows, name);
    }
  }

  /** VALUES (:name, :ts, :ts, 0, 0), one row per service mentioned. */
  function SignalTable(rows: seq<SignalRow>): Table
  {
    map name | name in SignalNames(rows) ::
      Service(name) := Counters(LatestStamp(rows, name), LatestStamp(rows, name), 0, 0)
  }

  /** Metric and log rows never change a counter that is there, and insert new ones as zero. */
  lemma SignalsKeepCounters(t: Table, rows: seq<SignalRow>, k: Key)
    ensures forall onlyErrors ::
              Tallied(Lookup(MergeTable(t, SignalTable(rows)), k), onlyErrors) == Tallied(Lookup(t, k), onlyErrors)
  {
  }

  lemma {:induction false} LatestStampConcat(a: seq<SignalRow>, b: seq<SignalRow>, name: string)
    ensures LatestStamp(a + b, name) == Max(LatestStamp(a, name), LatestStamp(b, name))
  {
    if b == [] {
      assert a + b == a;
    } else {
      assert (a + b)[..|a + b|-1] == a + b[..|b|-1];
      LatestStampConcat(a, b[..|b|-1], name);
    }
  }

  lemma SignalLookup(rows: seq<SignalRow>, name: string)
    ensures Lookup(SignalTable(rows), Service(name)) ==
              var l := LatestStamp(rows, name);
              if l == 0 then None else Some(Counters(l, l, 0, 0))
  {
    LatestStampIsGreatest(rows, name);
    if LatestStamp(rows, name) != 0 {
      var r :| r in rows && Mentions(r, name);
      assert r.Name() == name;
    }
  }

  /** Batches of metric and log rows upserted into services one after another. */
  function StoredSignals(t: Table, batches: seq<seq<SignalRow>>): Table
  {
    if batches == [] then t
    else MergeTable(StoredSignals(t, batches[..|batches|-1]), SignalTable(batches[|batches|-1]))
  }

  function EarlierStamp(a: nat, b: nat): nat { if a == 0 then b else if b == 0 then a else Min(a, b) }

  /** The earliest of the latest stamps of the batches that mention a service. */
  function EarliestStamp(batches: seq<seq<SignalRow>>, name: string): nat
  {
    if batches == [] then 0
    else EarlierStamp(EarliestStamp(batches[..|batches|-1], name), LatestStamp(batches[|batches|-1], name))
  }

  lemma {:induction false} EarliestStampIsLeast(batches: seq<seq<SignalRow>>, name: string)
    ensures forall b | b in batches && LatestStamp(b, name) != 0 ::
        0 < EarliestStamp(batches, name) <= LatestStamp(b, name)
    ensures EarliestStamp(batches, name) != 0 ==>
        exists b :: b in batches && LatestStamp(b, name) == EarliestStamp(batches, name)
  {
    if batches != [] {
      var init, last := batches[..|batches|-1], batches[|batches|-1];
      assert batches == init + [last];
      EarliestStampIsLeast(init, name);
      if EarliestStamp(init, name) != 0 {
        var b :| b in init && LatestStamp(b, name) == EarliestStamp(init, name);
        assert b in batches;
      }
    }
  }

  lemma {:induction false} EarliestAndLatest(batches: seq<seq<SignalRow>>, name: string)
    ensures EarliestStamp(batches, name) <= LatestStamp(Flatten(batches), name)
    ensures EarliestStamp(batches, name) == 0 <==> LatestStamp(Flatten(batches), name) == 0
  {
    if batches != [] {
      EarliestAndLatest(batches[..|batches|-1], name);
      LatestStampConcat(Flatten(batches[..|batches|-1]), batches[|batches|-1], name);
    }
  }

  /** The row of a service first and last seen at these times, and counted for nothing; none at time zero. */
  function SeenRow(first: nat, last: nat): Option<Counters>
  {
    if last == 0 then None else Some(Counters(first, last, 0, 0))
  }

  /** The batches leave the earliest and the latest of their stamps. */
  lemma {:induction false} StoredSignalsLookup(t: Table, batches: seq<seq<SignalRow>>, name: string)
    ensures Lookup(StoredSignals(t, batches), Service(name)) ==
              MergeOption(Lookup(t, Service(name)),
                          SeenRow(EarliestStamp(batches, name), LatestStamp(Flatten(batches), name)))
  {
    if batches != [] {
      var init, last := batches[..|batches|-1], batches[|batches|-1];
      StoredSignalsLookup(t, init, name);
      SignalLookup(last, name);
      LatestStampConcat(Flatten(init), last, name);
      EarliestAndLatest(init, name);
    }
  }

  /** The stored row, if there is one, already has a first_seen as early as this stamp. */
  predicate SeenBy(stored: Option<Counters>, stamp: nat)
  {
    stored.Some? && stored.value.first <= stamp
  }

  /** Every batch that mentions the service has the latest stamp of all, or one that is no news to the stored row. */
  ghost predicate NoneLowersFirstSeen(t: Table, batches: seq<seq<SignalRow>>, name: string)
  {
    forall b | b in batches && LatestStamp(b, name) != 0 ::
      LatestStamp(b, name) == LatestStamp(Flatten(batches), name)
          || SeenBy(Lookup(t, Service(name)), LatestStamp(b, name))
  }

  lemma NoneLowersExactly(t: Table, batches: seq<seq<SignalRow>>, name: string)
    ensures NoneLowersFirstSeen(t, batches, name) <==>
              var first := EarliestStamp(batches, name);
              first == LatestStamp(Flatten(batches), name) || SeenBy(Lookup(t, Service(name)), first)
  {
    EarliestStampIsLeast(batches, name);
    EarliestAndLatest(batches, name);
    forall b | b in batches && LatestStamp(b, name) != 0
      ensures LatestStamp(b, name) <= LatestStamp(Flatten(batches), name)
    {
      StampInFlatten(batches, b, name);
    }
  }

  lemma {:induction false} StampInFlatten(batches: seq<seq<SignalRow>>, b: seq<SignalRow>, name: string)
    requires b in batches
    ensures LatestStamp(b, name) <= LatestStamp(Flatten(batches), name)
  {
    var init, last := batches[..|batches|-1], batches[|batches|-1];
    assert batches == init + [last];
    LatestStampConcat(Flatten(init), last, name);
    if b != last {
      StampInFlatten(init, b, name);
    }
  }

  /**
   Metric and log rows, unlike spans, are not split independent: a batch is summarised by its
   latest stamp, so cutting the rows into batches keeps every counter and last_seen but may lower
   first_seen. The service's row is that of one batch exactly when every batch that mentions the
   service has the same latest stamp, or one not earlier than a stored first_seen.
   */
  lemma SignalSplit(t: Table, batches: seq<seq<SignalRow>>, name: string)
    ensures var whole := Lookup(MergeTable(t, SignalTable(Flatten(batches))), Service(name));
            var cut := Lookup(StoredSignals(t, batches), Service(name));
            && (whole.Some? <==> cut.Some?)
            && (whole.Some? ==>
                  cut.value == whole.value.(first := cut.value.first) && cut.value.first <= whole.value.first)
            && (cut == whole <==> NoneLowersFirstSeen(t, batches, name))
  {
    StoredSignalsLookup(t, batches, name);
    SignalLookup(Flatten(batches), name);
    NoneLowersExactly(t, batches, name);
    EarliestAndLatest(batches, name);
  }

  /** Two rows of one service with stamps 1 and 2: in one batch it was first seen at 2, in two batches at 1. */
  lemma SplitLowersFirstSeen(early: seq<SignalRow>, late: seq<SignalRow>)
    requires early == [SignalRow(Some("cart"), 1, 0)] && late == [SignalRow(Some("cart"), 2, 0)]
    ensures Lookup(SignalTable(Flatten([early + late])), Service("cart")) == Some(Counters(2, 2, 0, 0))
    ensures Lookup(StoredSignals(map[], [early, late]), Service("cart")) == Some(Counters(1, 2, 0, 0))
  {
    var name := "cart";
    assert early[..0] == [] && late[..0] == [];
    assert LatestStamp(early, name) == 1 && LatestStamp(late, name) == 2;
    LatestStampConcat(early, late, name);
    var one, two := [early + late], [early, late];
    assert one[..0] == [] && Flatten(one) == early + late;
    assert two[..1] == [early] && [early][..0] == [];
    SignalLookup(early + late, name);
    SignalLookup(early, name);
    SignalLookup(late, name);
    assert StoredSignals(map[], [early]) == MergeTable(map[], SignalTable(early));
  }
}
