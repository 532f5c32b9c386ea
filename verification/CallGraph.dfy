/** The service call graph: edges found by matching child spans to parents in the same batch. */
module CallGraph {
  import opened Prelude
  import opened Upsert
  import opened Telemetry
  import opened Discovery

  type Pair = (string, string)

  /** span_id → service of the last span of the batch with that id and a service. */
  function Parents(spans: seq<Span>): map<string, string>
  {
    if spans == [] then map[]
    else
      var before, s := Parents(spans[..|spans|-1]), spans[|spans|-1];
      if s.spanId != "" && s.Name() != "" then before[s.spanId := s.Name()] else before
  }

  /** The call a span is evidence of: from the service of its parent, if that is another one. */
  function CallOf(parents: map<string, string>, s: Span): Option<Pair>
  {
    if s.Name() == "" || s.parentId == "" || s.parentId !in parents || parents[s.parentId] == s.Name()
    then None
    else Some((parents[s.parentId], s.Name()))
  }

  function CallIn(parents: map<string, string>): Span -> Option<Pair>
  {
    (s: Span) => CallOf(parents, s)
  }

  function OnEdge(parents: map<string, string>, edge: Pair): Span -> bool
  {
    HasKey(CallIn(parents), edge)
  }

  /** Span i is the last one of the batch with this id and a name, and this is its name. */
  ghost predicate IsNamed(spans: seq<Span>, i: nat, id: string, name: string)
  {
    && i < |spans| && spans[i].spanId == id && spans[i].service == Some(name) && name != ""
    && forall j | i < j < |spans| && spans[j].spanId == id :: spans[j].service in {None, Some("")}
  }

  lemma {:induction false} ParentsAreNamed(spans: seq<Span>, id: string, name: string)
    ensures id in Parents(spans) && Parents(spans)[id] == name <==> id != "" && exists i :: IsNamed(spans, i, id, name)
  {
    if spans != [] {
      var init, n := spans[..|spans|-1], |spans| - 1;
      ParentsAreNamed(init, id, name);
      forall i: nat | i < n && (spans[n].spanId != id || spans[n].service in {None, Some("")})
        ensures IsNamed(spans, i, id, name) <==> IsNamed(init, i, id, name)
      {
      }
      if spans[n].spanId == id && spans[n].Name() != "" {
        assert IsNamed(spans, n, id, spans[n].Name());
      }
    }
  }

  /**
   The spans that are calls from edge.0 to edge.1: spans of edge.1, another service, whose parent
   id is that of a span of edge.0. If an id is not unique in the batch its last named span counts.
   */
  ghost function CallsOn(spans: seq<Span>, edge: Pair): Span -> bool
  {
    (s: Span) =>
      && s.service == Some(edge.1) && edge.1 != "" && edge.0 != edge.1
      && s.parentId != "" && exists i :: IsNamed(spans, i, s.parentId, edge.0)
  }

  lemma CallsAreOnEdge(spans: seq<Span>, edge: Pair)
    ensures forall s :: OnEdge(Parents(spans), edge)(s) <==> CallsOn(spans, edge)(s)
    ensures Counts(Summary(spans, OnEdge(Parents(spans), edge)), spans, CallsOn(spans, edge))
  {
    forall s
      ensures OnEdge(Parents(spans), edge)(s) <==> CallsOn(spans, edge)(s)
    {
      assert OnEdge(Parents(spans), edge)(s) <==> CallOf(Parents(spans), s) == Some(edge);
      ParentsAreNamed(spans, s.parentId, edge.0);
    }
    SummaryCounts(spans, OnEdge(Parents(spans), edge));
    CountsAlike(Summary(spans, OnEdge(Parents(spans), edge)), spans, OnEdge(Parents(spans), edge),
                CallsOn(spans, edge));
  }

  ghost predicate UniqueIds(spans: seq<Span>)
  {
    forall i, j | 0 <= i < j < |spans| && spans[i].spanId != "" :: spans[i].spanId != spans[j].spanId
  }

  /** With unique ids: a call is a span of edge.1 whose parent id is the id of a span of edge.0. */
  lemma UniqueIdsMakeCalls(spans: seq<Span>, edge: Pair, s: Span)
    requires UniqueIds(spans) && edge.0 != edge.1 && edge.0 != "" && edge.1 != ""
    ensures CallsOn(spans, edge)(s) <==>
              && s.service == Some(edge.1) && s.parentId != ""
              && exists p :: p in spans && p.spanId == s.parentId && p.service == Some(edge.0)
  {
    if p :| p in spans && p.spanId == s.parentId && p.service == Some(edge.0) {
      var i :| 0 <= i < |spans| && spans[i] == p;
      assert s.parentId != "" ==> IsNamed(spans, i, s.parentId, edge.0);
    }
  }

  /** No other edges, and each counts exactly the calls on it. */
  method ExtractDependencies(spans: seq<Span>) returns (edges: map<Pair, Counters>)
    ensures edges == GroupBy(spans, CallIn(Parents(spans)))
    ensures forall edge :: Counts(Lookup(edges, edge), spans, CallsOn(spans, edge))
  {
    var lookup: map<string, string> := map[];
    for i := 0 to |spans|
      invariant lookup == Parents(spans[..i])
    {
      assert spans[..i+1][..i] == spans[..i];
      if spans[i].spanId != "" && spans[i].Name() != "" {
        lookup := lookup[spans[i].spanId := spans[i].Name()];
      }
    }
    assert spans[..|spans|] == spans;
    edges := map[];
    for i := 0 to |spans|
      invariant edges == GroupBy(spans[..i], CallIn(lookup))
    {
      assert spans[..i+1][..i] == spans[..i];
      var child, parent := spans[i].Name(), spans[i].parentId;
      if child == "" || parent == "" {
        continue;
      }
      if parent !in lookup || lookup[parent] == child {
        continue;
      }
      var edge := (lookup[parent], child);
      var row := CountSpan(if edge in edges then Some(edges[edge]) else None, spans[i]);
      edges := edges[edge := row];
    }
    forall edge
      ensures Counts(Lookup(edges, edge), spans, CallsOn(spans, edge))
    {
      GroupCounts(spans, CallIn(Parents(spans)), edge);
      CallsAreOnEdge(spans, edge);
    }
  }

  function DependencyRows(totals: map<Pair, Counters>): Table
  {
    map edge | edge in totals :: Dependency(edge.0, edge.1) := totals[edge]
  }

  /** What one batch of spans upserts into service_dependencies. */
  function DependencyTable(spans: seq<Span>): Table
  {
    DependencyRows(GroupBy(spans, CallIn(Parents(spans))))
  }

  lemma DependencyLookup(spans: seq<Span>, k: Key)
    ensures Lookup(DependencyTable(spans), k) ==
              if k.Dependency? then Summary(spans, OnEdge(Parents(spans), (k.source, k.target))) else None
  {
    if k.Dependency? {
      GroupCounts(spans, CallIn(Parents(spans)), (k.source, k.target));
    }
  }

  // ---- batches see less of the call graph ----------------------------------------------

  /** Spans that share an identifier belong to one service; so it is when identifiers are unique. */
  ghost predicate OneServicePerId(spans: seq<Span>)
  {
    forall s, t | s in spans && t in spans && s.spanId == t.spanId != "" && s.Name() != "" && t.Name() != "" ::
      s.Name() == t.Name()
  }

  lemma {:induction false} ParentsAreSpans(spans: seq<Span>, id: string)
    ensures id in Parents(spans) <==> exists s :: s in spans && s.spanId == id != "" && s.Name() != ""
    ensures id in Parents(spans) ==>
              exists s :: s in spans && s.spanId == id != "" && s.Name() == Parents(spans)[id] != ""
  {
    if spans != [] {
      var init, last := spans[..|spans|-1], spans[|spans|-1];
      assert spans == init + [last];
      ParentsAreSpans(init, id);
      if id in Parents(spans) && !(last.spanId == id && last.Name() != "") {
        var s :| s in init && s.spanId == id != "" && s.Name() == Parents(init)[id];
        assert s in spans;
      }
    }
  }

  /** A call seen inside a batch is the call seen in the whole stream. */
  lemma BatchCallIsCall(stream: seq<Span>, batch: seq<Span>, s: Span)
    requires OneServicePerId(stream) && forall b | b in batch :: b in stream
    ensures CallOf(Parents(batch), s).Some? ==> CallOf(Parents(batch), s) == CallOf(Parents(stream), s)
    ensures CallOf(Parents(batch), s) == CallOf(Parents(stream), s) <==>
              CallOf(Parents(stream), s).None? || s.parentId in Parents(batch)
  {
    ParentsAreSpans(batch, s.parentId);
    ParentsAreSpans(stream, s.parentId);
    if s.parentId in Parents(batch) {
      var b :| b in batch && b.spanId == s.parentId && b.Name() == Parents(batch)[s.parentId] != "";
      assert b in stream;
      var p :| p in stream && p.spanId == s.parentId && p.Name() == Parents(stream)[s.parentId] != "";
      assert p.Name() == b.Name();
    }
  }

  /** Batches of spans upserted into service_dependencies one after another. */
  function StoredEdges(batches: seq<seq<Span>>): Table
  {
    if batches == [] then map[]
    else MergeTable(StoredEdges(batches[..|batches|-1]), DependencyTable(batches[|batches|-1]))
  }

  /** Every (failed) span of the batch that is evidence of the edge has its parent in the batch. */
  ghost predicate Together(parents: map<string, string>, batch: seq<Span>, edge: Pair, onlyErrors: bool)
  {
    forall s | s in batch && Tallying(OnEdge(parents, edge), onlyErrors)(s) :: s.parentId in Parents(batch)
  }

  /** No (failed) span counted on the edge was cut off from its parent. */
  ghost predicate NothingSeparated(parents: map<string, string>, batches: seq<seq<Span>>, edge: Pair, onlyErrors: bool)
  {
    forall batch | batch in batches :: Together(parents, batch, edge, onlyErrors)
  }

  ghost predicate SeesLess(parents: map<string, string>, batch: seq<Span>)
  {
    forall s | s in batch ::
      && (CallOf(Parents(batch), s).Some? ==> CallOf(Parents(batch), s) == CallOf(parents, s))
      && (CallOf(Parents(batch), s) == CallOf(parents, s) <==>
          CallOf(parents, s).None? || s.parentId in Parents(batch))
  }

  lemma BatchCountsLess(parents: map<string, string>, batch: seq<Span>, edge: Pair, onlyErrors: bool)
    requires SeesLess(parents, batch)
    ensures var stored := Tallied(Lookup(DependencyTable(batch), Dependency(edge.0, edge.1)), onlyErrors);
            var counted := Count(batch, Tallying(OnEdge(parents, edge), onlyErrors));
            && stored <= counted
            && (stored == counted <==> Together(parents, batch, edge, onlyErrors))
  {
    DependencyLookup(batch, Dependency(edge.0, edge.1));
    var seen := OnEdge(Parents(batch), edge);
    TalliedCounts(batch, seen, onlyErrors);
    CountImplies(batch, Tallying(seen, onlyErrors), Tallying(OnEdge(parents, edge), onlyErrors));
  }

  lemma SeparatedByLast(parents: map<string, string>, init: seq<seq<Span>>, last: seq<Span>, edge: Pair,
      onlyErrors: bool)
    ensures NothingSeparated(parents, init + [last], edge, onlyErrors) <==>
              NothingSeparated(parents, init, edge, onlyErrors) && Together(parents, last, edge, onlyErrors)
  {
    assert forall batch :: batch in init + [last] <==> batch in init || batch == last;
  }

  lemma {:induction false} StoredCountsLess(parents: map<string, string>, batches: seq<seq<Span>>, edge: Pair,
      onlyErrors: bool)
    requires forall batch | batch in batches :: SeesLess(parents, batch)
    ensures var stored := Tallied(Lookup(StoredEdges(batches), Dependency(edge.0, edge.1)), onlyErrors);
            var counted := Count(Flatten(batches), Tallying(OnEdge(parents, edge), onlyErrors));
            && stored <= counted
            && (stored == counted <==> NothingSeparated(parents, batches, edge, onlyErrors))
  {
    if batches != [] {
      var init, last := batches[..|batches|-1], batches[|batches|-1];
      assert batches == init + [last];
      StoredCountsLess(parents, init, edge, onlyErrors);
      SeparatedByLast(parents, init, last, edge, onlyErrors);
      BatchCountsLess(parents, last, edge, onlyErrors);
      CountConcat(Flatten(init), last, Tallying(OnEdge(parents, edge), onlyErrors));
    }
  }

  lemma {:induction false} FlattenContains<T>(batches: seq<seq<T>>, batch: seq<T>, x: T)
    requires batch in batches && x in batch
    ensures x in Flatten(batches)
  {
    var init, last := batches[..|batches|-1], batches[|batches|-1];
    assert batches == init + [last];
    if batch != last {
      FlattenContains(init, batch, x);
    }
  }

  lemma BatchesSeeLess(batches: seq<seq<Span>>)
    requires OneServicePerId(Flatten(batches))
    ensures forall batch | batch in batches :: SeesLess(Parents(Flatten(batches)), batch)
  {
    var stream := Flatten(batches);
    forall batch | batch in batches
      ensures SeesLess(Parents(stream), batch)
    {
      forall b | b in batch
        ensures b in stream
      {
        FlattenContains(batches, batch, b);
      }
      forall s | s in batch {
        BatchCallIsCall(stream, batch, s);
      }
    }
  }

  /** A row that may be missing was seen within the interval of another. */
  predicate SeenWithin(inner: Option<Counters>, outer: Option<Counters>)
  {
    inner.Some? ==>
      outer.Some? && outer.value.first <= inner.value.first && inner.value.last <= outer.value.last
  }

  lemma MergedSeenWithin(a: Option<Counters>, b: Option<Counters>, c: Option<Counters>, d: Option<Counters>)
    requires SeenWithin(a, b) && SeenWithin(c, d)
    ensures SeenWithin(MergeOption(a, c), MergeOption(b, d))
  {
  }

  lemma BatchSeenWithin(parents: map<string, string>, batch: seq<Span>, edge: Pair)
    requires SeesLess(parents, batch)
    ensures SeenWithin(Lookup(DependencyTable(batch), Dependency(edge.0, edge.1)),
        Summary(batch, OnEdge(parents, edge)))
  {
    DependencyLookup(batch, Dependency(edge.0, edge.1));
    forall s | s in batch && OnEdge(Parents(batch), edge)(s)
      ensures OnEdge(parents, edge)(s)
    {
      assert CallOf(Parents(batch), s) == Some(edge);
    }
    if Summary(batch, OnEdge(Parents(batch), edge)).Some? {
      SummaryInside(batch, OnEdge(Parents(batch), edge), OnEdge(parents, edge));
    }
  }

  lemma {:induction false} StoredSeenWithin(parents: map<string, string>, batches: seq<seq<Span>>, edge: Pair)
    requires forall batch | batch in batches :: SeesLess(parents, batch)
    ensures SeenWithin(Lookup(StoredEdges(batches), Dependency(edge.0, edge.1)),
                       Summary(Flatten(batches), OnEdge(parents, edge)))
  {
    if batches != [] {
      var init, last := batches[..|batches|-1], batches[|batches|-1];
      var k, p := Dependency(edge.0, edge.1), OnEdge(parents, edge);
      assert last in batches && forall batch | batch in init :: batch in batches;
      StoredSeenWithin(parents, init, edge);
      BatchSeenWithin(parents, last, edge);
      SummaryConcat(Flatten(init), last, p);
      MergedSeenWithin(Lookup(StoredEdges(init), k), Summary(Flatten(init), p),
                       Lookup(DependencyTable(last), k), Summary(last, p));
    }
  }

  /**
   Cutting the span stream into batches only loses calls: the stored counters of an edge are at
   most those of one whole batch, the edge is seen within the same interval, and each counter
   agrees exactly when no (failed) span counted on that edge was separated from its parent.
   */
  lemma SplittingUnderApproximates(batches: seq<seq<Span>>, edge: Pair)
    requires OneServicePerId(Flatten(batches))
    ensures var k, stream := Dependency(edge.0, edge.1), Flatten(batches);
            var stored, whole := Lookup(StoredEdges(batches), k), Lookup(DependencyTable(stream), k);
            && SeenWithin(stored, whole)
            && forall onlyErrors ::
                 && Tallied(stored, onlyErrors) <= Tallied(whole, onlyErrors)
                 && (Tallied(stored, onlyErrors) == Tallied(whole, onlyErrors) <==>
                     NothingSeparated(Parents(stream), batches, edge, onlyErrors))
  {
    var stream := Flatten(batches);
    BatchesSeeLess(batches);
    DependencyLookup(stream, Dependency(edge.0, edge.1));
    StoredSeenWithin(Parents(stream), batches, edge);
    forall onlyErrors
      ensures Tallied(Lookup(DependencyTable(stream), Dependency(edge.0, edge.1)), onlyErrors) ==
                Count(stream, Tallying(OnEdge(Parents(stream), edge), onlyErrors))
    {
      TalliedCounts(stream, OnEdge(Parents(stream), edge), onlyErrors);
    }
    StoredCountsLess(Parents(stream), batches, edge, false);
    StoredCountsLess(Parents(stream), batches, edge, true);
  }

  // ---- service counters dominate the edges into the service ----------------------------

  /** The counters of the edges from these callers into target, added up. */
  function Inbound(t: Table, callers: seq<string>, target: string, onlyErrors: bool): nat
  {
    if callers == [] then 0
    else
      Inbound(t, callers[..|callers|-1], target, onlyErrors)
      + Tallied(Lookup(t, Dependency(callers[|callers|-1], target)), onlyErrors)
  }

  /** A row makes sense, and an edge joins two services and was seen while its target was seen. */
  predicate SaneRow(t: Table, k: Key)
    requires k in t
  {
    && t[k].errors <= t[k].requests && t[k].first <= t[k].last
    && (k.Dependency? ==>
          && k.source != k.target
          && Service(k.target) in t
          && t[Service(k.target)].first <= t[k].first && t[k].last <= t[Service(k.target)].last)
  }

  /** The service row covers the edges from these callers together. */
  predicate Covers(t: Table, callers: seq<string>, target: string, onlyErrors: bool)
  {
    Inbound(t, callers, target, onlyErrors) <= Tallied(Lookup(t, Service(target)), onlyErrors)
  }

  /** Every row is sane, and every service row covers all edges into the service together. */
  ghost predicate Consistent(t: Table)
  {
    && (forall k | k in t :: SaneRow(t, k))
    && (forall target, callers, onlyErrors | Distinct(callers) :: Covers(t, callers, target, onlyErrors))
  }

  lemma {:induction false} InboundMerge(a: Table, b: Table, callers: seq<string>, target: string, onlyErrors: bool)
    ensures Inbound(MergeTable(a, b), callers, target, onlyErrors) ==
              Inbound(a, callers, target, onlyErrors) + Inbound(b, callers, target, onlyErrors)
  {
    if callers != [] {
      InboundMerge(a, b, callers[..|callers|-1], target, onlyErrors);
    }
  }

  lemma MergeConsistent(a: Table, b: Table)
    requires Consistent(a) && Consistent(b)
    ensures Consistent(MergeTable(a, b))
  {
    var m := MergeTable(a, b);
    forall target, callers, onlyErrors | Distinct(callers)
      ensures Covers(m, callers, target, onlyErrors)
    {
      InboundMerge(a, b, callers, target, onlyErrors);
      assert Covers(a, callers, target, onlyErrors) && Covers(b, callers, target, onlyErrors);
    }
  }

  /** Calls into target whose caller is one of these. */
  function FromAny(parents: map<string, string>, callers: seq<string>, target: string): Span -> bool
  {
    (s: Span) => CallOf(parents, s).Some? && CallOf(parents, s).value.1 == target
        && CallOf(parents, s).value.0 in callers
  }

  lemma {:induction false} InboundCounts(spans: seq<Span>, callers: seq<string>, target: string, onlyErrors: bool)
    requires Distinct(callers)
    ensures Inbound(DependencyTable(spans), callers, target, onlyErrors) ==
              Count(spans, Tallying(FromAny(Parents(spans), callers, target), onlyErrors))
  {
    var parents := Parents(spans);
    if callers == [] {
      CountPositive(spans, Tallying(FromAny(parents, callers, target), onlyErrors));
    } else {
      var init, last := callers[..|callers|-1], callers[|callers|-1];
      assert callers == init + [last];
      InboundCounts(spans, init, target, onlyErrors);
      DependencyLookup(spans, Dependency(last, target));
      TalliedCounts(spans, OnEdge(parents, (last, target)), onlyErrors);
      CountDisjoint(spans, Tallying(FromAny(parents, callers, target), onlyErrors),
                    Tallying(FromAny(parents, init, target), onlyErrors),
                    Tallying(OnEdge(parents, (last, target)), onlyErrors));
    }
  }

  /** What one trace batch upserts: service rows, then dependency rows. */
  function TraceTable(spans: seq<Span>): Table
  {
    MergeTable(ServiceTable(spans), DependencyTable(spans))
  }

  /** The spans of a batch that the row of a key counts. */
  function CountedIn(spans: seq<Span>, k: Key): Span -> bool
  {
    if k.Service? then HasKey(ServiceOf, k.name) else OnEdge(Parents(spans), (k.source, k.target))
  }

  lemma TraceLookup(spans: seq<Span>, k: Key)
    ensures Lookup(TraceTable(spans), k) == Summary(spans, CountedIn(spans, k))
  {
    ServiceLookup(spans, k);
    DependencyLookup(spans, k);
  }

  /** A counted call is a span of the target, made by another service. */
  lemma CallIsInTarget(parents: map<string, string>, edge: Pair, s: Span)
    requires OnEdge(parents, edge)(s)
    ensures HasKey(ServiceOf, edge.1)(s) && edge.0 != edge.1
  {
    assert CallOf(parents, s) == Some(edge);
    assert ServiceOf(s) == Some(edge.1);
  }

  lemma TraceRowsAreSane(spans: seq<Span>, k: Key)
    requires k in TraceTable(spans)
    ensures SaneRow(TraceTable(spans), k)
  {
    var t := TraceTable(spans);
    TraceLookup(spans, k);
    assert Lookup(t, k) == Some(t[k]);
    SummaryIsSane(spans, CountedIn(spans, k));
    if k.Dependency? {
      var target := Service(k.target);
      forall s | s in spans && CountedIn(spans, k)(s)
        ensures CountedIn(spans, target)(s) && k.source != k.target
      {
        CallIsInTarget(Parents(spans), (k.source, k.target), s);
      }
      SummaryInside(spans, CountedIn(spans, k), CountedIn(spans, target));
      TraceLookup(spans, target);
      assert Lookup(t, target) == Some(t[target]);
      SummaryCounts(spans, CountedIn(spans, k));
    }
  }

  lemma {:induction false} InboundIgnoresServices(spans: seq<Span>, callers: seq<string>, target: string,
      onlyErrors: bool)
    ensures Inbound(TraceTable(spans), callers, target, onlyErrors) ==
              Inbound(DependencyTable(spans), callers, target, onlyErrors)
  {
    if callers != [] {
      InboundIgnoresServices(spans, callers[..|callers|-1], target, onlyErrors);
      TraceLookup(spans, Dependency(callers[|callers|-1], target));
      DependencyLookup(spans, Dependency(callers[|callers|-1], target));
    }
  }

  lemma TraceCovers(spans: seq<Span>, callers: seq<string>, target: string, onlyErrors: bool)
    requires Distinct(callers)
    ensures Covers(TraceTable(spans), callers, target, onlyErrors)
  {
    InboundIgnoresServices(spans, callers, target, onlyErrors);
    InboundCounts(spans, callers, target, onlyErrors);
    TraceLookup(spans, Service(target));
    TalliedCounts(spans, HasKey(ServiceOf, target), onlyErrors);
    var fromAny, inTarget := FromAny(Parents(spans), callers, target), HasKey(ServiceOf, target);
    forall s | fromAny(s)
      ensures inTarget(s)
    {
      CallIsInTarget(Parents(spans), (CallOf(Parents(spans), s).value.0, target), s);
    }
    CountImplies(spans, Tallying(fromAny, onlyErrors), Tallying(inTarget, onlyErrors));
  }

  /** A trace batch counts no more calls into a service than requests of that service. */
  lemma TraceTableConsistent(spans: seq<Span>)
    ensures Consistent(TraceTable(spans))
  {
    var t := TraceTable(spans);
    forall k | k in t
      ensures SaneRow(t, k)
    {
      TraceRowsAreSane(spans, k);
    }
    forall target, callers, onlyErrors | Distinct(callers)
      ensures Covers(t, callers, target, onlyErrors)
    {
      TraceCovers(spans, callers, target, onlyErrors);
    }
  }

  lemma {:induction false} NoInboundSignals(rows: seq<SignalRow>, callers: seq<string>, target: string,
      onlyErrors: bool)
    ensures Inbound(SignalTable(rows), callers, target, onlyErrors) == 0
  {
    if callers != [] {
      NoInboundSignals(rows, callers[..|callers|-1], target, onlyErrors);
    }
  }

  lemma SignalTableConsistent(rows: seq<SignalRow>)
    ensures Consistent(SignalTable(rows))
  {
    forall target, callers, onlyErrors | Distinct(callers)
      ensures Covers(SignalTable(rows), callers, target, onlyErrors)
    {
      NoInboundSignals(rows, callers, target, onlyErrors);
    }
  }
}
