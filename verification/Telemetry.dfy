/** Normalised telemetry rows, and what the spans that satisfy a condition add up to. */
module Telemetry {
  import opened Prelude
  import opened Upsert

  /** Identifiers that are missing are empty strings, as the ingest code treats both alike. */
  datatype Span = Span(spanId: string, parentId: string, service: Option<string>,
                       start: nat, end: nat, kind: int, status: Option<int>)
  {
    /** The service name, empty when there is none. */
    function Name(): string { if service.Some? then service.value else "" }

    predicate IsError() { status == Some(2) }
  }

  function StartOf(): Span -> int { (s: Span) => s.start }

  /** A metric or log row; a time that is missing is zero. */
  datatype SignalRow = SignalRow(service: Option<string>, time: nat, startTime: nat)
  {
    function Name(): string { if service.Some? then service.value else "" }

    /** time_unix_nano or start_time_unix_nano or 0 */
    function Stamp(): nat { if time != 0 then time else startTime }
  }

  function One(s: Span): Counters
  {
    Counters(s.start, s.start, 1, if s.IsError() then 1 else 0)
  }

  /** One span counted in a row of counters, which is new if there is none yet. */
  method CountSpan(before: Option<Counters>, s: Span) returns (row: Counters)
    ensures Some(row) == MergeOption(before, Some(One(s)))
  {
    var ts := s.start;
    row := if before.Some? then before.value else Counters(ts, ts, 0, 0);
    if ts < row.first {
      row := row.(first := ts);
    }
    if ts > row.last {
      row := row.(last := ts);
    }
    row := row.(requests := row.requests + 1);
    if s.IsError() {
      row := row.(errors := row.errors + 1);
    }
  }

  /** The counters of the spans that satisfy p: one row each, merged. */
  function Summary(spans: seq<Span>, p: Span -> bool): Option<Counters>
  {
    if spans == [] then None
    else
      MergeOption(Summary(spans[..|spans|-1], p),
                  if p(spans[|spans|-1]) then Some(One(spans[|spans|-1])) else None)
  }

  /** Spans of p with status code 2. */
  function Failed(p: Span -> bool): Span -> bool { (s: Span) => p(s) && s.status == Some(2) }

  /** c counts the spans of p, counts the failed ones, and spans exactly their start times. */
  ghost predicate Counts(c: Option<Counters>, spans: seq<Span>, p: Span -> bool)
  {
    && (c.None? <==> forall s | s in spans :: !p(s))
    && (c.Some? ==>
          && c.value.requests == Count(spans, p)
          && c.value.errors == Count(spans, Failed(p))
          && (forall s | s in spans && p(s) :: c.value.first <= s.start <= c.value.last)
          && (exists s :: s in spans && p(s) && s.start == c.value.first)
          && (exists s :: s in spans && p(s) && s.start == c.value.last))
  }

  /** The request or the error counter of a row that may be missing. */
  function Tallied(c: Option<Counters>, onlyErrors: bool): nat
  {
    if c.None? then 0 else if onlyErrors then c.value.errors else c.value.requests
  }

  lemma {:induction false} SummaryTotals(spans: seq<Span>, p: Span -> bool)
    ensures Summary(spans, p).None? <==> forall s | s in spans :: !p(s)
    ensures Tallied(Summary(spans, p), false) == Count(spans, p)
    ensures Tallied(Summary(spans, p), true) == Count(spans, Failed(p))
  {
    if spans != [] {
      var init, s := spans[..|spans|-1], spans[|spans|-1];
      assert spans == init + [s];
      SummaryTotals(init, p);
    }
  }

  lemma {:induction false} SummaryTimes(spans: seq<Span>, p: Span -> bool) returns (f: Span, l: Span)
    requires Summary(spans, p).Some?
    ensures var c := Summary(spans, p).value;
            && (forall s | s in spans && p(s) :: c.first <= s.start <= c.last)
            && f in spans && p(f) && f.start == c.first && l in spans && p(l) && l.start == c.last
  {
    var init, s := spans[..|spans|-1], spans[|spans|-1];
    assert spans == init + [s];
    SummaryTotals(init, p);
    f, l := s, s;
    if Summary(init, p).Some? {
      f, l := SummaryTimes(init, p);
      if p(s) {
        f, l := if s.start < f.start then s else f, if s.start > l.start then s else l;
      }
    }
  }

  /** The merged rows are the count, the error count, the least and the greatest start. */
  lemma SummaryCounts(spans: seq<Span>, p: Span -> bool)
    ensures Counts(Summary(spans, p), spans, p)
  {
    SummaryTotals(spans, p);
    if Summary(spans, p).Some? {
      var f, l := SummaryTimes(spans, p);
    }
  }

  /** Counting by another name for the same condition. */
  lemma CountsAlike(c: Option<Counters>, spans: seq<Span>, p: Span -> bool, q: Span -> bool)
    requires Counts(c, spans, p) && forall s | s in spans :: p(s) <==> q(s)
    ensures Counts(c, spans, q)
  {
    CountImplies(spans, p, q);
    CountImplies(spans, Failed(p), Failed(q));
  }

  /** No more errors than requests, and no interval backwards. */
  lemma SummaryIsSane(spans: seq<Span>, p: Span -> bool)
    requires Summary(spans, p).Some?
    ensures var c := Summary(spans, p).value; c.errors <= c.requests && c.first <= c.last
  {
    SummaryCounts(spans, p);
    CountImplies(spans, Failed(p), p);
  }

  /** Fewer spans, seen within the interval of more spans. */
  lemma SummaryInside(spans: seq<Span>, p: Span -> bool, q: Span -> bool)
    requires Summary(spans, p).Some? && forall s | s in spans && p(s) :: q(s)
    ensures Summary(spans, q).Some?
    ensures var inner, outer := Summary(spans, p).value, Summary(spans, q).value;
            outer.first <= inner.first && inner.last <= outer.last
  {
    SummaryCounts(spans, p);
    SummaryCounts(spans, q);
  }

  lemma {:induction false} SummaryConcat(a: seq<Span>, b: seq<Span>, p: Span -> bool)
    ensures Summary(a + b, p) == MergeOption(Summary(a, p), Summary(b, p))
  {
    if b == [] {
      assert a + b == a;
    } else {
      assert (a + b)[..|a + b|-1] == a + b[..|b|-1];
      SummaryConcat(a, b[..|b|-1], p);
    }
  }

  // ---- grouping -------------------------------------------------------------------------

  function HasKey<K(==)>(key: Span -> Option<K>, k: K): Span -> bool
  {
    (s: Span) => key(s) == Some(k)
  }

  /** One more span folded into the row of its group. */
  function Tally<K>(rows: map<K, Counters>, k: Option<K>, s: Span): map<K, Counters>
  {
    if k.None? then rows
    else rows[k.value := if k.value in rows then Merge(rows[k.value], One(s)) else One(s)]
  }

  /** One row of counters per key that occurs. */
  function GroupBy<K>(spans: seq<Span>, key: Span -> Option<K>): map<K, Counters>
  {
    if spans == [] then map[]
    else Tally(GroupBy(spans[..|spans|-1], key), key(spans[|spans|-1]), spans[|spans|-1])
  }

  /** The row of a key counts exactly the spans with that key, and there is none for other keys. */
  lemma {:induction false} GroupCounts<K>(spans: seq<Span>, key: Span -> Option<K>, k: K)
    ensures Lookup(GroupBy(spans, key), k) == Summary(spans, HasKey(key, k))
    ensures Counts(Lookup(GroupBy(spans, key), k), spans, HasKey(key, k))
  {
    SummaryCounts(spans, HasKey(key, k));
    if spans != [] {
      GroupCounts(spans[..|spans|-1], key, k);
    }
  }

  /** The spans that such a counter counts. */
  function Tallying(p: Span -> bool, onlyErrors: bool): Span -> bool
  {
    if onlyErrors then Failed(p) else p
  }

  lemma TalliedCounts(spans: seq<Span>, p: Span -> bool, onlyErrors: bool)
    ensures Tallied(Summary(spans, p), onlyErrors) == Count(spans, Tallying(p, onlyErrors))
  {
    SummaryCounts(spans, p);
    CountPositive(spans, p);
    CountPositive(spans, Failed(p));
  }
}
