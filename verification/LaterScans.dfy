/**
 Retention cannot be seen by detection: whatever arrives and is purged between scans, a scan finds
 what it would find had nothing ever been deleted.
 */
module LaterScans {
  import opened Prelude
  import opened Telemetry
  import opened Scan
  import opened ResourceMetrics
  import opened GaugeScan
  import Retention

  /** What happens to a table of telemetry between scans. */
  datatype Upkeep<T> = Arrive(rows: seq<T>) | Purge(at: int, minutes: int)
  {
    function Cutoff(): int
      requires Purge?
    {
      at - minutes * NS_PER_MINUTE
    }
  }

  /** The rows in the table after these events. */
  function Stored<T(!new)>(events: seq<Upkeep<T>>, time: T -> int): seq<T>
  {
    if events == [] then []
    else
      var before, e := Stored(events[..|events|-1], time), events[|events|-1];
      if e.Arrive? then before + e.rows else Filter(before, NoOlderThan(time, e.Cutoff()))
  }

  /** The rows that would be in the table without retention. */
  function Received<T>(events: seq<Upkeep<T>>): seq<T>
  {
    if events == [] then []
    else Received(events[..|events|-1]) + if events[|events|-1].Arrive? then events[|events|-1].rows else []
  }

  /** Every retention ran no later than now and kept at least these minutes. */
  ghost predicate Keeps<T(!new)>(events: seq<Upkeep<T>>, now: int, minutes: int)
  {
    forall e | e in events && e.Purge? :: e.at <= now && e.minutes >= minutes
  }

  /** Of the recent rows, retention has deleted none. */
  lemma {:induction false} RecentRowsStay<T(!new)>(events: seq<Upkeep<T>>, time: T -> int, now: int, minutes: nat,
      recent: T -> bool)
    requires Keeps(events, now, minutes)
    requires forall x :: recent(x) ==> time(x) >= now - minutes * NS_PER_MINUTE
    ensures Filter(Stored(events, time), recent) == Filter(Received(events), recent)
  {
    if events != [] {
      var init, e := events[..|events|-1], events[|events|-1];
      assert e in events && forall x | x in init :: x in events;
      RecentRowsStay(init, time, now, minutes, recent);
      var before := Stored(init, time);
      if e.Arrive? {
        FilterConcat(before, e.rows, recent);
        FilterConcat(Received(init), e.rows, recent);
      } else {
        assert e.minutes * NS_PER_MINUTE >= minutes * NS_PER_MINUTE;
        FilterTwice(before, NoOlderThan(time, e.Cutoff()), recent);
        assert Received(events) == Received(init);
      }
    }
  }

  /** The windows that a scan judges. */
  lemma SameWindows(events: seq<Upkeep<Span>>, now: int, p95: seq<Span> -> real)
    requires Keeps(events, now, 17)
    ensures CurrentRows(Stored(events, StartOf()), now, p95) == CurrentRows(Received(events), now, p95)
    ensures BaselineRows(Stored(events, StartOf()), now, p95) == BaselineRows(Received(events), now, p95)
  {
    var recent := NoOlderThan(StartOf(), BaselineFrom(now));
    RecentRowsStay(events, StartOf(), now, 17, recent);
    RetentionIsInvisible(Stored(events, StartOf()), now, 17, BaselineFrom(now), now, p95);
    RetentionIsInvisible(Received(events), now, 17, BaselineFrom(now), now, p95);
  }

  /** The means that a scan compares, for one series. */
  lemma SameMeans(events: seq<Upkeep<Point>>, now: int)
    requires Keeps(events, now, BASELINE_MINUTES)
    ensures Baseline(Stored(events, TimeOf()), now) == Baseline(Received(events), now)
    ensures CurrentMean(Stored(events, TimeOf()), now) == CurrentMean(Received(events), now)
  {
    var cutoff := now - BASELINE_MINUTES * NS_PER_MINUTE;
    RecentRowsStay(events, TimeOf(), now, BASELINE_MINUTES, NoOlderThan(TimeOf(), cutoff));
    Retention.MeansKept(Stored(events, TimeOf()), cutoff, now);
    Retention.MeansKept(Received(events), cutoff, now);
  }

  /** The points of every series, after retention and without it. */
  function StoredPoints(events: Series -> seq<Upkeep<Point>>): Series -> seq<Point>
  {
    (s: Series) => Stored(events(s), TimeOf())
  }

  function ReceivedPoints(events: Series -> seq<Upkeep<Point>>): Series -> seq<Point>
  {
    (s: Series) => Received(events(s))
  }

  lemma {:induction false} SameGaugeDetections(candidates: seq<Series>, a: Series -> seq<Point>,
      b: Series -> seq<Point>, now: int, stddev: Series -> real)
    requires forall s | s in candidates :: IsStddev(a(s), now, stddev(s)) && IsStddev(b(s), now, stddev(s))
    requires forall s | s in candidates ::
               Baseline(a(s), now) == Baseline(b(s), now) && CurrentMean(a(s), now) == CurrentMean(b(s), now)
    ensures GaugeDetections(candidates, a, now, stddev) == GaugeDetections(candidates, b, now, stddev)
  {
    if candidates != [] {
      var init, s := candidates[..|candidates|-1], candidates[|candidates|-1];
      assert candidates == init + [s];
      SameGaugeDetections(init, a, b, now, stddev);
    }
  }

  /** The series that a scan looks at. */
  lemma SameCandidate(s: Series, events: seq<Upkeep<Point>>, now: int, ignored: set<string>)
    requires Keeps(events, now, BASELINE_MINUTES)
    ensures Candidate(s, Stored(events, TimeOf()), now, ignored) <==> Candidate(s, Received(events), now, ignored)
  {
    var recent := NoOlderThan(TimeOf(), now - BASELINE_MINUTES * NS_PER_MINUTE);
    RecentRowsStay(events, TimeOf(), now, BASELINE_MINUTES, recent);
    var kept := Filter(Received(events), recent);
    assert forall p :: p in kept <==> p in Stored(events, TimeOf()) && recent(p);
    assert forall p :: p in kept <==> p in Received(events) && recent(p);
  }

  /**
   After any arrivals and any retention passes that keep at least 17 minutes of spans and ten
   minutes of points, a scan judges the same services, has the same candidate series, and makes
   the same detections, in the same order, as one over everything ever received.
   */
  lemma RetentionChangesNoDetection(spans: seq<Upkeep<Span>>, points: Series -> seq<Upkeep<Point>>, now: int,
                                    p95: seq<Span> -> real, ignored: set<string>, order: seq<string>,
                                    candidates: seq<Series>, stddev: Series -> real)
    requires Keeps(spans, now, 17)
    requires forall s :: Keeps(points(s), now, BASELINE_MINUTES)
    requires ListsCandidates(candidates, StoredPoints(points), now, ignored)
    requires forall s | s in candidates :: IsStddev(StoredPoints(points)(s), now, stddev(s))
    ensures Seen(CurrentRows(Stored(spans, StartOf()), now, p95), BaselineRows(Stored(spans, StartOf()), now, p95),
        ignored)
         == Seen(CurrentRows(Received(spans), now, p95), BaselineRows(Received(spans), now, p95), ignored)
    ensures ListsCandidates(candidates, ReceivedPoints(points), now, ignored)
    ensures forall s | s in candidates :: IsStddev(ReceivedPoints(points)(s), now, stddev(s))
    ensures Detections(Stored(spans, StartOf()), StoredPoints(points), now, p95, order, candidates, stddev)
         == Detections(Received(spans), ReceivedPoints(points), now, p95, order, candidates, stddev)
  {
    SameWindows(spans, now, p95);
    forall s
      ensures Candidate(s, StoredPoints(points)(s), now, ignored) <==>
          Candidate(s, ReceivedPoints(points)(s), now, ignored)
    {
      SameCandidate(s, points(s), now, ignored);
    }
    forall s | s in candidates
      ensures Baseline(StoredPoints(points)(s), now) == Baseline(ReceivedPoints(points)(s), now)
      ensures CurrentMean(StoredPoints(points)(s), now) == CurrentMean(ReceivedPoints(points)(s), now)
    {
      SameMeans(points(s), now);
    }
    SameGaugeDetections(candidates, StoredPoints(points), ReceivedPoints(points), now, stddev);
  }
}
