/**
 Batched deletion of raw telemetry. Ingest keeps inserting rows between two batches, and each
 batch removes whichever old rows the database picks first.
 */
module Retention {
  import opened Prelude
  import RM = ResourceMetrics

  const DELETE_BATCH: nat := 20_000

  /** Time of each row by row id; a log record may have no time. */
  type Rows = map<nat, Option<int>>

  predicate Old(time: Option<int>, cutoff: int) { time.Some? && time.value < cutoff }

  function OldIds(rows: Rows, cutoff: int): set<nat>
  {
    set id | id in rows && Old(rows[id], cutoff)
  }

  function Kept(rows: Rows, cutoff: int): Rows
  {
    map id | id in rows && !Old(rows[id], cutoff) :: rows[id]
  }

  /** The table after the first n inserts, had nothing been deleted. */
  function Inserted(rows: Rows, arrivals: seq<Rows>, n: nat): Rows
    requires n <= |arrivals|
  {
    if n == 0 then rows else Inserted(rows, arrivals, n - 1) + arrivals[n-1]
  }

  /** The first n inserts never reuse a row id. */
  ghost predicate NewIds(rows: Rows, arrivals: seq<Rows>, n: nat)
    requires n <= |arrivals|
  {
    n > 0 ==> NewIds(rows, arrivals, n - 1) && Apart(Inserted(rows, arrivals, n - 1), arrivals[n-1])
  }

  predicate Apart(rows: Rows, batch: Rows) { forall id | id in batch :: id !in rows }

  predicate AllNew(batch: Rows, cutoff: int) { forall id | id in batch :: !Old(batch[id], cutoff) }

  lemma OldGrows(before: Rows, batch: Rows, cutoff: int)
    requires Apart(before, batch)
    ensures OldIds(before, cutoff) <= OldIds(before + batch, cutoff)
  {
    assert forall id | id in before :: id !in batch;
  }

  lemma {:induction false} OldOnlyGrows(rows: Rows, arrivals: seq<Rows>, m: nat, n: nat, cutoff: int)
    requires m <= n <= |arrivals| && NewIds(rows, arrivals, n)
    ensures OldIds(Inserted(rows, arrivals, m), cutoff) <= OldIds(Inserted(rows, arrivals, n), cutoff)
    ensures NewIds(rows, arrivals, m)
    ensures m < n ==> Apart(Inserted(rows, arrivals, m), arrivals[m])
    decreases n
  {
    if m < n {
      OldOnlyGrows(rows, arrivals, m, n - 1, cutoff);
      OldGrows(Inserted(rows, arrivals, n - 1), arrivals[n-1], cutoff);
    }
  }

  function FullBatches(passes: nat): nat { passes * DELETE_BATCH }

  lemma OneMorePass(passes: nat)
    ensures FullBatches(passes + 1) == FullBatches(passes) + DELETE_BATCH
  {
  }

  lemma PassesOf(passes: nat, last: nat)
    requires last < DELETE_BATCH
    ensures (FullBatches(passes) + last) / DELETE_BATCH == passes
  {
  }

  class Table {
    var rows: Rows

    constructor (rows: Rows)
      ensures this.rows == rows
    {
      this.rows := rows;
    }

    /** One transaction: at most a batch of old rows goes, which ones is not determined. */
    method DeleteBatch(cutoff: int) returns (count: nat, ghost victims: set<nat>)
      modifies this
      ensures victims <= OldIds(old(rows), cutoff) && count == |victims|
      ensures count == DELETE_BATCH || (count < DELETE_BATCH && victims == OldIds(old(rows), cutoff))
      ensures rows == old(rows) - victims
    {
      var left, chosen := OldIds(rows, cutoff), {};
      count := 0;
      while count < DELETE_BATCH && left != {}
        invariant chosen + left == OldIds(rows, cutoff) && chosen !! left
        invariant count == |chosen| <= DELETE_BATCH
        decreases left
      {
        var id :| id in left;
        left := left - {id};
        chosen := chosen + {id};
        count := count + 1;
      }
      victims := chosen;
      rows := rows - chosen;
    }

    method Insert(batch: Rows)
      modifies this
      ensures rows == old(rows) + batch
    {
      rows := rows + batch;
    }

    /** One pass; unless it is the last one, the next arrivals follow it. */
    method Pass(cutoff: int, arrivals: seq<Rows>, n: nat, ghost start: Rows, ghost deleted: set<nat>,
        ghost passes: nat, ghost total: nat)
      returns (count: nat, ghost victims: set<nat>)
      requires Purging(start, arrivals, cutoff, rows, deleted, n, passes, total)
      modifies this
      ensures count <= DELETE_BATCH
      ensures count < DELETE_BATCH ==> Purged(start, arrivals, cutoff, rows, passes + 1, total + count)
      ensures count == DELETE_BATCH ==>
                && total + count <= |OldIds(Inserted(start, arrivals, |arrivals|), cutoff)|
                && Purging(start, arrivals, cutoff, rows, deleted + victims, if n < |arrivals| then n + 1 else n,
                           passes + 1, total + count)
    {
      ghost var before := rows;
      count, victims := DeleteBatch(cutoff);
      if count < DELETE_BATCH {
        LastPass(start, arrivals, cutoff, before, deleted, n, passes, total, victims);
      } else {
        FullPass(start, arrivals, cutoff, before, deleted, n, passes, total, victims);
        if n < |arrivals| {
          Insert(arrivals[n]);
        }
      }
    }

    /**
     Batch n of arrivals is inserted after pass n. The loop ends after one pass more than the
     full batches that fit into the rows it deletes; these are exactly the old rows that were
     there before its last pass, and every other row stays as it is.
     */
    method RunRetention(cutoff: int, arrivals: seq<Rows>) returns (total: nat, passes: nat)
      requires NewIds(rows, arrivals, |arrivals|)
      modifies this
      ensures Purged(old(rows), arrivals, cutoff, rows, passes, total)
      ensures KeepsNew(Seen(old(rows), arrivals, passes), cutoff, rows, total)
    {
      ghost var start, deleted: set<nat> := rows, {};
      ghost var most := |OldIds(Inserted(start, arrivals, |arrivals|), cutoff)|;
      var n := 0;
      total, passes := 0, 0;
      NothingPurged(start, arrivals, cutoff);
      while true
        invariant Purging(start, arrivals, cutoff, rows, deleted, n, passes, total)
        decreases most - total
      {
        var count, victims := Pass(cutoff, arrivals, n, start, deleted, passes, total);
        total, passes, deleted := total + count, passes + 1, deleted + victims;
        if count < DELETE_BATCH {
          break;
        }
        n := if n < |arrivals| then n + 1 else n;
      }
      PurgeExact(start, arrivals, cutoff, rows, passes, total);
    }
  }

  /**
   After the last pass: the passes fit the total, and exactly the rows that were old before it are
   gone; if all arrivals were newer than the cutoff, these are the rows that were old at the start.
   */
  ghost predicate Purged(start: Rows, arrivals: seq<Rows>, cutoff: int, rows: Rows, passes: nat, total: nat)
  {
    && passes == total / 20_000 + 1
    && (var seen := Seen(start, arrivals, passes); total == |OldIds(seen, cutoff)| && rows == Kept(seen, cutoff))
    && ((forall k | 0 <= k < |arrivals| :: AllNew(arrivals[k], cutoff)) ==> total == |OldIds(start, cutoff)|)
  }

  /** The rows that were in the table at some time before the last of these passes. */
  function Seen(start: Rows, arrivals: seq<Rows>, passes: nat): Rows
    requires passes > 0
  {
    Inserted(start, arrivals, if passes - 1 <= |arrivals| then passes - 1 else |arrivals|)
  }

  /** Of these rows exactly those with a time before the cutoff are gone, so many of them. */
  ghost predicate KeepsNew(seen: Rows, cutoff: int, rows: Rows, gone: nat)
  {
    && (forall id :: id in rows <==> id in seen && (seen[id].None? || seen[id].value >= cutoff))
    && (forall id | id in rows :: rows[id] == seen[id])
    && gone == |seen.Keys - rows.Keys|
  }

  /** What a purge means for single rows, and how many there are. */
  lemma PurgeExact(start: Rows, arrivals: seq<Rows>, cutoff: int, rows: Rows, passes: nat, total: nat)
    requires Purged(start, arrivals, cutoff, rows, passes, total)
    ensures KeepsNew(Seen(start, arrivals, passes), cutoff, rows, total)
    ensures (forall k, id | 0 <= k < |arrivals| && id in arrivals[k] ::
               arrivals[k][id].None? || arrivals[k][id].value >= cutoff) ==>
              total == |set id | id in start && start[id].Some? && start[id].value < cutoff|
  {
    var seen := Seen(start, arrivals, passes);
    assert seen.Keys - rows.Keys == OldIds(seen, cutoff);
    assert OldIds(start, cutoff) == set id | id in start && start[id].Some? && start[id].value < cutoff;
  }

  /** Between two passes: every pass so far was full, and the table lacks just the rows they deleted. */
  ghost predicate Purging(start: Rows, arrivals: seq<Rows>, cutoff: int, rows: Rows, deleted: set<nat>, n: nat,
      passes: nat, total: nat)
  {
    && NewIds(start, arrivals, |arrivals|)
    && n == (if passes <= |arrivals| then passes else |arrivals|)
    && rows == Inserted(start, arrivals, n) - deleted
    && deleted <= OldIds(Inserted(start, arrivals, n), cutoff) <= OldIds(Inserted(start, arrivals, |arrivals|), cutoff)
    && total == |deleted| == FullBatches(passes)
  }

  lemma NothingPurged(start: Rows, arrivals: seq<Rows>, cutoff: int)
    requires NewIds(start, arrivals, |arrivals|)
    ensures Purging(start, arrivals, cutoff, start, {}, 0, 0, 0)
  {
    OldOnlyGrows(start, arrivals, 0, |arrivals|, cutoff);
    assert start - {} == start;
  }

  /** A full pass, and the arrival after it. */
  lemma FullPass(start: Rows, arrivals: seq<Rows>, cutoff: int, rows: Rows, deleted: set<nat>, n: nat, passes: nat,
      total: nat, victims: set<nat>)
    requires Purging(start, arrivals, cutoff, rows, deleted, n, passes, total)
    requires victims <= OldIds(rows, cutoff) && |victims| == DELETE_BATCH
    ensures total + DELETE_BATCH <= |OldIds(Inserted(start, arrivals, |arrivals|), cutoff)|
    ensures n < |arrivals| ==>
              Purging(start, arrivals, cutoff, rows - victims + arrivals[n], deleted + victims, n + 1,
                      passes + 1, total + DELETE_BATCH)
    ensures n == |arrivals| ==>
              Purging(start, arrivals, cutoff, rows - victims, deleted + victims, n, passes + 1, total + DELETE_BATCH)
  {
    DeletedSoFar(Inserted(start, arrivals, n), deleted, victims, cutoff);
    SubsetSize(deleted + victims, OldIds(Inserted(start, arrivals, |arrivals|), cutoff));
    OneMorePass(passes);
    if n < |arrivals| {
      ArrivalDone(start, arrivals, n, deleted + victims, cutoff);
    }
  }

  /** The last pass, which deletes every old row that is left. */
  lemma LastPass(start: Rows, arrivals: seq<Rows>, cutoff: int, rows: Rows, deleted: set<nat>, n: nat, passes: nat,
      total: nat, victims: set<nat>)
    requires Purging(start, arrivals, cutoff, rows, deleted, n, passes, total)
    requires victims == OldIds(rows, cutoff) && |victims| < DELETE_BATCH
    ensures Purged(start, arrivals, cutoff, rows - victims, passes + 1, total + |victims|)
  {
    DeletedSoFar(Inserted(start, arrivals, n), deleted, victims, cutoff);
    PassesOf(passes, |victims|);
    OldOnlyGrows(start, arrivals, n, |arrivals|, cutoff);
    if forall k | 0 <= k < |arrivals| :: AllNew(arrivals[k], cutoff) {
      NewArrivalsAreKept(start, arrivals, n, cutoff);
    }
  }

  lemma ArrivalDone(start: Rows, arrivals: seq<Rows>, n: nat, deleted: set<nat>, cutoff: int)
    requires NewIds(start, arrivals, |arrivals|) && n < |arrivals|
    requires deleted <= OldIds(Inserted(start, arrivals, n), cutoff)
    ensures var seen, next := Inserted(start, arrivals, n), Inserted(start, arrivals, n + 1);
            && next == seen + arrivals[n]
            && seen - deleted + arrivals[n] == next - deleted
            && OldIds(seen, cutoff) <= OldIds(next, cutoff) <= OldIds(Inserted(start, arrivals, |arrivals|), cutoff)
  {
    OldOnlyGrows(start, arrivals, n + 1, |arrivals|, cutoff);
    OldOnlyGrows(start, arrivals, n, n + 1, cutoff);
    Disjointly(Inserted(start, arrivals, n), arrivals[n], deleted);
  }

  lemma Disjointly(seen: Rows, batch: Rows, deleted: set<nat>)
    requires Apart(seen, batch) && deleted <= seen.Keys
    ensures seen - deleted + batch == (seen + batch) - deleted
  {
  }

  lemma DeletedSoFar(seen: Rows, deleted: set<nat>, victims: set<nat>, cutoff: int)
    requires deleted <= OldIds(seen, cutoff) && victims <= OldIds(seen - deleted, cutoff)
    ensures |deleted + victims| == |deleted| + |victims|
    ensures deleted + victims <= OldIds(seen, cutoff)
    ensures seen - deleted - victims == seen - (deleted + victims)
    ensures victims == OldIds(seen - deleted, cutoff) ==>
              deleted + victims == OldIds(seen, cutoff) && seen - (deleted + victims) == Kept(seen, cutoff)
  {
    assert deleted !! victims;
  }

  lemma BatchIsKept(before: Rows, batch: Rows, cutoff: int)
    requires Apart(before, batch) && AllNew(batch, cutoff)
    ensures OldIds(before + batch, cutoff) == OldIds(before, cutoff)
    ensures Kept(before + batch, cutoff) == Kept(before, cutoff) + batch
  {
    assert forall id | id in before :: id !in batch && (before + batch)[id] == before[id];
  }

  /** Rows that arrive with times inside the window never change what is deleted. */
  lemma {:induction false} NewArrivalsAreKept(rows: Rows, arrivals: seq<Rows>, n: nat, cutoff: int)
    requires n <= |arrivals| && NewIds(rows, arrivals, n)
    requires forall k | 0 <= k < |arrivals| :: AllNew(arrivals[k], cutoff)
    ensures OldIds(Inserted(rows, arrivals, n), cutoff) == OldIds(rows, cutoff)
    ensures Kept(Inserted(rows, arrivals, n), cutoff) == Inserted(Kept(rows, cutoff), arrivals, n)
  {
    if n > 0 {
      NewArrivalsAreKept(rows, arrivals, n - 1, cutoff);
      BatchIsKept(Inserted(rows, arrivals, n - 1), arrivals[n-1], cutoff);
    }
  }

  // ---- the resource gauges do not notice ------------------------------------------------

  lemma {:induction false} BaselineKept(points: seq<RM.Point>, cutoff: int, now: int)
    requires cutoff <= now - RM.BASELINE_MINUTES * NS_PER_MINUTE
    ensures RM.Baseline(Filter(points, NoOlderThan(RM.TimeOf(), cutoff)), now) == RM.Baseline(points, now)
  {
    if points != [] {
      var init, p := points[..|points|-1], points[|points|-1];
      BaselineKept(init, cutoff, now);
      var kept := Filter(init, NoOlderThan(RM.TimeOf(), cutoff));
      assert (kept + [p])[..|kept|] == kept;
    }
  }

  lemma {:induction false} CountKept(points: seq<RM.Point>, keep: RM.Point -> bool, sel: RM.Point -> bool)
    requires forall p | p in points && sel(p) :: keep(p)
    ensures Count(Filter(points, keep), sel) == Count(points, sel)
  {
    if points != [] {
      var init, p := points[..|points|-1], points[|points|-1];
      CountKept(init, keep, sel);
      var kept := Filter(init, keep);
      assert (kept + [p])[..|kept|] == kept;
    }
  }

  lemma {:induction false} TotalKept(points: seq<RM.Point>, keep: RM.Point -> bool, sel: RM.Point -> bool)
    requires forall p | p in points && sel(p) :: keep(p)
    ensures RM.Moment(Filter(points, keep), sel, 0.0, 1) == RM.Moment(points, sel, 0.0, 1)
  {
    if points != [] {
      var init, p := points[..|points|-1], points[|points|-1];
      TotalKept(init, keep, sel);
      var kept := Filter(init, keep);
      assert (kept + [p])[..|kept|] == kept;
    }
  }

  /** Deleting points from before the ten minutes that a scan looks back on changes neither mean. */
  lemma MeansKept(points: seq<RM.Point>, cutoff: int, now: int)
    requires cutoff <= now - RM.BASELINE_MINUTES * NS_PER_MINUTE
    ensures RM.Baseline(Filter(points, NoOlderThan(RM.TimeOf(), cutoff)), now) == RM.Baseline(points, now)
    ensures RM.CurrentMean(Filter(points, NoOlderThan(RM.TimeOf(), cutoff)), now) == RM.CurrentMean(points, now)
  {
    BaselineKept(points, cutoff, now);
    var kept := Filter(points, NoOlderThan(RM.TimeOf(), cutoff));
    assert RM.Averaged(kept, now) == RM.Averaged(points, now);
    CountKept(points, NoOlderThan(RM.TimeOf(), cutoff), RM.Averaged(points, now));
    TotalKept(points, NoOlderThan(RM.TimeOf(), cutoff), RM.Averaged(points, now));
  }

  /** A retention of ten minutes or more never changes whether a gauge is reported. */
  lemma GaugeRetentionIsInvisible(points: seq<RM.Point>, retainedAt: int, minutes: int, cutoff: int, now: int,
      stddev: real)
    requires retainedAt <= now && minutes >= 10 && cutoff == retainedAt - minutes * NS_PER_MINUTE
    requires RM.IsStddev(points, now, stddev)
    ensures var kept := Filter(points, NoOlderThan(RM.TimeOf(), cutoff));
            RM.IsStddev(kept, now, stddev)
                && (RM.MetricFires(kept, now, stddev) <==> RM.MetricFires(points, now, stddev))
  {
    MeansKept(points, cutoff, now);
  }
}
