/**
 The anomalies table. A scan refreshes the active rows it detects again, inserts rows for new
 detections, and resolves active rows that have not fired for the cool-down period.
 */
module Anomalies {
  import opened Prelude
  import opened Red
  import opened Scan

  /** ANOMALY_COOLDOWN_SECONDS, in nanoseconds. */
  const COOLDOWN := 90_000_000_000

  type Key = (string, string)

  /** One row; its position in the table is its autoincrement id. */
  datatype Anomaly = Anomaly(service: string, metric: string, z: real, baselineMean: real, baselineStddev: real,
                             current: real, direction: Direction, detectedAt: nat, lastFiring: Option<nat>,
                             resolvedAt: Option<nat>, isActive: bool)
  {
    function Key(): Key { (service, metric) }

    /** last_firing or detected_at or 0, where a last_firing of 0 counts as missing. */
    function LastSeen(): nat
    {
      if lastFiring.Some? && lastFiring.value != 0 then lastFiring.value else detectedAt
    }
  }

  type Rows = seq<Anomaly>

  ghost predicate IsActive(rows: Rows, k: Key)
  {
    exists r :: r in rows && r.isActive && r.Key() == k
  }

  /** At most one active row per key. */
  ghost predicate OneActive(rows: Rows)
  {
    forall i, j | 0 <= i < j < |rows| && rows[i].isActive && rows[j].isActive :: rows[i].Key() != rows[j].Key()
  }

  predicate Detects(detected: seq<Detection>, k: Key) { exists d :: d in detected && d.Key() == k }

  /** The detection that is written last for a key. */
  function LastFor(detected: seq<Detection>, k: Key): Option<Detection>
  {
    if detected == [] then None
    else if detected[|detected|-1].Key() == k then Some(detected[|detected|-1])
    else LastFor(detected[..|detected|-1], k)
  }

  // ---- what a scan does to the table ----------------------------------------------------

  function Refresh(a: Anomaly, d: Detection, now: nat): Anomaly
  {
    a.(lastFiring := Some(now), z := d.z, current := d.current, direction := d.direction)
  }

  function NewRow(d: Detection, now: nat): Anomaly
  {
    Anomaly(d.service, d.metric, d.z, d.baselineMean, d.baselineStddev, d.current, d.direction,
            now, Some(now), None, true)
  }

  function Refreshed(a: Anomaly, detected: seq<Detection>, now: nat): Anomaly
  {
    if a.isActive && LastFor(detected, a.Key()).Some? then Refresh(a, LastFor(detected, a.Key()).value, now) else a
  }

  /** An active row that was not detected and has been quiet for the cool-down. */
  predicate Expires(a: Anomaly, detected: seq<Detection>, now: nat)
  {
    a.isActive && LastFor(detected, a.Key()).None? && now - a.LastSeen() >= COOLDOWN
  }

  function Settled(a: Anomaly, detected: seq<Detection>, now: nat): Anomaly
  {
    if Expires(a, detected, now) then a.(isActive := false, resolvedAt := Some(now)) else Refreshed(a, detected, now)
  }

  /** Detections whose key had no active row when the scan began. */
  ghost function News(rows: Rows, detected: seq<Detection>): seq<Detection>
  {
    if detected == [] then []
    else
      var init, d := News(rows, detected[..|detected|-1]), detected[|detected|-1];
      if IsActive(rows, d.Key()) then init else init + [d]
  }

  ghost function Inserted(news: seq<Detection>, now: nat): Rows
  {
    seq(|news|, i requires 0 <= i < |news| => NewRow(news[i], now))
  }

  ghost function Scanned(rows: Rows, detected: seq<Detection>, now: nat): Rows
  {
    seq(|rows|, i requires 0 <= i < |rows| => Settled(rows[i], detected, now)) + Inserted(News(rows, detected), now)
  }

  function KeysOf(detected: seq<Detection>): seq<Key>
  {
    seq(|detected|, i requires 0 <= i < |detected| => detected[i].Key())
  }

  /** Keys of the rows that expire, in table order. */
  function Expired(rows: Rows, detected: seq<Detection>, now: nat): seq<Key>
  {
    if rows == [] then []
    else
      var init, a := Expired(rows[..|rows|-1], detected, now), rows[|rows|-1];
      if Expires(a, detected, now) then init + [a.Key()] else init
  }

  lemma {:induction false} LastForDetects(detected: seq<Detection>, k: Key)
    ensures LastFor(detected, k).Some? <==> Detects(detected, k)
    ensures LastFor(detected, k).Some? ==>
        LastFor(detected, k).value in detected && LastFor(detected, k).value.Key() == k
  {
    if detected != [] {
      var init, last := detected[..|detected|-1], detected[|detected|-1];
      assert detected == init + [last];
      LastForDetects(init, k);
    }
  }

  lemma {:induction false} NewsAre(rows: Rows, detected: seq<Detection>)
    ensures News(rows, detected) == Filter(detected, (d: Detection) => !IsActive(rows, d.Key()))
    ensures forall d :: d in News(rows, detected) <==> d in detected && !IsActive(rows, d.Key())
    ensures UniqueKeys(detected) ==> UniqueKeys(News(rows, detected))
  {
    if detected != [] {
      var init, last := detected[..|detected|-1], detected[|detected|-1];
      assert detected == init + [last];
      NewsAre(rows, init);
      if UniqueKeys(detected) {
        forall d | d in News(rows, init)
          ensures d.Key() != last.Key()
        {
          var i :| 0 <= i < |init| && init[i] == d;
          assert detected[i].Key() != detected[|detected|-1].Key();
        }
      }
    }
  }

  lemma UniqueNewsKeepOneActive(rows: Rows, detected: seq<Detection>, now: nat)
    requires OneActive(rows) && UniqueKeys(News(rows, detected))
    ensures OneActive(Scanned(rows, detected, now))
  {
    var news, after := News(rows, detected), Scanned(rows, detected, now);
    NewsAre(rows, detected);
    forall i, j | 0 <= i < j < |after| && after[i].isActive && after[j].isActive
      ensures after[i].Key() != after[j].Key()
    {
      if i >= |rows| {
        assert news[i - |rows|].Key() != news[j - |rows|].Key();
      } else if j >= |rows| {
        assert rows[i] in rows && news[j - |rows|] in news;
      } else {
        assert rows[i].Key() != rows[j].Key();
      }
    }
  }

  lemma OneActiveMeansUniqueNews(rows: Rows, detected: seq<Detection>, now: nat)
    requires OneActive(Scanned(rows, detected, now))
    ensures UniqueKeys(News(rows, detected))
  {
    var news, after := News(rows, detected), Scanned(rows, detected, now);
    forall i, j | 0 <= i < j < |news|
      ensures news[i].Key() != news[j].Key()
    {
      assert after[|rows| + i] == NewRow(news[i], now) && after[|rows| + j] == NewRow(news[j], now);
    }
  }

  /**
   A scan keeps at most one active row per key exactly when no key that was not active is
   reported twice.
   */
  lemma OneActiveKept(rows: Rows, detected: seq<Detection>, now: nat)
    requires OneActive(rows)
    ensures OneActive(Scanned(rows, detected, now)) <==> UniqueKeys(News(rows, detected))
  {
    if UniqueKeys(News(rows, detected)) {
      UniqueNewsKeepOneActive(rows, detected, now);
    }
    if OneActive(Scanned(rows, detected, now)) {
      OneActiveMeansUniqueNews(rows, detected, now);
    }
  }

  /** active is the dictionary from the keys of the active rows to their positions. */
  ghost predicate Indexes(active: map<Key, nat>, rows: Rows)
  {
    && (forall j | 0 <= j < |rows| && rows[j].isActive :: rows[j].Key() in active && active[rows[j].Key()] == j)
    && (forall k | k in active :: active[k] < |rows| && rows[active[k]].isActive && rows[active[k]].Key() == k)
  }

  /** The table between the two halves of a scan: detections written, nothing resolved yet. */
  ghost function AfterDetections(rows: Rows, detected: seq<Detection>, now: nat): Rows
  {
    seq(|rows|, i requires 0 <= i < |rows| => Refreshed(rows[i], detected, now)) + Inserted(News(rows, detected), now)
  }

  /** One more detection refreshes the active row of its key, or is inserted. */
  lemma OneMoreDetection(rows: Rows, detected: seq<Detection>, j: nat, now: nat, active: map<Key, nat>)
    requires Indexes(active, rows) && j < |detected|
    ensures var key, before := detected[j].Key(), AfterDetections(rows, detected[..j], now);
            && |before| >= |rows|
            && News(rows, detected[..j+1])
                 == News(rows, detected[..j]) + (if key in active then [] else [detected[j]])
            && AfterDetections(rows, detected[..j+1], now) ==
                 if key in active then before[active[key] := Refresh(before[active[key]], detected[j], now)]
                 else before + [NewRow(detected[j], now)]
  {
    assert detected[..j+1][..j] == detected[..j];
    var key := detected[j].Key();
    if key in active {
      assert rows[active[key]] in rows;
    } else {
      assert !IsActive(rows, key);
    }
  }

  /** The new table and report after one more detection, in terms of the current ones. */
  lemma WriteOne(was: Rows, detected: seq<Detection>, j: nat, now: nat, active: map<Key, nat>, rows: Rows,
      news: seq<Key>)
    requires Indexes(active, was) && j < |detected|
    requires rows == AfterDetections(was, detected[..j], now) && news == KeysOf(News(was, detected[..j]))
    ensures var d, key := detected[j], detected[j].Key();
            var after, reported := AfterDetections(was, detected[..j+1], now), KeysOf(News(was, detected[..j+1]));
            if key in active
            then active[key] < |rows| && after == rows[active[key] := Refresh(rows[active[key]], d, now)]
                && reported == news
            else after == rows + [NewRow(d, now)] && reported == news + [key]
  {
    OneMoreDetection(was, detected, j, now, active);
  }

  class AnomalyTable {
    var rows: Rows

    ghost predicate Valid()
      reads this
    {
      OneActive(rows)
    }

    constructor ()
      ensures Valid() && rows == []
    {
      rows := [];
    }

    method IndexActive() returns (active: map<Key, nat>)
      requires Valid()
      ensures Indexes(active, rows)
    {
      active := map[];
      for i := 0 to |rows|
        invariant Indexes(active, rows[..i])
      {
        if rows[i].isActive {
          active := active[rows[i].Key() := i];
        }
      }
      assert rows[..|rows|] == rows;
    }

    /** _upsert_anomalies: returns the keys opened and the keys resolved. */
    method Upsert(detected: seq<Detection>, now: nat) returns (newlyOpened: seq<Key>, resolved: seq<Key>)
      requires Valid()
      modifies this
      ensures rows == Scanned(old(rows), detected, now)
      ensures newlyOpened == KeysOf(News(old(rows), detected))
      ensures resolved == Expired(old(rows), detected, now)
      ensures Valid() <==> UniqueKeys(News(old(rows), detected))
    {
      ghost var was := rows;
      var stored := |rows|;
      var active := IndexActive();
      newlyOpened, resolved := [], [];
      for j := 0 to |detected|
        invariant rows == AfterDetections(was, detected[..j], now)
        invariant newlyOpened == KeysOf(News(was, detected[..j]))
      {
        WriteOne(was, detected, j, now, active, rows, newlyOpened);
        var r, key := detected[j], detected[j].Key();
        if key in active {
          var i := active[key];
          rows := rows[i := Refresh(rows[i], r, now)];
        } else {
          rows := rows + [NewRow(r, now)];
          newlyOpened := newlyOpened + [key];
        }
      }
      assert detected[..|detected|] == detected;
      resolved := ResolveQuiet(was, stored, detected, now);
      OneActiveKept(was, detected, now);
    }

    /** Resolves the rows that were active when the scan began, were not detected, and stayed quiet. */
    method ResolveQuiet(ghost was: Rows, stored: nat, detected: seq<Detection>, now: nat) returns (resolved: seq<Key>)
      requires stored == |was| && rows == AfterDetections(was, detected, now)
      modifies this
      ensures rows == Scanned(was, detected, now)
      ensures resolved == Expired(was, detected, now)
    {
      resolved := [];
      var detectedKeys := set r | r in detected :: r.Key();
      ghost var between := rows;
      for i := 0 to stored
        invariant |rows| == |between| && rows[i..] == between[i..]
        invariant forall j | 0 <= j < i :: rows[j] == Settled(was[j], detected, now)
        invariant resolved == Expired(was[..i], detected, now)
      {
        assert was[..i+1][..i] == was[..i];
        assert rows[i] == rows[i..][0] == Refreshed(was[i], detected, now);
        LastForDetects(detected, was[i].Key());
        if rows[i].isActive && rows[i].Key() !in detectedKeys {
          if now - rows[i].LastSeen() >= COOLDOWN {
            resolved := resolved + [rows[i].Key()];
            rows := rows[i := rows[i].(isActive := false, resolvedAt := Some(now))];
          }
        }
      }
      assert was[..stored] == was;
      assert rows == rows[..stored] + rows[stored..];
      assert between[stored..] == Inserted(News(was, detected), now);
    }
  }
}
