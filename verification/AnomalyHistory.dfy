/** What the anomalies table holds after any run of scans, as a function of the detection history. */
module AnomalyHistory {
  import opened Prelude
  import opened Red
  import opened Scan
  import opened Anomalies

  /** One scan: what it detected, and time.time_ns() when it ran. */
  datatype Pass = Pass(detected: seq<Detection>, now: nat)

  /** The table after these scans, starting from no rows. */
  ghost function Run(passes: seq<Pass>): Rows
  {
    if passes == [] then []
    else
      var last := passes[|passes|-1];
      Scanned(Run(passes[..|passes|-1]), last.detected, last.now)
  }

  /** Detections with one result per key, as the merge produces them, at times after the epoch. */
  ghost predicate Sound(passes: seq<Pass>)
  {
    forall p | p in passes :: UniqueKeys(p.detected) && p.now > 0
  }

  ghost predicate Monotone(passes: seq<Pass>)
  {
    forall i, j | 0 <= i <= j < |passes| :: passes[i].now <= passes[j].now
  }

  // ---- single rows ----------------------------------------------------------------------

  /** Every row after a scan is a settled old row or a new one, and all of those are there. */
  lemma ScannedRows(rows: Rows, detected: seq<Detection>, now: nat)
    ensures forall r | r in Scanned(rows, detected, now) ::
              (exists a :: a in rows && r == Settled(a, detected, now))
              || (exists d :: d in News(rows, detected) && r == NewRow(d, now))
    ensures forall a | a in rows :: Settled(a, detected, now) in Scanned(rows, detected, now)
    ensures forall d | d in News(rows, detected) :: NewRow(d, now) in Scanned(rows, detected, now)
  {
    var news, after := News(rows, detected), Scanned(rows, detected, now);
    forall r | r in after
      ensures (exists a :: a in rows && r == Settled(a, detected, now))
          || (exists d :: d in news && r == NewRow(d, now))
    {
      var i :| 0 <= i < |after| && after[i] == r;
      if i < |rows| {
        assert rows[i] in rows;
      } else {
        assert news[i - |rows|] in news;
      }
    }
    forall a | a in rows
      ensures Settled(a, detected, now) in after
    {
      var i :| 0 <= i < |rows| && rows[i] == a;
      assert after[i] == Settled(a, detected, now);
    }
    forall d | d in news
      ensures NewRow(d, now) in after
    {
      var i :| 0 <= i < |news| && news[i] == d;
      assert after[|rows| + i] == NewRow(d, now);
    }
  }

  /** Active means not resolved, and a resolved row had been quiet for the cool-down. */
  predicate Sane(a: Anomaly)
  {
    && a.lastFiring.Some? && a.lastFiring.value > 0
    && (a.isActive <==> a.resolvedAt.None?)
    && (a.resolvedAt.Some? ==> a.resolvedAt.value - a.lastFiring.value >= COOLDOWN)
  }

  lemma {:induction false} RowsAreSane(passes: seq<Pass>)
    requires Sound(passes)
    ensures OneActive(Run(passes))
    ensures forall a | a in Run(passes) :: Sane(a)
  {
    if passes != [] {
      var init, last := passes[..|passes|-1], passes[|passes|-1];
      assert last in passes;
      RowsAreSane(init);
      NewsAre(Run(init), last.detected);
      OneActiveKept(Run(init), last.detected, last.now);
      ScannedRows(Run(init), last.detected, last.now);
    }
  }

  // ---- the closed form of the active set ------------------------------------------------

  /** Pass i is the last one that detects k. */
  ghost predicate LastHit(passes: seq<Pass>, k: Key, i: nat)
  {
    && i < |passes| && Detects(passes[i].detected, k)
    && forall j | i < j < |passes| :: !Detects(passes[j].detected, k)
  }

  /** No later scan comes as long as the cool-down after pass i. */
  ghost predicate StaysWarm(passes: seq<Pass>, i: nat)
    requires i < |passes|
  {
    forall j | i <= j < |passes| :: passes[j].now - passes[i].now < COOLDOWN
  }

  ghost predicate Warm(passes: seq<Pass>, k: Key, i: nat)
  {
    LastHit(passes, k, i) && StaysWarm(passes, i)
  }

  /** What an active row records: its key was last detected in pass i, with these values. */
  ghost predicate Records(a: Anomaly, passes: seq<Pass>, i: nat)
    requires i < |passes|
  {
    var d := LastFor(passes[i].detected, a.Key());
    && a.lastFiring == Some(passes[i].now) && d.Some?
    && a.z == d.value.z && a.current == d.value.current && a.direction == d.value.direction
  }

  /** The row records the last detection of its key, which is less than the cool-down ago. */
  ghost predicate Recorded(a: Anomaly, passes: seq<Pass>)
  {
    exists i :: Warm(passes, a.Key(), i) && Records(a, passes, i)
  }

  lemma WarmExtends(passes: seq<Pass>, k: Key, i: nat)
    requires |passes| > 0
    ensures var n, init := |passes| - 1, passes[..|passes|-1];
            Warm(passes, k, i) <==>
              if i == n then Detects(passes[n].detected, k)
              else Warm(init, k, i) && !Detects(passes[n].detected, k) && passes[n].now - passes[i].now < COOLDOWN
  {
  }

  /** A row that is active after a scan was detected by it, or was active and has not expired. */
  lemma ActiveAfter(rows: Rows, detected: seq<Detection>, now: nat, a: Anomaly)
    requires a in Scanned(rows, detected, now) && a.isActive
    ensures if Detects(detected, a.Key()) then
              var d := LastFor(detected, a.Key());
              UniqueKeys(detected) ==>
                && a.lastFiring == Some(now) && d.Some?
                && a.z == d.value.z && a.current == d.value.current && a.direction == d.value.direction
            else a in rows && now - a.LastSeen() < COOLDOWN
  {
    ScannedRows(rows, detected, now);
    LastForDetects(detected, a.Key());
    NewsAre(rows, detected);
    if Detects(detected, a.Key()) && UniqueKeys(detected)
       && exists d :: d in News(rows, detected) && a == NewRow(d, now) {
      var d :| d in News(rows, detected) && a == NewRow(d, now);
      OnlyOneFor(detected, d, LastFor(detected, a.Key()).value);
    }
  }

  lemma OnlyOneFor(detected: seq<Detection>, d: Detection, e: Detection)
    requires UniqueKeys(detected) && d in detected && e in detected && d.Key() == e.Key()
    ensures d == e
  {
    var i :| 0 <= i < |detected| && detected[i] == d;
    var j :| 0 <= j < |detected| && detected[j] == e;
    assert i == j;
  }

  lemma DetectedIsActive(rows: Rows, detected: seq<Detection>, now: nat, k: Key)
    requires Detects(detected, k)
    ensures IsActive(Scanned(rows, detected, now), k)
  {
    ScannedRows(rows, detected, now);
    NewsAre(rows, detected);
    LastForDetects(detected, k);
    if IsActive(rows, k) {
      var a :| a in rows && a.isActive && a.Key() == k;
      assert Settled(a, detected, now) in Scanned(rows, detected, now);
    } else {
      var d :| d in detected && d.Key() == k;
      assert NewRow(d, now) in Scanned(rows, detected, now);
    }
  }

  lemma RecentIsActive(rows: Rows, detected: seq<Detection>, now: nat, a: Anomaly)
    requires a in rows && a.isActive && now - a.LastSeen() < COOLDOWN
    ensures IsActive(Scanned(rows, detected, now), a.Key())
  {
    ScannedRows(rows, detected, now);
    assert Settled(a, detected, now) in Scanned(rows, detected, now);
  }

  /**
   The active rows of a key: each records the last detection of the key, no scan since then came
   as long as the cool-down later; and while that is so there is one.
   */
  lemma {:induction false} ActiveRows(passes: seq<Pass>, k: Key)
    requires Sound(passes)
    ensures forall a | a in Run(passes) && a.isActive && a.Key() == k :: Recorded(a, passes)
    ensures (exists i :: Warm(passes, k, i)) ==> IsActive(Run(passes), k)
  {
    if passes != [] {
      var n, init, last := |passes| - 1, passes[..|passes|-1], passes[|passes|-1];
      assert last in passes;
      ActiveRows(init, k);
      RowsAreSane(init);
      forall a | a in Run(passes) && a.isActive && a.Key() == k
        ensures Recorded(a, passes)
      {
        RowRecords(passes, init, k, a);
      }
      forall i | Warm(passes, k, i)
        ensures IsActive(Run(passes), k)
      {
        WarmExtends(passes, k, i);
        if i == n {
          DetectedIsActive(Run(init), last.detected, last.now, k);
        } else {
          WarmIsActive(passes, init, k, i);
        }
      }
    }
  }

  lemma RowRecords(passes: seq<Pass>, init: seq<Pass>, k: Key, a: Anomaly)
    requires |passes| > 0 && init == passes[..|passes|-1]
    requires a in Run(passes) && a.isActive && a.Key() == k
    requires UniqueKeys(passes[|passes|-1].detected)
    requires forall b | b in Run(init) && b.isActive && b.Key() == k :: Sane(b) && Recorded(b, init)
    ensures Recorded(a, passes)
  {
    var n, last := |passes| - 1, passes[|passes|-1];
    ActiveAfter(Run(init), last.detected, last.now, a);
    if Detects(last.detected, k) {
      WarmExtends(passes, k, n);
      assert Warm(passes, k, n) && Records(a, passes, n);
    } else {
      var i :| Warm(init, k, i) && Records(a, init, i);
      WarmExtends(passes, k, i);
      assert Warm(passes, k, i) && Records(a, passes, i);
    }
  }

  lemma WarmIsActive(passes: seq<Pass>, init: seq<Pass>, k: Key, i: nat)
    requires |passes| > 0 && init == passes[..|passes|-1]
    requires i < |init| && Warm(passes, k, i) && IsActive(Run(init), k)
    requires forall b | b in Run(init) && b.isActive && b.Key() == k :: Sane(b) && Recorded(b, init)
    ensures IsActive(Run(passes), k)
  {
    var last := passes[|passes|-1];
    WarmExtends(passes, k, i);
    var b :| b in Run(init) && b.isActive && b.Key() == k;
    var j :| Warm(init, k, j) && Records(b, init, j);
    assert j == i;
    RecentIsActive(Run(init), last.detected, last.now, b);
  }

  /**
   The active set in closed form: a key is active exactly when no scan since its last detection
   came as long as the cool-down later.
   */
  lemma ActiveClosedForm(passes: seq<Pass>, k: Key)
    requires Sound(passes)
    ensures IsActive(Run(passes), k) <==> exists i :: Warm(passes, k, i)
  {
    ActiveRows(passes, k);
  }

  lemma {:induction false} SomeLastHit(passes: seq<Pass>, k: Key, i: nat) returns (last: nat)
    requires i < |passes| && Detects(passes[i].detected, k)
    ensures i <= last && LastHit(passes, k, last)
    decreases |passes| - i
  {
    if j: nat :| i < j < |passes| && Detects(passes[j].detected, k) {
      last := SomeLastHit(passes, k, j);
    } else {
      last := i;
    }
  }

  /** With a clock that never runs back: active exactly when detected less than 90 s ago. */
  lemma ActiveMeansRecent(passes: seq<Pass>, k: Key)
    requires Sound(passes) && Monotone(passes) && passes != []
    ensures IsActive(Run(passes), k) <==>
              exists i :: 0 <= i < |passes| && Detects(passes[i].detected, k)
                          && passes[|passes|-1].now - passes[i].now < 90_000_000_000
  {
    ActiveClosedForm(passes, k);
    if i: nat :| i < |passes| && Detects(passes[i].detected, k) && passes[|passes|-1].now - passes[i].now < COOLDOWN {
      var last := SomeLastHit(passes, k, i);
      assert Warm(passes, k, last);
    }
  }

  /**
   Pass j resolved the row: pass i was the last one before it that detected the key, j the first
   after it that came as long as the cool-down later, and the row records both.
   */
  ghost predicate ResolvedIn(a: Anomaly, passes: seq<Pass>, i: nat, j: nat)
  {
    && i < j < |passes| && Detects(passes[i].detected, a.Key()) && Records(a, passes, i)
    && (forall n | i < n <= j :: !Detects(passes[n].detected, a.Key()))
    && (forall n | i < n < j :: passes[n].now - passes[i].now < COOLDOWN)
    && passes[j].now - passes[i].now >= COOLDOWN
    && a.resolvedAt == Some(passes[j].now)
  }

  /** An active row, warm since pass i, that the last pass resolves. */
  lemma ExpiryRecords(passes: seq<Pass>, init: seq<Pass>, b: Anomaly, a: Anomaly, i: nat)
    requires |passes| > 0 && init == passes[..|passes|-1]
    requires i < |init| && Warm(init, b.Key(), i) && Records(b, init, i) && Sane(b)
    requires Expires(b, passes[|passes|-1].detected, passes[|passes|-1].now)
    requires !Detects(passes[|passes|-1].detected, b.Key())
    requires a == b.(isActive := false, resolvedAt := Some(passes[|passes|-1].now))
    ensures ResolvedIn(a, passes, i, |passes| - 1)
  {
    assert a.Key() == b.Key();
  }

  lemma {:induction false} ResolvedNow(passes: seq<Pass>, init: seq<Pass>, b: Anomaly, a: Anomaly) returns (i: nat)
    requires Sound(init) && passes != [] && init == passes[..|passes|-1]
    requires b in Run(init) && b.isActive && !a.isActive
    requires a == Settled(b, passes[|passes|-1].detected, passes[|passes|-1].now)
    ensures ResolvedIn(a, passes, i, |passes| - 1)
  {
    ActiveRows(init, b.Key());
    RowsAreSane(init);
    LastForDetects(passes[|passes|-1].detected, b.Key());
    i :| Warm(init, b.Key(), i) && Records(b, init, i);
    ExpiryRecords(passes, init, b, a, i);
  }

  lemma ResolvedEarlier(passes: seq<Pass>, init: seq<Pass>, a: Anomaly, i: nat, j: nat)
    requires |passes| > 0 && init == passes[..|passes|-1] && ResolvedIn(a, init, i, j)
    ensures ResolvedIn(a, passes, i, j)
  {
    assert init[i] == passes[i] && init[j] == passes[j];
  }

  /** Every resolved row was resolved like this. */
  lemma {:induction false} ResolvedExactly(passes: seq<Pass>, a: Anomaly) returns (i: nat, j: nat)
    requires Sound(passes) && a in Run(passes) && !a.isActive
    ensures ResolvedIn(a, passes, i, j)
  {
    var init, last := passes[..|passes|-1], passes[|passes|-1];
    assert Sound(init);
    ScannedRows(Run(init), last.detected, last.now);
    var b :| b in Run(init) && a == Settled(b, last.detected, last.now);
    if b.isActive {
      i := ResolvedNow(passes, init, b, a);
      j := |init|;
    } else {
      i, j := ResolvedExactly(init, b);
      ResolvedEarlier(passes, init, a, i, j);
    }
  }

  // ---- rows over time -------------------------------------------------------------------

  /** Further scans keep every row in its place; a resolved row never changes again. */
  lemma {:induction false} RowsPersist(before: seq<Pass>, after: seq<Pass>)
    ensures |Run(before)| <= |Run(before + after)|
    ensures forall i | 0 <= i < |Run(before)| ::
              var was, now := Run(before)[i], Run(before + after)[i];
              && was.Key() == now.Key() && was.detectedAt == now.detectedAt
              && (!was.isActive ==> now == was)
  {
    if after == [] {
      assert before + after == before;
    } else {
      assert (before + after)[..|before + after|-1] == before + after[..|after|-1];
      RowsPersist(before, after[..|after|-1]);
    }
  }

  /** Rows lie within the time of the run, and each is opened, fires and is resolved in this order. */
  ghost predicate Timed(a: Anomaly, passes: seq<Pass>)
    requires passes != []
  {
    && a.lastFiring.Some?
    && passes[0].now <= a.detectedAt <= a.lastFiring.value <= passes[|passes|-1].now
    && (a.resolvedAt.Some? ==> a.resolvedAt.value <= passes[|passes|-1].now)
  }

  lemma {:induction false} RowsAreTimed(passes: seq<Pass>)
    requires Monotone(passes) && passes != []
    ensures forall a | a in Run(passes) :: Timed(a, passes)
  {
    var init, last := passes[..|passes|-1], passes[|passes|-1];
    ScannedRows(Run(init), last.detected, last.now);
    if init != [] {
      assert Monotone(init);
      RowsAreTimed(init);
      assert passes[|init| - 1].now <= last.now;
    }
  }

  /** Pass i opened the row, with the key and the baseline of one of its detections. */
  ghost predicate OpenedBy(a: Anomaly, passes: seq<Pass>, i: nat, d: Detection)
  {
    && i < |passes| && d in passes[i].detected && a.detectedAt == passes[i].now
    && a.Key() == d.Key() && a.baselineMean == d.baselineMean && a.baselineStddev == d.baselineStddev
  }

  /** Every row keeps the baseline of the detection that opened it. */
  lemma {:induction false} RowsKeepTheirBaseline(passes: seq<Pass>, a: Anomaly) returns (i: nat, d: Detection)
    requires a in Run(passes)
    ensures OpenedBy(a, passes, i, d)
  {
    var n, init, last := |passes| - 1, passes[..|passes|-1], passes[|passes|-1];
    ScannedRows(Run(init), last.detected, last.now);
    NewsAre(Run(init), last.detected);
    if b :| b in Run(init) && a == Settled(b, last.detected, last.now) {
      i, d := RowsKeepTheirBaseline(init, b);
    } else {
      d :| d in News(Run(init), last.detected) && a == NewRow(d, last.now);
      i := n;
    }
  }

  /** One opening of a key is over, for the whole cool-down since it last fired, before the next. */
  ghost predicate Reopened(first: Anomaly, second: Anomaly)
  {
    && first.resolvedAt.Some? && first.lastFiring.Some?
    && first.detectedAt + COOLDOWN <= first.lastFiring.value + COOLDOWN <= first.resolvedAt.value <= second.detectedAt
  }

  /** A row that a scan inserts, and a stored row of its key. */
  lemma NewAfterOld(init: seq<Pass>, last: Pass, a: Anomaly, d: Detection)
    requires Sound(init) && Monotone(init) && (init != [] ==> init[|init|-1].now <= last.now)
    requires a in Run(init) && d in News(Run(init), last.detected) && a.Key() == d.Key()
    ensures !a.isActive && Reopened(a, NewRow(d, last.now))
  {
    RowsAreSane(init);
    NewsAre(Run(init), last.detected);
    RowsAreTimed(init);
  }

  lemma NewRowsDiffer(news: seq<Detection>, i: nat, j: nat)
    requires i < j < |news| && UniqueKeys(news)
    ensures news[i].Key() != news[j].Key()
  {
  }

  /** Settling a row moves neither its key nor its opening, and leaves a resolved row alone. */
  lemma SettlingKeeps(first: Anomaly, second: Anomaly, detected: seq<Detection>, now: nat)
    ensures Settled(first, detected, now).Key() == first.Key()
    ensures Sane(first) && Reopened(first, second) ==>
              Reopened(Settled(first, detected, now), Settled(second, detected, now))
  {
  }

  /** The rows of a table, and those a further scan makes of them, are openings one after the other. */
  ghost predicate Apart(rows: Rows, i: nat, j: nat)
    requires i < |rows| && j < |rows|
  {
    rows[i].Key() == rows[j].Key() ==> Reopened(rows[i], rows[j])
  }

  lemma OldRowsStayApart(rows: Rows, detected: seq<Detection>, now: nat, i: nat, j: nat)
    requires i < |rows| && j < |rows| && Sane(rows[i]) && Apart(rows, i, j)
    ensures Apart(Scanned(rows, detected, now), i, j)
  {
    SettlingKeeps(rows[i], rows[j], detected, now);
    SettlingKeeps(rows[j], rows[i], detected, now);
  }

  lemma OldAndNewApart(init: seq<Pass>, last: Pass, i: nat, j: nat)
    requires Sound(init) && Monotone(init) && (init != [] ==> init[|init|-1].now <= last.now)
    requires i < |Run(init)| <= j < |Scanned(Run(init), last.detected, last.now)|
    ensures Apart(Scanned(Run(init), last.detected, last.now), i, j)
  {
    var rows, news := Run(init), News(Run(init), last.detected);
    assert rows[i] in rows && news[j - |rows|] in news;
    SettlingKeeps(rows[i], rows[i], last.detected, last.now);
    if rows[i].Key() == news[j - |rows|].Key() {
      NewAfterOld(init, last, rows[i], news[j - |rows|]);
    }
  }

  lemma NewRowsApart(rows: Rows, detected: seq<Detection>, now: nat, i: nat, j: nat)
    requires UniqueKeys(detected) && |rows| <= i < j < |Scanned(rows, detected, now)|
    ensures Apart(Scanned(rows, detected, now), i, j)
  {
    NewsAre(rows, detected);
    NewRowsDiffer(News(rows, detected), i - |rows|, j - |rows|);
  }

  /** Two rows of a key are two openings, the second after the first is over. */
  lemma {:induction false} OpeningsAreApart(passes: seq<Pass>, i: nat, j: nat)
    requires Sound(passes) && Monotone(passes) && i < j < |Run(passes)|
    ensures Run(passes)[i].Key() == Run(passes)[j].Key() ==> Reopened(Run(passes)[i], Run(passes)[j])
  {
    var n := |passes| - 1;
    var init, last := passes[..n], passes[n];
    var rows := Run(init);
    assert last in passes && Sound(init) && Monotone(init);
    assert n > 0 ==> passes[n - 1].now <= last.now;
    if j < |rows| {
      OpeningsAreApart(init, i, j);
      RowsAreSane(init);
      assert rows[i] in rows;
      OldRowsStayApart(rows, last.detected, last.now, i, j);
    } else if i < |rows| {
      OldAndNewApart(init, last, i, j);
    } else {
      NewRowsApart(rows, last.detected, last.now, i, j);
    }
    assert Apart(Run(passes), i, j);
  }

  /** Openings of a key between two times. */
  function OpenedIn(k: Key, from: nat, to: nat): Anomaly -> bool
  {
    (a: Anomaly) => a.Key() == k && from <= a.detectedAt <= to
  }

  /** The rows of each key are opened a cool-down apart. */
  ghost predicate Spaced(rows: Rows)
  {
    forall x, y | 0 <= x < y < |rows| && rows[x].Key() == rows[y].Key() ::
      rows[x].detectedAt + COOLDOWN <= rows[y].detectedAt
  }

  /** After n rows, the next opening in the period comes a cool-down later for each opening among them. */
  lemma {:induction false} NextOpening(rows: Rows, k: Key, from: nat, to: nat, n: nat, j: nat)
    requires Spaced(rows) && n <= j < |rows| && OpenedIn(k, from, to)(rows[j])
    ensures from + COOLDOWN * Count(rows[..n], OpenedIn(k, from, to)) <= rows[j].detectedAt
  {
    if n > 0 {
      assert rows[..n][..n-1] == rows[..n-1];
      if OpenedIn(k, from, to)(rows[n-1]) {
        NextOpening(rows, k, from, to, n - 1, n - 1);
      } else {
        NextOpening(rows, k, from, to, n - 1, j);
      }
    }
  }

  lemma {:induction false} OpeningsInPeriod(rows: Rows, k: Key, from: nat, to: nat, n: nat)
    requires Spaced(rows) && n <= |rows|
    ensures var c := Count(rows[..n], OpenedIn(k, from, to)); c > 0 ==> from + COOLDOWN * (c - 1) <= to
  {
    if n > 0 {
      assert rows[..n][..n-1] == rows[..n-1];
      if OpenedIn(k, from, to)(rows[n-1]) {
        NextOpening(rows, k, from, to, n - 1, n - 1);
      } else {
        OpeningsInPeriod(rows, k, from, to, n - 1);
      }
    }
  }

  /** In any period of T nanoseconds within a run a key opens at most 1 + T / 90 s times. */
  lemma FlapBound(passes: seq<Pass>, k: Key, from: nat, to: nat)
    requires Sound(passes) && Monotone(passes) && from <= to
    ensures Count(Run(passes), OpenedIn(k, from, to)) <= 1 + (to - from) / 90_000_000_000
  {
    var rows := Run(passes);
    forall x, y | 0 <= x < y < |rows| && rows[x].Key() == rows[y].Key()
      ensures rows[x].detectedAt + COOLDOWN <= rows[y].detectedAt
    {
      OpeningsAreApart(passes, x, y);
    }
    OpeningsInPeriod(rows, k, from, to, |rows|);
    assert rows[..|rows|] == rows;
  }

  // ---- the reports account for the active set -------------------------------------------

  function IsKey(k: Key): Key -> bool { (x: Key) => x == k }

  ghost function Openings(passes: seq<Pass>, k: Key): nat
  {
    if passes == [] then 0
    else
      var init, last := passes[..|passes|-1], passes[|passes|-1];
      Openings(init, k) + Count(KeysOf(News(Run(init), last.detected)), IsKey(k))
  }

  ghost function Resolutions(passes: seq<Pass>, k: Key): nat
  {
    if passes == [] then 0
    else
      var init, last := passes[..|passes|-1], passes[|passes|-1];
      Resolutions(init, k) + Count(Expired(Run(init), last.detected, last.now), IsKey(k))
  }

  lemma {:induction false} CountKeys(news: seq<Detection>, k: Key)
    requires UniqueKeys(news)
    ensures Count(KeysOf(news), IsKey(k)) == if Detects(news, k) then 1 else 0
  {
    if news != [] {
      var init, last := news[..|news|-1], news[|news|-1];
      assert news == init + [last];
      assert KeysOf(news)[..|news|-1] == KeysOf(init);
      CountKeys(init, k);
      assert last.Key() == k ==> !Detects(init, k);
    }
  }

  lemma {:induction false} CountExpired(rows: Rows, detected: seq<Detection>, now: nat, k: Key)
    requires OneActive(rows)
    ensures Count(Expired(rows, detected, now), IsKey(k)) ==
              if exists a :: a in rows && a.Key() == k && Expires(a, detected, now) then 1 else 0
  {
    if rows != [] {
      var init, last := rows[..|rows|-1], rows[|rows|-1];
      assert rows == init + [last];
      CountExpired(init, detected, now, k);
      var expired := Expired(rows, detected, now);
      if Expires(last, detected, now) {
        assert expired[..|expired|-1] == Expired(init, detected, now);
        forall a | a in init && a.isActive
          ensures a.Key() != last.Key()
        {
          var i :| 0 <= i < |init| && init[i] == a;
          assert rows[i].Key() != rows[|rows|-1].Key();
        }
      }
    }
  }

  /** A key is active after a scan if it was detected, or has an active row that does not expire. */
  lemma ActiveAfterScan(rows: Rows, detected: seq<Detection>, now: nat, k: Key)
    ensures IsActive(Scanned(rows, detected, now), k) <==>
              || Detects(detected, k)
              || exists a :: a in rows && a.isActive && a.Key() == k && !Expires(a, detected, now)
  {
    ScannedRows(rows, detected, now);
    LastForDetects(detected, k);
    NewsAre(rows, detected);
    if Detects(detected, k) {
      DetectedIsActive(rows, detected, now, k);
    }
    forall a | a in rows && a.isActive && a.Key() == k && !Expires(a, detected, now)
      ensures IsActive(Scanned(rows, detected, now), k)
    {
      assert Settled(a, detected, now) in Scanned(rows, detected, now);
    }
  }

  lemma OnlyActive(rows: Rows, a: Anomaly, b: Anomaly)
    requires OneActive(rows) && a in rows && b in rows && a.isActive && b.isActive && a.Key() == b.Key()
    ensures a == b
  {
    var i :| 0 <= i < |rows| && rows[i] == a;
    var j :| 0 <= j < |rows| && rows[j] == b;
    assert i == j;
  }

  /** One scan reports at most one change of a key, and exactly the change of its activity. */
  lemma OneScanReports(rows: Rows, detected: seq<Detection>, now: nat, k: Key)
    requires OneActive(rows) && UniqueKeys(detected)
    ensures var o, r := Count(KeysOf(News(rows, detected)), IsKey(k)), Count(Expired(rows, detected, now), IsKey(k));
            && o + r <= 1
            && (o == 1 <==> !IsActive(rows, k) && IsActive(Scanned(rows, detected, now), k))
            && (r == 1 <==> IsActive(rows, k) && !IsActive(Scanned(rows, detected, now), k))
  {
    NewsAre(rows, detected);
    CountKeys(News(rows, detected), k);
    CountExpired(rows, detected, now, k);
    LastForDetects(detected, k);
    ActiveAfterScan(rows, detected, now, k);
    forall a, b | a in rows && b in rows && a.isActive && b.isActive && a.Key() == k == b.Key()
      ensures a == b
    {
      OnlyActive(rows, a, b);
    }
  }

  /**
   Over every run the reports of a key alternate: it has been opened as often as it has been
   resolved, and once more exactly while it is active.
   */
  lemma {:induction false} ReportsAlternate(passes: seq<Pass>, k: Key)
    requires Sound(passes)
    ensures Openings(passes, k) == Resolutions(passes, k) + if IsActive(Run(passes), k) then 1 else 0
  {
    if passes != [] {
      var init, last := passes[..|passes|-1], passes[|passes|-1];
      assert last in passes;
      ReportsAlternate(init, k);
      RowsAreSane(init);
      OneScanReports(Run(init), last.detected, last.now, k);
    }
  }
}
