/**
 Concurrent ingest. Every batch is one database transaction that upserts its service rows and then
 its dependency rows in sorted order, takes a row lock for each, and holds the locks to commit.
 Transactions interleave freely; a transaction may fail at any point, and is tried three times.
 */
module Ingest {
  import opened Prelude
  import opened Upsert
  import opened Telemetry
  import opened Discovery
  import opened CallGraph

  datatype Batch = Traces(spans: seq<Span>) | Signals(rows: seq<SignalRow>)

  /** Everything a batch upserts. */
  function RowsOf(b: Batch): Table
  {
    if b.Traces? then TraceTable(b.spans) else SignalTable(b.rows)
  }

  // ---- the lock order -------------------------------------------------------------------

  /** Services by name, then dependencies by (source, target). */
  predicate KeyLt(a: Key, b: Key)
  {
    match (a, b)
    case (Service(n), Service(m)) => StringLt(n, m)
    case (Service(_), Dependency(_, _)) => true
    case (Dependency(_, _), Service(_)) => false
    case (Dependency(s, t), Dependency(u, v)) => StringLt(s, u) || (s == u && StringLt(t, v))
  }

  lemma KeyLtTotal(a: Key, b: Key)
    ensures !KeyLt(a, a)
    ensures a != b ==> (KeyLt(a, b) <==> !KeyLt(b, a))
  {
    if a.Service? && b.Service? {
      StringLtTotal(a.name, b.name);
    } else if a.Dependency? && b.Dependency? {
      StringLtTotal(a.source, b.source);
      StringLtTotal(a.target, b.target);
    }
    if a.Service? {
      StringLtTotal(a.name, a.name);
    } else {
      StringLtTotal(a.source, a.source);
      StringLtTotal(a.target, a.target);
    }
  }

  lemma KeyLtTransitive(a: Key, b: Key, c: Key)
    requires KeyLt(a, b) && KeyLt(b, c)
    ensures KeyLt(a, c)
  {
    if a.Service? && c.Service? {
      StringLtTransitive(a.name, b.name, c.name);
    } else if a.Dependency? && b.Dependency? {
      if StringLt(a.source, b.source) && StringLt(b.source, c.source) {
        StringLtTransitive(a.source, b.source, c.source);
      } else if a.source == b.source == c.source {
        StringLtTransitive(a.target, b.target, c.target);
      }
    }
  }

  lemma LockOrder()
    ensures StrictOrder(KeyLt)
  {
    forall x, y ensures !KeyLt(x, x) && (x != y ==> (KeyLt(x, y) <==> !KeyLt(y, x))) {
      KeyLtTotal(x, y);
    }
    forall x, y, z | KeyLt(x, y) && KeyLt(y, z) ensures KeyLt(x, z) {
      KeyLtTransitive(x, y, z);
    }
  }

  ghost predicate Ascending(order: seq<Key>) { Ascends(order, KeyLt) }

  /** params.sort, first of the service rows, then of the dependency rows. */
  method LockPlan(rows: Table) returns (order: seq<Key>)
    ensures Ascending(order) && forall k :: k in order <==> k in rows
    ensures forall i, j | 0 <= i < j < |order| ::
              match (order[i], order[j])
              case (Service(n), Service(m)) => StringLt(n, m)
              case (Dependency(a, b), Dependency(c, d)) => StringLt(a, c) || (a == c && StringLt(b, d))
              case (Service(_), Dependency(_, _)) => true
              case (Dependency(_, _), Service(_)) => false
  {
    LockOrder();
    var services := SortedBy((set k | k in rows && k.Service?), KeyLt);
    var dependencies := SortedBy((set k | k in rows && k.Dependency?), KeyLt);
    order := services + dependencies;
    forall i, j | 0 <= i < |services| && 0 <= j < |dependencies|
      ensures KeyLt(services[i], dependencies[j])
    {
      assert services[i] in services && dependencies[j] in dependencies;
    }
  }

  // ---- transactions ---------------------------------------------------------------------

  const MAX_ATTEMPTS := 3

  datatype Status = Running | Committed | Dropped

  /**
   rows is what the batch upserts and order its lock order. pending holds the new versions of the
   rows locked so far, computed from the committed rows when each lock was granted.
   */
  datatype Txn = Txn(rows: Table, order: seq<Key>, pc: nat, pending: Table, attempt: nat, status: Status)

  /** The committed tables, and the transactions in the order they committed. */
  datatype State = State(table: Table, txns: seq<Txn>, log: seq<nat>)

  datatype Event = Lock(i: nat) | Commit(i: nat) | Retry(i: nat) | Drop(i: nat)

  predicate Holds(t: Txn, k: Key) { t.status.Running? && k in t.pending }

  /** No other transaction holds the row that transaction i wants next. */
  ghost predicate Granted(s: State, i: nat)
    requires i < |s.txns| && s.txns[i].pc < |s.txns[i].order|
  {
    forall j | 0 <= j < |s.txns| && j != i :: !Holds(s.txns[j], s.txns[i].order[s.txns[i].pc])
  }

  ghost predicate Enabled(s: State, e: Event)
  {
    && e.i < |s.txns| && s.txns[e.i].status.Running?
    && match e
       case Lock(i) => s.txns[i].pc < |s.txns[i].order| && s.txns[i].order[s.txns[i].pc] in s.txns[i].rows
           && Granted(s, i)
       case Commit(i) => s.txns[i].pc == |s.txns[i].order|
       case Retry(i) => s.txns[i].attempt < MAX_ATTEMPTS
       case Drop(i) => true
  }

  ghost function Step(s: State, e: Event): State
    requires Enabled(s, e)
  {
    var t := s.txns[e.i];
    match e
    case Lock(i) =>
      var k := t.order[t.pc];
      s.(txns := s.txns[i := t.(pc := t.pc + 1, pending := t.pending[k := UpsertRow(s.table, k, t.rows[k])])])
    case Commit(i) =>
      State(s.table + t.pending, s.txns[i := t.(status := Committed)], s.log + [i])
    case Retry(i) =>
      s.(txns := s.txns[i := t.(pc := 0, pending := map[], attempt := t.attempt + 1)])
    case Drop(i) =>
      s.(txns := s.txns[i := t.(status := Dropped)])
  }

  ghost predicate Settled(s: State)
  {
    forall i | 0 <= i < |s.txns| :: !s.txns[i].status.Running?
  }

  /** A transaction about to begin its first attempt at a batch, with its keys sorted. */
  ghost predicate Fresh(t: Txn, b: Batch)
  {
    && t.rows == RowsOf(b) && Ascending(t.order) && (forall k :: k in t.order <==> k in t.rows)
    && t.pc == 0 && t.pending == map[] && t.attempt == 1 && t.status == Running
  }

  ghost predicate Starts(s: State, table: Table, batches: seq<Batch>)
  {
    && s.table == table && s.log == [] && |s.txns| == |batches|
    && forall i | 0 <= i < |batches| :: Fresh(s.txns[i], batches[i])
  }

  /** The state after these events, if each is enabled when it happens. */
  ghost function Run(s: State, events: seq<Event>): Option<State>
  {
    if events == [] then Some(s)
    else
      var mid, e := Run(s, events[..|events|-1]), events[|events|-1];
      if mid.Some? && Enabled(mid.value, e) then Some(Step(mid.value, e)) else None
  }

  // ---- the invariant --------------------------------------------------------------------

  ghost predicate GoodTxn(table: Table, t: Txn)
  {
    && Ascending(t.order) && (forall k :: k in t.order <==> k in t.rows)
    && t.pc <= |t.order| && 1 <= t.attempt <= MAX_ATTEMPTS
    && (t.status.Running? ==>
          && (forall k :: k in t.pending <==> k in t.order[..t.pc])
          && (forall k | k in t.pending :: t.pending[k] == UpsertRow(table, k, t.rows[k])))
  }

  function LoggedRows(txns: seq<Txn>, log: seq<nat>): seq<Table>
    requires forall i | i in log :: i < |txns|
  {
    seq(|log|, n requires 0 <= n < |log| => assert log[n] in log; txns[log[n]].rows)
  }

  /** log lists exactly the committed transactions, each once. */
  ghost predicate IsCommitLog(txns: seq<Txn>, log: seq<nat>)
  {
    && Distinct(log)
    && (forall i | i in log :: i < |txns| && txns[i].status.Committed?)
    && (forall i: nat | i < |txns| && txns[i].status.Committed? :: i in log)
  }

  ghost predicate Exclusive(s: State)
  {
    forall i, j, k | 0 <= i < j < |s.txns| :: !(Holds(s.txns[i], k) && Holds(s.txns[j], k))
  }

  ghost predicate Inv(s: State, table: Table)
  {
    && (forall i | 0 <= i < |s.txns| :: GoodTxn(s.table, s.txns[i]))
    && Exclusive(s)
    && IsCommitLog(s.txns, s.log)
    && s.table == MergeAll(table, LoggedRows(s.txns, s.log))
  }

  lemma StartsGood(s: State, table: Table, batches: seq<Batch>)
    requires Starts(s, table, batches)
    ensures Inv(s, table)
  {
  }

  lemma LockedTxnGood(table: Table, t: Txn)
    requires GoodTxn(table, t) && t.status.Running? && t.pc < |t.order| && t.order[t.pc] in t.rows
    ensures var k := t.order[t.pc];
            GoodTxn(table, t.(pc := t.pc + 1, pending := t.pending[k := UpsertRow(table, k, t.rows[k])]))
  {
    assert t.order[..t.pc+1] == t.order[..t.pc] + [t.order[t.pc]];
  }

  /** A transaction that changes without committing, and without taking a row another one holds. */
  lemma ChangeKeepsInv(s: State, table: Table, i: nat, t: Txn)
    requires Inv(s, table) && i < |s.txns| && s.txns[i].status.Running? && !t.status.Committed?
    requires GoodTxn(s.table, t) && t.rows == s.txns[i].rows
    requires forall j, k | 0 <= j < |s.txns| && j != i && Holds(t, k) :: !Holds(s.txns[j], k)
    ensures Inv(s.(txns := s.txns[i := t]), table)
  {
    assert LoggedRows(s.txns[i := t], s.log) == LoggedRows(s.txns, s.log);
  }

  lemma LockKeepsInv(s: State, table: Table, i: nat)
    requires Inv(s, table) && Enabled(s, Lock(i))
    ensures Inv(Step(s, Lock(i)), table)
  {
    LockedTxnGood(s.table, s.txns[i]);
    var t := Step(s, Lock(i)).txns[i];
    forall j, k | 0 <= j < |s.txns| && j != i && Holds(t, k)
      ensures !Holds(s.txns[j], k)
    {
      assert Holds(s.txns[i], k) || k == s.txns[i].order[s.txns[i].pc];
    }
    ChangeKeepsInv(s, table, i, t);
  }

  lemma CommitKeepsOthers(s: State, table: Table, i: nat, j: nat)
    requires Inv(s, table) && Enabled(s, Commit(i)) && j < |s.txns|
    ensures GoodTxn(s.table + s.txns[i].pending, Step(s, Commit(i)).txns[j])
  {
    if j != i && s.txns[j].status.Running? {
      forall k | k in s.txns[j].pending
        ensures k !in s.txns[i].pending
      {
        assert Holds(s.txns[j], k);
        assert !Holds(s.txns[i], k);
      }
    }
  }

  /** The row versions published by a commit are the batch merged into the committed rows. */
  lemma CommitMerges(table: Table, t: Txn)
    requires GoodTxn(table, t) && t.status.Running? && t.pc == |t.order|
    ensures table + t.pending == MergeTable(table, t.rows)
  {
    assert t.order[..t.pc] == t.order;
  }

  lemma CommitKeepsInv(s: State, table: Table, i: nat)
    requires Inv(s, table) && Enabled(s, Commit(i))
    ensures Inv(Step(s, Commit(i)), table)
  {
    var s' := Step(s, Commit(i));
    CommitMerges(s.table, s.txns[i]);
    forall j: nat | j < |s'.txns|
      ensures GoodTxn(s'.table, s'.txns[j])
    {
      CommitKeepsOthers(s, table, i, j);
    }
    var before, after := LoggedRows(s.txns, s.log), LoggedRows(s'.txns, s'.log);
    assert after == before + [s.txns[i].rows];
    assert after[..|after|-1] == before;
  }

  lemma GiveUpKeepsInv(s: State, table: Table, e: Event)
    requires Inv(s, table) && Enabled(s, e) && (e.Retry? || e.Drop?)
    ensures Inv(Step(s, e), table)
  {
    ChangeKeepsInv(s, table, e.i, Step(s, e).txns[e.i]);
  }

  lemma {:induction false} RunKeepsInv(s: State, table: Table, events: seq<Event>)
    requires Inv(s, table) && Run(s, events).Some?
    ensures Inv(Run(s, events).value, table)
    ensures |Run(s, events).value.txns| == |s.txns|
    ensures forall i | 0 <= i < |s.txns| :: Run(s, events).value.txns[i].rows == s.txns[i].rows
  {
    if events != [] {
      var init, e := events[..|events|-1], events[|events|-1];
      RunKeepsInv(s, table, init);
      var mid := Run(s, init).value;
      match e
      case Lock(i) => LockKeepsInv(mid, table, i);
      case Commit(i) => CommitKeepsInv(mid, table, i);
      case Retry(_) => GiveUpKeepsInv(mid, table, e);
      case Drop(_) => GiveUpKeepsInv(mid, table, e);
    }
  }

  // ---- no deadlock, and every schedule ends ---------------------------------------------

  /** A running transaction that still has a row to lock. */
  predicate Waiting(s: State, i: nat)
  {
    i < |s.txns| && s.txns[i].status.Running? && s.txns[i].pc < |s.txns[i].order|
  }

  function Wanted(s: State, i: nat): Key
    requires Waiting(s, i)
  {
    s.txns[i].order[s.txns[i].pc]
  }

  lemma {:induction false} LastInLockOrder(s: State, n: nat) returns (m: nat)
    requires n <= |s.txns| && exists i: nat :: i < n && Waiting(s, i)
    ensures m < n && Waiting(s, m)
    ensures forall i: nat | i < n && Waiting(s, i) :: !KeyLt(Wanted(s, m), Wanted(s, i))
  {
    var last: nat := n - 1;
    if exists i: nat :: i < last && Waiting(s, i) {
      m := LastInLockOrder(s, last);
      if Waiting(s, last) {
        KeyLtTotal(Wanted(s, last), Wanted(s, last));
        if KeyLt(Wanted(s, m), Wanted(s, last)) {
          forall i: nat | i < last && Waiting(s, i)
            ensures !KeyLt(Wanted(s, last), Wanted(s, i))
          {
            if KeyLt(Wanted(s, last), Wanted(s, i)) {
              KeyLtTransitive(Wanted(s, m), Wanted(s, last), Wanted(s, i));
            }
          }
          m := last;
        }
      }
    } else {
      m := last;
      KeyLtTotal(Wanted(s, m), Wanted(s, m));
    }
  }

  lemma HolderWantsALaterRow(s: State, table: Table, i: nat, j: nat)
    requires Inv(s, table) && Waiting(s, i) && Waiting(s, j) && Holds(s.txns[j], Wanted(s, i))
    ensures KeyLt(Wanted(s, i), Wanted(s, j))
  {
    assert GoodTxn(s.table, s.txns[j]);
    assert Wanted(s, i) in s.txns[j].order[..s.txns[j].pc];
  }

  /** While a transaction is running, some transaction can lock its next row or commit. */
  lemma NoDeadlock(s: State, table: Table)
    requires Inv(s, table) && !Settled(s)
    ensures exists i :: Enabled(s, Lock(i)) || Enabled(s, Commit(i))
  {
    var r :| 0 <= r < |s.txns| && s.txns[r].status.Running?;
    if forall i: nat | i < |s.txns| && s.txns[i].status.Running? :: Waiting(s, i) {
      var m := LastInLockOrder(s, |s.txns|);
      forall j: nat | j < |s.txns| && j != m
        ensures !Holds(s.txns[j], Wanted(s, m))
      {
        if Holds(s.txns[j], Wanted(s, m)) {
          HolderWantsALaterRow(s, table, m, j);
        }
      }
      assert GoodTxn(s.table, s.txns[m]);
      assert Wanted(s, m) in s.txns[m].order;
      assert Enabled(s, Lock(m));
    } else {
      var i: nat :| i < |s.txns| && s.txns[i].status.Running? && !Waiting(s, i);
      assert GoodTxn(s.table, s.txns[i]);
      assert Enabled(s, Commit(i));
    }
  }

  /** An upper bound on the events left in a transaction. */
  function Fuel(t: Txn): nat
  {
    if t.status.Running? && t.attempt <= MAX_ATTEMPTS && t.pc <= |t.order|
    then (MAX_ATTEMPTS - t.attempt) * (|t.order| + 2) + |t.order| - t.pc + 1
    else 0
  }

  function TotalFuel(txns: seq<Txn>): nat
  {
    if txns == [] then 0 else TotalFuel(txns[..|txns|-1]) + Fuel(txns[|txns|-1])
  }

  lemma {:induction false} FuelOfUpdate(txns: seq<Txn>, i: nat, t: Txn)
    requires i < |txns|
    ensures TotalFuel(txns[i := t]) == TotalFuel(txns) - Fuel(txns[i]) + Fuel(t)
  {
    var n := |txns| - 1;
    if i == n {
      assert txns[i := t][..n] == txns[..n];
    } else {
      assert txns[i := t][..n] == txns[..n][i := t];
      FuelOfUpdate(txns[..n], i, t);
    }
  }

  /** Locking a row, giving up an attempt and finishing all leave less to do. */
  lemma FuelBurns(t: Txn, pending: Table)
    requires t.status.Running? && t.attempt <= MAX_ATTEMPTS && t.pc <= |t.order|
    ensures t.pc < |t.order| ==> Fuel(t.(pc := t.pc + 1, pending := pending)) < Fuel(t)
    ensures t.attempt < MAX_ATTEMPTS ==> Fuel(t.(pc := 0, pending := pending, attempt := t.attempt + 1)) < Fuel(t)
    ensures Fuel(t) > 0
  {
    var left, most := MAX_ATTEMPTS - t.attempt, |t.order| + 2;
    assert left >= 1 ==> left * most == (left - 1) * most + most;
    assert left * most >= 0;
  }

  lemma StepBurnsFuel(s: State, table: Table, e: Event)
    requires Inv(s, table) && Enabled(s, e)
    ensures TotalFuel(Step(s, e).txns) < TotalFuel(s.txns)
  {
    var t, t' := s.txns[e.i], Step(s, e).txns[e.i];
    assert t.attempt <= MAX_ATTEMPTS && t.pc <= |t.order| by {
      assert GoodTxn(s.table, t);
    }
    FuelBurns(t, t'.pending);
    assert Fuel(t') < Fuel(t) by {
      assert e.Lock? ==> t' == t.(pc := t.pc + 1, pending := t'.pending);
      assert e.Retry? ==> t' == t.(pc := 0, pending := t'.pending, attempt := t.attempt + 1);
      assert e.Commit? || e.Drop? ==> Fuel(t') == 0;
    }
    FuelOfUpdate(s.txns, e.i, t');
  }

  /** No schedule is longer than the fuel the transactions start with. */
  lemma {:induction false} EveryScheduleEnds(s: State, table: Table, events: seq<Event>)
    requires Inv(s, table) && Run(s, events).Some?
    ensures |events| + TotalFuel(Run(s, events).value.txns) <= TotalFuel(s.txns)
  {
    if events != [] {
      var init := events[..|events|-1];
      EveryScheduleEnds(s, table, init);
      RunKeepsInv(s, table, init);
      StepBurnsFuel(Run(s, init).value, table, events[|events|-1]);
    }
  }

  // ---- every outcome is possible --------------------------------------------------------

  function IsRetry(i: nat): Event -> bool { (e: Event) => e == Retry(i) }

  /** A transaction can fail at any point; each retry is one more attempt, and it can be retried twice. */
  lemma {:induction false} AttemptsExact(s: State, table: Table, batches: seq<Batch>, events: seq<Event>, i: nat)
    requires Starts(s, table, batches) && Run(s, events).Some? && i < |batches|
    ensures var end := Run(s, events).value;
            && |end.txns| == |batches|
            && end.txns[i].attempt == 1 + Count(events, IsRetry(i)) <= 3
            && (Enabled(end, Retry(i)) <==> end.txns[i].status.Running? && Count(events, IsRetry(i)) < 2)
            && (Enabled(end, Drop(i)) <==> end.txns[i].status.Running?)
  {
    StartsGood(s, table, batches);
    RunKeepsInv(s, table, events);
    if events != [] {
      AttemptsExact(s, table, batches, events[..|events|-1], i);
    }
    assert GoodTxn(Run(s, events).value.table, Run(s, events).value.txns[i]);
  }

  lemma RunOneMore(s: State, events: seq<Event>, e: Event)
    requires Run(s, events).Some? && Enabled(Run(s, events).value, e)
    ensures Run(s, events + [e]) == Some(Step(Run(s, events).value, e))
  {
    assert (events + [e])[..|events|] == events;
  }

  /** No transaction but i is in the middle of an attempt. */
  ghost predicate Alone(s: State, i: nat)
  {
    forall j, k | 0 <= j < |s.txns| && j != i :: !Holds(s.txns[j], k)
  }

  /** Transaction i has locked n rows, and no other transaction has moved. */
  ghost predicate HasLocked(start: State, end: State, i: nat, n: nat)
  {
    && i < |start.txns| == |end.txns| && end.log == start.log
    && (forall j | 0 <= j < |end.txns| && j != i :: end.txns[j] == start.txns[j])
    && end.txns[i] == start.txns[i].(pc := n, pending := end.txns[i].pending)
  }

  lemma LockOneMore(start: State, mid: State, i: nat, b: Batch, n: nat)
    requires HasLocked(start, mid, i, n) && Alone(start, i) && Fresh(start.txns[i], b) && n < |start.txns[i].order|
    ensures Enabled(mid, Lock(i)) && HasLocked(start, Step(mid, Lock(i)), i, n + 1)
  {
    assert start.txns[i].order[n] in start.txns[i].order;
    assert forall j, k | 0 <= j < |mid.txns| && j != i :: Holds(mid.txns[j], k) == Holds(start.txns[j], k);
  }

  /** An undisturbed transaction can lock all its rows. */
  lemma {:induction false} LockRows(s: State, events: seq<Event>, i: nat, b: Batch, n: nat) returns (more: seq<Event>)
    requires Run(s, events).Some? && i < |Run(s, events).value.txns| && Alone(Run(s, events).value, i)
    requires Fresh(Run(s, events).value.txns[i], b) && n <= |Run(s, events).value.txns[i].order|
    ensures Run(s, more).Some? && HasLocked(Run(s, events).value, Run(s, more).value, i, n)
  {
    if n == 0 {
      more := events;
    } else {
      var before := LockRows(s, events, i, b, n - 1);
      LockOneMore(Run(s, events).value, Run(s, before).value, i, b, n - 1);
      RunOneMore(s, before, Lock(i));
      more := before + [Lock(i)];
    }
  }

  /** Those in the log have committed, and the others have not begun. */
  ghost predicate Queued(s: State, batches: seq<Batch>, log: seq<nat>)
  {
    && |s.txns| == |batches| && s.log == log
    && forall i | 0 <= i < |batches| :: if i in log then s.txns[i].status.Committed? else Fresh(s.txns[i], batches[i])
  }

  /** The batches can commit in any order, one after the other. */
  lemma {:induction false} CommitInOrder(s: State, table: Table, batches: seq<Batch>, order: seq<nat>)
    returns (events: seq<Event>)
    requires Starts(s, table, batches) && Distinct(order) && forall i | i in order :: i < |batches|
    ensures Run(s, events).Some? && Queued(Run(s, events).value, batches, order)
  {
    events := [];
    if order != [] {
      var init, i := order[..|order|-1], order[|order|-1];
      assert order == init + [i] && i in order && forall j | j in init :: j in order;
      var before := CommitInOrder(s, table, batches, init);
      var mid := Run(s, before).value;
      assert i !in init;
      var locked := LockRows(s, before, i, batches[i], |mid.txns[i].order|);
      RunOneMore(s, locked, Commit(i));
      events := locked + [Commit(i)];
    }
  }

  /** Of the first n transactions those that have not committed are dropped; the others are as before. */
  ghost predicate HasDropped(start: State, end: State, order: seq<nat>, n: nat)
  {
    && |end.txns| == |start.txns| && end.log == start.log
    && forall i | 0 <= i < |end.txns| ::
         if i < n && i !in order then end.txns[i].status.Dropped? else end.txns[i] == start.txns[i]
  }

  lemma DropOneMore(start: State, mid: State, batches: seq<Batch>, order: seq<nat>, n: nat)
    requires Queued(start, batches, order) && HasDropped(start, mid, order, n) && n < |batches| && n !in order
    ensures Enabled(mid, Drop(n)) && HasDropped(start, Step(mid, Drop(n)), order, n + 1)
  {
  }

  lemma {:induction false} DropRest(s: State, events: seq<Event>, batches: seq<Batch>, order: seq<nat>, n: nat)
    returns (more: seq<Event>)
    requires Run(s, events).Some? && Queued(Run(s, events).value, batches, order) && n <= |batches|
    ensures Run(s, more).Some? && HasDropped(Run(s, events).value, Run(s, more).value, order, n)
  {
    if n == 0 {
      more := events;
    } else {
      more := DropRest(s, events, batches, order, n - 1);
      if n - 1 !in order {
        DropOneMore(Run(s, events).value, Run(s, more).value, batches, order, n - 1);
        RunOneMore(s, more, Drop(n - 1));
        more := more + [Drop(n - 1)];
      }
    }
  }

  /** Any of the batches can commit, in any order, while all others are dropped. */
  lemma EveryOutcomeIsPossible(s: State, table: Table, batches: seq<Batch>, order: seq<nat>)
    returns (events: seq<Event>)
    requires Starts(s, table, batches) && Distinct(order) && forall i | i in order :: i < |batches|
    ensures Run(s, events).Some? && Settled(Run(s, events).value) && Run(s, events).value.log == order
  {
    var committed := CommitInOrder(s, table, batches, order);
    events := DropRest(s, committed, batches, order, |batches|);
  }

  // ---- the tables are those of a serial order, and of any serial order -------------------

  lemma LoggedConcat(txns: seq<Txn>, a: seq<nat>, b: seq<nat>)
    requires forall i | i in a || i in b :: i < |txns|
    ensures forall i | i in a + b :: i < |txns|
    ensures LoggedRows(txns, a + b) == LoggedRows(txns, a) + LoggedRows(txns, b)
  {
  }

  lemma SomeElement(q: seq<nat>)
    ensures q == [] || exists i :: i in q
  {
    if q != [] {
      assert q[0] in q;
    }
  }

  lemma TakeOut(q: seq<nat>, x: nat) returns (a: seq<nat>, b: seq<nat>)
    requires Distinct(q) && x in q
    ensures q == a + [x] + b && Distinct(a + b)
    ensures forall i :: i in a + b <==> i in q && i != x
  {
    var n :| 0 <= n < |q| && q[n] == x;
    a, b := q[..n], q[n+1..];
  }

  lemma {:induction false} SameCommitsSameTable(table: Table, txns: seq<Txn>, p: seq<nat>, q: seq<nat>)
    requires Distinct(p) && Distinct(q)
    requires forall i :: i in p <==> i in q
    requires forall i | i in p || i in q :: i < |txns|
    ensures MergeAll(table, LoggedRows(txns, p)) == MergeAll(table, LoggedRows(txns, q))
  {
    if p == [] {
      SomeElement(q);
    } else {
      var init, x := p[..|p|-1], p[|p|-1];
      assert p == init + [x];
      var a, b := TakeOut(q, x);
      forall i
        ensures i in init <==> i in a + b
      {
        assert i in p <==> i in q;
      }
      SameCommitsSameTable(table, txns, init, a + b);
      var row := txns[x].rows;
      assert LoggedRows(txns, [x]) == [row];
      LoggedConcat(txns, init, [x]);
      MergeAllMove(table, LoggedRows(txns, init), row, []);
      assert LoggedRows(txns, init) + [row] + [] == LoggedRows(txns, p);
      assert LoggedRows(txns, init) + [] == LoggedRows(txns, init);
      forall i | i in a || i in b
        ensures i in a + b
      {
      }
      LoggedConcat(txns, a, b);
      LoggedConcat(txns, a, [x]);
      LoggedConcat(txns, a + [x], b);
      MergeAllMove(table, LoggedRows(txns, a), row, LoggedRows(txns, b));
    }
  }

  /**
   In every reachable state the committed tables are the initial ones with the committed batches
   merged whole, one after another, in whatever order one likes to list them. No update is lost,
   a dropped batch leaves no trace, and the interleaving does not matter.
   */
  lemma Serializable(s: State, table: Table, batches: seq<Batch>, events: seq<Event>, order: seq<nat>)
    requires Starts(s, table, batches) && Run(s, events).Some?
    requires IsCommitLog(Run(s, events).value.txns, order)
    ensures forall i | i in order :: i < |batches|
    ensures Run(s, events).value.table ==
              MergeAll(table, seq(|order|, n requires 0 <= n < |order| =>
                                    assert order[n] in order; RowsOf(batches[order[n]])))
  {
    StartsGood(s, table, batches);
    RunKeepsInv(s, table, events);
    var end := Run(s, events).value;
    SameCommitsSameTable(table, end.txns, end.log, order);
    var rows := seq(|order|, n requires 0 <= n < |order| => assert order[n] in order; RowsOf(batches[order[n]]));
    assert LoggedRows(end.txns, order) == rows;
  }

  // ---- what the stored tables mean ------------------------------------------------------

  lemma {:induction false} MergeAllConsistent(table: Table, rows: seq<Table>)
    requires Consistent(table) && forall r | r in rows :: Consistent(r)
    ensures Consistent(MergeAll(table, rows))
  {
    if rows != [] {
      MergeAllConsistent(table, rows[..|rows|-1]);
      MergeConsistent(MergeAll(table, rows[..|rows|-1]), rows[|rows|-1]);
    }
  }

  /**
   In every reachable state: errors never exceed requests, intervals run forward, there are no
   self-edges, each edge was seen while its target was, and the edges into a service together
   count no more requests and no more errors than the service itself.
   */
  lemma CommittedTablesConsistent(s: State, table: Table, batches: seq<Batch>, events: seq<Event>)
    requires Starts(s, table, batches) && Run(s, events).Some? && Consistent(table)
    ensures Consistent(Run(s, events).value.table)
  {
    StartsGood(s, table, batches);
    RunKeepsInv(s, table, events);
    var end := Run(s, events).value;
    var rows := LoggedRows(end.txns, end.log);
    forall n | 0 <= n < |rows|
      ensures Consistent(rows[n])
    {
      var i := end.log[n];
      assert i in end.log && rows[n] == RowsOf(batches[i]);
      if batches[i].Traces? {
        TraceTableConsistent(batches[i].spans);
      } else {
        SignalTableConsistent(batches[i].rows);
      }
    }
    MergeAllConsistent(table, rows);
  }

  // ---- what the stored rows count -------------------------------------------------------

  /** The spans of a batch that the row of a key counts: those of the service, or the calls on the edge. */
  ghost function CountedBy(spans: seq<Span>, k: Key): Span -> bool
  {
    if k.Service? then SpansOf(k.name) else CallsOn(spans, (k.source, k.target))
  }

  /** How many spans, or failed spans, a batch adds to a row; metrics and logs add none. */
  ghost function Adds(b: Batch, k: Key, onlyErrors: bool): nat
  {
    if b.Signals? then 0 else Count(b.spans, Tallying(CountedBy(b.spans, k), onlyErrors))
  }

  ghost function AddsUp(batches: seq<Batch>, k: Key, onlyErrors: bool): nat
  {
    if batches == [] then 0
    else AddsUp(batches[..|batches|-1], k, onlyErrors) + Adds(batches[|batches|-1], k, onlyErrors)
  }

  /** The times at which a batch sees a key: the starts of the spans it counts, or the latest time its rows give. */
  ghost function Times(b: Batch, k: Key): iset<nat>
  {
    match b
    case Traces(spans) => iset s | s in spans && CountedBy(spans, k)(s) :: s.start
    case Signals(rows) => iset t: nat | k.Service? && IsLatest(rows, k.name, t)
  }

  /** The latest time that rows give a service. */
  ghost predicate IsLatest(rows: seq<SignalRow>, name: string, t: nat)
  {
    && (exists r :: r in rows && Stamped(r, name, t))
    && forall r, u: nat | r in rows && Stamped(r, name, u) :: u <= t
  }

  ghost function AllTimes(batches: seq<Batch>, k: Key): iset<nat>
  {
    if batches == [] then iset{} else AllTimes(batches[..|batches|-1], k) + Times(batches[|batches|-1], k)
  }

  ghost predicate IsLeast(x: nat, times: iset<nat>) { x in times && forall t | t in times :: x <= t }
  ghost predicate IsGreatest(x: nat, times: iset<nat>) { x in times && forall t | t in times :: t <= x }

  function Optional(stored: Option<Counters>, time: Counters -> nat): iset<nat>
  {
    if stored.Some? then iset{time(stored.value)} else iset{}
  }

  /** The row holds the least and the greatest of the times in the stored row and of these ones. */
  ghost predicate SeenFromTo(stored: Option<Counters>, times: iset<nat>, row: Option<Counters>)
  {
    && (row.None? <==> stored.None? && times == iset{})
    && (row.Some? ==>
          && IsLeast(row.value.first, Optional(stored, (c: Counters) => c.first) + times)
          && IsGreatest(row.value.last, Optional(stored, (c: Counters) => c.last) + times))
  }

  /** A row that was stored, or not, and then took in these batches. */
  ghost predicate TookIn(stored: Option<Counters>, batches: seq<Batch>, k: Key, row: Option<Counters>)
  {
    && SeenFromTo(stored, AllTimes(batches, k), row)
    && forall onlyErrors :: Tallied(row, onlyErrors) == Tallied(stored, onlyErrors) + AddsUp(batches, k, onlyErrors)
  }

  lemma CountsSeen(c: Option<Counters>, spans: seq<Span>, p: Span -> bool, times: iset<nat>)
    requires Counts(c, spans, p) && times == iset s | s in spans && p(s) :: s.start
    ensures SeenFromTo(None, times, c)
  {
    if c.Some? {
      var f :| f in spans && p(f) && f.start == c.value.first;
      assert f.start in times;
    } else {
      assert times == iset{};
    }
  }

  lemma TracesTakeIn(spans: seq<Span>, k: Key)
    ensures Counts(Lookup(TraceTable(spans), k), spans, CountedBy(spans, k))
  {
    TraceLookup(spans, k);
    if k.Service? {
      SpansOfService(spans, k.name);
    } else {
      CallsAreOnEdge(spans, (k.source, k.target));
    }
  }

  lemma StampsAreMentions(rows: seq<SignalRow>, name: string, t: nat)
    ensures IsLatest(rows, name, t) <==> t != 0 && t == LatestStamp(rows, name)
  {
    LatestStampIsGreatest(rows, name);
    assert forall r, u: nat :: Stamped(r, name, u) <==> Mentions(r, name) && r.Stamp() == u;
    if LatestStamp(rows, name) != 0 {
      var r :| r in rows && Mentions(r, name) && r.Stamp() == LatestStamp(rows, name);
      assert Stamped(r, name, LatestStamp(rows, name));
    }
  }

  lemma SignalsTakeIn(rows: seq<SignalRow>, k: Key)
    ensures SeenFromTo(None, Times(Signals(rows), k), Lookup(SignalTable(rows), k))
    ensures forall onlyErrors :: Tallied(Lookup(SignalTable(rows), k), onlyErrors) == 0
  {
    if k.Service? {
      SignalLookup(rows, k.name);
      var latest := LatestStamp(rows, k.name);
      forall t: nat
        ensures t in Times(Signals(rows), k) <==> t != 0 && t == latest
      {
        StampsAreMentions(rows, k.name, t);
      }
      assert Times(Signals(rows), k) == if latest == 0 then iset{} else iset{latest};
    } else {
      assert Times(Signals(rows), k) == iset{};
    }
  }

  lemma BatchTakenIn(b: Batch, k: Key)
    ensures SeenFromTo(None, Times(b, k), Lookup(RowsOf(b), k))
    ensures forall onlyErrors :: Tallied(Lookup(RowsOf(b), k), onlyErrors) == Adds(b, k, onlyErrors)
  {
    if b.Traces? {
      TracesTakeIn(b.spans, k);
      CountsSeen(Lookup(RowsOf(b), k), b.spans, CountedBy(b.spans, k), Times(b, k));
      CountPositive(b.spans, CountedBy(b.spans, k));
      CountPositive(b.spans, Failed(CountedBy(b.spans, k)));
    } else {
      SignalsTakeIn(b.rows, k);
    }
  }

  /** One more batch, merged into the row. */
  lemma SeenLonger(stored: Option<Counters>, a: iset<nat>, row: Option<Counters>, b: iset<nat>, more: Option<Counters>)
    requires SeenFromTo(stored, a, row) && SeenFromTo(None, b, more)
    ensures SeenFromTo(stored, a + b, MergeOption(row, more))
  {
  }

  lemma TakeInOneMore(stored: Option<Counters>, batches: seq<Batch>, k: Key, row: Option<Counters>,
      more: Option<Counters>)
    requires batches != [] && TookIn(stored, batches[..|batches|-1], k, row)
    requires more == Lookup(RowsOf(batches[|batches|-1]), k)
    ensures TookIn(stored, batches, k, MergeOption(row, more))
  {
    var b := batches[|batches|-1];
    BatchTakenIn(b, k);
    SeenLonger(stored, AllTimes(batches[..|batches|-1], k), row, Times(b, k), more);
  }

  lemma NothingTakenIn(stored: Option<Counters>, k: Key)
    ensures TookIn(stored, [], k, stored)
  {
  }

  lemma {:induction false} MergedRowsTakeIn(table: Table, batches: seq<Batch>, rows: seq<Table>, k: Key)
    requires |rows| == |batches| && forall i | 0 <= i < |rows| :: rows[i] == RowsOf(batches[i])
    ensures TookIn(Lookup(table, k), batches, k, Lookup(MergeAll(table, rows), k))
  {
    if rows == [] {
      NothingTakenIn(Lookup(table, k), k);
    } else {
      var n := |rows| - 1;
      MergedRowsTakeIn(table, batches[..n], rows[..n], k);
      TakeInOneMore(Lookup(table, k), batches, k, Lookup(MergeAll(table, rows[..n]), k), Lookup(rows[n], k));
    }
  }

  /** The batches with these numbers. */
  function Chosen<T>(batches: seq<T>, order: seq<nat>): seq<T>
    requires forall i | i in order :: i < |batches|
  {
    seq(|order|, n requires 0 <= n < |order| => assert order[n] in order; batches[order[n]])
  }

  /**
   In every reachable state, for every key: the stored row is the one stored before plus exactly
   the spans of the service, or the calls on the edge, of the committed batches, with their
   failures; it was first and last seen when the stored row or one of these batches was; and there
   is no other row.
   */
  lemma StoredRowsExact(s: State, table: Table, batches: seq<Batch>, events: seq<Event>, order: seq<nat>, k: Key)
    requires Starts(s, table, batches) && Run(s, events).Some?
    requires IsCommitLog(Run(s, events).value.txns, order)
    ensures forall i | i in order :: i < |batches|
    ensures TookIn(Lookup(table, k), Chosen(batches, order), k, Lookup(Run(s, events).value.table, k))
  {
    Serializable(s, table, batches, events, order);
    var rows := seq(|order|, n requires 0 <= n < |order| => assert order[n] in order; RowsOf(batches[order[n]]));
    MergedRowsTakeIn(table, Chosen(batches, order), rows, k);
  }

  lemma {:induction false} MergedTraces(batches: seq<seq<Span>>, rows: seq<Table>)
    requires |rows| == |batches| && forall i | 0 <= i < |rows| :: rows[i] == TraceTable(batches[i])
    ensures MergeAll(map[], rows) == MergeTable(StoredServices(batches), StoredEdges(batches))
  {
    if rows == [] {
      SameTable(MergeAll(map[], rows), MergeTable(StoredServices(batches), StoredEdges(batches)));
    } else {
      var n := |rows| - 1;
      MergedTraces(batches[..n], rows[..n]);
      var services, edges := StoredServices(batches[..n]), StoredEdges(batches[..n]);
      var s, d := ServiceTable(batches[n]), DependencyTable(batches[n]);
      MergeAssociative(MergeTable(services, edges), s, d);
      MergeAssociative(services, edges, s);
      MergeCommutative(edges, s);
      MergeAssociative(services, s, edges);
      MergeAssociative(MergeTable(services, s), edges, d);
    }
  }

  /**
   Concurrent trace batches leave, on top of the rows stored before, the services of all committed
   spans in one batch and the edges of the committed batches one by one, in any order of listing.
   */
  lemma StreamIngested(s: State, batches: seq<seq<Span>>, events: seq<Event>, order: seq<nat>)
    requires |s.txns| == |batches| && s.log == []
    requires forall i | 0 <= i < |batches| :: Fresh(s.txns[i], Traces(batches[i]))
    requires Run(s, events).Some? && IsCommitLog(Run(s, events).value.txns, order)
    ensures forall i | i in order :: i < |batches|
    ensures var committed := Chosen(batches, order);
            Run(s, events).value.table ==
              MergeTable(s.table, MergeTable(ServiceTable(Flatten(committed)), StoredEdges(committed)))
  {
    var wrapped := seq(|batches|, i requires 0 <= i < |batches| => Traces(batches[i]));
    assert Starts(s, s.table, wrapped);
    StartsGood(s, s.table, wrapped);
    RunKeepsInv(s, s.table, events);
    var end := Run(s, events).value;
    SameCommitsSameTable(s.table, end.txns, end.log, order);
    var rows, committed := LoggedRows(end.txns, order), Chosen(batches, order);
    forall n | 0 <= n < |rows|
      ensures rows[n] == TraceTable(committed[n])
    {
      assert order[n] in order;
    }
    MergeAllFrom(s.table, rows);
    MergedTraces(committed, rows);
    SplitIndependent(committed);
  }
}
