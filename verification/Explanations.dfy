/**
 The explanation queue of the background loop: at most two open, unexplained incidents per
 cycle, oldest first; a failed call stops the cycle and pauses the queue.
 */
module Explanations {
  import opened Prelude

  const AI_MAX_PER_CYCLE: nat := 2
  const AI_RETRY_AFTER_S := 120.0

  /** What happens to one incident: no evidence, a failed call that ended at a time, or an answer. */
  datatype Outcome = NoEvidence | Unavailable(at: real) | Answered

  datatype Report = Stored(id: nat) | GaveUp(id: nat, at: real)

  /** Incidents with a stored explanation, and the clock until which calls are paused. */
  datatype Queue = Queue(explained: set<nat>, pausedUntil: real)

  /** One cycle: the open incidents, the monotonic clock at its start, and what each call does. */
  datatype Cycle = Cycle(open: set<nat>, clock: real, outcome: nat -> Outcome)

  lemma {:induction false} LeastExists(ids: set<nat>) returns (m: nat)
    requires ids != {}
    ensures m in ids && forall x | x in ids :: m <= x
  {
    m :| m in ids;
    var rest := ids - {m};
    assert ids == rest + {m};
    if rest != {} {
      var other := LeastExists(rest);
      m := if m < other then m else other;
    }
  }

  function Least(ids: set<nat>): (m: nat)
    requires ids != {}
    ensures m in ids && forall x | x in ids :: m <= x
  {
    assert exists m :: m in ids && forall x | x in ids :: m <= x by { var m := LeastExists(ids); }
    var m :| m in ids && forall x | x in ids :: m <= x;
    m
  }

  /** The first limit ids in ascending order. */
  function Oldest(ids: set<nat>, limit: nat): seq<nat>
  {
    if limit == 0 || ids == {} then []
    else [Least(ids)] + Oldest(ids - {Least(ids)}, limit - 1)
  }

  /** The loop over the pending incidents; a failed call ends it. */
  function Work(q: Queue, pending: seq<nat>, outcome: nat -> Outcome): (Queue, seq<Report>)
    decreases |pending|
  {
    if pending == [] then (q, [])
    else
      var id := pending[0];
      if outcome(id) == NoEvidence then Work(q, pending[1..], outcome)
      else if outcome(id).Unavailable? then
        (q.(pausedUntil := outcome(id).at + AI_RETRY_AFTER_S), [GaveUp(id, outcome(id).at)])
      else
        var rest := Work(q.(explained := q.explained + {id}), pending[1..], outcome);
        (rest.0, [Stored(id)] + rest.1)
  }

  function Step(q: Queue, c: Cycle): (Queue, seq<Report>)
  {
    if c.clock < q.pausedUntil then (q, [])
    else Work(q, Oldest(c.open - q.explained, AI_MAX_PER_CYCLE), c.outcome)
  }

  class Explainer {
    var explained: set<nat>
    var pausedUntil: real

    ghost function State(): Queue
      reads this
    {
      Queue(explained, pausedUntil)
    }

    constructor ()
      ensures State() == Queue({}, 0.0)
    {
      explained, pausedUntil := {}, 0.0;
    }

    method ExplainNewIncidents(c: Cycle) returns (out: seq<Report>)
      modifies this
      ensures (State(), out) == Step(old(State()), c)
    {
      var pending := Oldest(c.open - explained, AI_MAX_PER_CYCLE);
      out := [];
      if c.clock < pausedUntil {
        return;
      }
      ghost var whole := Work(State(), pending, c.outcome);
      assert pending[0..] == pending;
      for i := 0 to |pending|
        invariant whole.0 == Work(State(), pending[i..], c.outcome).0
        invariant whole.1 == out + Work(State(), pending[i..], c.outcome).1
      {
        var id := pending[i];
        assert pending[i..][1..] == pending[i+1..];
        match c.outcome(id) {
          case NoEvidence =>
          case Unavailable(at) =>
            pausedUntil := at + AI_RETRY_AFTER_S;
            out := out + [GaveUp(id, at)];
            return;
          case Answered =>
            explained := explained + {id};
            out := out + [Stored(id)];
        }
      }
      assert pending[|pending|..] == [] && out + [] == out;
    }
  }

  // ---- runs -----------------------------------------------------------------------------

  function Run(q: Queue, cycles: seq<Cycle>): (Queue, seq<Report>)
  {
    if cycles == [] then (q, [])
    else
      var before := Run(q, cycles[..|cycles|-1]);
      var last := Step(before.0, cycles[|cycles|-1]);
      (last.0, before.1 + last.1)
  }

  /** A call that fails ends no earlier than its cycle starts. */
  ghost predicate Timely(cycles: seq<Cycle>)
  {
    forall k, id | 0 <= k < |cycles| :: cycles[k].outcome(id).Unavailable? ==>
        cycles[k].clock <= cycles[k].outcome(id).at
  }

  ghost predicate Rising(p: seq<nat>) { forall i, j | 0 <= i < j < |p| :: p[i] < p[j] }

  lemma {:induction false} OldestAscend(ids: set<nat>, limit: nat)
    ensures forall x | x in Oldest(ids, limit) :: x in ids
    ensures Rising(Oldest(ids, limit))
  {
    if limit > 0 && ids != {} {
      var tail := Oldest(ids - {Least(ids)}, limit - 1);
      OldestAscend(ids - {Least(ids)}, limit - 1);
      assert forall j | 0 <= j < |tail| :: tail[j] in tail;
    }
  }

  /** What the reports of one cycle say about its effect. */
  ghost predicate Accounts(before: Queue, after: Queue, reports: seq<Report>)
  {
    && before.explained <= after.explained
    && (forall id :: id in after.explained - before.explained <==> Stored(id) in reports)
    && (forall i, j | 0 <= i < j < |reports| && reports[i].Stored? && reports[j].Stored? ::
        reports[i].id != reports[j].id)
  }

  lemma {:induction false} WorkAccounts(q: Queue, pending: seq<nat>, outcome: nat -> Outcome)
    requires forall x | x in pending :: x !in q.explained
    requires Rising(pending)
    ensures Accounts(q, Work(q, pending, outcome).0, Work(q, pending, outcome).1)
    ensures forall id | id in Work(q, pending, outcome).0.explained :: id in q.explained || id in pending
    decreases |pending|
  {
    if pending != [] {
      var id, tail := pending[0], pending[1..];
      assert forall x | x in tail :: x in pending && x != id;
      if outcome(id) == NoEvidence {
        WorkAccounts(q, tail, outcome);
      } else if outcome(id) == Answered {
        WorkAccounts(q.(explained := q.explained + {id}), tail, outcome);
      }
    }
  }

  /**
   In every run no incident is explained twice, and the explained incidents are those explained
   before and those reported.
   */
  lemma {:induction false} NeverTwice(q: Queue, cycles: seq<Cycle>)
    ensures Accounts(q, Run(q, cycles).0, Run(q, cycles).1)
  {
    if cycles != [] {
      var last := cycles[|cycles|-1];
      var before := Run(q, cycles[..|cycles|-1]);
      NeverTwice(q, cycles[..|cycles|-1]);
      var pending := Oldest(last.open - before.0.explained, AI_MAX_PER_CYCLE);
      OldestAscend(last.open - before.0.explained, AI_MAX_PER_CYCLE);
      WorkAccounts(before.0, pending, last.outcome);
      AccountsCompose(q, before.0, Run(q, cycles).0, before.1, Step(before.0, last).1);
    }
  }

  lemma AccountsCompose(a: Queue, b: Queue, c: Queue, first: seq<Report>, second: seq<Report>)
    requires Accounts(a, b, first) && Accounts(b, c, second)
    ensures Accounts(a, c, first + second)
  {
    var all := first + second;
    forall i, j | 0 <= i < j < |all| && all[i].Stored? && all[j].Stored?
      ensures all[i].id != all[j].id
    {
      if i < |first| <= j {
        assert Stored(first[i].id) in first && Stored(second[j - |first|].id) in second;
      }
    }
  }

  /** Only the last report can be a failure, no earlier than the clock, and it alone moves the pause. */
  ghost predicate FailsLast(before: Queue, after: Queue, reports: seq<Report>, clock: real)
  {
    && (forall i | 0 <= i < |reports| - 1 :: reports[i].Stored?)
    && if reports != [] && reports[|reports|-1].GaveUp?
       then reports[|reports|-1].at >= clock && after.pausedUntil == reports[|reports|-1].at + AI_RETRY_AFTER_S
       else after.pausedUntil == before.pausedUntil
  }

  lemma {:induction false} WorkFails(q: Queue, pending: seq<nat>, outcome: nat -> Outcome, clock: real)
    requires forall id :: outcome(id).Unavailable? ==> clock <= outcome(id).at
    ensures FailsLast(q, Work(q, pending, outcome).0, Work(q, pending, outcome).1, clock)
    decreases |pending|
  {
    if pending != [] {
      var id, tail := pending[0], pending[1..];
      if outcome(id) == NoEvidence {
        WorkFails(q, tail, outcome, clock);
      } else if outcome(id) == Answered {
        WorkFails(q.(explained := q.explained + {id}), tail, outcome, clock);
      }
    }
  }

  /** Failures so far are apart, and the pause covers 120 s after each. */
  ghost predicate Spaced(q: Queue, reports: seq<Report>)
  {
    && (forall i | 0 <= i < |reports| && reports[i].GaveUp? :: reports[i].at + AI_RETRY_AFTER_S <= q.pausedUntil)
    && (forall i, j | 0 <= i < j < |reports| && reports[i].GaveUp? && reports[j].GaveUp? ::
          reports[j].at >= reports[i].at + AI_RETRY_AFTER_S)
  }

  /** In every run two failed calls end at least 120 s apart, whatever the clock of the cycles does. */
  lemma {:induction false} FailuresAreApart(q: Queue, cycles: seq<Cycle>)
    requires Timely(cycles)
    ensures Spaced(Run(q, cycles).0, Run(q, cycles).1)
  {
    if cycles != [] {
      var init, last := cycles[..|cycles|-1], cycles[|cycles|-1];
      FailuresAreApart(q, init);
      var before := Run(q, init);
      WorkFails(before.0, Oldest(last.open - before.0.explained, AI_MAX_PER_CYCLE), last.outcome, last.clock);
      assert forall id :: cycles[|cycles|-1].outcome(id) == last.outcome(id);
    }
  }

  // ---- how long an incident waits -------------------------------------------------------

  function Before(ids: set<nat>, id: nat): set<nat>
  {
    set x | x in ids && x < id
  }

  function Rest(ids: set<nat>, taken: seq<nat>): set<nat>
  {
    set x | x in ids && x !in taken
  }

  /** Taking the oldest moves everyone else up; an incident is taken exactly when fewer than limit are older. */
  lemma {:induction false} OldestTakes(ids: set<nat>, limit: nat, id: nat)
    requires id in ids
    ensures id in Oldest(ids, limit) <==> |Before(ids, id)| < limit
    ensures |Before(Rest(ids, Oldest(ids, limit)), id)|
              == if |Before(ids, id)| < limit then 0 else |Before(ids, id)| - limit
    decreases limit
  {
    var p := Oldest(ids, limit);
    if limit == 0 {
      assert Rest(ids, p) == ids;
    } else {
      var m := Least(ids);
      var rest := ids - {m};
      var tail := Oldest(rest, limit - 1);
      OldestAscend(rest, limit - 1);
      assert Rest(ids, p) == Rest(rest, tail);
      if id == m {
        assert Before(ids, id) == {} && Before(Rest(ids, p), id) == {};
      } else {
        assert Before(ids, id) == Before(rest, id) + {m};
        OldestTakes(rest, limit - 1, id);
      }
    }
  }

  /** The call for a pending incident is made: no call for an older one fails. */
  ghost predicate Reaches(pending: set<nat>, outcome: nat -> Outcome, id: nat)
  {
    id in pending && forall x | x in pending && x < id :: !outcome(x).Unavailable?
  }

  function Items(pending: seq<nat>): set<nat> { set x | x in pending }

  /** The effect of the loop, incident by incident. */
  ghost predicate Worked(before: Queue, pending: set<nat>, outcome: nat -> Outcome, after: Queue, reports: seq<Report>)
  {
    && (forall id :: Stored(id) in reports <==> Reaches(pending, outcome, id) && outcome(id).Answered?)
    && (forall id, at ::
          GaveUp(id, at) in reports <==> Reaches(pending, outcome, id) && outcome(id) == Unavailable(at))
    && (forall id :: id in after.explained <==> id in before.explained || Stored(id) in reports)
    && (forall i, j | 0 <= i < j < |reports| :: reports[i].id < reports[j].id)
    && (if exists id, at :: GaveUp(id, at) in reports
        then exists id, at :: GaveUp(id, at) in reports && after.pausedUntil == at + 120.0
        else after.pausedUntil == before.pausedUntil)
  }

  lemma ReachesNext(id: nat, tail: seq<nat>, outcome: nat -> Outcome, x: nat)
    requires Rising([id] + tail)
    ensures Items([id] + tail) == {id} + Items(tail) && id !in tail
    ensures Reaches(Items([id] + tail), outcome, x) <==>
              x == id || (!outcome(id).Unavailable? && Reaches(Items(tail), outcome, x))
  {
    var all := [id] + tail;
    forall y | y in tail
      ensures id < y
    {
      var i :| 0 <= i < |tail| && tail[i] == y;
      assert all[0] < all[i + 1];
    }
    assert forall y :: y in all <==> y == id || y in tail;
  }

  lemma WorkedOneMore(q: Queue, id: nat, tail: seq<nat>, outcome: nat -> Outcome, next: Queue, after: Queue,
      rest: seq<Report>, reports: seq<Report>)
    requires Rising([id] + tail) && !outcome(id).Unavailable? && Worked(next, Items(tail), outcome, after, rest)
    requires if outcome(id).Answered?
             then next == q.(explained := q.explained + {id}) && reports == [Stored(id)] + rest
             else next == q && reports == rest
    ensures Worked(q, Items([id] + tail), outcome, after, reports)
  {
    forall x {
      ReachesNext(id, tail, outcome, x);
    }
    assert forall r :: r in reports <==> r in rest || (outcome(id).Answered? && r == Stored(id));
    forall r | r in rest
      ensures id < r.id
    {
      assert r == Stored(r.id) || r == GaveUp(r.id, r.at);
      var i :| 0 <= i < |tail| && tail[i] == r.id;
      assert ([id] + tail)[0] < ([id] + tail)[i + 1];
    }
  }

  lemma {:induction false} WorkExact(q: Queue, pending: seq<nat>, outcome: nat -> Outcome)
    requires Rising(pending)
    ensures Worked(q, Items(pending), outcome, Work(q, pending, outcome).0, Work(q, pending, outcome).1)
    decreases |pending|
  {
    if pending != [] {
      var id, tail := pending[0], pending[1..];
      assert pending == [id] + tail;
      if outcome(id).Unavailable? {
        forall x {
          ReachesNext(id, tail, outcome, x);
        }
        assert GaveUp(id, outcome(id).at) in Work(q, pending, outcome).1;
      } else {
        var next := if outcome(id).Answered? then q.(explained := q.explained + {id}) else q;
        WorkExact(next, tail, outcome);
        var rest := Work(next, tail, outcome);
        WorkedOneMore(q, id, tail, outcome, next, rest.0, rest.1, Work(q, pending, outcome).1);
      }
    }
  }

  /**
   One cycle: while the queue is paused nothing happens; otherwise of the waiting incidents the two
   oldest are taken in order up to the first failure, those answered are stored, those without
   evidence are passed over, and a failure pauses the queue for 120 s.
   */
  lemma StepExact(q: Queue, c: Cycle)
    ensures c.clock < q.pausedUntil ==> Step(q, c) == (q, [])
    ensures c.clock >= q.pausedUntil ==>
              var waiting := c.open - q.explained;
              var taken := set x | x in waiting && |Before(waiting, x)| < 2;
              Worked(q, taken, c.outcome, Step(q, c).0, Step(q, c).1)
  {
    if c.clock >= q.pausedUntil {
      var waiting := c.open - q.explained;
      var pending := Oldest(waiting, AI_MAX_PER_CYCLE);
      OldestAscend(waiting, AI_MAX_PER_CYCLE);
      forall x
        ensures x in pending <==> x in waiting && |Before(waiting, x)| < 2
      {
        if x in waiting {
          OldestTakes(waiting, AI_MAX_PER_CYCLE, x);
        }
      }
      assert Items(pending) == set x | x in waiting && |Before(waiting, x)| < 2;
      WorkExact(q, pending, c.outcome);
    }
  }

  lemma {:induction false} AnsweredAll(q: Queue, pending: seq<nat>, outcome: nat -> Outcome)
    requires forall id | id in pending :: outcome(id) == Answered
    ensures Work(q, pending, outcome).0 == q.(explained := q.explained + set x | x in pending)
    decreases |pending|
  {
    if pending != [] {
      var id, tail := pending[0], pending[1..];
      assert pending == [id] + tail;
      AnsweredAll(q.(explained := q.explained + {id}), tail, outcome);
    }
  }

  /** The cycle runs unpaused and every call succeeds. */
  ghost predicate Succeeds(q: Queue, c: Cycle)
  {
    c.clock >= q.pausedUntil && forall id :: c.outcome(id) == Answered
  }

  lemma SuccessfulStep(q: Queue, c: Cycle, id: nat)
    requires Succeeds(q, c) && id in c.open - q.explained
    ensures var (waiting, after) := (c.open - q.explained, Step(q, c).0);
            && after.pausedUntil == q.pausedUntil
            && (id in after.explained <==> |Before(waiting, id)| < AI_MAX_PER_CYCLE)
            && |Before(c.open - after.explained, id)|
                 == if |Before(waiting, id)| < AI_MAX_PER_CYCLE then 0 else |Before(waiting, id)| - AI_MAX_PER_CYCLE
  {
    var waiting, after := c.open - q.explained, Step(q, c).0;
    var p := Oldest(waiting, AI_MAX_PER_CYCLE);
    AnsweredAll(q, p, c.outcome);
    OldestTakes(waiting, AI_MAX_PER_CYCLE, id);
    assert c.open - after.explained == Rest(waiting, p);
  }

  lemma BeforeMinus(ids: set<nat>, gone: set<nat>, id: nat)
    ensures Before(ids - gone, id) == Before(ids, id) - gone
  {
  }

  /**
   When calls succeed, an incident with older unexplained open incidents is explained after half
   as many cycles, rounded down, and one more, as long as it stays open. Ids are handed out in
   order, so no older incident opens later.
   */
  lemma {:induction false} ExplainedInTime(q: Queue, cycles: seq<Cycle>, id: nat)
    requires |cycles| > 0 && |Before(cycles[0].open - q.explained, id)| / 2 < |cycles|
    requires forall k | 0 <= k < |cycles| :: Succeeds(q, cycles[k]) && id in cycles[k].open
    requires forall k | 0 < k < |cycles| :: Before(cycles[k].open, id) <= Before(cycles[k-1].open, id)
    ensures id in From(q, cycles).explained
    decreases |cycles|
  {
    FromKeeps(q, cycles);
    if id !in q.explained {
      var next := Step(q, cycles[0]).0;
      SuccessfulStep(q, cycles[0], id);
      FromKeeps(next, cycles[1..]);
      if id !in next.explained {
        assert Before(cycles[1].open, id) <= Before(cycles[0].open, id);
        BeforeMinus(cycles[1].open, next.explained, id);
        BeforeMinus(cycles[0].open, next.explained, id);
        SubsetSize(Before(cycles[1].open - next.explained, id), Before(cycles[0].open - next.explained, id));
        ExplainedInTime(next, cycles[1..], id);
      }
    }
  }

  /** Not earlier: while no older incident resolves, half as many cycles are not enough. */
  lemma {:induction false} NotExplainedEarlier(q: Queue, cycles: seq<Cycle>, id: nat)
    requires |cycles| > 0 ==> |cycles| <= |Before(cycles[0].open - q.explained, id)| / 2
    requires id !in q.explained
    requires forall k | 0 <= k < |cycles| :: Succeeds(q, cycles[k]) && id in cycles[k].open
    requires forall k | 0 < k < |cycles| :: Before(cycles[k].open, id) == Before(cycles[k-1].open, id)
    ensures id !in From(q, cycles).explained
    decreases |cycles|
  {
    if cycles != [] {
      var next := Step(q, cycles[0]).0;
      SuccessfulStep(q, cycles[0], id);
      if |cycles| > 1 {
        BeforeMinus(cycles[1].open, next.explained, id);
        BeforeMinus(cycles[0].open, next.explained, id);
      }
      NotExplainedEarlier(next, cycles[1..], id);
    }
  }

  /** The queue after a run, cycle by cycle from the first. */
  ghost function From(q: Queue, cycles: seq<Cycle>): Queue
    decreases |cycles|
  {
    if cycles == [] then q else From(Step(q, cycles[0]).0, cycles[1..])
  }

  lemma {:induction false} FromIsRun(q: Queue, cycles: seq<Cycle>)
    ensures From(q, cycles) == Run(q, cycles).0
    decreases |cycles|
  {
    if |cycles| == 1 {
      assert cycles[..0] == [];
    } else if |cycles| > 1 {
      var init, last := cycles[..|cycles|-1], cycles[|cycles|-1];
      FromSnoc(q, init, last);
      assert cycles == init + [last];
      FromIsRun(q, init);
    }
  }

  lemma {:induction false} FromSnoc(q: Queue, cycles: seq<Cycle>, last: Cycle)
    ensures From(q, cycles + [last]) == Step(From(q, cycles), last).0
    decreases |cycles|
  {
    if cycles != [] {
      assert (cycles + [last])[1..] == cycles[1..] + [last];
      FromSnoc(Step(q, cycles[0]).0, cycles[1..], last);
    }
  }

  lemma {:induction false} FromKeeps(q: Queue, cycles: seq<Cycle>)
    ensures q.explained <= From(q, cycles).explained
  {
    FromIsRun(q, cycles);
    NeverTwice(q, cycles);
  }
}
