/**
 What the confidence means: 1.0 finds the end of every chain of anomalous callees when calls
 among anomalous services are acyclic, and 0.5 is evidence of a cycle among them.
 */
module RootCauses {
  import opened Prelude
  import opened Rca
  import opened PropagationPaths

  /** Anomalous services, each calling the next. */
  ghost predicate Calling(calls: seq<Call>, anomalous: set<string>, chain: seq<string>)
  {
    && chain != []
    && (forall s | s in chain :: s in anomalous)
    && (forall i | 0 <= i < |chain| - 1 :: (chain[i], chain[i+1]) in calls)
  }

  ghost predicate Cycle(calls: seq<Call>, anomalous: set<string>, chain: seq<string>)
  {
    Calling(calls, anomalous, chain) && |chain| > 1 && chain[0] == chain[|chain|-1]
  }

  ghost predicate Acyclic(calls: seq<Call>, anomalous: set<string>)
  {
    forall chain :: !Cycle(calls, anomalous, chain)
  }

  lemma ChainExtends(calls: seq<Call>, anomalous: set<string>, chain: seq<string>, t: string)
    requires Calling(calls, anomalous, chain) && t in anomalous && (chain[|chain|-1], t) in calls
    ensures Calling(calls, anomalous, chain + [t])
  {
  }

  /** A chain that meets itself contains a cycle. */
  lemma CycleWithin(calls: seq<Call>, anomalous: set<string>, chain: seq<string>, i: nat)
    requires Calling(calls, anomalous, chain) && i < |chain| - 1 && chain[i] == chain[|chain|-1]
    ensures Cycle(calls, anomalous, chain[i..])
  {
  }

  /** Following anomalous callees without repeating one ends at a sink or closes a cycle. */
  lemma {:induction false} SinkOrCycle(calls: seq<Call>, anomalous: set<string>,
      chain: seq<string>) returns (longer: seq<string>)
    requires Calling(calls, anomalous, chain) && Distinct(chain)
    ensures Cycle(calls, anomalous, longer)
         || (Calling(calls, anomalous, longer) && longer[0] == chain[0] && Sink(calls, anomalous, longer[|longer|-1]))
    decreases |anomalous| - |chain|
  {
    var last := chain[|chain|-1];
    if Sink(calls, anomalous, last) {
      longer := chain;
    } else {
      var t :| t in anomalous && (last, t) in calls;
      ChainExtends(calls, anomalous, chain, t);
      if t in chain {
        var i :| 0 <= i < |chain| && chain[i] == t;
        CycleWithin(calls, anomalous, chain + [t], i);
        longer := (chain + [t])[i..];
      } else {
        DistinctFits(chain + [t], anomalous);
        longer := SinkOrCycle(calls, anomalous, chain + [t]);
      }
    }
  }

  /** Without a cycle every anomalous service leads, through anomalous callees, to a service scored 1.0. */
  lemma EveryServiceReachesASink(calls: seq<Call>, anomalous: set<string>, s: string) returns (chain: seq<string>)
    requires Acyclic(calls, anomalous) && s in anomalous
    ensures Calling(calls, anomalous, chain) && chain[0] == s && Sink(calls, anomalous, chain[|chain|-1])
  {
    chain := SinkOrCycle(calls, anomalous, [s]);
  }

  ghost predicate CallsOneOf(calls: seq<Call>, services: set<string>, s: string)
  {
    exists t :: t in services && (s, t) in calls
  }

  /** Every anomalous service scores 0.5 if it calls an anomalous one, itself included, and 1.0 if not. */
  lemma AnswersExact(calls: seq<Call>, affected: seq<string>, anomalous: set<string>, found: Finding)
    requires Answers(calls, affected, anomalous, found)
    ensures found.scores == map s | s in anomalous :: if CallsOneOf(calls, anomalous, s) then 0.5 else 1.0
    ensures found.rootCause in anomalous && found.confidence == found.scores[found.rootCause]
    ensures forall s | s in anomalous && !CallsOneOf(calls, anomalous, s) ::
              !CallsOneOf(calls, anomalous, found.rootCause) && (s in affected ==> found.rootCause in affected)
    ensures (forall s | s in anomalous :: CallsOneOf(calls, anomalous, s)) ==>
              forall s | s in anomalous && s in affected :: found.rootCause in affected
  {
    forall s | s in anomalous
      ensures Sink(calls, anomalous, s) <==> !CallsOneOf(calls, anomalous, s)
    {
    }
  }

  /** Confidence is 1.0 or 0.5, 1.0 exactly when some service has no anomalous callee; 1.0 without a cycle. */
  lemma ConfidenceMeans(calls: seq<Call>, affected: seq<string>, anomalous: set<string>, found: Finding)
    requires Answers(calls, affected, anomalous, found)
    ensures found.confidence == if exists s :: Sink(calls, anomalous, s) then 1.0 else 0.5
    ensures found.confidence == 1.0 <==> Sink(calls, anomalous, found.rootCause)
    ensures Acyclic(calls, anomalous) ==> found.confidence == 1.0
  {
    if Acyclic(calls, anomalous) {
      var chain := EveryServiceReachesASink(calls, anomalous, found.rootCause);
    }
  }

  /** A confidence of 0.5 exhibits a cycle of calls among anomalous services. */
  lemma HalfConfidenceMeansCycle(calls: seq<Call>, affected: seq<string>, anomalous: set<string>,
      found: Finding) returns (cycle: seq<string>)
    requires Answers(calls, affected, anomalous, found) && found.confidence == 0.5
    ensures Cycle(calls, anomalous, cycle)
  {
    cycle := SinkOrCycle(calls, anomalous, [found.rootCause]);
  }

  /** A cycle need not lower the confidence: here two services call each other and a third one is a sink. */
  lemma CycleCanKeepConfidence() returns (calls: seq<Call>, anomalous: set<string>, cycle: seq<string>)
    ensures Cycle(calls, anomalous, cycle)
    ensures forall affected, found :: Answers(calls, affected, anomalous, found) ==> found.confidence == 1.0
  {
    calls, anomalous, cycle := [("a", "b"), ("b", "a")], {"a", "b", "c"}, ["a", "b", "a"];
    assert calls[0] == ("a", "b") && calls[1] == ("b", "a");
    assert forall s | s in cycle :: s in anomalous;
    assert Sink(calls, anomalous, "c");
    forall affected, found | Answers(calls, affected, anomalous, found)
      ensures found.confidence == 1.0
    {
      ConfidenceMeans(calls, affected, anomalous, found);
    }
  }

  lemma ChainStartsAboveSinks(calls: seq<Call>, anomalous: set<string>, root: string, chain: seq<string>)
    requires root in anomalous && Chain(calls, anomalous, root, chain) && chain[0] != root
    ensures !Sink(calls, anomalous, chain[0])
  {
    assert (chain[0], chain[1]) in calls && chain[1] in anomalous;
  }

  /** A sink is on no other service's walk. */
  lemma SinkReachesOnlyItself(calls: seq<Call>, anomalous: set<string>, root: string, s: string)
    requires Sink(calls, anomalous, s) && root in anomalous
    ensures s in Reached(calls, anomalous, root) ==> s == root
  {
    forall chain | Chain(calls, anomalous, root, chain) && chain[0] != root
      ensures chain[0] != s
    {
      ChainStartsAboveSinks(calls, anomalous, root, chain);
    }
    ReachedMeansChain(calls, anomalous, root, s);
  }

  /**
   The walk from the root cause lists every anomalous service exactly when no other service
   scores 1.0, provided calls among anomalous services are acyclic.
   */
  lemma UniqueSinkExplainsAll(calls: seq<Call>, affected: seq<string>, anomalous: set<string>, found: Finding)
    requires Answers(calls, affected, anomalous, found) && Acyclic(calls, anomalous)
    ensures (forall s | s in anomalous :: s in Reached(calls, anomalous, found.rootCause))
       <==> (forall s | Sink(calls, anomalous, s) :: s == found.rootCause)
  {
    var root := found.rootCause;
    ConfidenceMeans(calls, affected, anomalous, found);
    forall s | Sink(calls, anomalous, s)
      ensures s in Reached(calls, anomalous, root) ==> s == root
    {
      SinkReachesOnlyItself(calls, anomalous, root, s);
    }
    if forall s | Sink(calls, anomalous, s) :: s == root {
      forall s | s in anomalous
        ensures s in Reached(calls, anomalous, root)
      {
        var chain := EveryServiceReachesASink(calls, anomalous, s);
        assert Chain(calls, anomalous, root, chain);
        ReachedMeansChain(calls, anomalous, root, s);
      }
    }
  }

  /**
   An incident of one service blames that service exactly when it calls no anomalous service, or
   no service is free of anomalous callees.
   */
  lemma BlamesItself(calls: seq<Call>, s: string, anomalous: set<string>, found: Finding)
    requires s in anomalous && Answers(calls, [s], anomalous, found)
    ensures found.rootCause == s <==>
        Sink(calls, anomalous, s) || (forall t | t in anomalous :: !Sink(calls, anomalous, t))
  {
    ConfidenceMeans(calls, [s], anomalous, found);
    assert s in [s];
  }

  lemma ScoresAreDetermined(calls: seq<Call>, affected: seq<string>, anomalous: set<string>, a: Finding, b: Finding)
    requires Answers(calls, affected, anomalous, a) && Answers(calls, affected, anomalous, b)
    ensures a.scores == b.scores && a.confidence == b.confidence
  {
    assert a.scores == b.scores;
    assert a.confidence == a.scores[a.rootCause] <= b.confidence;
  }

  lemma RootIsDetermined(calls: seq<Call>, affected: seq<string>, anomalous: set<string>, found: Finding, s: string)
    requires Answers(calls, affected, anomalous, found)
    requires s in affected && s in anomalous && found.scores[s] == found.confidence
    requires forall t | t in affected && t in anomalous && found.scores[t] == found.confidence :: t == s
    ensures found.rootCause == s && found.path == PropagationPath(calls, anomalous, s, affected)
  {
  }

  /** Whatever the iteration order of the set, the answer is unique when one affected service scores highest. */
  lemma OrderCannotMatter(calls: seq<Call>, affected: seq<string>, anomalous: set<string>, a: Finding, b: Finding,
      s: string)
    requires Answers(calls, affected, anomalous, a) && Answers(calls, affected, anomalous, b)
    requires s in affected && s in anomalous && a.scores[s] == a.confidence
    requires forall t | t in affected && t in anomalous && a.scores[t] == a.confidence :: t == s
    ensures a == b && a.rootCause == s
  {
    ScoresAreDetermined(calls, affected, anomalous, a, b);
    RootIsDetermined(calls, affected, anomalous, a, s);
    RootIsDetermined(calls, affected, anomalous, b, s);
  }

  // ---- the canonical topology -----------------------------------------------------------

  /** Calls that go down a rank cannot form a cycle. */
  lemma {:induction false} RanksDescend(calls: seq<Call>, anomalous: set<string>, rank: string -> nat,
      chain: seq<string>)
    requires forall c | c in calls :: rank(c.0) > rank(c.1)
    requires Calling(calls, anomalous, chain)
    ensures rank(chain[0]) >= rank(chain[|chain|-1]) + |chain| - 1
  {
    if |chain| > 1 {
      var rest := chain[1..];
      assert (chain[0], chain[1]) in calls;
      RanksDescend(calls, anomalous, rank, rest);
    }
  }

  lemma DescendingIsCertain(calls: seq<Call>, affected: seq<string>, anomalous: set<string>, rank: string -> nat,
      found: Finding)
    requires forall c | c in calls :: rank(c.0) > rank(c.1)
    requires Answers(calls, affected, anomalous, found)
    ensures found.confidence == 1.0
  {
    forall chain | Calling(calls, anomalous, chain) && |chain| > 1
      ensures chain[0] != chain[|chain|-1]
    {
      RanksDescend(calls, anomalous, rank, chain);
    }
    ConfidenceMeans(calls, affected, anomalous, found);
  }

  /** How far a service of the canonical topology stands above the services that call nothing. */
  function Tier(s: string): nat
  {
    if s == "frontend-proxy" || s == "frontend-web" then 3
    else if s == "frontend" then 2
    else if s == "cart" || s == "checkout" || s == "product-catalog" then 1
    else 0
  }

  lemma CanonicalDescends()
    ensures forall c | c in CANONICAL :: Tier(c.0) > Tier(c.1)
  {
    forall i | 0 <= i < |CANONICAL|
      ensures Tier(CANONICAL[i].0) > Tier(CANONICAL[i].1)
    {
    }
  }

  /** As long as live calls only repeat canonical ones, every answer has confidence 1.0, whatever is anomalous. */
  lemma CanonicalIsCertain(live: seq<Call>, affected: seq<string>, anomalous: set<string>, found: Finding)
    requires forall c | c in live :: c in CANONICAL
    requires Answers(CANONICAL + live, affected, anomalous, found)
    ensures found.confidence == 1.0
  {
    CanonicalDescends();
    DescendingIsCertain(CANONICAL + live, affected, anomalous, Tier, found);
  }
}
