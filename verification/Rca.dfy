/**
 Root-cause analysis: scoring of the anomalous services by their callees, and a breadth-first
 walk from the root cause through anomalous callers.
 */
module Rca {
  import opened Prelude

  /** A call (source, target): source calls target. */
  type Call = (string, string)

  // ---- the graph ------------------------------------------------------------------------

  /** Sources of the calls to a service, in insertion order and with repetitions. */
  function CallersOf(calls: seq<Call>, target: string): (r: seq<string>)
    ensures forall x :: x in r <==> (x, target) in calls
  {
    if calls == [] then []
    else
      var init, last := CallersOf(calls[..|calls|-1], target), calls[|calls|-1];
      assert calls == calls[..|calls|-1] + [last];
      if last.1 == target then init + [last.0] else init
  }

  /** Targets of the calls from a service. */
  function CalleesOf(calls: seq<Call>, source: string): (r: seq<string>)
    ensures forall x :: x in r <==> (source, x) in calls
  {
    if calls == [] then []
    else
      var init, last := CalleesOf(calls[..|calls|-1], source), calls[|calls|-1];
      assert calls == calls[..|calls|-1] + [last];
      if last.0 == source then init + [last.1] else init
  }

  function Get(m: map<string, seq<string>>, k: string): seq<string> { if k in m then m[k] else [] }

  class Graph {
    var callers: map<string, seq<string>>
    var callees: map<string, seq<string>>
    /** The calls added so far. */
    ghost var calls: seq<Call>

    /** Both dictionaries list the same calls, one by target and one by source. */
    ghost predicate Valid()
      reads this
    {
      && (forall s :: Get(callers, s) == CallersOf(calls, s))
      && (forall s :: Get(callees, s) == CalleesOf(calls, s))
    }

    constructor ()
      ensures Valid() && calls == []
    {
      callers, callees, calls := map[], map[], [];
    }

    method AddEdge(source: string, target: string)
      requires Valid()
      modifies this
      ensures Valid() && calls == old(calls) + [(source, target)]
    {
      callers := callers[target := Get(callers, target) + [source]];
      callees := callees[source := Get(callees, source) + [target]];
      calls := calls + [(source, target)];
      assert calls[..|calls|-1] == old(calls);
    }
  }

  // ---- the walk -------------------------------------------------------------------------

  /** The callers that the inner loop appends: anomalous, not visited, each at its first mention. */
  function NewCallers(callers: seq<string>, anomalous: set<string>, visited: set<string>): (r: seq<string>)
    ensures forall x :: x in r <==> x in callers && x in anomalous && x !in visited
    ensures Distinct(r)
  {
    if callers == [] then []
    else if callers[0] in anomalous && callers[0] !in visited
    then [callers[0]] + NewCallers(callers[1..], anomalous, visited + {callers[0]})
    else NewCallers(callers[1..], anomalous, visited)
  }

  lemma {:induction false} DistinctFits(path: seq<string>, all: set<string>)
    requires Distinct(path) && forall x | x in path :: x in all
    ensures |path| <= |all|
  {
    if path != [] {
      var init, last := path[..|path|-1], path[|path|-1];
      assert path == init + [last];
      DistinctFits(init, all - {last});
    }
  }

  lemma DistinctAppend(path: seq<string>, news: seq<string>)
    requires Distinct(path) && Distinct(news) && forall x | x in news :: x !in Members(path)
    ensures Distinct(path + news)
  {
    var all := path + news;
    forall i, j | 0 <= i < j < |all|
      ensures all[i] != all[j]
    {
      if i < |path| <= j {
        assert path[i] in Members(path) && news[j - |path|] in news;
      }
    }
  }

  /** The walk with path found so far, whose elements from k on are the queue. */
  ghost function Walk(calls: seq<Call>, anomalous: set<string>, path: seq<string>, k: nat): seq<string>
    requires Distinct(path) && k <= |path|
    decreases |Members(path) + anomalous| - k
  {
    DistinctFits(path, Members(path) + anomalous);
    if k == |path| then path
    else
      var news := NewCallers(CallersOf(calls, path[k]), anomalous, Members(path));
      DistinctAppend(path, news);
      assert Members(path + news) + anomalous == Members(path) + anomalous;
      Walk(calls, anomalous, path + news, k + 1)
  }

  /** The services found from the root through anomalous callers. */
  ghost function Reached(calls: seq<Call>, anomalous: set<string>, root: string): seq<string>
  {
    Walk(calls, anomalous, [root], 0)
  }

  /** The affected services not found, in their order, repetitions included. */
  function Leftover(affected: seq<string>, visited: set<string>): seq<string>
  {
    if affected == [] then []
    else
      var init, last := Leftover(affected[..|affected|-1], visited), affected[|affected|-1];
      if last in visited then init else init + [last]
  }

  ghost function PropagationPath(calls: seq<Call>, anomalous: set<string>, root: string,
      affected: seq<string>): seq<string>
  {
    Reached(calls, anomalous, root) + Leftover(affected, Members(Reached(calls, anomalous, root)))
  }

  /** One round of the walk, with the queue it keeps; all bounds the services it can meet. */
  lemma WalkStep(calls: seq<Call>, anomalous: set<string>, path: seq<string>, k: nat, news: seq<string>,
      all: set<string>)
    requires Distinct(path) && k < |path|
    requires news == NewCallers(CallersOf(calls, path[k]), anomalous, Members(path))
    requires Members(path) + anomalous == all
    ensures Distinct(path + news) && Walk(calls, anomalous, path, k) == Walk(calls, anomalous, path + news, k + 1)
    ensures Members(path + news) + anomalous == all
    ensures k < |all|
    ensures path[k..][1..] + news == (path + news)[k+1..]
  {
    DistinctAppend(path, news);
    DistinctFits(path, all);
  }

  /** The inner loop: one service's callers join the path, the visited set and the queue. */
  method AppendCallers(callers: seq<string>, anomalous: set<string>, path0: seq<string>, visited0: set<string>,
      queue0: seq<string>)
    returns (path: seq<string>, visited: set<string>, queue: seq<string>)
    requires visited0 == Members(path0)
    ensures path == path0 + NewCallers(callers, anomalous, visited0)
    ensures queue == queue0 + NewCallers(callers, anomalous, visited0)
    ensures visited == Members(path)
  {
    path, visited, queue := path0, visited0, queue0;
    for i := 0 to |callers|
      invariant visited == Members(path)
      invariant path + NewCallers(callers[i..], anomalous, visited) == path0 + NewCallers(callers, anomalous, visited0)
      invariant queue + NewCallers(callers[i..], anomalous, visited)
          == queue0 + NewCallers(callers, anomalous, visited0)
    {
      var caller := callers[i];
      assert callers[i..][1..] == callers[i+1..];
      if caller in anomalous && caller !in visited {
        path := path + [caller];
        visited := visited + {caller};
        queue := queue + [caller];
      }
    }
    assert NewCallers(callers[|callers|..], anomalous, visited) == [];
  }

  /** The last loop: affected services that the walk missed go to the end, compared with the walk alone. */
  method AppendAffected(affected: seq<string>, visited: set<string>, walked: seq<string>) returns (path: seq<string>)
    ensures path == walked + Leftover(affected, visited)
  {
    path := walked;
    for i := 0 to |affected|
      invariant path == walked + Leftover(affected[..i], visited)
    {
      assert affected[..i+1][..i] == affected[..i];
      if affected[i] !in visited {
        path := path + [affected[i]];
      }
    }
    assert affected[..|affected|] == affected;
  }

  method BuildPropagationPath(root: string, affected: seq<string>, graph: Graph,
      anomalous: set<string>) returns (path: seq<string>)
    requires graph.Valid()
    ensures path == PropagationPath(graph.calls, anomalous, root, affected)
  {
    path := [root];
    var visited := {root};
    var queue := [root];
    ghost var k, all := 0, Members(path) + anomalous;
    while queue != []
      invariant Distinct(path) && k <= |path| && queue == path[k..] && visited == Members(path)
      invariant Members(path) + anomalous == all
      invariant Walk(graph.calls, anomalous, path, k) == Reached(graph.calls, anomalous, root)
      decreases |all| - k
    {
      var current := queue[0];
      assert current == path[k];
      WalkStep(graph.calls, anomalous, path, k, NewCallers(CallersOf(graph.calls, current), anomalous, visited), all);
      path, visited, queue := AppendCallers(Get(graph.callers, current), anomalous, path, visited, queue[1..]);
      k := k + 1;
    }
    path := AppendAffected(affected, visited, path);
  }

  // ---- scoring --------------------------------------------------------------------------

  /** An anomalous service that calls no anomalous service, itself included. */
  ghost predicate Sink(calls: seq<Call>, anomalous: set<string>, s: string)
  {
    s in anomalous && forall t | t in anomalous :: (s, t) !in calls
  }

  datatype Finding = Finding(rootCause: string, confidence: real, path: seq<string>, scores: map<string, real>)

  /** What the traversal may answer: every choice that the iteration order of a set can lead to. */
  ghost predicate Answers(calls: seq<Call>, affected: seq<string>, anomalous: set<string>, found: Finding)
  {
    && found.scores.Keys == anomalous
    && (forall s | s in anomalous :: found.scores[s] == if Sink(calls, anomalous, s) then 1.0 else 0.5)
    && found.rootCause in anomalous && found.scores[found.rootCause] == found.confidence
    && (forall s | s in anomalous :: found.scores[s] <= found.confidence)
    && ((exists s :: s in affected && s in anomalous && found.scores[s] == found.confidence) ==>
        found.rootCause in affected)
    && found.path == PropagationPath(calls, anomalous, found.rootCause, affected)
  }

  method AnomalousCallees(callees: seq<string>, anomalous: set<string>) returns (r: seq<string>)
    ensures forall x :: x in r <==> x in callees && x in anomalous
  {
    r := [];
    for i := 0 to |callees|
      invariant forall x :: x in r <==> x in callees[..i] && x in anomalous
    {
      if callees[i] in anomalous {
        r := r + [callees[i]];
      }
    }
  }

  method Score(anomalous: set<string>, graph: Graph) returns (scores: map<string, real>, order: seq<string>)
    requires graph.Valid()
    ensures scores.Keys == anomalous == Members(order)
    ensures forall s | s in anomalous :: scores[s] == if Sink(graph.calls, anomalous, s) then 1.0 else 0.5
  {
    scores, order := map[], [];
    var left := anomalous;
    while left != {}
      invariant left <= anomalous && scores.Keys == anomalous - left == Members(order)
      invariant forall s | s in scores :: scores[s] == if Sink(graph.calls, anomalous, s) then 1.0 else 0.5
      decreases left
    {
      var svc :| svc in left;
      left := left - {svc};
      var broken := AnomalousCallees(Get(graph.callees, svc), anomalous);
      if broken == [] {
        assert Sink(graph.calls, anomalous, svc);
        scores := scores[svc := 1.0];
      } else {
        assert broken[0] in broken && !Sink(graph.calls, anomalous, svc);
        scores := scores[svc := 0.5];
      }
      order := order + [svc];
    }
  }

  method TopScore(scores: map<string, real>, order: seq<string>) returns (top: real)
    requires order != [] && forall s | s in order :: s in scores
    ensures exists s :: s in order && scores[s] == top
    ensures forall s | s in order :: scores[s] <= top
  {
    top := scores[order[0]];
    for i := 1 to |order|
      invariant exists s :: s in order && scores[s] == top
      invariant forall s | s in order[..i] :: scores[s] <= top
    {
      if top < scores[order[i]] {
        top := scores[order[i]];
      }
    }
  }

  /** None exactly when nothing is anomalous; otherwise one of the allowed answers. */
  method BackwardGraphTraversal(affected: seq<string>, anomalous: set<string>,
      graph: Graph) returns (r: Option<Finding>)
    requires graph.Valid()
    ensures r.None? <==> anomalous == {}
    ensures r.Some? ==> Answers(graph.calls, affected, anomalous, r.value)
  {
    if anomalous == {} {
      return None;
    }
    var scores, order := Score(anomalous, graph);
    var member :| member in anomalous;
    assert member in order;
    var top := TopScore(scores, order);
    var candidates := Filter(order, (s: string) => s in scores && scores[s] == top);
    var preferred := Filter(candidates, (s: string) => s in affected);
    var root := if preferred != [] then preferred[0] else candidates[0];
    assert root in candidates;
    var path := BuildPropagationPath(root, affected, graph, anomalous);
    r := Some(Finding(root, top, path, scores));
  }

  // ---- one incident ---------------------------------------------------------------------

  const CANONICAL: seq<Call> := [
    ("frontend-proxy", "frontend"),
    ("frontend-web", "frontend"),
    ("frontend", "cart"),
    ("frontend", "checkout"),
    ("frontend", "product-catalog"),
    ("frontend", "currency"),
    ("cart", "valkey-cart"),
    ("checkout", "payment"),
    ("checkout", "shipping"),
    ("checkout", "currency"),
    ("product-catalog", "astronomy-db")
  ]

  method LoadGraph(live: seq<Call>) returns (graph: Graph)
    ensures fresh(graph) && graph.Valid() && graph.calls == CANONICAL + live
  {
    graph := new Graph();
    var all := CANONICAL + live;
    for i := 0 to |all|
      invariant fresh(graph) && graph.Valid() && graph.calls == all[..i]
    {
      graph.AddEdge(all[i].0, all[i].1);
    }
  }

  /** The record written when the traversal finds no candidate. */
  function Fallback(affected: seq<string>): Finding
  {
    Finding(if affected != [] then affected[0] else "unknown", 0.0, affected, map s | s in affected :: 0.0)
  }

  /** The affected services of the incident join the services with an active anomaly. */
  method RunRca(affected: seq<string>, active: set<string>, live: seq<Call>) returns (found: Finding)
    ensures active == {} && affected == [] ==> found == Finding("unknown", 0.0, [], map[])
    ensures active != {} || affected != [] ==> Answers(CANONICAL + live, affected, active + Members(affected), found)
  {
    var graph := LoadGraph(live);
    var anomalous := active + Members(affected);
    assert affected != [] ==> affected[0] in anomalous;
    var r := BackwardGraphTraversal(affected, anomalous, graph);
    if r.None? {
      found := Fallback(affected);
    } else {
      found := r.value;
    }
  }
}
