/**
 The propagation path is an exact breadth-first walk: which services it lists, at which
 distance, in which order, when it repeats one, and why repeated calls do not matter.
 */
module PropagationPaths {
  import opened Prelude
  import opened Rca

  // ---- distances ------------------------------------------------------------------------

  ghost predicate CallsInto(calls: seq<Call>, source: string, targets: set<string>)
  {
    exists t :: t in targets && (source, t) in calls
  }

  /** The root and the anomalous services that reach it over at most n calls through anomalous services. */
  ghost function Ball(calls: seq<Call>, anomalous: set<string>, root: string, n: nat): set<string>
  {
    if n == 0 then {root}
    else
      var inner := Ball(calls, anomalous, root, n - 1);
      inner + set x | x in anomalous && CallsInto(calls, x, inner)
  }

  ghost predicate Distance(calls: seq<Call>, anomalous: set<string>, root: string, x: string, d: nat)
  {
    x in Ball(calls, anomalous, root, d) && (d > 0 ==> x !in Ball(calls, anomalous, root, d - 1))
  }

  lemma {:induction false} BallGrows(calls: seq<Call>, anomalous: set<string>, root: string, m: nat, n: nat)
    requires m <= n
    ensures Ball(calls, anomalous, root, m) <= Ball(calls, anomalous, root, n)
  {
    if m < n {
      BallGrows(calls, anomalous, root, m, n - 1);
    }
  }

  lemma DistanceIsLeast(calls: seq<Call>, anomalous: set<string>, root: string, x: string, d: nat, n: nat)
    requires Distance(calls, anomalous, root, x, d) && x in Ball(calls, anomalous, root, n)
    ensures d <= n
  {
    if n < d {
      BallGrows(calls, anomalous, root, n, d - 1);
    }
  }

  /** A chain of calls into root whose services other than root are anomalous. */
  ghost predicate Chain(calls: seq<Call>, anomalous: set<string>, root: string, chain: seq<string>)
  {
    && chain != [] && chain[|chain|-1] == root
    && (forall i | 0 <= i < |chain| - 1 :: chain[i] in anomalous && (chain[i], chain[i+1]) in calls)
  }

  lemma {:induction false} ChainInBall(calls: seq<Call>, anomalous: set<string>, root: string, chain: seq<string>)
    requires Chain(calls, anomalous, root, chain)
    ensures chain[0] in Ball(calls, anomalous, root, |chain| - 1)
  {
    if |chain| > 1 {
      ChainInBall(calls, anomalous, root, chain[1..]);
      assert (chain[0], chain[1]) in calls && chain[0] in anomalous;
      assert CallsInto(calls, chain[0], Ball(calls, anomalous, root, |chain| - 2));
    }
  }

  lemma {:induction false} BallHasChain(calls: seq<Call>, anomalous: set<string>, root: string, x: string,
      n: nat) returns (chain: seq<string>)
    requires x in Ball(calls, anomalous, root, n)
    ensures Chain(calls, anomalous, root, chain) && chain[0] == x && |chain| <= n + 1
    decreases n
  {
    if n == 0 {
      chain := [root];
    } else {
      var inner := Ball(calls, anomalous, root, n - 1);
      if x in inner {
        chain := BallHasChain(calls, anomalous, root, x, n - 1);
      } else {
        var t :| t in inner && (x, t) in calls;
        var rest := BallHasChain(calls, anomalous, root, t, n - 1);
        chain := [x] + rest;
        forall i | 0 <= i < |chain| - 1
          ensures chain[i] in anomalous && (chain[i], chain[i+1]) in calls
        {
          if i > 0 {
            assert chain[i] == rest[i-1] && chain[i+1] == rest[i];
          }
        }
      }
    }
  }

  // ---- the invariant of the walk --------------------------------------------------------

  ghost predicate Graded(level: seq<nat>, k: nat)
  {
    && (forall i, j | 0 <= i <= j < |level| :: level[i] <= level[j])
    && (forall j | 0 <= j < |level| && k < |level| :: level[j] <= level[k] + 1)
  }

  ghost predicate Exact(calls: seq<Call>, anomalous: set<string>, root: string, path: seq<string>, level: seq<nat>)
    requires |level| == |path|
  {
    forall i | 0 <= i < |path| :: Distance(calls, anomalous, root, path[i], level[i])
  }

  /** Each service after the root is anomalous and calls an earlier one. */
  ghost predicate Linked(calls: seq<Call>, anomalous: set<string>, path: seq<string>)
  {
    forall i | 0 < i < |path| :: path[i] in anomalous && CallsInto(calls, path[i], Members(path[..i]))
  }

  /** Every anomalous caller of the first k services is listed. */
  ghost predicate Closed(calls: seq<Call>, anomalous: set<string>, path: seq<string>, k: nat)
    requires k <= |path|
  {
    forall i, x | 0 <= i < k && x in anomalous && (x, path[i]) in calls :: x in path
  }

  ghost predicate Walking(calls: seq<Call>, anomalous: set<string>, root: string, path: seq<string>, k: nat,
      level: seq<nat>)
  {
    && k <= |path| == |level| && path != [] && path[0] == root
    && Graded(level, k)
    && Exact(calls, anomalous, root, path, level)
    && Linked(calls, anomalous, path)
    && Closed(calls, anomalous, path, k)
    && (k < |path| ==> Ball(calls, anomalous, root, level[k]) <= Members(path))
  }

  /** The services found one round later are one call farther away than path[k]. */
  lemma NewsDistance(calls: seq<Call>, anomalous: set<string>, root: string, path: seq<string>, k: nat,
      level: seq<nat>, x: string)
    requires Walking(calls, anomalous, root, path, k, level) && k < |path|
    requires x in anomalous && (x, path[k]) in calls && x !in path
    ensures Distance(calls, anomalous, root, x, level[k] + 1)
  {
    assert Distance(calls, anomalous, root, path[k], level[k]);
    assert CallsInto(calls, x, Ball(calls, anomalous, root, level[k]));
  }

  lemma LevelsStep(calls: seq<Call>, anomalous: set<string>, root: string, path: seq<string>, k: nat, level: seq<nat>,
      news: seq<string>, next: seq<nat>)
    requires Walking(calls, anomalous, root, path, k, level) && k < |path|
    requires news == NewCallers(CallersOf(calls, path[k]), anomalous, Members(path))
    requires |next| == |path + news|
    requires forall i | 0 <= i < |next| :: next[i] == if i < |path| then level[i] else level[k] + 1
    ensures Exact(calls, anomalous, root, path + news, next)
  {
    var all := path + news;
    forall i | 0 <= i < |all|
      ensures Distance(calls, anomalous, root, all[i], next[i])
    {
      if i < |path| {
        assert Distance(calls, anomalous, root, path[i], level[i]);
      } else {
        assert all[i] in news;
        NewsDistance(calls, anomalous, root, path, k, level, all[i]);
      }
    }
  }

  lemma LinkedStep(calls: seq<Call>, anomalous: set<string>, path: seq<string>, k: nat, news: seq<string>)
    requires k < |path| && Linked(calls, anomalous, path)
    requires news == NewCallers(CallersOf(calls, path[k]), anomalous, Members(path))
    ensures Linked(calls, anomalous, path + news)
  {
    var all := path + news;
    forall i | 0 < i < |all|
      ensures all[i] in anomalous && CallsInto(calls, all[i], Members(all[..i]))
    {
      if i < |path| {
        assert all[..i] == path[..i];
      } else {
        assert all[i] in news && all[..i][k] == path[k];
      }
    }
  }

  lemma ClosedStep(calls: seq<Call>, anomalous: set<string>, path: seq<string>, k: nat, news: seq<string>)
    requires k < |path| && Closed(calls, anomalous, path, k)
    requires news == NewCallers(CallersOf(calls, path[k]), anomalous, Members(path))
    ensures Closed(calls, anomalous, path + news, k + 1)
  {
    forall i, x | 0 <= i < k + 1 && x in anomalous && (x, (path + news)[i]) in calls
      ensures x in path + news
    {
      if i == k {
        assert x in news || x in Members(path);
      }
    }
  }

  /** Once every service at distance d has been expanded, everything at distance d + 1 is listed. */
  lemma LevelComplete(calls: seq<Call>, anomalous: set<string>, root: string, path: seq<string>, k: nat,
      level: seq<nat>, d: nat, inner: set<string>, x: string)
    requires k <= |path| == |level|
    requires Exact(calls, anomalous, root, path, level) && Closed(calls, anomalous, path, k)
    requires forall i | 0 <= i < |path| && level[i] <= d :: i < k
    requires inner == Ball(calls, anomalous, root, d) && inner <= Members(path)
    requires x in anomalous && CallsInto(calls, x, inner)
    ensures x in path
  {
    var t :| t in inner && (x, t) in calls;
    var i :| 0 <= i < |path| && path[i] == t;
    DistanceIsLeast(calls, anomalous, root, path[i], level[i], d);
  }

  lemma CompleteStep(calls: seq<Call>, anomalous: set<string>, root: string, path: seq<string>, k: nat,
      level: seq<nat>, d: nat)
    requires k < |path| == |level| && Graded(level, k)
    requires Exact(calls, anomalous, root, path, level) && Closed(calls, anomalous, path, k)
    requires Ball(calls, anomalous, root, d) <= Members(path)
    requires d <= level[k] <= d + 1
    ensures Ball(calls, anomalous, root, level[k]) <= Members(path)
  {
    var inner := Ball(calls, anomalous, root, d);
    if level[k] == d + 1 {
      forall x | x in Ball(calls, anomalous, root, d + 1)
        ensures x in path
      {
        if x !in inner {
          LevelComplete(calls, anomalous, root, path, k, level, d, inner, x);
        }
      }
    }
  }

  lemma GradedStep(level: seq<nat>, k: nat, added: nat, next: seq<nat>)
    requires k < |level| && Graded(level, k) && next == level + seq(added, _ => level[k] + 1)
    ensures Graded(next, k + 1) && (k + 1 < |next| ==> level[k] <= next[k+1] <= level[k] + 1)
  {
  }

  /** Everything as near as the next service is listed. */
  lemma FrontierStep(calls: seq<Call>, anomalous: set<string>, root: string, path: seq<string>, k: nat,
      all: seq<string>, next: seq<nat>, d: nat)
    requires k + 1 <= |all| == |next| && path <= all
    requires Graded(next, k + 1) && (k + 1 < |next| ==> d <= next[k+1] <= d + 1)
    requires Exact(calls, anomalous, root, all, next) && Closed(calls, anomalous, all, k + 1)
    requires Ball(calls, anomalous, root, d) <= Members(path)
    ensures k + 1 < |all| ==> Ball(calls, anomalous, root, next[k+1]) <= Members(all)
  {
    assert Members(path) <= Members(all);
    if k + 1 < |all| {
      CompleteStep(calls, anomalous, root, all, k + 1, next, d);
    }
  }

  /** One round keeps the invariant. */
  lemma WalkingStep(calls: seq<Call>, anomalous: set<string>, root: string, path: seq<string>, k: nat,
      level: seq<nat>, news: seq<string>)
    returns (next: seq<nat>)
    requires Walking(calls, anomalous, root, path, k, level) && k < |path|
    requires news == NewCallers(CallersOf(calls, path[k]), anomalous, Members(path))
    ensures Walking(calls, anomalous, root, path + news, k + 1, next)
  {
    next := level + seq(|news|, _ => level[k] + 1);
    GradedStep(level, k, |news|, next);
    LevelsStep(calls, anomalous, root, path, k, level, news, next);
    LinkedStep(calls, anomalous, path, k, news);
    ClosedStep(calls, anomalous, path, k, news);
    FrontierStep(calls, anomalous, root, path, k, path + news, next, level[k]);
  }

  lemma {:induction false} WalkKeeps(calls: seq<Call>, anomalous: set<string>, root: string, path: seq<string>,
      k: nat, level: seq<nat>)
    returns (full: seq<nat>)
    requires Distinct(path) && Walking(calls, anomalous, root, path, k, level)
    ensures var walked := Walk(calls, anomalous, path, k);
            Distinct(walked) && Walking(calls, anomalous, root, walked, |walked|, full)
    decreases |Members(path) + anomalous| - k
  {
    if k == |path| {
      full := level;
    } else {
      var news := NewCallers(CallersOf(calls, path[k]), anomalous, Members(path));
      WalkStep(calls, anomalous, path, k, news, Members(path) + anomalous);
      var next := WalkingStep(calls, anomalous, root, path, k, level, news);
      full := WalkKeeps(calls, anomalous, root, path + news, k + 1, next);
    }
  }

  // ---- what the walk lists --------------------------------------------------------------

  /**
   For every graph, cyclic or not: no repeats, the root first, exact distances that never
   decrease, every later service anomalous and calling an earlier one, and nothing missing.
   */
  lemma ReachedIsBreadthFirst(calls: seq<Call>, anomalous: set<string>, root: string) returns (level: seq<nat>)
    ensures var path := Reached(calls, anomalous, root);
            && Distinct(path) && |level| == |path| && path != [] && path[0] == root
            && (forall i, j | 0 <= i <= j < |level| :: level[i] <= level[j])
            && Exact(calls, anomalous, root, path, level)
            && Linked(calls, anomalous, path)
            && Closed(calls, anomalous, path, |path|)
  {
    assert Distance(calls, anomalous, root, root, 0);
    level := WalkKeeps(calls, anomalous, root, [root], 0, [0]);
  }

  lemma {:induction false} BallInClosed(calls: seq<Call>, anomalous: set<string>, root: string, path: seq<string>,
      n: nat)
    requires Closed(calls, anomalous, path, |path|) && root in path
    ensures Ball(calls, anomalous, root, n) <= Members(path)
  {
    if n > 0 {
      var inner := Ball(calls, anomalous, root, n - 1);
      BallInClosed(calls, anomalous, root, path, n - 1);
      forall x | x in Ball(calls, anomalous, root, n)
        ensures x in path
      {
        if x !in inner {
          ClosedUnderCalls(calls, anomalous, path, inner, x);
        }
      }
    }
  }

  lemma ClosedUnderCalls(calls: seq<Call>, anomalous: set<string>, path: seq<string>, inner: set<string>, x: string)
    requires Closed(calls, anomalous, path, |path|) && inner <= Members(path)
    requires x in anomalous && CallsInto(calls, x, inner)
    ensures x in path
  {
    var t :| t in inner && (x, t) in calls;
    var i :| 0 <= i < |path| && path[i] == t;
  }

  /** The walk lists exactly the services with a chain of calls to the root through anomalous services. */
  lemma ReachedMeansChain(calls: seq<Call>, anomalous: set<string>, root: string, x: string)
    ensures x in Reached(calls, anomalous, root) <==>
        exists chain :: Chain(calls, anomalous, root, chain) && chain[0] == x
  {
    var path := Reached(calls, anomalous, root);
    var level := ReachedIsBreadthFirst(calls, anomalous, root);
    if x in path {
      var i :| 0 <= i < |path| && path[i] == x;
      var chain := BallHasChain(calls, anomalous, root, x, level[i]);
    }
    forall chain | Chain(calls, anomalous, root, chain) && chain[0] == x
      ensures x in path
    {
      ChainInBall(calls, anomalous, root, chain);
      BallInClosed(calls, anomalous, root, path, |chain| - 1);
    }
  }

  /** Earlier means nearer: a chain from a later service is no shorter than the shortest from an earlier one. */
  lemma EarlierIsNearer(calls: seq<Call>, anomalous: set<string>, root: string, i: nat, j: nat, chain: seq<string>)
    returns (shorter: seq<string>)
    requires i <= j < |Reached(calls, anomalous, root)|
    requires Chain(calls, anomalous, root, chain) && chain[0] == Reached(calls, anomalous, root)[j]
    ensures Chain(calls, anomalous, root, shorter) && shorter[0] == Reached(calls, anomalous, root)[i]
    ensures |shorter| <= |chain|
  {
    var path := Reached(calls, anomalous, root);
    var level := ReachedIsBreadthFirst(calls, anomalous, root);
    ChainInBall(calls, anomalous, root, chain);
    DistanceIsLeast(calls, anomalous, root, path[j], level[j], |chain| - 1);
    shorter := BallHasChain(calls, anomalous, root, path[i], level[i]);
  }

  // ---- the order of the walk ------------------------------------------------------------

  /** x is mentioned, and before any mention of y. */
  ghost predicate MentionedBefore<T(!new)>(s: seq<T>, x: T, y: T)
  {
    exists a :: 0 <= a < |s| && s[a] == x && forall b | 0 <= b <= a :: s[b] != y
  }

  /** The first service of the path that service i calls. */
  ghost predicate FirstCallee(calls: seq<Call>, path: seq<string>, i: nat, q: nat)
  {
    && i < |path| && q < |path| && (path[i], path[q]) in calls
    && forall r | 0 <= r < q :: (path[i], path[r]) !in calls
  }

  /** Services are listed by their first callee on the path, and those of one callee by their first call to it. */
  ghost predicate InCallOrder(calls: seq<Call>, path: seq<string>)
  {
    forall i, j, q: nat, r: nat
      | 0 < i < j < |path| && FirstCallee(calls, path, i, q) && FirstCallee(calls, path, j, r) ::
      q < r || (q == r && MentionedBefore(calls, (path[i], path[q]), (path[j], path[q])))
  }

  ghost predicate CallsAmong(calls: seq<Call>, path: seq<string>, k: nat, i: nat)
    requires k <= |path| && i < |path|
  {
    exists q :: 0 <= q < k && (path[i], path[q]) in calls
  }

  /** Every service after the root calls one of the first k. */
  ghost predicate CallsFirst(calls: seq<Call>, path: seq<string>, k: nat)
    requires k <= |path|
  {
    forall i | 0 < i < |path| :: CallsAmong(calls, path, k, i)
  }

  lemma {:induction false} NewCallersInOrder(callers: seq<string>, anomalous: set<string>, visited: set<string>,
      i: nat, j: nat)
    requires i < j < |NewCallers(callers, anomalous, visited)|
    ensures var news := NewCallers(callers, anomalous, visited); MentionedBefore(callers, news[i], news[j])
  {
    var news, tail := NewCallers(callers, anomalous, visited), callers[1..];
    assert news[j] in news;
    if callers[0] in anomalous && callers[0] !in visited {
      if i > 0 {
        NewCallersInOrder(tail, anomalous, visited + {callers[0]}, i - 1, j - 1);
        var a :| 0 <= a < |tail| && tail[a] == news[i] && forall b | 0 <= b <= a :: tail[b] != news[j];
        assert callers[a + 1] == news[i] && forall b | 0 < b <= a + 1 :: callers[b] == tail[b - 1];
      } else {
        assert callers[0] == news[0] && news[0] != news[j];
      }
    } else {
      NewCallersInOrder(tail, anomalous, visited, i, j);
      var a :| 0 <= a < |tail| && tail[a] == news[i] && forall b | 0 <= b <= a :: tail[b] != news[j];
      assert callers[a + 1] == news[i] && forall b | 0 < b <= a + 1 :: callers[b] == tail[b - 1];
    }
  }

  lemma {:induction false} CallersInOrder(calls: seq<Call>, t: string, x: string, y: string)
    requires MentionedBefore(CallersOf(calls, t), x, y)
    ensures MentionedBefore(calls, (x, t), (y, t))
  {
    var init, last := calls[..|calls|-1], calls[|calls|-1];
    var before, all := CallersOf(init, t), CallersOf(calls, t);
    var a :| 0 <= a < |all| && all[a] == x && forall b | 0 <= b <= a :: all[b] != y;
    if a < |before| {
      assert before[a] == x && forall b | 0 <= b <= a :: before[b] == all[b];
      CallersInOrder(init, t, x, y);
      var c :| 0 <= c < |init| && init[c] == (x, t) && forall b | 0 <= b <= c :: init[b] != (y, t);
      assert calls[c] == (x, t) && forall b | 0 <= b <= c :: calls[b] == init[b];
    } else {
      assert forall b | 0 <= b < |before| :: before[b] == all[b];
      assert y !in before && (y, t) !in init;
      assert last == (x, t) && forall b | 0 <= b < |init| :: calls[b] == init[b] && init[b] in init;
    }
  }

  lemma FirstCalleeIsLeast(calls: seq<Call>, path: seq<string>, i: nat, q: nat, r: nat)
    requires FirstCallee(calls, path, i, q) && r < |path| && (path[i], path[r]) in calls
    ensures q <= r
  {
  }

  /** Among the services found before, the first callee is one of the first k; for the new ones it is number k. */
  lemma FirstCallees(calls: seq<Call>, anomalous: set<string>, path: seq<string>, k: nat, news: seq<string>, i: nat,
      q: nat)
    requires k < |path| && Closed(calls, anomalous, path, k) && CallsFirst(calls, path, k)
    requires news == NewCallers(CallersOf(calls, path[k]), anomalous, Members(path))
    requires 0 < i < |path + news| && FirstCallee(calls, path + news, i, q)
    ensures if i < |path| then q < k && FirstCallee(calls, path, i, q) else q == k
  {
    var all := path + news;
    if i < |path| {
      assert CallsAmong(calls, path, k, i);
      var r :| 0 <= r < k && (path[i], path[r]) in calls;
      FirstCalleeIsLeast(calls, all, i, q, r);
      assert forall p | 0 <= p < q :: path[p] == all[p];
    } else {
      assert all[i] in news && all[k] == path[k];
      FirstCalleeIsLeast(calls, all, i, q, k);
      assert all[q] == path[q];
    }
  }

  lemma {:induction false} OrderedPair(calls: seq<Call>, anomalous: set<string>, path: seq<string>, k: nat,
      news: seq<string>, all: seq<string>, i: nat, j: nat, q: nat, r: nat)
    requires k < |path| && Closed(calls, anomalous, path, k) && CallsFirst(calls, path, k)
    requires InCallOrder(calls, path) && all == path + news
    requires news == NewCallers(CallersOf(calls, path[k]), anomalous, Members(path))
    requires 0 < i < j < |all| && FirstCallee(calls, all, i, q) && FirstCallee(calls, all, j, r)
    ensures q < r || (q == r && MentionedBefore(calls, (all[i], all[q]), (all[j], all[q])))
  {
    FirstCallees(calls, anomalous, path, k, news, i, q);
    FirstCallees(calls, anomalous, path, k, news, j, r);
    if i >= |path| {
      NewCallersInOrder(CallersOf(calls, path[k]), anomalous, Members(path), i - |path|, j - |path|);
      CallersInOrder(calls, path[k], all[i], all[j]);
    }
  }

  lemma {:induction false} OrderStep(calls: seq<Call>, anomalous: set<string>, path: seq<string>, k: nat,
      news: seq<string>)
    requires k < |path| && Closed(calls, anomalous, path, k) && CallsFirst(calls, path, k)
    requires InCallOrder(calls, path)
    requires news == NewCallers(CallersOf(calls, path[k]), anomalous, Members(path))
    ensures InCallOrder(calls, path + news)
  {
    var all := path + news;
    forall i, j, q: nat, r: nat | 0 < i < j < |all| && FirstCallee(calls, all, i, q) && FirstCallee(calls, all, j, r)
      ensures q < r || (q == r && MentionedBefore(calls, (all[i], all[q]), (all[j], all[q])))
    {
      OrderedPair(calls, anomalous, path, k, news, all, i, j, q, r);
    }
  }

  lemma CallsFirstStep(calls: seq<Call>, anomalous: set<string>, path: seq<string>, k: nat, news: seq<string>)
    requires k < |path| && CallsFirst(calls, path, k)
    requires news == NewCallers(CallersOf(calls, path[k]), anomalous, Members(path))
    ensures CallsFirst(calls, path + news, k + 1)
  {
    var all, next := path + news, k + 1;
    forall i | 0 < i < |all|
      ensures CallsAmong(calls, all, next, i)
    {
      if i < |path| {
        assert CallsAmong(calls, path, k, i);
        var q :| 0 <= q < k && (path[i], path[q]) in calls;
        assert all[q] == path[q];
      } else {
        assert all[i] in news && all[k] == path[k];
      }
    }
  }

  lemma {:induction false} WalkOrders(calls: seq<Call>, anomalous: set<string>, path: seq<string>, k: nat)
    requires Distinct(path) && k <= |path| && Closed(calls, anomalous, path, k)
    requires CallsFirst(calls, path, k) && InCallOrder(calls, path)
    ensures InCallOrder(calls, Walk(calls, anomalous, path, k))
    decreases |Members(path) + anomalous| - k
  {
    if k < |path| {
      var news := NewCallers(CallersOf(calls, path[k]), anomalous, Members(path));
      WalkStep(calls, anomalous, path, k, news, Members(path) + anomalous);
      ClosedStep(calls, anomalous, path, k, news);
      OrderStep(calls, anomalous, path, k, news);
      CallsFirstStep(calls, anomalous, path, k, news);
      WalkOrders(calls, anomalous, path + news, k + 1);
    }
  }

  /**
   Services at the same distance are listed by the first service of the path that they call, and
   those that call the same one first by the order of the calls.
   */
  lemma ReachedInCallOrder(calls: seq<Call>, anomalous: set<string>, root: string)
    ensures InCallOrder(calls, Reached(calls, anomalous, root))
  {
    WalkOrders(calls, anomalous, [root], 0);
  }

  /** The root first, no repeats, only anomalous callers of earlier services, all of those, in call order. */
  ghost predicate IsWalk(calls: seq<Call>, anomalous: set<string>, root: string, path: seq<string>)
  {
    && path != [] && path[0] == root && Distinct(path)
    && Linked(calls, anomalous, path) && Closed(calls, anomalous, path, |path|) && InCallOrder(calls, path)
  }

  lemma {:induction false} LinkedInClosed(calls: seq<Call>, anomalous: set<string>, root: string, a: seq<string>,
      b: seq<string>, i: nat)
    requires IsWalk(calls, anomalous, root, a) && IsWalk(calls, anomalous, root, b) && i < |a|
    ensures a[i] in b
    decreases i
  {
    if i > 0 {
      assert CallsInto(calls, a[i], Members(a[..i]));
      var t :| t in Members(a[..i]) && (a[i], t) in calls;
      var q :| 0 <= q < i && a[q] == t;
      LinkedInClosed(calls, anomalous, root, a, b, q);
      var r :| 0 <= r < |b| && b[r] == t;
    }
  }

  lemma {:induction false} EarlierCallee(calls: seq<Call>, anomalous: set<string>, path: seq<string>, i: nat)
    returns (q: nat)
    requires Linked(calls, anomalous, path) && 0 < i < |path|
    ensures q < i && FirstCallee(calls, path, i, q)
  {
    assert CallsInto(calls, path[i], Members(path[..i]));
    var t :| t in Members(path[..i]) && (path[i], t) in calls;
    var p: nat :| p < i && path[p] == t;
    q := LeastCallee(calls, path, i, p);
  }

  lemma {:induction false} LeastCallee(calls: seq<Call>, path: seq<string>, i: nat, p: nat) returns (q: nat)
    requires i < |path| && p < |path| && (path[i], path[p]) in calls
    ensures q <= p && FirstCallee(calls, path, i, q)
    decreases p
  {
    if r: nat :| r < p && (path[i], path[r]) in calls {
      q := LeastCallee(calls, path, i, r);
    } else {
      q := p;
    }
  }

  lemma NotBothBefore<T(!new)>(s: seq<T>, x: T, y: T)
    requires MentionedBefore(s, x, y)
    ensures !MentionedBefore(s, y, x)
  {
    var a :| 0 <= a < |s| && s[a] == x && forall b | 0 <= b <= a :: s[b] != y;
    forall c | 0 <= c < |s| && s[c] == y
      ensures exists b :: 0 <= b <= c && s[b] == x
    {
      assert a <= c;
    }
  }

  lemma {:induction false} FoundLater(a: seq<string>, b: seq<string>, i: nat) returns (n: nat)
    requires i < |a| && i < |b| && a[..i] == b[..i] && Distinct(a) && a[i] in b && a[i] != b[i]
    ensures i < n < |b| && b[n] == a[i]
  {
    assert forall p | 0 <= p < i :: a[p] == a[..i][p] == b[p];
    n :| n < |b| && b[n] == a[i];
  }

  lemma {:induction false} SameCallee(calls: seq<Call>, a: seq<string>, b: seq<string>, i: nat, n: nat, q: nat)
    requires q < i < |a| && i < n < |b| && a[..i] == b[..i] && b[n] == a[i]
    requires FirstCallee(calls, a, i, q)
    ensures FirstCallee(calls, b, n, q) && a[q] == b[q]
  {
    assert forall p | 0 <= p < i :: a[p] == a[..i][p] == b[p];
  }

  lemma {:induction false} ComesFirst(calls: seq<Call>, path: seq<string>, i: nat, j: nat, q: nat, r: nat)
    requires InCallOrder(calls, path) && 0 < i < j < |path|
    requires FirstCallee(calls, path, i, q) && FirstCallee(calls, path, j, r)
    ensures q <= r && (q == r ==> MentionedBefore(calls, (path[i], path[q]), (path[j], path[q])))
  {
  }

  /** Walks that agree on the first i services agree on the next one. */
  lemma {:induction false} NextIsSame(calls: seq<Call>, anomalous: set<string>, a: seq<string>, b: seq<string>, i: nat)
    requires Distinct(a) && Linked(calls, anomalous, a) && InCallOrder(calls, a)
    requires Distinct(b) && Linked(calls, anomalous, b) && InCallOrder(calls, b)
    requires 0 < i < |a| && i < |b| && a[..i] == b[..i] && a[i] in b && b[i] in a
    ensures a[i] == b[i]
  {
    if a[i] != b[i] {
      var j := FoundLater(b, a, i);
      var n := FoundLater(a, b, i);
      var q := EarlierCallee(calls, anomalous, a, i);
      var r := EarlierCallee(calls, anomalous, b, i);
      SameCallee(calls, a, b, i, n, q);
      SameCallee(calls, b, a, i, j, r);
      ComesFirst(calls, a, i, j, q, r);
      ComesFirst(calls, b, i, n, r, q);
      NotBothBefore(calls, (a[i], a[q]), (b[i], a[q]));
    }
  }

  lemma {:induction false} SamePrefix(calls: seq<Call>, anomalous: set<string>, root: string, a: seq<string>,
      b: seq<string>, i: nat)
    requires IsWalk(calls, anomalous, root, a) && IsWalk(calls, anomalous, root, b)
    requires i <= |a| && i <= |b|
    ensures a[..i] == b[..i]
  {
    if i > 0 {
      SamePrefix(calls, anomalous, root, a, b, i - 1);
      if i > 1 {
        LinkedInClosed(calls, anomalous, root, a, b, i - 1);
        LinkedInClosed(calls, anomalous, root, b, a, i - 1);
        NextIsSame(calls, anomalous, a, b, i - 1);
      }
      assert a[..i] == a[..i-1] + [a[i-1]] && b[..i] == b[..i-1] + [b[i-1]];
    }
  }

  /** A walk cannot be longer than another one. */
  lemma {:induction false} NoLonger(calls: seq<Call>, anomalous: set<string>, root: string, a: seq<string>,
      b: seq<string>)
    requires IsWalk(calls, anomalous, root, a) && IsWalk(calls, anomalous, root, b)
    ensures |a| <= |b|
  {
    forall x | x in a
      ensures x in Members(b)
    {
      var i: nat :| i < |a| && a[i] == x;
      LinkedInClosed(calls, anomalous, root, a, b, i);
    }
    DistinctFits(a, Members(b));
    MembersAtMost(b);
  }

  lemma {:induction false} MembersAtMost(s: seq<string>)
    ensures |Members(s)| <= |s|
  {
    if s != [] {
      MembersAtMost(s[..|s|-1]);
      assert s == s[..|s|-1] + [s[|s|-1]];
      assert Members(s) == Members(s[..|s|-1]) + {s[|s|-1]};
    }
  }

  /** The walk is the only such list. */
  lemma {:induction false} ReachedIsTheWalk(calls: seq<Call>, anomalous: set<string>, root: string, path: seq<string>)
    ensures IsWalk(calls, anomalous, root, path) <==> path == Reached(calls, anomalous, root)
  {
    var reached := Reached(calls, anomalous, root);
    var level := ReachedIsBreadthFirst(calls, anomalous, root);
    ReachedInCallOrder(calls, anomalous, root);
    if IsWalk(calls, anomalous, root, path) {
      NoLonger(calls, anomalous, root, path, reached);
      NoLonger(calls, anomalous, root, reached, path);
      SamePrefix(calls, anomalous, root, path, reached, |path|);
      assert path[..|path|] == path && reached[..|path|] == reached;
    }
  }

  // ---- the whole path -------------------------------------------------------------------

  lemma {:induction false} LeftoverMembers(affected: seq<string>, visited: set<string>)
    ensures forall x :: x in Leftover(affected, visited) <==> x in affected && x !in visited
    ensures Distinct(affected) ==> Distinct(Leftover(affected, visited))
  {
    if affected != [] {
      var init, last := affected[..|affected|-1], affected[|affected|-1];
      assert affected == init + [last];
      LeftoverMembers(init, visited);
    }
  }

  /** They keep their order and their repetitions. */
  lemma {:induction false} LeftoverExact(affected: seq<string>, visited: set<string>)
    ensures Leftover(affected, visited) == Filter(affected, (x: string) => x !in visited)
  {
    if affected != [] {
      LeftoverExact(affected[..|affected|-1], visited);
    }
  }

  /**
   The path lists the reached and the affected services, and repeats one exactly when a missed
   affected service is itself repeated.
   */
  lemma {:induction false} PathLists(calls: seq<Call>, anomalous: set<string>, root: string, affected: seq<string>)
    ensures var path := PropagationPath(calls, anomalous, root, affected);
            var reached := Reached(calls, anomalous, root);
            && (forall x :: x in path <==> x in reached || x in affected)
            && (Distinct(path) <==> Distinct(Leftover(affected, Members(reached))))
            && (Distinct(affected) ==> Distinct(path))
  {
    var reached := Reached(calls, anomalous, root);
    var rest := Leftover(affected, Members(reached));
    var path := reached + rest;
    var level := ReachedIsBreadthFirst(calls, anomalous, root);
    LeftoverMembers(affected, Members(reached));
    if Distinct(rest) {
      DistinctAppend(reached, rest);
    }
    if Distinct(path) {
      forall i, j | 0 <= i < j < |rest|
        ensures rest[i] != rest[j]
      {
        assert path[|reached| + i] == rest[i] && path[|reached| + j] == rest[j];
      }
    }
  }

  // ---- repeated calls -------------------------------------------------------------------

  /** The calls at their first mention. */
  ghost function FirstMentions(calls: seq<Call>): (r: seq<Call>)
    ensures forall c :: c in r <==> c in calls
  {
    if calls == [] then []
    else
      var init, last := calls[..|calls|-1], calls[|calls|-1];
      assert calls == init + [last];
      if last in init then FirstMentions(init) else FirstMentions(init) + [last]
  }

  lemma {:induction false} NewCallersSnoc(callers: seq<string>, c: string, anomalous: set<string>, visited: set<string>)
    ensures NewCallers(callers + [c], anomalous, visited)
         == NewCallers(callers, anomalous, visited)
              + if c in anomalous && c !in visited && c !in callers then [c] else []
    decreases |callers|
  {
    if callers != [] {
      var rest := callers[1..];
      assert (callers + [c])[1..] == rest + [c];
      assert callers == [callers[0]] + rest;
      var seen := if callers[0] in anomalous && callers[0] !in visited then visited + {callers[0]} else visited;
      NewCallersSnoc(rest, c, anomalous, seen);
    }
  }

  lemma {:induction false} FirstMentionsSuffice(calls: seq<Call>, target: string, anomalous: set<string>,
      visited: set<string>)
    ensures NewCallers(CallersOf(calls, target), anomalous, visited)
         == NewCallers(CallersOf(FirstMentions(calls), target), anomalous, visited)
  {
    if calls != [] {
      var init, last := calls[..|calls|-1], calls[|calls|-1];
      var firsts := FirstMentions(init);
      assert calls == init + [last];
      FirstMentionsSuffice(init, target, anomalous, visited);
      if last.1 == target {
        NewCallersSnoc(CallersOf(init, target), last.0, anomalous, visited);
        if last !in init {
          assert (firsts + [last])[..|firsts|] == firsts;
          NewCallersSnoc(CallersOf(firsts, target), last.0, anomalous, visited);
        }
      } else if last !in init {
        assert (firsts + [last])[..|firsts|] == firsts;
      }
    }
  }

  lemma {:induction false} SameMentionsSameWalk(a: seq<Call>, b: seq<Call>, anomalous: set<string>, path: seq<string>,
      k: nat)
    requires FirstMentions(a) == FirstMentions(b) && Distinct(path) && k <= |path|
    ensures Walk(a, anomalous, path, k) == Walk(b, anomalous, path, k)
    decreases |Members(path) + anomalous| - k
  {
    if k < |path| {
      FirstMentionsSuffice(a, path[k], anomalous, Members(path));
      FirstMentionsSuffice(b, path[k], anomalous, Members(path));
      var news := NewCallers(CallersOf(a, path[k]), anomalous, Members(path));
      WalkStep(a, anomalous, path, k, news, Members(path) + anomalous);
      WalkStep(b, anomalous, path, k, news, Members(path) + anomalous);
      SameMentionsSameWalk(a, b, anomalous, path + news, k + 1);
    }
  }

  lemma {:induction false} KnownCallsMentionNothing(known: seq<Call>, repeats: seq<Call>)
    requires forall c | c in repeats :: c in known
    ensures FirstMentions(known + repeats) == FirstMentions(known)
  {
    if repeats == [] {
      assert known + repeats == known;
    } else {
      var init := repeats[..|repeats|-1];
      assert (known + repeats)[..|known + repeats|-1] == known + init;
      assert forall c | c in init :: c in repeats;
      assert repeats[|repeats|-1] in repeats;
      KnownCallsMentionNothing(known, init);
    }
  }

  lemma SameCallsSameSinks(a: seq<Call>, b: seq<Call>, anomalous: set<string>)
    requires forall c :: c in a <==> c in b
    ensures forall s :: Sink(a, anomalous, s) <==> Sink(b, anomalous, s)
  {
  }

  /** Two lists of calls with the same first mentions give the same scores and the same path for every root. */
  lemma SameMentionsSameAnswers(a: seq<Call>, b: seq<Call>, affected: seq<string>, anomalous: set<string>,
      found: Finding)
    requires FirstMentions(a) == FirstMentions(b)
    ensures Answers(a, affected, anomalous, found) <==> Answers(b, affected, anomalous, found)
  {
    assert forall c :: c in a <==> c in FirstMentions(b);
    SameCallsSameSinks(a, b, anomalous);
    SameMentionsSameWalk(a, b, anomalous, [found.rootCause], 0);
  }

  /** Calls seen live that the canonical list already has change no answer. */
  lemma RepeatedCallsChangeNothing(known: seq<Call>, repeats: seq<Call>, affected: seq<string>,
      anomalous: set<string>, found: Finding)
    requires forall c | c in repeats :: c in known
    ensures Answers(known + repeats, affected, anomalous, found) <==> Answers(known, affected, anomalous, found)
  {
    KnownCallsMentionNothing(known, repeats);
    SameMentionsSameAnswers(known + repeats, known, affected, anomalous, found);
  }
}
