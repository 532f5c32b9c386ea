/** Vocabulary shared by every component: options, time, counting, and the order of names. */
module Prelude {

  datatype Option<+T> = None | Some(value: T)

  const NS_PER_MINUTE := 60_000_000_000

  /** How many elements of s satisfy p. */
  function Count<T>(s: seq<T>, p: T -> bool): nat
  {
    if s == [] then 0 else Count(s[..|s|-1], p) + if p(s[|s|-1]) then 1 else 0
  }

  lemma {:induction false} CountConcat<T>(a: seq<T>, b: seq<T>, p: T -> bool)
    ensures Count(a + b, p) == Count(a, p) + Count(b, p)
  {
    if b == [] {
      assert a + b == a;
    } else {
      assert (a + b)[..|a + b|-1] == a + b[..|b|-1];
      CountConcat(a, b[..|b|-1], p);
    }
  }

  /** Pointwise implication orders the counts, and equal counts mean the converse implication. */
  lemma {:induction false} CountImplies<T>(s: seq<T>, p: T -> bool, q: T -> bool)
    requires forall x | x in s :: p(x) ==> q(x)
    ensures Count(s, p) <= Count(s, q)
    ensures Count(s, p) == Count(s, q) <==> forall x | x in s :: q(x) ==> p(x)
  {
    if s != [] {
      var init, last := s[..|s|-1], s[|s|-1];
      assert s == init + [last];
      CountImplies(init, p, q);
    }
  }

  lemma {:induction false} CountAll<T>(s: seq<T>, p: T -> bool)
    requires forall x | x in s :: p(x)
    ensures Count(s, p) == |s|
  {
    if s != [] {
      CountAll(s[..|s|-1], p);
    }
  }

  lemma {:induction false} CountDisjoint<T>(s: seq<T>, p: T -> bool, q: T -> bool, r: T -> bool)
    requires forall x | x in s :: p(x) <==> q(x) || r(x)
    requires forall x | x in s :: !(q(x) && r(x))
    ensures Count(s, p) == Count(s, q) + Count(s, r)
  {
    if s != [] {
      CountDisjoint(s[..|s|-1], p, q, r);
    }
  }

  /** The last element of a sequence, found in another order of it. */
  lemma TakeAway<T>(a: seq<T>, b: seq<T>) returns (before: seq<T>, after: seq<T>)
    requires multiset(a) == multiset(b) && a != []
    ensures b == before + [a[|a|-1]] + after
    ensures multiset(a[..|a|-1]) == multiset(before + after)
  {
    var init, last := a[..|a|-1], a[|a|-1];
    assert a == init + [last];
    assert last in multiset(b);
    var i :| 0 <= i < |b| && b[i] == last;
    before, after := b[..i], b[i+1..];
    assert b == before + [last] + after;
    assert multiset(b) == multiset(before + after) + multiset{last};
    assert multiset(a) == multiset(init) + multiset{last};
    assert multiset(init) == multiset(a) - multiset{last};
  }

  /** Counting does not depend on the order. */
  lemma {:induction false} CountOfMultiset<T>(a: seq<T>, b: seq<T>, p: T -> bool)
    requires multiset(a) == multiset(b)
    ensures Count(a, p) == Count(b, p)
  {
    if a == [] {
      assert |multiset(b)| == 0;
    } else {
      var before, after := TakeAway(a, b);
      CountOfMultiset(a[..|a|-1], before + after, p);
      CountConcat(before, after, p);
      CountConcat(before, [a[|a|-1]], p);
      CountConcat(before + [a[|a|-1]], after, p);
    }
  }

  lemma {:induction false} CountPositive<T>(s: seq<T>, p: T -> bool)
    ensures Count(s, p) > 0 <==> exists x :: x in s && p(x)
  {
    if s != [] {
      var init, last := s[..|s|-1], s[|s|-1];
      assert s == init + [last];
      CountPositive(init, p);
    }
  }

  function Members(names: seq<string>): set<string> { set x | x in names }

  /** Elements of s that satisfy p, in order. */
  function Filter<T(!new)>(s: seq<T>, p: T -> bool): (r: seq<T>)
    ensures forall x :: x in r <==> x in s && p(x)
  {
    if s == [] then []
    else
      var r := Filter(s[..|s|-1], p);
      assert s == s[..|s|-1] + [s[|s|-1]];
      if p(s[|s|-1]) then r + [s[|s|-1]] else r
  }

  /** Rows that a deletion before the cutoff keeps. */
  function NoOlderThan<T>(time: T -> int, cutoff: int): T -> bool { (x: T) => time(x) >= cutoff }

  /** Filtering first with a weaker condition changes nothing. */
  lemma {:induction false} FilterTwice<T(!new)>(s: seq<T>, weak: T -> bool, strong: T -> bool)
    requires forall x | x in s && strong(x) :: weak(x)
    ensures Filter(Filter(s, weak), strong) == Filter(s, strong)
  {
    if s != [] {
      var init, last := s[..|s|-1], s[|s|-1];
      assert s == init + [last];
      FilterTwice(init, weak, strong);
      if weak(last) {
        assert Filter(s, weak)[..|Filter(init, weak)|] == Filter(init, weak);
      }
    }
  }

  lemma {:induction false} FilterConcat<T(!new)>(a: seq<T>, b: seq<T>, p: T -> bool)
    ensures Filter(a + b, p) == Filter(a, p) + Filter(b, p)
  {
    if b == [] {
      assert a + b == a;
    } else {
      assert (a + b)[..|a + b|-1] == a + b[..|b|-1];
      FilterConcat(a, b[..|b|-1], p);
    }
  }

  function And<T>(p: T -> bool, q: T -> bool): T -> bool { (x: T) => p(x) && q(x) }

  lemma {:induction false} FilterSize<T(!new)>(s: seq<T>, p: T -> bool, q: T -> bool)
    ensures |Filter(s, p)| == Count(s, p)
    ensures Count(Filter(s, p), q) == Count(s, And(p, q))
  {
    if s != [] {
      var init, last := s[..|s|-1], s[|s|-1];
      FilterSize(init, p, q);
      if p(last) {
        assert Filter(s, p)[..|Filter(init, p)|] == Filter(init, p);
      }
    }
  }

  ghost predicate Distinct<T(!new)>(s: seq<T>)
  {
    forall i, j | 0 <= i < j < |s| :: s[i] != s[j]
  }

  lemma {:induction false} SubsetSize<T>(a: set<T>, b: set<T>)
    requires a <= b
    ensures |a| <= |b|
    ensures |a| == |b| ==> a == b
  {
    if a != {} {
      var x :| x in a;
      SubsetSize(a - {x}, b - {x});
    }
  }

  /** Concatenation of a list of lists. */
  function Flatten<T>(ss: seq<seq<T>>): seq<T>
  {
    if ss == [] then [] else Flatten(ss[..|ss|-1]) + ss[|ss|-1]
  }

  /** Code-point lexicographic order, the order Python sorts strings in. */
  predicate StringLt(a: string, b: string)
  {
    b != [] && (a == [] || a[0] < b[0] || (a[0] == b[0] && StringLt(a[1..], b[1..])))
  }

  /** The strings agree up to position i, where a has ended or has the smaller character. */
  ghost predicate FirstDifference(a: string, b: string, i: nat)
  {
    && i <= |a| && i < |b| && a[..i] == b[..i]
    && (i == |a| || a[i] < b[i])
  }

  lemma {:induction false} StringLtMeans(a: string, b: string)
    ensures StringLt(a, b) <==> exists i: nat :: FirstDifference(a, b, i)
    decreases |a|
  {
    if a == [] || b == [] || a[0] != b[0] {
      if b != [] && (a == [] || a[0] < b[0]) {
        assert FirstDifference(a, b, 0);
      }
      forall i: nat | FirstDifference(a, b, i)
        ensures StringLt(a, b)
      {
        assert i > 0 ==> a[..i][0] == b[..i][0];
      }
    } else {
      StringLtMeans(a[1..], b[1..]);
      forall i: nat | FirstDifference(a[1..], b[1..], i)
        ensures FirstDifference(a, b, i + 1)
      {
        assert a[..i+1] == [a[0]] + a[1..][..i] && b[..i+1] == [b[0]] + b[1..][..i];
      }
      forall i: nat | FirstDifference(a, b, i)
        ensures StringLt(a, b)
      {
        assert i > 0 && a[1..][..i-1] == a[..i][1..] && b[1..][..i-1] == b[..i][1..];
        assert FirstDifference(a[1..], b[1..], i - 1);
      }
    }
  }

  lemma {:induction false} StringLtTotal(a: string, b: string)
    ensures !StringLt(a, a)
    ensures a != b ==> (StringLt(a, b) <==> !StringLt(b, a))
    decreases |a|
  {
    if a != [] {
      StringLtTotal(a[1..], if b == [] then [] else b[1..]);
      if b != [] && a[0] == b[0] {
        assert a == [a[0]] + a[1..] && b == [b[0]] + b[1..];
      }
    }
  }

  lemma {:induction false} StringLtTransitive(a: string, b: string, c: string)
    requires StringLt(a, b) && StringLt(b, c)
    ensures StringLt(a, c)
    decreases |a|
  {
    if a != [] && a[0] == b[0] && b[0] == c[0] {
      StringLtTransitive(a[1..], b[1..], c[1..]);
    }
  }

  ghost predicate StrictOrder<T(!new)>(lt: (T, T) -> bool)
  {
    && (forall x :: !lt(x, x))
    && (forall x, y | x != y :: lt(x, y) <==> !lt(y, x))
    && (forall x, y, z | lt(x, y) && lt(y, z) :: lt(x, z))
  }

  ghost predicate Ascends<T(!new)>(s: seq<T>, lt: (T, T) -> bool)
  {
    forall i, j | 0 <= i < j < |s| :: lt(s[i], s[j])
  }

  lemma StringOrder()
    ensures StrictOrder(StringLt)
  {
    forall x, y ensures !StringLt(x, x) && (x != y ==> (StringLt(x, y) <==> !StringLt(y, x))) {
      StringLtTotal(x, y);
    }
    forall x, y, z | StringLt(x, y) && StringLt(y, z) ensures StringLt(x, z) {
      StringLtTransitive(x, y, z);
    }
  }

  lemma {:induction false} InsertedAscends<T(!new)>(order: seq<T>, i: nat, item: T, lt: (T, T) -> bool)
    requires Ascends(order, lt) && i <= |order|
    requires (forall j | 0 <= j < i :: lt(order[j], item)) && forall j | i <= j < |order| :: lt(item, order[j])
    ensures Ascends(order[..i] + [item] + order[i..], lt)
  {
  }

  lemma {:induction false} InsertAscends<T(!new)>(order: seq<T>, i: nat, item: T, lt: (T, T) -> bool)
    requires StrictOrder(lt) && Ascends(order, lt) && i <= |order| && item !in order
    requires forall j | 0 <= j < i :: lt(order[j], item)
    requires i < |order| ==> !lt(order[i], item)
    ensures Ascends(order[..i] + [item] + order[i..], lt)
    ensures forall x :: x in order[..i] + [item] + order[i..] <==> x in order || x == item
  {
    assert order == order[..i] + order[i..];
    forall j | i <= j < |order|
      ensures lt(item, order[j])
    {
      assert order[i] in order && lt(item, order[i]);
      assert j > i ==> lt(order[i], order[j]);
    }
    InsertedAscends(order, i, item, lt);
  }

  /** A finite set as a list in strict order. */
  method SortedBy<T(==, !new)>(items: set<T>, lt: (T, T) -> bool) returns (order: seq<T>)
    requires StrictOrder(lt)
    ensures Ascends(order, lt) && (forall x :: x in order <==> x in items)
  {
    order := [];
    var left := items;
    while left != {}
      invariant left <= items
      invariant Ascends(order, lt) && forall x :: x in order <==> x in items - left
      decreases left
    {
      var item :| item in left;
      left := left - {item};
      var i := 0;
      while i < |order| && lt(order[i], item)
        invariant i <= |order| && forall j | 0 <= j < i :: lt(order[j], item)
      {
        i := i + 1;
      }
      InsertAscends(order, i, item, lt);
      order := order[..i] + [item] + order[i..];
    }
  }
}
