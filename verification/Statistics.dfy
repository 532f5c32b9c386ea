/** Means, medians and deviations over real values, and how far a minority can move a median. */
module Statistics {
  import opened Prelude

  function Abs(x: real): (r: real)
    ensures r >= 0.0 && (r == x || r == -x)
  {
    if x < 0.0 then -x else x
  }

  function MaxReal(a: real, b: real): (r: real)
    ensures r >= a && r >= b && (r == a || r == b)
  {
    if a < b then b else a
  }

  function MinReal(a: real, b: real): (r: real)
    ensures r <= a && r <= b && (r == a || r == b)
  {
    if a < b then a else b
  }

  /** A product and a quotient by name, so that they can be matched as terms in proofs. */
  function Times(x: real, y: real): real { x * y }

  function Divide(x: real, n: real): (q: real)
    requires n != 0.0
    ensures Times(n, q) == x
  {
    x / n
  }

  function Sum(v: seq<real>): real
  {
    if v == [] then 0.0 else Sum(v[..|v|-1]) + v[|v|-1]
  }

  function SquaredDeviations(v: seq<real>, mean: real): real
  {
    if v == [] then 0.0
    else SquaredDeviations(v[..|v|-1], mean) + Times(v[|v|-1] - mean, v[|v|-1] - mean)
  }

  function Mean(v: seq<real>): real
    requires v != []
  {
    Divide(Sum(v), |v| as real)
  }

  /** The population variance. */
  function Variance(v: seq<real>): real
    requires v != []
  {
    Divide(SquaredDeviations(v, Mean(v)), |v| as real)
  }

  // ---- sorting --------------------------------------------------------------------------

  ghost predicate Ascending(v: seq<real>)
  {
    forall i, j | 0 <= i < j < |v| :: v[i] <= v[j]
  }

  function Insert(v: seq<real>, x: real): (r: seq<real>)
    ensures |r| == |v| + 1
  {
    if v == [] || v[|v|-1] <= x then v + [x] else Insert(v[..|v|-1], x) + [v[|v|-1]]
  }

  function Sorted(v: seq<real>): (r: seq<real>)
    ensures |r| == |v|
  {
    if v == [] then [] else Insert(Sorted(v[..|v|-1]), v[|v|-1])
  }

  lemma {:induction false} InsertCounts(v: seq<real>, x: real, p: real -> bool)
    ensures Count(Insert(v, x), p) == Count(v, p) + if p(x) then 1 else 0
  {
    if v == [] || v[|v|-1] <= x {
      assert (v + [x])[..|v|] == v;
    } else {
      var init, last := v[..|v|-1], v[|v|-1];
      InsertCounts(init, x, p);
      assert (Insert(init, x) + [last])[..|init|+1] == Insert(init, x);
    }
  }

  lemma {:induction false} InsertKeepsOrder(v: seq<real>, x: real)
    requires Ascending(v)
    ensures Ascending(Insert(v, x))
    ensures forall y | y in Insert(v, x) :: y == x || y in v
  {
    if v != [] && v[|v|-1] > x {
      var init, last := v[..|v|-1], v[|v|-1];
      InsertKeepsOrder(init, x);
      var r := Insert(init, x);
      forall i | 0 <= i < |r|
        ensures r[i] <= last
      {
        assert r[i] in r;
        if r[i] != x {
          var j :| 0 <= j < |init| && init[j] == r[i];
          assert v[j] <= v[|v|-1];
        }
      }
    }
  }

  /** Ascending, and every condition holds of as many elements as before. */
  lemma {:induction false} SortedSorts(v: seq<real>, p: real -> bool)
    ensures Ascending(Sorted(v))
    ensures Count(Sorted(v), p) == Count(v, p)
  {
    if v != [] {
      SortedSorts(v[..|v|-1], p);
      InsertCounts(Sorted(v[..|v|-1]), v[|v|-1], p);
      InsertKeepsOrder(Sorted(v[..|v|-1]), v[|v|-1]);
    }
  }

  // ---- medians --------------------------------------------------------------------------

  function Median(values: seq<real>): real
    requires values != []
  {
    var v := Sorted(values);
    var mid := |v| / 2;
    if |v| % 2 != 0 then v[mid] else (v[mid - 1] + v[mid]) / 2.0
  }

  function Above(limit: real): real -> bool { x => x > limit }
  function Below(limit: real): real -> bool { x => x < limit }
  function Outside(lo: real, hi: real): real -> bool { x => x < lo || x > hi }

  /** In ascending order, the elements from i on satisfy p, so at least that many do. */
  lemma CountFrom(v: seq<real>, i: nat, p: real -> bool)
    requires i <= |v| && forall j | i <= j < |v| :: p(v[j])
    ensures Count(v, p) >= |v| - i
  {
    CountConcat(v[..i], v[i..], p);
    assert v[..i] + v[i..] == v;
    CountAll(v[i..], p);
  }

  lemma CountUpTo(v: seq<real>, i: nat, p: real -> bool)
    requires i <= |v| && forall j | 0 <= j < i :: p(v[j])
    ensures Count(v, p) >= i
  {
    CountConcat(v[..i], v[i..], p);
    assert v[..i] + v[i..] == v;
    CountAll(v[..i], p);
  }

  /** The two middle positions of a sequence, which coincide when its length is odd. */
  lemma MiddlePositions(n: nat)
    requires n > 0
    ensures if n % 2 == 0 then (n - 1) / 2 == n / 2 - 1 else (n - 1) / 2 == n / 2
  {
  }

  lemma MedianIsInTheMiddle(values: seq<real>, low: nat, mid: nat)
    requires values != [] && low == (|values| - 1) / 2 && mid == |values| / 2
    ensures Sorted(values)[low] <= Median(values) <= Sorted(values)[mid]
  {
    var v := Sorted(values);
    assert Ascending(v) by {
      SortedSorts(values, Above(0.0));
    }
    MiddlePositions(|v|);
    assert v[low] <= v[mid];
    assert Median(values) == if |v| % 2 != 0 then v[mid] else (v[low] + v[mid]) / 2.0;
  }

  lemma MiddleAtMost(v: seq<real>, limit: real, mid: nat)
    requires Ascending(v) && mid < |v| && 2 * mid <= |v| && 2 * Count(v, Above(limit)) < |v|
    ensures v[mid] <= limit
  {
    if v[mid] > limit {
      CountFrom(v, mid, Above(limit));
    }
  }

  lemma MiddleAtLeast(v: seq<real>, limit: real, low: nat)
    requires Ascending(v) && low < |v| <= 2 * low + 2 && 2 * Count(v, Below(limit)) < |v|
    ensures v[low] >= limit
  {
    if v[low] < limit {
      CountUpTo(v, low + 1, Below(limit));
    }
  }

  /** While fewer than half of the values lie above (below) a limit, so does not the median. */
  lemma MedianAtMost(values: seq<real>, limit: real)
    requires values != [] && 2 * Count(values, Above(limit)) < |values|
    ensures Median(values) <= limit
  {
    SortedSorts(values, Above(limit));
    MiddleAtMost(Sorted(values), limit, |values| / 2);
    MedianIsInTheMiddle(values, (|values| - 1) / 2, |values| / 2);
  }

  lemma MedianAtLeast(values: seq<real>, limit: real)
    requires values != [] && 2 * Count(values, Below(limit)) < |values|
    ensures Median(values) >= limit
  {
    SortedSorts(values, Below(limit));
    MiddleAtLeast(Sorted(values), limit, (|values| - 1) / 2);
    MedianIsInTheMiddle(values, (|values| - 1) / 2, |values| / 2);
  }

  function Deviations(v: seq<real>, center: real): (r: seq<real>)
    ensures |r| == |v|
  {
    if v == [] then [] else Deviations(v[..|v|-1], center) + [Abs(v[|v|-1] - center)]
  }

  lemma {:induction false} FewLargeDeviations(v: seq<real>, center: real, lo: real, hi: real)
    requires lo <= center <= hi
    ensures Count(Deviations(v, center), Above(hi - lo)) <= Count(v, Outside(lo, hi))
    ensures Count(Deviations(v, center), Below(0.0)) == 0
  {
    if v != [] {
      FewLargeDeviations(v[..|v|-1], center, lo, hi);
      var d := Deviations(v, center);
      assert d[..|d|-1] == Deviations(v[..|v|-1], center);
    }
  }

  /** The median absolute deviation from the median. */
  function MedianDeviation(v: seq<real>): real
    requires v != []
  {
    Median(Deviations(v, Median(v)))
  }

  lemma {:induction false} DeviationsAre(v: seq<real>, center: real)
    ensures forall i | 0 <= i < |v| :: Deviations(v, center)[i] == Abs(v[i] - center)
  {
    if v != [] {
      DeviationsAre(v[..|v|-1], center);
    }
  }

  /** The median absolute deviation is the median of the distances from the median. */
  lemma DeviationIsTheMedianOf(v: seq<real>, distances: seq<real>)
    requires v != [] && |distances| == |v|
    requires forall i | 0 <= i < |v| :: distances[i] == Abs(v[i] - Median(v))
    ensures MedianDeviation(v) == Median(distances)
  {
    DeviationsAre(v, Median(v));
    assert distances == Deviations(v, Median(v));
  }

  /**
   While fewer than half of the values lie outside an interval, the median lies inside it and the
   median absolute deviation is at most its width, whatever the other values are.
   */
  lemma MinorityCannotMove(v: seq<real>, lo: real, hi: real)
    requires v != [] && lo <= hi && 2 * Count(v, Outside(lo, hi)) < |v|
    ensures lo <= Median(v) <= hi
    ensures 0.0 <= MedianDeviation(v) <= hi - lo
  {
    CountImplies(v, Above(hi), Outside(lo, hi));
    MedianAtMost(v, hi);
    CountImplies(v, Below(lo), Outside(lo, hi));
    MedianAtLeast(v, lo);
    DeviationIsAtMost(v, Median(v), lo, hi);
  }

  lemma {:induction false} DeviationIsAtMost(v: seq<real>, center: real, lo: real, hi: real)
    requires v != [] && lo <= center <= hi && 2 * Count(v, Outside(lo, hi)) < |v|
    ensures 0.0 <= Median(Deviations(v, center)) <= hi - lo
  {
    FewLargeDeviations(v, center, lo, hi);
    MedianAtMost(Deviations(v, center), hi - lo);
    MedianAtLeast(Deviations(v, center), 0.0);
  }

  // ---- the order of the values does not matter ------------------------------------------

  /** The same values, each as often. */
  ghost predicate Alike(u: seq<real>, v: seq<real>)
  {
    |u| == |v| && forall p: real -> bool :: Count(u, p) == Count(v, p)
  }

  lemma CountBefore(v: seq<real>, i: nat, p: real -> bool)
    requires i <= |v| && forall j | i <= j < |v| :: !p(v[j])
    ensures Count(v, p) <= i
  {
    CountConcat(v[..i], v[i..], p);
    assert v[..i] + v[i..] == v;
    CountPositive(v[i..], p);
    CountImplies(v[..i], p, x => true);
    CountAll(v[..i], x => true);
  }

  function UpTo(limit: real): real -> bool { x => x <= limit }

  /** In ascending order, as many values up to v[i] put u[i] below it. */
  lemma PlaceOf(u: seq<real>, v: seq<real>, i: nat)
    requires Ascending(u) && Ascending(v) && i < |u| && |u| == |v|
    requires Count(u, UpTo(v[i])) == Count(v, UpTo(v[i]))
    ensures u[i] <= v[i]
  {
    CountUpTo(v, i + 1, UpTo(v[i]));
    if u[i] > v[i] {
      CountBefore(u, i, UpTo(v[i]));
    }
  }

  lemma SortedAtMost(u: seq<real>, v: seq<real>, i: nat)
    requires Alike(u, v) && i < |u|
    ensures Sorted(u)[i] <= Sorted(v)[i]
  {
    var p := UpTo(Sorted(v)[i]);
    SortedSorts(u, p);
    SortedSorts(v, p);
    PlaceOf(Sorted(u), Sorted(v), i);
  }

  lemma SortedAlike(u: seq<real>, v: seq<real>)
    requires Alike(u, v)
    ensures Sorted(u) == Sorted(v)
  {
    forall i | 0 <= i < |u|
      ensures Sorted(u)[i] == Sorted(v)[i]
    {
      SortedAtMost(u, v, i);
      SortedAtMost(v, u, i);
    }
  }

  /**
   The median is the middle value of the values in ascending order, or the mean of the two middle
   ones when their number is even.
   */
  lemma MedianIsTheMiddle(values: seq<real>, v: seq<real>)
    requires values != [] && multiset(v) == multiset(values) && Ascending(v)
    ensures |v| == |values| && 2.0 * Median(values) == v[(|v| - 1) / 2] + v[|v| / 2]
  {
    assert |v| == |multiset(v)| == |multiset(values)| == |values|;
    forall i | 0 <= i < |v|
      ensures v[i] == Sorted(values)[i]
    {
      SameCount(values, v, UpTo(v[i]));
      PlaceOf(Sorted(values), v, i);
      SameCount(values, v, UpTo(Sorted(values)[i]));
      PlaceOf(v, Sorted(values), i);
    }
    MiddlePositions(|v|);
  }

  lemma SameCount(values: seq<real>, v: seq<real>, p: real -> bool)
    requires multiset(v) == multiset(values)
    ensures Count(Sorted(values), p) == Count(v, p) && Ascending(Sorted(values))
  {
    SortedSorts(values, p);
    CountOfMultiset(values, v, p);
  }

  function Deviating(p: real -> bool, center: real): real -> bool { x => p(Abs(x - center)) }

  lemma {:induction false} DeviationsCount(v: seq<real>, center: real, p: real -> bool)
    ensures Count(Deviations(v, center), p) == Count(v, Deviating(p, center))
  {
    if v != [] {
      DeviationsCount(v[..|v|-1], center, p);
      var d := Deviations(v, center);
      assert d[..|d|-1] == Deviations(v[..|v|-1], center);
    }
  }

  /** Median and median absolute deviation depend only on how often each value occurs. */
  lemma MediansAlike(u: seq<real>, v: seq<real>)
    requires Alike(u, v) && u != []
    ensures v != [] && Median(u) == Median(v) && MedianDeviation(u) == MedianDeviation(v)
  {
    SortedAlike(u, v);
    var center := Median(u);
    forall p: real -> bool
      ensures Count(Deviations(u, center), p) == Count(Deviations(v, center), p)
    {
      DeviationsCount(u, center, p);
      DeviationsCount(v, center, p);
    }
    SortedAlike(Deviations(u, center), Deviations(v, center));
  }
}
