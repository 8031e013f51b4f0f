/** Order statistics of a list of numbers, by counting alone and whatever its order. */
module Ranks {
  import opened Objects
  import opened Sorting
  import opened Statistics

  /** How many of the values are at most `x`. */
  function AtMost(s: seq<real>, x: real): nat
  {
    if s == [] then 0 else (if s[0] <= x then 1 else 0) + AtMost(s[1..], x)
  }

  /** How many of the values are below `x`. */
  function Fewer(s: seq<real>, x: real): nat
  {
    if s == [] then 0 else (if s[0] < x then 1 else 0) + Fewer(s[1..], x)
  }

  /** `x` is the k-th smallest of the values, counting from 1. */
  predicate IsRank(s: seq<real>, k: nat, x: real)
  {
    Fewer(s, x) < k <= AtMost(s, x)
  }

  /** The middle value, or halfway between the two middle ones. */
  ghost predicate IsMedian(s: seq<real>, m: real)
  {
    exists low, high :: AreMiddle(s, low, high) && m == (low + high) / 2.0
  }

  /** The two middle values, which are one when there is an odd number of values. */
  predicate AreMiddle(s: seq<real>, low: real, high: real)
  {
    IsRank(s, (|s| + 1) / 2, low) && IsRank(s, |s| / 2 + 1, high)
  }

  // ----- Ranks do not depend on the order -----

  lemma {:induction false} InsertCounts(y: real, s: seq<real>, x: real)
    ensures AtMost(Insert(Less, y, s), x) == (if y <= x then 1 else 0) + AtMost(s, x)
    ensures Fewer(Insert(Less, y, s), x) == (if y < x then 1 else 0) + Fewer(s, x)
  {
    if s != [] && Less(s[0], y) {
      InsertCounts(y, s[1..], x);
      assert ([s[0]] + Insert(Less, y, s[1..]))[1..] == Insert(Less, y, s[1..]);
    } else {
      assert ([y] + s)[1..] == s;
    }
  }

  lemma {:induction false} SortCounts(s: seq<real>, x: real)
    ensures AtMost(Sort(Less, s), x) == AtMost(s, x) && Fewer(Sort(Less, s), x) == Fewer(s, x)
  {
    if s != [] {
      SortCounts(s[1..], x);
      InsertCounts(s[0], Sort(Less, s[1..]), x);
    }
  }

  lemma {:induction false} CountsAdd(a: seq<real>, b: seq<real>, x: real)
    ensures AtMost(a + b, x) == AtMost(a, x) + AtMost(b, x) && Fewer(a + b, x) == Fewer(a, x) + Fewer(b, x)
  {
    if a == [] {
      assert a + b == b;
    } else {
      assert (a + b)[1..] == a[1..] + b;
      CountsAdd(a[1..], b, x);
    }
  }

  lemma {:induction false} CountsOfAll(s: seq<real>, x: real)
    ensures Fewer(s, x) <= AtMost(s, x) <= |s|
    ensures (forall v | v in s :: v <= x) ==> AtMost(s, x) == |s|
    ensures (forall v | v in s :: v >= x) ==> Fewer(s, x) == 0
  {
    if s != [] {
      CountsOfAll(s[1..], x);
      assert s[0] in s && forall v | v in s[1..] :: v in s;
    }
  }

  /** In a list in order the k-th smallest is at the k-th place. */
  lemma PlaceIsRank(sorted: seq<real>, k: nat)
    requires Ordered(Less, sorted) && 1 <= k <= |sorted|
    ensures IsRank(sorted, k, sorted[k - 1])
  {
    hide AtMost, Fewer;
    UpToPlace(sorted, k);
    FromPlace(sorted, k);
  }

  lemma UpToPlace(sorted: seq<real>, k: nat)
    requires Ordered(Less, sorted) && 1 <= k <= |sorted|
    ensures AtMost(sorted, sorted[k - 1]) >= k
  {
    hide AtMost, Fewer;
    var x, upTo := sorted[k - 1], sorted[..k];
    forall v | v in upTo
      ensures v <= x
    {
      var i :| 0 <= i < k && sorted[i] == v;
      assert i < k - 1 ==> !Less(sorted[k - 1], sorted[i]);
    }
    assert sorted == upTo + sorted[k..];
    CountsAdd(upTo, sorted[k..], x);
    CountsOfAll(upTo, x);
  }

  lemma FromPlace(sorted: seq<real>, k: nat)
    requires Ordered(Less, sorted) && 1 <= k <= |sorted|
    ensures Fewer(sorted, sorted[k - 1]) < k
  {
    hide AtMost, Fewer;
    var x, front, from := sorted[k - 1], sorted[..k - 1], sorted[k - 1..];
    forall v | v in from
      ensures v >= x
    {
      var i :| k - 1 <= i < |sorted| && sorted[i] == v;
      assert i > k - 1 ==> !Less(sorted[i], sorted[k - 1]);
    }
    assert sorted == front + from;
    CountsAdd(front, from, x);
    CountsOfAll(front, x);
    CountsOfAll(from, x);
  }

  lemma SortedPlaceIsRank(s: seq<real>, k: nat)
    requires 1 <= k <= |s|
    ensures |Sort(Less, s)| == |s| && IsRank(s, k, Sort(Less, s)[k - 1])
  {
    LessIsWeakOrder(s);
    SortOrdered(Less, s);
    SortContents(Less, s);
    hide Sort;
    PlaceIsRank(Sort(Less, s), k);
    SortCounts(s, Sort(Less, s)[k - 1]);
  }

  lemma {:induction false} CountsGrow(s: seq<real>, x: real, y: real)
    requires x < y
    ensures AtMost(s, x) <= Fewer(s, y)
  {
    if s != [] {
      CountsGrow(s[1..], x, y);
    }
  }

  /** There is one k-th smallest value at most. */
  lemma RankIsUnique(s: seq<real>, k: nat, x: real, y: real)
    requires IsRank(s, k, x) && IsRank(s, k, y)
    ensures x == y
  {
    if x < y {
      CountsGrow(s, x, y);
    } else if y < x {
      CountsGrow(s, y, x);
    }
  }

  // ----- The median -----

  /** The median that is computed from the sorted list is the median, and there is no other. */
  lemma MedianIsMedian(s: seq<real>)
    requires s != []
    ensures |Sort(Less, s)| == |s| && Median(Sort(Less, s)).Some? && IsMedian(s, Median(Sort(Less, s)).value)
    ensures forall m :: IsMedian(s, m) <==> m == Median(Sort(Less, s)).value
  {
    var sorted, n := Sort(Less, s), |s|;
    SortedPlaceIsRank(s, (n + 1) / 2);
    SortedPlaceIsRank(s, n / 2 + 1);
    var low, high := sorted[(n + 1) / 2 - 1], sorted[n / 2];
    assert AreMiddle(s, low, high);
    hide Sort, IsRank, AreMiddle;
    assert Median(sorted).value == (low + high) / 2.0;
    forall m | IsMedian(s, m)
      ensures m == Median(sorted).value
    {
      var a, b :| AreMiddle(s, a, b) && m == (a + b) / 2.0;
      MiddleIsUnique(s, a, b, low, high);
    }
  }

  lemma MiddleIsUnique(s: seq<real>, a: real, b: real, low: real, high: real)
    requires AreMiddle(s, a, b) && AreMiddle(s, low, high)
    ensures a == low && b == high
  {
    hide IsRank;
    RankIsUnique(s, (|s| + 1) / 2, a, low);
    RankIsUnique(s, |s| / 2 + 1, b, high);
  }
}
