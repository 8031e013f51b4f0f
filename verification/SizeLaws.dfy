/** When the newest object's size is judged to be what, by counting the sizes and by medians of plain lists. */
module SizeLaws {
  import opened Objects
  import opened Sorting
  import opened Statistics
  import opened Ranks
  import opened SizeVerdict

  function Zeros(objects: seq<S3Object>): nat
  {
    if objects == [] then 0 else (if objects[0].size == 0 then 1 else 0) + Zeros(objects[1..])
  }

  lemma {:induction false} ZerosCounted(objects: seq<S3Object>)
    ensures AtMost(SizesOf(objects), 0.0) == Zeros(objects) && Fewer(SizesOf(objects), 0.0) == 0
  {
    if objects != [] {
      ZerosCounted(objects[1..]);
      assert SizesOf(objects)[1..] == SizesOf(objects[1..]);
    }
  }

  /** Of values that are not negative the k-th smallest is positive exactly when fewer than k are zero. */
  lemma RankIsPositive(s: seq<real>, k: nat, x: real)
    requires IsRank(s, k, x) && Fewer(s, 0.0) == 0 && 1 <= k
    ensures x >= 0.0 && (x > 0.0 <==> AtMost(s, 0.0) < k)
  {
    if x < 0.0 {
      CountsGrow(s, x, 0.0);
    } else if x > 0.0 {
      CountsGrow(s, 0.0, x);
    }
  }

  /** The median size is positive exactly when no more than half of the objects are empty. */
  lemma MedianIsPositive(objects: seq<S3Object>)
    requires objects != []
    ensures var median := Median(Sort(Less, SizesOf(objects)));
            median.Some? && median.value >= 0.0 && (median.value > 0.0 <==> 2 * Zeros(objects) <= |objects|)
  {
    var s := SizesOf(objects);
    MedianIsMedian(s);
    ZerosCounted(objects);
    hide Sort, Median, IsRank, Zeros, SizesOf;
    var m := Median(Sort(Less, s)).value;
    assert IsMedian(s, m);
    var low, high :| AreMiddle(s, low, high) && m == (low + high) / 2.0;
    RankIsPositive(s, (|s| + 1) / 2, low);
    RankIsPositive(s, |s| / 2 + 1, high);
  }

  /**
   * The newest object is judged empty exactly when it is, and no more than half
   * of the objects are: a feed of mostly empty objects is left alone.
   */
  lemma EmptyExactlyWhenUnusual(objects: seq<S3Object>)
    requires objects != []
    ensures ClassifyNewestSize(objects) == Empty
       <==> NewestOf(objects).size == 0 && 2 * Zeros(objects) <= |objects|
    ensures NewestOf(objects).size == 0 && 2 * Zeros(objects) > |objects| ==> ClassifyNewestSize(objects) == Normal
  {
    hide *;
    VerdictCases(objects);
    MedianIsPositive(objects);
    NewestIsListed(objects);
    if NewestOf(objects).size == 0 {
      ZeroIsCounted(objects, NewestOf(objects));
    }
  }

  /** The cases that need no scale. */
  lemma VerdictCases(objects: seq<S3Object>)
    requires objects != []
    ensures var median, verdict := Median(Sort(Less, SizesOf(objects))), ClassifyNewestSize(objects);
            var empty := NewestOf(objects).size == 0;
            && median.Some?
            && (verdict == Empty <==> empty && median.value > 0.0 && |objects| >= 2)
            && (verdict == SizeStatus.Unknown <==> !empty && (|objects| < 8 || median.value <= 0.0))
            && (empty ==> verdict == Empty || verdict == Normal)
  {
    var s, size := SizesOf(objects), NewestOf(objects).size;
    SortContents(Less, s);
    SortedMedianExists(Sort(Less, s));
    assert size as real == 0.0 <==> size == 0;
    hide Sort, Median, SizesOf, NewestOf;
    VerdictOfCases(Sort(Less, s), Median(Sort(Less, s)).value, size as real);
    hide VerdictOf;
  }

  lemma VerdictOfCases(sorted: seq<real>, median: real, size: real)
    ensures var verdict := VerdictOf(sorted, median, size);
            && (verdict == Empty <==> size == 0.0 && median > 0.0 && |sorted| >= 2)
            && (verdict == SizeStatus.Unknown <==> size != 0.0 && (|sorted| < 8 || median <= 0.0))
            && (size == 0.0 ==> verdict == Empty || verdict == Normal)
  {
    hide ScaleOf, Below, Above, Judge;
    JudgeIsDefinite(size, median, ScaleOf(Below(sorted, median), median), ScaleOf(Above(sorted, median), median));
  }

  lemma JudgeIsDefinite(size: real, median: real, lower: real, upper: real)
    ensures Judge(size, median, lower, upper) in {Small, Large, Normal}
  {
  }

  lemma {:induction false} NewestIsListed(objects: seq<S3Object>)
    requires objects != []
    ensures NewestOf(objects) in objects
  {
    if |objects| > 1 {
      NewestIsListed(objects[..|objects| - 1]);
    }
  }

  lemma {:induction false} ZeroIsCounted(objects: seq<S3Object>, o: S3Object)
    requires o in objects && o.size == 0
    ensures Zeros(objects) >= 1
  {
    if objects[0] != o {
      ZeroIsCounted(objects[1..], o);
    }
  }

  /** Nothing is judged of fewer than eight objects, nor where more than half are empty, unless the newest is empty. */
  lemma UnknownExactlyWithoutEvidence(objects: seq<S3Object>)
    requires objects != []
    ensures ClassifyNewestSize(objects) == SizeStatus.Unknown
       <==> NewestOf(objects).size != 0 && (|objects| < 8 || 2 * Zeros(objects) > |objects|)
  {
    hide *;
    VerdictCases(objects);
    MedianIsPositive(objects);
  }

  // ----- Deviations -----

  lemma CountOfFirst(s: seq<real>, x: real)
    requires s != []
    ensures multiset(s)[x] == (if s[0] == x then 1 else 0) + multiset(s[1..])[x]
  {
    assert s == [s[0]] + s[1..];
  }

  /** A deviation below the median occurs as often as the value that far below it. */
  lemma {:induction false} BelowCounts(s: seq<real>, median: real, d: real)
    ensures multiset(Below(s, median))[d] == if d >= 0.0 then multiset(s)[median - d] else 0
  {
    if s != [] {
      BelowCounts(s[1..], median, d);
      CountOfFirst(s, if d >= 0.0 then median - d else 0.0);
      var rest := Below(s[1..], median);
      if s[0] <= median {
        CountOfFirst([median - s[0]] + rest, d);
        assert ([median - s[0]] + rest)[1..] == rest;
      } else {
        assert [] + rest == rest;
      }
    }
  }

  lemma {:induction false} AboveCounts(s: seq<real>, median: real, d: real)
    ensures multiset(Above(s, median))[d] == if d >= 0.0 then multiset(s)[median + d] else 0
  {
    if s != [] {
      AboveCounts(s[1..], median, d);
      CountOfFirst(s, if d >= 0.0 then median + d else 0.0);
      var rest := Above(s[1..], median);
      if s[0] >= median {
        CountOfFirst([s[0] - median] + rest, d);
        assert ([s[0] - median] + rest)[1..] == rest;
      } else {
        assert [] + rest == rest;
      }
    }
  }

  /** `deviations` holds the distance of every value on this side of the median, as often as it occurs. */
  ghost predicate Deviations(deviations: seq<real>, s: seq<real>, median: real, side: real)
  {
    forall d :: multiset(deviations)[d] == if d >= 0.0 then multiset(s)[median + side * d] else 0
  }

  lemma SameDeviations(a: seq<real>, b: seq<real>, s: seq<real>, t: seq<real>, median: real, side: real)
    requires Deviations(a, s, median, side) && Deviations(b, t, median, side) && multiset(s) == multiset(t)
    ensures Sort(Less, a) == Sort(Less, b)
  {
    hide Sort;
    assert forall d :: multiset(a)[d] == multiset(b)[d];
    assert multiset(a) == multiset(b);
    SortOfPermutation(a, b);
  }

  lemma BelowIsDeviations(s: seq<real>, median: real)
    ensures Deviations(Below(s, median), s, median, -1.0)
  {
    hide Below;
    forall d
      ensures multiset(Below(s, median))[d] == if d >= 0.0 then multiset(s)[median + -1.0 * d] else 0
    {
      BelowCounts(s, median, d);
    }
  }

  lemma AboveIsDeviations(s: seq<real>, median: real)
    ensures Deviations(Above(s, median), s, median, 1.0)
  {
    hide Above;
    forall d
      ensures multiset(Above(s, median))[d] == if d >= 0.0 then multiset(s)[median + 1.0 * d] else 0
    {
      AboveCounts(s, median, d);
    }
  }

  // ----- The verdict -----

  /** The scale of one side: 1.4826 times the median deviation there, but at least a tenth of the median. */
  ghost predicate IsScale(scale: real, s: seq<real>, median: real, side: real)
  {
    exists deviations, middle :: GivesScale(deviations, middle, scale, s, median, side)
  }

  ghost predicate GivesScale(deviations: seq<real>, middle: real, scale: real, s: seq<real>, median: real, side: real)
  {
    && Deviations(deviations, s, median, side) && IsMedian(deviations, middle)
    && scale == (if 1.4826 * middle >= 0.1 * median then 1.4826 * middle else 0.1 * median)
  }

  lemma NoMedianOfNothing(m: real)
    ensures !IsMedian([], m)
  {
  }

  /** The scale computed from any list of the deviations of a side is the scale of that side, and there is no other. */
  lemma ScaleIsScale(computed: seq<real>, s: seq<real>, median: real, side: real)
    requires computed != [] && Deviations(computed, s, median, side)
    ensures forall scale :: IsScale(scale, s, median, side) <==> scale == ScaleOf(computed, median)
  {
    MedianIsMedian(computed);
    hide Sort, Median, Deviations, IsMedian;
    var middle := MedianOrZero(Sort(Less, computed));
    assert GivesScale(computed, middle, ScaleOf(computed, median), s, median, side);
    forall scale | IsScale(scale, s, median, side)
      ensures scale == ScaleOf(computed, median)
    {
      var deviations, other :| GivesScale(deviations, other, scale, s, median, side);
      if deviations == [] {
        NoMedianOfNothing(other);
      }
      MedianIsMedian(deviations);
      SameDeviations(deviations, computed, s, s, median, side);
    }
  }

  lemma SidesAreNotEmpty(sorted: seq<real>)
    requires sorted != [] && Ordered(Less, sorted)
    ensures var median := MedianOrZero(sorted); Below(sorted, median) != [] && Above(sorted, median) != []
  {
    MedianBounds(sorted);
    hide Median, Below, Above;
    OneOnEachSide(sorted, MedianOrZero(sorted), sorted[0]);
    OneOnEachSide(sorted, MedianOrZero(sorted), sorted[|sorted| - 1]);
  }

  lemma {:induction false} OneOnEachSide(s: seq<real>, median: real, v: real)
    requires v in s
    ensures v <= median ==> Below(s, median) != []
    ensures v >= median ==> Above(s, median) != []
  {
    if s[0] != v {
      OneOnEachSide(s[1..], median, v);
    }
  }

  lemma DeviationsOfSorted(s: seq<real>, deviations: seq<real>, median: real, side: real)
    ensures Deviations(deviations, Sort(Less, s), median, side) <==> Deviations(deviations, s, median, side)
  {
    SortContents(Less, s);
    hide Sort;
  }

  /** The two scales the verdict uses are those of the two sides of the median. */
  lemma ScalesAreOfSizes(s: seq<real>)
    requires s != []
    ensures var sorted := Sort(Less, s);
            var median := MedianOrZero(sorted);
            && (forall m :: IsMedian(s, m) <==> m == median)
            && (forall scale :: IsScale(scale, s, median, -1.0) <==> scale == ScaleOf(Below(sorted, median), median))
            && (forall scale :: IsScale(scale, s, median, 1.0) <==> scale == ScaleOf(Above(sorted, median), median))
  {
    MedianIsMedian(s);
    LessIsWeakOrder(s);
    SortOrdered(Less, s);
    var sorted, median := Sort(Less, s), MedianOrZero(Sort(Less, s));
    SidesAreNotEmpty(sorted);
    BelowIsDeviations(sorted, median);
    AboveIsDeviations(sorted, median);
    DeviationsOfSorted(s, Below(sorted, median), median, -1.0);
    DeviationsOfSorted(s, Above(sorted, median), median, 1.0);
    hide Sort, Median, IsMedian, IsScale, Deviations, Below, Above, ScaleOf, Ordered;
    ScaleIsScale(Below(sorted, median), s, median, -1.0);
    ScaleIsScale(Above(sorted, median), s, median, 1.0);
  }

  /**
   * With eight objects or more, of which no more than half are empty, a newest
   * object that is not empty is small or large exactly when its size is three
   * and a half scales or more from the median, each side having its own scale.
   */
  lemma VerdictIsByScales(objects: seq<S3Object>, median: real, lower: real, upper: real)
    requires |objects| >= 8 && 2 * Zeros(objects) <= |objects| && NewestOf(objects).size != 0
    requires var sizes := SizesOf(objects);
             IsMedian(sizes, median) && IsScale(lower, sizes, median, -1.0) && IsScale(upper, sizes, median, 1.0)
    ensures var size, verdict := NewestOf(objects).size as real, ClassifyNewestSize(objects);
            && verdict in {Small, Large, Normal}
            && (verdict == Small <==> size <= median - 3.5 * lower)
            && (verdict == Large <==> size >= median + 3.5 * upper)
  {
    var sizes, size := SizesOf(objects), NewestOf(objects).size;
    ScalesAreOfSizes(sizes);
    MedianIsPositive(objects);
    SortContents(Less, sizes);
    assert size as real != 0.0;
    hide Sort, Median, IsMedian, IsScale, Below, Above, Zeros, SizesOf, NewestOf, ScaleOf, Judge;
    ScaleIsPositive(Below(Sort(Less, sizes), median), median);
    ScaleIsPositive(Above(Sort(Less, sizes), median), median);
    JudgeMeans(size as real, median, lower, upper);
  }
}
