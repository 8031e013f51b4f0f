/** The verdict on the newest object's size, with exact arithmetic for the floating point. */
module SizeVerdict {
  import opened Objects
  import opened Sorting
  import opened Statistics

  const SIZE_OUTLIER_SCORE: real := 3.5
  const MIN_SIZE_RELATIVE_SCALE: real := 0.10
  const MIN_SIZE_OBSERVATIONS: nat := 8
  const MAD_SCALE: real := 1.4826

  datatype SizeStatus = Unknown | Normal | Small | Large | Empty

  /** The last of the objects with the greatest timestamp. */
  function NewestOf(objects: seq<S3Object>): S3Object
    requires objects != []
  {
    var last := objects[|objects| - 1];
    if |objects| == 1 then last
    else
      var best := NewestOf(objects[..|objects| - 1]);
      if last.lastModified >= best.lastModified then last else best
  }

  function SizesOf(objects: seq<S3Object>): (s: seq<real>)
    ensures |s| == |objects| && forall i | 0 <= i < |s| :: s[i] == objects[i].size as real
  {
    if objects == [] then [] else [objects[0].size as real] + SizesOf(objects[1..])
  }

  /** Deviations of the values at or below the median. */
  function Below(s: seq<real>, median: real): seq<real>
  {
    if s == [] then []
    else (if s[0] <= median then [median - s[0]] else []) + Below(s[1..], median)
  }

  /** Deviations of the values at or above the median. */
  function Above(s: seq<real>, median: real): seq<real>
  {
    if s == [] then []
    else (if s[0] >= median then [s[0] - median] else []) + Above(s[1..], median)
  }

  function MedianOrZero(s: seq<real>): real
  {
    if Median(s).Some? then Median(s).value else 0.0
  }

  function Larger(a: real, b: real): real
  {
    if a >= b then a else b
  }

  function ScaleOf(deviations: seq<real>, median: real): real
  {
    Larger(MedianOrZero(Sort(Less, deviations)) * MAD_SCALE, median * MIN_SIZE_RELATIVE_SCALE)
  }

  function Judge(size: real, median: real, lower: real, upper: real): SizeStatus
  {
    var scale := if size < median then lower else upper;
    if scale <= 0.0 then Normal
    else
      var score := (size - median) / scale;
      if score <= -SIZE_OUTLIER_SCORE then Small
      else if score >= SIZE_OUTLIER_SCORE then Large
      else Normal
  }

  /** What the verdict is, once the sorted sizes and their median are known. */
  function VerdictOf(sorted: seq<real>, median: real, size: real): SizeStatus
  {
    if size == 0.0 then if median > 0.0 && |sorted| >= 2 then Empty else Normal
    else if |sorted| < MIN_SIZE_OBSERVATIONS || median <= 0.0 then SizeStatus.Unknown
    else Judge(size, median, ScaleOf(Below(sorted, median), median), ScaleOf(Above(sorted, median), median))
  }

  function Verdict(sizes: seq<real>, size: real): SizeStatus
  {
    var sorted := Sort(Less, sizes);
    match Median(sorted)
    case None => SizeStatus.Unknown
    case Some(median) => VerdictOf(sorted, median, size)
  }

  function ClassifyNewestSize(objects: seq<S3Object>): SizeStatus
  {
    if objects == [] then SizeStatus.Unknown else Verdict(SizesOf(objects), NewestOf(objects).size as real)
  }

  // ----- What the verdict means -----

  /** On an oldest-first listing the object judged is the last one. */
  lemma {:induction false} NewestIsLast(objects: seq<S3Object>)
    requires objects != [] && InOrder(objects)
    ensures NewestOf(objects) == objects[|objects| - 1]
  {
    if |objects| > 1 {
      NewestIsLast(objects[..|objects| - 1]);
    }
  }

  lemma DivideOrder(a: real, b: real, c: real)
    requires b > 0.0
    ensures a / b <= c <==> a <= c * b
    ensures a / b >= c <==> a >= c * b
  {
  }

  /** With positive scales the verdict compares the size with two thresholds around the median. */
  lemma JudgeMeans(size: real, median: real, lower: real, upper: real)
    requires lower > 0.0 && upper > 0.0
    ensures Judge(size, median, lower, upper) == Small <==> size <= median - SIZE_OUTLIER_SCORE * lower
    ensures Judge(size, median, lower, upper) == Large <==> size >= median + SIZE_OUTLIER_SCORE * upper
    ensures Judge(size, median, lower, upper) in {Small, Large, Normal}
  {
    var scale := if size < median then lower else upper;
    DivideOrder(size - median, scale, -SIZE_OUTLIER_SCORE);
    DivideOrder(size - median, scale, SIZE_OUTLIER_SCORE);
  }

  /** The relative floor makes both scales positive, so the zero-scale branch is never taken. */
  lemma ScaleIsPositive(deviations: seq<real>, median: real)
    requires median > 0.0
    ensures ScaleOf(deviations, median) >= median * MIN_SIZE_RELATIVE_SCALE > 0.0
  {
  }

  /** When there is enough evidence, only a deviation of at least 35% of the median is ever an outlier. */
  lemma OutliersAreFarOff(sizes: seq<real>, size: real)
    requires |sizes| >= MIN_SIZE_OBSERVATIONS && MedianOrZero(Sort(Less, sizes)) > 0.0 && size != 0.0
    ensures var median := MedianOrZero(Sort(Less, sizes));
            && (Verdict(sizes, size) == Small ==> size <= 0.65 * median)
            && (Verdict(sizes, size) == Large ==> size >= 1.35 * median)
            && (0.65 * median < size < 1.35 * median ==> Verdict(sizes, size) == Normal)
  {
    hide Judge, ScaleOf, Below, Above, Sort;
    SortContents(Less, sizes);
    SortedMedianExists(Sort(Less, sizes));
    var sorted := Sort(Less, sizes);
    var median := MedianOrZero(sorted);
    var lower, upper := ScaleOf(Below(sorted, median), median), ScaleOf(Above(sorted, median), median);
    ScaleIsPositive(Below(sorted, median), median);
    ScaleIsPositive(Above(sorted, median), median);
    JudgeMeans(size, median, lower, upper);
  }

  // ----- Sorting real numbers -----

  /** An ordered list of numbers is determined by its contents. */
  lemma {:induction false} OrderedIsUnique(a: seq<real>, b: seq<real>)
    requires Ordered(Less, a) && Ordered(Less, b) && multiset(a) == multiset(b)
    ensures a == b
  {
    if a == [] {
      assert |multiset(b)| == 0;
    } else {
      HeadIsLeast(a, b);
      HeadIsLeast(b, a);
      TailContents(a);
      TailContents(b);
      OrderedIsUnique(a[1..], b[1..]);
      assert a == [a[0]] + a[1..] && b == [b[0]] + b[1..];
    }
  }

  lemma TailContents(s: seq<real>)
    requires s != []
    ensures multiset(s[1..]) == multiset(s) - multiset{s[0]}
  {
    assert s == [s[0]] + s[1..];
  }

  lemma HeadIsLeast(a: seq<real>, b: seq<real>)
    requires a != [] && Ordered(Less, b) && multiset(a) == multiset(b)
    ensures b != [] && b[0] <= a[0]
  {
    assert a[0] in multiset(b);
    var k :| 0 <= k < |b| && b[k] == a[0];
    assert !Less(b[k], b[0]);
  }

  /** The verdict does not depend on the order the sizes are given in. */
  lemma SortOfPermutation(a: seq<real>, b: seq<real>)
    requires multiset(a) == multiset(b)
    ensures Sort(Less, a) == Sort(Less, b)
  {
    LessIsWeakOrder(a);
    LessIsWeakOrder(b);
    SortOrdered(Less, a);
    SortOrdered(Less, b);
    SortContents(Less, a);
    SortContents(Less, b);
    OrderedIsUnique(Sort(Less, a), Sort(Less, b));
  }

  lemma SortWithLargest(s: seq<real>, x: real)
    requires forall v | v in s :: v <= x
    ensures Sort(Less, s + [x]) == Sort(Less, s) + [x]
  {
    var t := Sort(Less, s);
    LessIsWeakOrder(s);
    SortOrdered(Less, s);
    SortContents(Less, s);
    forall i, j | 0 <= i < j < |t + [x]| ensures !Less((t + [x])[j], (t + [x])[i]) {
      assert t[i] in s;
      if j < |t| {
        assert !Less(t[j], t[i]);
      }
    }
    assert multiset(t + [x]) == multiset(s + [x]);
    SortOfOrdered(Less, t + [x]);
    SortOfPermutation(s + [x], t + [x]);
  }

  // ----- An outlier cannot mask itself -----

  /** The largest of at least three values does not move the median. */
  lemma MedianIgnoresLargest(t: seq<real>, x: real, y: real)
    requires |t| >= 2
    ensures Median(t + [x]) == Median(t + [y])
  {
  }

  lemma {:induction false} AboveConcat(a: seq<real>, b: seq<real>, median: real)
    ensures Above(a + b, median) == Above(a, median) + Above(b, median)
  {
    if a == [] {
      assert a + b == b;
    } else {
      assert (a + b)[1..] == a[1..] + b;
      AboveConcat(a[1..], b, median);
    }
  }

  lemma AboveAppend(t: seq<real>, x: real, median: real)
    requires median <= x
    ensures Above(t + [x], median) == Above(t, median) + [x - median]
  {
    AboveConcat(t, [x], median);
    assert [x][1..] == [];
  }

  lemma {:induction false} AboveContents(s: seq<real>, median: real, x: real)
    requires forall v | v in s :: v <= x
    ensures forall d | d in Above(s, median) :: d <= x - median
  {
    if s != [] {
      assert s[0] in s && forall v | v in s[1..] :: v in s;
      AboveContents(s[1..], median, x);
    }
  }

  lemma MedianBelowTail(t: seq<real>, x: real, median: real)
    requires |t| >= 7 && Ordered(Less, t) && Median(t + [x]) == Some(median)
    requires forall v | v in t :: v <= x
    ensures median <= t[|t| - 2] && median <= t[|t| - 1] && median <= x
  {
    var k := |t|;
    var half := (k + 1) / 2;
    assert forall i, j | 0 <= i < j < k :: !Less(t[j], t[i]);
    assert t[half - 1] <= t[half];
    assert half == k - 2 || t[half] <= t[k - 2];
    assert t[k - 2] <= t[k - 1];
    assert t[k - 1] in t;
  }

  lemma TwoAbove(t: seq<real>, x: real, median: real)
    requires |t| >= 7 && Ordered(Less, t) && Median(t + [x]) == Some(median)
    requires forall v | v in t :: v <= x
    ensures |Above(t, median)| >= 2 && median <= x
  {
    hide Median, Ordered;
    MedianBelowTail(t, x, median);
    var front, p, q := t[..|t| - 2], t[|t| - 2], t[|t| - 1];
    AboveAppend(front, p, median);
    AboveAppend(front + [p], q, median);
    assert t == front + [p] + [q];
  }

  /** Nor does it move the scale above the median. */
  lemma UpperScaleIgnoresLargest(t: seq<real>, x: real, y: real, median: real)
    requires |t| >= 7 && Ordered(Less, t) && Median(t + [x]) == Some(median)
    requires forall v | v in t :: v <= x
    requires x <= y
    ensures ScaleOf(Above(t + [x], median), median) == ScaleOf(Above(t + [y], median), median)
    ensures median <= x
  {
    hide Above, Sort, Median;
    var above := Above(t, median);
    TwoAbove(t, x, median);
    AboveAppend(t, x, median);
    AboveAppend(t, y, median);
    AboveContents(t, median, x);
    SortWithLargest(above, x - median);
    SortWithLargest(above, y - median);
    SortContents(Less, above);
    MedianIgnoresLargest(Sort(Less, above), x - median, y - median);
  }

  lemma LargerSizeStaysLarge(others: seq<real>, x: real, y: real)
    requires |others| >= 7 && x <= y && forall v | v in others :: v <= x
    requires Verdict(others + [x], x) == Large
    ensures Verdict(others + [y], y) == Large
  {
    hide Judge, ScaleOf, Below, Above, Sort, Median;
    var t := Sort(Less, others);
    LessIsWeakOrder(others);
    SortOrdered(Less, others);
    SortContents(Less, others);
    SortWithLargest(others, x);
    SortWithLargest(others, y);
    SortedMedianExists(t + [x]);
    MedianIgnoresLargest(t, x, y);
    var median := Median(t + [x]).value;
    UpperScaleIgnoresLargest(t, x, y, median);
    ScaleIsPositive(Above(t + [x], median), median);
    ScaleIsPositive(Below(t + [x], median), median);
    ScaleIsPositive(Below(t + [y], median), median);
    JudgeMeans(x, median, ScaleOf(Below(t + [x], median), median), ScaleOf(Above(t + [x], median), median));
    JudgeMeans(y, median, ScaleOf(Below(t + [y], median), median), ScaleOf(Above(t + [y], median), median));
  }

  lemma SortedMedianExists(s: seq<real>)
    requires s != []
    ensures Median(s).Some?
  {
  }

  lemma SameOrder(objects: seq<S3Object>, a: S3Object, b: S3Object)
    requires InOrder(objects + [a]) && a.lastModified == b.lastModified
    ensures InOrder(objects + [b])
  {
    assert forall i | 0 <= i < |objects| + 1 ::
      (objects + [b])[i].lastModified == (objects + [a])[i].lastModified;
  }

  lemma SizesAppend(objects: seq<S3Object>, o: S3Object)
    ensures SizesOf(objects + [o]) == SizesOf(objects) + [o.size as real]
  {
    assert forall i | 0 <= i < |objects| :: (objects + [o])[i] == objects[i];
  }

  lemma SizesBounded(objects: seq<S3Object>, size: nat)
    requires forall o | o in objects :: o.size <= size
    ensures |SizesOf(objects)| == |objects| && forall v | v in SizesOf(objects) :: v <= size as real
  {
    assert forall i | 0 <= i < |objects| :: objects[i] in objects;
  }

  /**
   * Once the newest object is at least as large as every other and judged
   * large, any larger newest object is judged large too.
   */
  lemma {:induction false} OutlierCannotMaskItself(objects: seq<S3Object>, newest: S3Object, size: nat)
    requires |objects| >= 7 && InOrder(objects + [newest]) && newest.size <= size
    requires forall o | o in objects :: o.size <= newest.size
    requires ClassifyNewestSize(objects + [newest]) == Large
    ensures ClassifyNewestSize(objects + [newest.(size := size)]) == Large
  {
    hide Verdict, NewestOf, SizesOf, InOrder;
    var larger := newest.(size := size);
    SameOrder(objects, newest, larger);
    NewestIsLast(objects + [newest]);
    NewestIsLast(objects + [larger]);
    SizesAppend(objects, newest);
    SizesAppend(objects, larger);
    SizesBounded(objects, newest.size);
    LargerSizeStaysLarge(SizesOf(objects), newest.size as real, size as real);
  }

  // ----- Units do not matter -----

  function Times(c: real, x: real): real
  {
    c * x
  }

  function Scaled(c: real, s: seq<real>): (r: seq<real>)
    ensures |r| == |s| && forall i | 0 <= i < |r| :: r[i] == Times(c, s[i])
  {
    if s == [] then [] else [Times(c, s[0])] + Scaled(c, s[1..])
  }

  lemma TimesOrder(c: real, a: real, b: real)
    requires c > 0.0
    ensures Times(c, a) < Times(c, b) <==> a < b
    ensures Times(c, a) <= Times(c, b) <==> a <= b
  {
    ScaleOrder(c, a, b);
    ScaleOrder(c, b, a);
  }

  lemma TimesLinear(c: real, a: real, b: real, k: real)
    ensures Times(c, a) - Times(c, b) == Times(c, a - b)
    ensures Times(c, a) + Times(c, b) == Times(c, a + b)
    ensures Times(c, a) * k == Times(c, a * k) && k * Times(c, a) == Times(c, k * a)
  {
    assert c * a * k == c * (a * k);
    assert k * (c * a) == c * (k * a);
  }

  lemma TimesZero(c: real)
    ensures Times(c, 0.0) == 0.0
  {
  }

  lemma ScaledCons(c: real, x: real, s: seq<real>)
    ensures Scaled(c, [x] + s) == [Times(c, x)] + Scaled(c, s)
  {
    assert ([x] + s)[1..] == s;
  }

  lemma {:induction false} InsertScaled(c: real, x: real, s: seq<real>)
    requires c > 0.0
    ensures Insert(Less, Times(c, x), Scaled(c, s)) == Scaled(c, Insert(Less, x, s))
  {
    hide Times;
    ScaledCons(c, x, s);
    if s != [] {
      TimesOrder(c, s[0], x);
      var tail := s[1..];
      InsertScaled(c, x, tail);
      ScaledCons(c, s[0], tail);
      ScaledCons(c, s[0], Insert(Less, x, tail));
      assert s == [s[0]] + tail;
      assert Scaled(c, s)[1..] == Scaled(c, tail);
    }
  }

  lemma {:induction false} SortScaled(c: real, s: seq<real>)
    requires c > 0.0
    ensures Sort(Less, Scaled(c, s)) == Scaled(c, Sort(Less, s))
  {
    hide Times, Insert;
    if s != [] {
      assert Scaled(c, s)[1..] == Scaled(c, s[1..]);
      SortScaled(c, s[1..]);
      InsertScaled(c, s[0], Sort(Less, s[1..]));
    }
  }

  lemma {:induction false} BelowScaled(c: real, s: seq<real>, median: real)
    requires c > 0.0
    ensures Below(Scaled(c, s), Times(c, median)) == Scaled(c, Below(s, median))
  {
    hide Times;
    if s != [] {
      TimesOrder(c, s[0], median);
      TimesLinear(c, median, s[0], 1.0);
      assert Scaled(c, s)[1..] == Scaled(c, s[1..]);
      BelowScaled(c, s[1..], median);
      ScaledCons(c, median - s[0], Below(s[1..], median));
      assert [] + Below(s[1..], median) == Below(s[1..], median);
    }
  }

  lemma {:induction false} AboveScaled(c: real, s: seq<real>, median: real)
    requires c > 0.0
    ensures Above(Scaled(c, s), Times(c, median)) == Scaled(c, Above(s, median))
  {
    hide Times;
    if s != [] {
      TimesOrder(c, median, s[0]);
      TimesLinear(c, s[0], median, 1.0);
      assert Scaled(c, s)[1..] == Scaled(c, s[1..]);
      AboveScaled(c, s[1..], median);
      ScaledCons(c, s[0] - median, Above(s[1..], median));
      assert [] + Above(s[1..], median) == Above(s[1..], median);
    }
  }

  lemma MedianScaled(c: real, s: seq<real>)
    ensures s == [] ==> Median(s) == None && MedianOrZero(s) == 0.0
    ensures s != [] ==> Median(s) == Some(MedianOrZero(s))
    ensures s != [] ==> Median(Scaled(c, s)) == Some(Times(c, MedianOrZero(s)))
    ensures MedianOrZero(Scaled(c, s)) == Times(c, MedianOrZero(s))
  {
    hide Times;
    TimesZero(c);
    var n := |s|;
    if n > 0 && n % 2 == 0 {
      TimesMiddle(c, s[n / 2 - 1], s[n / 2]);
    }
  }

  lemma TimesMiddle(c: real, a: real, b: real)
    ensures (Times(c, a) + Times(c, b)) / 2.0 == Times(c, (a + b) / 2.0)
  {
    assert c * a + c * b == c * (a + b);
    assert c * (a + b) / 2.0 == c * ((a + b) / 2.0);
  }

  lemma ScaleOfScaled(c: real, deviations: seq<real>, median: real)
    requires c > 0.0
    ensures ScaleOf(Scaled(c, deviations), Times(c, median)) == Times(c, ScaleOf(deviations, median))
  {
    hide Sort, Median, MedianOrZero, Times;
    SortScaled(c, deviations);
    MedianScaled(c, Sort(Less, deviations));
    var middle := MedianOrZero(Sort(Less, deviations));
    TimesScales(c, middle, median);
    TimesOrder(c, median * MIN_SIZE_RELATIVE_SCALE, middle * MAD_SCALE);
  }

  lemma TimesScales(c: real, middle: real, median: real)
    ensures Times(c, middle) * MAD_SCALE == Times(c, middle * MAD_SCALE)
    ensures Times(c, median) * MIN_SIZE_RELATIVE_SCALE == Times(c, median * MIN_SIZE_RELATIVE_SCALE)
  {
  }

  lemma JudgeScaled(c: real, size: real, median: real, lower: real, upper: real)
    requires c > 0.0 && lower > 0.0 && upper > 0.0
    ensures Judge(Times(c, size), Times(c, median), Times(c, lower), Times(c, upper))
         == Judge(size, median, lower, upper)
  {
    hide Judge, Times;
    TimesZero(c);
    TimesOrder(c, 0.0, lower);
    TimesOrder(c, 0.0, upper);
    JudgeMeans(size, median, lower, upper);
    JudgeMeans(Times(c, size), Times(c, median), Times(c, lower), Times(c, upper));
    TimesLinear(c, lower, 0.0, SIZE_OUTLIER_SCORE);
    TimesLinear(c, upper, 0.0, SIZE_OUTLIER_SCORE);
    TimesLinear(c, median, SIZE_OUTLIER_SCORE * lower, 1.0);
    TimesLinear(c, median, SIZE_OUTLIER_SCORE * upper, 1.0);
    TimesOrder(c, size, median - SIZE_OUTLIER_SCORE * lower);
    TimesOrder(c, median + SIZE_OUTLIER_SCORE * upper, size);
  }

  lemma VerdictOfScaled(c: real, sorted: seq<real>, median: real, size: real)
    requires c > 0.0
    ensures VerdictOf(Scaled(c, sorted), Times(c, median), Times(c, size)) == VerdictOf(sorted, median, size)
  {
    hide Judge, ScaleOf, Below, Above, Times;
    TimesZero(c);
    TimesOrder(c, 0.0, median);
    TimesOrder(c, 0.0, size);
    TimesOrder(c, size, 0.0);
    if median > 0.0 {
      BelowScaled(c, sorted, median);
      AboveScaled(c, sorted, median);
      ScaleOfScaled(c, Below(sorted, median), median);
      ScaleOfScaled(c, Above(sorted, median), median);
      ScaleIsPositive(Below(sorted, median), median);
      ScaleIsPositive(Above(sorted, median), median);
      JudgeScaled(c, size, median, ScaleOf(Below(sorted, median), median), ScaleOf(Above(sorted, median), median));
    }
  }

  /** Measuring every size in another unit changes no verdict. */
  lemma {:induction false} VerdictIgnoresUnits(c: real, sizes: seq<real>, size: real)
    requires c > 0.0
    ensures Verdict(Scaled(c, sizes), Times(c, size)) == Verdict(sizes, size)
  {
    hide Judge, ScaleOf, Below, Above, Sort, Median, MedianOrZero, Times;
    SortContents(Less, sizes);
    SortScaled(c, sizes);
    var sorted := Sort(Less, sizes);
    MedianScaled(c, sorted);
    MedianScaled(1.0, Scaled(c, sorted));
    if sizes != [] {
      VerdictOfScaled(c, sorted, MedianOrZero(sorted), size);
    }
  }
}
