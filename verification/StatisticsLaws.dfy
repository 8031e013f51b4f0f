/** What the arrival statistics say about the intervals, by counting and adding them up. */
module StatisticsLaws {
  import opened Objects
  import opened Sorting
  import opened Statistics
  import opened Ranks

  lemma {:induction false} InsertSum(y: real, s: seq<real>)
    ensures Sum(Insert(Less, y, s)) == y + Sum(s)
  {
    if s != [] && Less(s[0], y) {
      InsertSum(y, s[1..]);
      assert ([s[0]] + Insert(Less, y, s[1..]))[1..] == Insert(Less, y, s[1..]);
    } else {
      assert ([y] + s)[1..] == s;
    }
  }

  lemma {:induction false} SortSum(s: seq<real>)
    ensures Sum(Sort(Less, s)) == Sum(s)
  {
    if s != [] {
      SortSum(s[1..]);
      InsertSum(s[0], Sort(Less, s[1..]));
    }
  }

  lemma {:induction false} SumOfSeconds(gaps: seq<nat>)
    ensures Sum(Seconds(gaps)) == Total(gaps) as real / 1000.0
  {
    if gaps != [] {
      SumOfSeconds(gaps[1..]);
      assert Seconds(gaps)[1..] == Seconds(gaps[1..]);
    }
  }

  lemma SortedIntervals(intervals: seq<real>)
    ensures |Sort(Less, intervals)| == |intervals| && Sum(Sort(Less, intervals)) == Sum(intervals)
  {
    SortContents(Less, intervals);
    SortSum(intervals);
  }

  /**
   * The mean times the number of intervals is their sum; the median is the
   * middle interval or halfway between the two middle ones; the 95th percentile
   * is the k-th smallest for the least k that makes up 95 of 100; the largest is
   * the last in order. There are none exactly when there is no interval.
   */
  lemma {:induction false} IntervalsAreSummarised(objects: seq<S3Object>, asOf: int, configured: Option<nat>)
    ensures var r, s := Describe(objects, asOf, configured), Seconds(Gaps(objects));
            && r.objectCount == |objects| && r.intervalCount == |s|
            && (s == [] ==>
                  r.meanSeconds.None? && r.medianSeconds.None? && r.p95Seconds.None? && r.largestSeconds.None?)
            && (s != [] ==>
                  && r.meanSeconds.Some? && r.meanSeconds.value * |s| as real == Total(Gaps(objects)) as real / 1000.0
                  && r.medianSeconds.Some? && IsMedian(s, r.medianSeconds.value)
                  && r.largestSeconds.Some? && IsRank(s, |s|, r.largestSeconds.value)
                  && r.p95Seconds.Some? && IsP95(s, r.p95Seconds.value))
  {
    var s := Seconds(Gaps(objects));
    SortedIntervals(s);
    SumOfSeconds(Gaps(objects));
    PartsOf(objects, asOf, configured);
    hide *;
    if s != [] {
      ListIsSummarised(s);
    } else {
      NoIntervals();
    }
  }

  lemma NoIntervals()
    ensures var sorted := Sort(Less, []);
            && Mean(sorted).None? && Median(sorted).None?
            && PercentileNearestRank(sorted, 0.95).None? && Last(sorted).None?
  {
  }

  lemma PartsOf(objects: seq<S3Object>, asOf: int, configured: Option<nat>)
    ensures var r, sorted := Describe(objects, asOf, configured), Sort(Less, Seconds(Gaps(objects)));
            && r.objectCount == |objects| && r.intervalCount == |sorted|
            && r.meanSeconds == Mean(sorted) && r.medianSeconds == Median(sorted)
            && r.p95Seconds == PercentileNearestRank(sorted, 0.95) && r.largestSeconds == Last(sorted)
  {
    hide Sort, Seconds, Gaps, Mean, Median, PercentileNearestRank, Last, TimingOf, Cadence, SecondsBetween;
  }

  ghost predicate IsP95(s: seq<real>, x: real)
  {
    exists k: nat :: MakesUp(k, |s|) && IsRank(s, k, x)
  }

  /** `k` is the least number that makes up 95 of 100 of `n`. */
  predicate MakesUp(k: nat, n: nat)
  {
    k as real - 1.0 < 0.95 * n as real <= k as real
  }

  lemma ListIsSummarised(s: seq<real>)
    requires s != []
    ensures var sorted := Sort(Less, s);
            && Mean(sorted).Some? && Mean(sorted).value * |s| as real == Sum(s)
            && Median(sorted).Some? && IsMedian(s, Median(sorted).value)
            && Last(sorted).Some? && IsRank(s, |s|, Last(sorted).value)
            && PercentileNearestRank(sorted, 0.95).Some? && IsP95(s, PercentileNearestRank(sorted, 0.95).value)
  {
    hide *;
    SortedIntervals(s);
    MedianIsMedian(s);
    LastIsLargest(s);
    MeanTimesCount(s);
    PercentileIsP95(s);
  }

  lemma LastIsLargest(s: seq<real>)
    requires s != []
    ensures Last(Sort(Less, s)).Some? && IsRank(s, |s|, Last(Sort(Less, s)).value)
  {
    hide Sort, IsRank, Less, Ordered, Median, Mean;
    SortedPlaceIsRank(s, |s|);
  }

  lemma MeanTimesCount(s: seq<real>)
    requires s != []
    ensures var mean := Mean(Sort(Less, s)); mean.Some? && mean.value * |s| as real == Sum(s)
  {
    SortedIntervals(s);
    hide *;
    MeanOfSome(Sort(Less, s));
  }

  lemma MeanOfSome(s: seq<real>)
    requires s != []
    ensures Mean(s).Some? && Mean(s).value * |s| as real == Sum(s)
  {
    hide Sum;
    DividedBack(Sum(s), |s| as real);
  }

  lemma DividedBack(total: real, n: real)
    requires n > 0.0
    ensures total / n * n == total
  {
  }

  lemma PercentileIsP95(s: seq<real>)
    requires s != []
    ensures var p95 := PercentileNearestRank(Sort(Less, s), 0.95); p95.Some? && IsP95(s, p95.value)
  {
    var k := NearestRank(|s|, 0.95) + 1;
    NearestRankIsExact(|s|, 0.95);
    assert MakesUp(k, |s|);
    SortedPlaceIsRank(s, k);
    hide Sort, IsRank, NearestRank, MakesUp;
  }

  /** Each interval is the whole milliseconds from one arrival to the next, and none when the clock went back. */
  lemma {:induction false} GapsJoinNeighbours(objects: seq<S3Object>)
    ensures |Gaps(objects)| == if objects == [] then 0 else |objects| - 1
    ensures forall i | 0 <= i < |objects| - 1 ::
      var elapsed := objects[i + 1].lastModified - objects[i].lastModified;
      if elapsed <= 0 then Gaps(objects)[i] == 0
      else Gaps(objects)[i] * 1_000_000 <= elapsed < Gaps(objects)[i] * 1_000_000 + 1_000_000
  {
    if |objects| >= 2 {
      GapsJoinNeighbours(objects[1..]);
    }
  }

  /**
   * The hourly rate times the observed span in hours is the number of intervals,
   * and a day has twenty-four of them; there is a rate exactly when the span
   * from the first to the last arrival is a millisecond or more.
   */
  lemma {:induction false} RatesMeasureSpan(objects: seq<S3Object>, asOf: int, configured: Option<nat>)
    ensures var r := Describe(objects, asOf, configured);
            && (r.firstArrival.Some? <==> objects != []) && (r.lastArrival.Some? <==> objects != [])
            && (objects != [] ==>
                  && r.firstArrival.value == objects[0].lastModified
                  && r.lastArrival.value == objects[|objects| - 1].lastModified)
            && (r.filesPerHour.Some? <==>
                  objects != [] && r.lastArrival.value - r.firstArrival.value >= 1_000_000)
            && (r.filesPerHour.Some? ==>
                  var hours := Millis(r.firstArrival.value, r.lastArrival.value) as real / 3_600_000.0;
                  && r.filesPerHour.value * hours == r.intervalCount as real
                  && r.filesPerDay == Some(r.filesPerHour.value * 24.0))
            && (r.filesPerHour.None? ==> r.filesPerDay.None?)
  {
    hide Sort, Mean, Median, PercentileNearestRank, Last, TimingOf, Cadence;
    var n := |Sort(Less, Seconds(Gaps(objects)))|;
    if objects != [] {
      var span := Millis(objects[0].lastModified, objects[|objects| - 1].lastModified);
      assert span > 0 <==> objects[|objects| - 1].lastModified - objects[0].lastModified >= 1_000_000;
      if span > 0 {
        RateTimesSpan(n, span);
      }
    }
  }

  lemma RateTimesSpan(n: nat, span: nat)
    requires span > 0
    ensures n as real * 3600.0 / (span as real / 1000.0) * (span as real / 3_600_000.0) == n as real
  {
    var x, y := n as real, span as real;
    assert x * 3600.0 / (y / 1000.0) * (y / 1000.0) == x * 3600.0;
    assert y / 3_600_000.0 == y / 1000.0 / 3600.0;
  }

  /**
   * The expected interval is the configured one when it is positive, else the
   * median of two or more intervals when that is positive, else unknown; a feed
   * is late when the gap since its last arrival exceeds one and a half expected
   * intervals, healthy when it does not, and unknown without an expectation or
   * an arrival.
   */
  lemma {:induction false} LatenessIsJudged(objects: seq<S3Object>, asOf: int, configured: Option<nat>)
    ensures var r := Describe(objects, asOf, configured);
            var t := r.timing;
            var isConfigured := configured.Some? && configured.value > 0;
            var isLearned :=
              !isConfigured && r.intervalCount >= 2 && r.medianSeconds.Some? && r.medianSeconds.value > 0.0;
            && t.source == (if isConfigured then Some(Configured) else if isLearned then Some(Learned) else None)
            && t.expectedSeconds == (if isConfigured then Some(configured.value as real)
                                     else if isLearned then r.medianSeconds else None)
            && t.lateAfterSeconds == (if t.expectedSeconds.Some? then Some(t.expectedSeconds.value * 1.5) else None)
            && (t.currentGapSeconds.Some? <==> objects != [])
            && (objects != [] ==>
                  t.currentGapSeconds.value * 1000.0 == Millis(objects[|objects| - 1].lastModified, asOf) as real)
            && (t.status == Unknown <==> t.expectedSeconds.None? || objects == [])
            && (t.status == Late <==> t.status != Unknown && t.currentGapSeconds.value > t.lateAfterSeconds.value)
            && (t.overdueSeconds.Some? <==> t.status == Late)
            && (t.status == Late ==> t.overdueSeconds.value == t.currentGapSeconds.value - t.lateAfterSeconds.value)
  {
    hide Sort, Mean, PercentileNearestRank, Last, Median;
  }
}
