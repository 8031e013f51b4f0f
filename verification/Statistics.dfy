/** Arrival statistics and the lateness verdict, with exact arithmetic for the floating point. */
module Statistics {
  import opened Objects
  import opened Sorting
  import opened NewestN
  import History

  const DEFAULT_LATE_MULTIPLIER: real := 1.5
  const MIN_INTERVALS_TO_LEARN_CADENCE: nat := 2
  const NANOS_PER_MILLI: nat := 1_000_000

  datatype Status = Unknown | Healthy | Late

  datatype Source = Configured | Learned

  datatype Timing = Timing(
    status: Status,
    source: Option<Source>,
    expectedSeconds: Option<real>,
    lateAfterSeconds: Option<real>,
    currentGapSeconds: Option<real>,
    lateSince: Option<int>,
    overdueSeconds: Option<real>)

  datatype ArrivalStatistics = ArrivalStatistics(
    asOf: int,
    objectCount: nat,
    intervalCount: nat,
    firstArrival: Option<int>,
    lastArrival: Option<int>,
    meanSeconds: Option<real>,
    medianSeconds: Option<real>,
    p95Seconds: Option<real>,
    largestSeconds: Option<real>,
    filesPerHour: Option<real>,
    filesPerDay: Option<real>,
    timing: Timing)

  predicate Less(a: real, b: real)
  {
    a < b
  }

  /** Whole milliseconds from one instant to a later one; none when it is not later. */
  function Millis(earlier: int, later: int): nat
  {
    if later <= earlier then 0 else (later - earlier) / NANOS_PER_MILLI
  }

  function SecondsBetween(earlier: int, later: int): real
  {
    Millis(earlier, later) as real / 1000.0
  }

  /** Gaps between consecutive arrivals, in milliseconds. */
  function Gaps(objects: seq<S3Object>): (g: seq<nat>)
    ensures |g| == if objects == [] then 0 else |objects| - 1
  {
    if |objects| < 2 then []
    else [Millis(objects[0].lastModified, objects[1].lastModified)] + Gaps(objects[1..])
  }

  function Seconds(gaps: seq<nat>): (s: seq<real>)
    ensures |s| == |gaps| && forall i | 0 <= i < |s| :: s[i] == gaps[i] as real / 1000.0
  {
    if gaps == [] then [] else [gaps[0] as real / 1000.0] + Seconds(gaps[1..])
  }

  function Sum(s: seq<real>): real
  {
    if s == [] then 0.0 else s[0] + Sum(s[1..])
  }

  function Mean(s: seq<real>): Option<real>
  {
    if s == [] then None else Some(Sum(s) / |s| as real)
  }

  function Median(sorted: seq<real>): Option<real>
  {
    var n := |sorted|;
    if n == 0 then None
    else if n % 2 == 1 then Some(sorted[n / 2])
    else Some((sorted[n / 2 - 1] + sorted[n / 2]) / 2.0)
  }

  function Ceiling(x: real): int
  {
    -((-x).Floor)
  }

  /** Position of the percentile among `n` sorted values, clamped to the list. */
  function NearestRank(n: nat, percentile: real): (i: nat)
    requires n > 0
    ensures i < n
  {
    var rank := Ceiling(percentile * n as real);
    var i := if rank < 1 then 0 else rank - 1;
    if i < n - 1 then i else n - 1
  }

  function PercentileNearestRank(sorted: seq<real>, percentile: real): Option<real>
  {
    if sorted == [] then None else Some(sorted[NearestRank(|sorted|, percentile)])
  }

  function Last(sorted: seq<real>): Option<real>
  {
    if sorted == [] then None else Some(sorted[|sorted| - 1])
  }

  // ----- Lateness -----

  /** The configured cadence, or the median of at least two intervals when it is positive. */
  function Cadence(configured: Option<nat>, sorted: seq<real>): Option<(real, Source)>
  {
    var learned := if |sorted| >= MIN_INTERVALS_TO_LEARN_CADENCE then Median(sorted) else None;
    if configured.Some? && configured.value > 0 then Some((configured.value as real, Configured))
    else if learned.Some? && learned.value > 0.0 then Some((learned.value, Learned))
    else None
  }

  function TimingOf(last: Option<int>, cadence: Option<(real, Source)>, asOf: int): Timing
  {
    var gap := if last.Some? then Some(SecondsBetween(Min(last.value, asOf), asOf)) else None;
    match cadence
    case None => Timing(Unknown, None, None, None, gap, None, None)
    case Some((expected, source)) =>
      var threshold := expected * DEFAULT_LATE_MULTIPLIER;
      if gap.None? then Timing(Unknown, Some(source), Some(expected), Some(threshold), None, None, None)
      else if gap.value > threshold then
        var since := last.value + (threshold * 1000.0).Floor * NANOS_PER_MILLI;
        Timing(Late, Some(source), Some(expected), Some(threshold), gap, Some(since), Some(gap.value - threshold))
      else Timing(Healthy, Some(source), Some(expected), Some(threshold), gap, None, None)
  }

  function FirstArrival(objects: seq<S3Object>): Option<int>
  {
    if objects == [] then None else Some(objects[0].lastModified)
  }

  function LastArrival(objects: seq<S3Object>): Option<int>
  {
    if objects == [] then None else Some(objects[|objects| - 1].lastModified)
  }

  /** The statistics of a history listed oldest first. */
  function Describe(objects: seq<S3Object>, asOf: int, configured: Option<nat>): ArrivalStatistics
  {
    var intervals := Seconds(Gaps(objects));
    var sorted := Sort(Less, intervals);
    var span := if objects == [] then 0.0
                else SecondsBetween(objects[0].lastModified, objects[|objects| - 1].lastModified);
    var perHour := if span > 0.0 then Some(|sorted| as real * 3600.0 / span) else None;
    ArrivalStatistics(
      asOf, |objects|, |sorted|, FirstArrival(objects), LastArrival(objects),
      Mean(sorted), Median(sorted), PercentileNearestRank(sorted, 0.95), Last(sorted),
      perHour, if perHour.Some? then Some(perHour.value * 24.0) else None,
      TimingOf(LastArrival(objects), Cadence(configured, sorted), asOf))
  }

  /** The statistics of the retained objects, whatever order the map yields them in. */
  method StatisticsFor(byKey: map<string, S3Object>, asOf: int, configured: Option<nat>)
    returns (objects: seq<S3Object>, statistics: ArrivalStatistics)
    requires Keyed(byKey)
    ensures History.OldestFirst(objects) && forall o :: o in objects <==> o.key in byKey && byKey[o.key] == o
    ensures statistics == Describe(objects, asOf, configured)
  {
    hide Describe, Keyed;
    objects := History.Values(byKey);
    History.SortIsOldestFirst(objects);
    objects := Sort(Older, objects);
    statistics := Describe(objects, asOf, configured);
  }

  /** An oldest-first listing is determined by what it lists. */
  lemma {:induction false} ChronologicalIsUnique(a: seq<S3Object>, b: seq<S3Object>)
    requires History.OldestFirst(a) && History.OldestFirst(b)
    requires forall o :: o in a <==> o in b
    ensures a == b
  {
    assert a != [] ==> a[0] in b;
    assert b != [] ==> b[0] in a;
    if a != [] && b != [] {
      if a[0] != b[0] {
        OlderTotal(a[0], b[0]);
        assert false;
      }
      forall o ensures o in a[1..] <==> o in b[1..] {
        OnceAtHead(a);
        OnceAtHead(b);
        assert o in a <==> o == a[0] || o in a[1..];
        assert o in b <==> o == b[0] || o in b[1..];
      }
      ChronologicalIsUnique(a[1..], b[1..]);
    }
  }

  lemma OnceAtHead(s: seq<S3Object>)
    requires s != [] && History.OldestFirst(s)
    ensures s[0] !in s[1..]
  {
    forall i | 1 <= i < |s| ensures s[i] != s[0] {
      OlderTotal(s[0], s[i]);
    }
  }

  // ----- Intervals -----

  lemma LessIsWeakOrder(s: seq<real>)
    ensures WeakOrderOn(Less, s)
  {
  }

  /** The middle of a list in order lies between any earlier and any later position around it. */
  lemma MedianBounds(s: seq<real>)
    requires s != [] && Ordered(Less, s)
    ensures s[0] <= Median(s).value <= s[|s| / 2] <= s[|s| - 1]
    ensures Median(s).value >= s[(|s| - 1) / 2]
  {
  }

  /** Nearest rank: the fewest sorted values that make up the requested share. */
  lemma NearestRankIsExact(n: nat, percentile: real)
    requires n > 0 && 0.0 < percentile <= 1.0
    ensures var i := NearestRank(n, percentile);
            i as real < percentile * n as real <= (i + 1) as real
  {
  }

  lemma MedianRankBelowP95(n: nat)
    requires n > 0
    ensures n / 2 <= NearestRank(n, 0.95)
  {
  }

  lemma {:induction false} SumBounds(s: seq<real>, low: real, high: real)
    requires forall i | 0 <= i < |s| :: low <= s[i] <= high
    ensures low * |s| as real <= Sum(s) <= high * |s| as real
  {
    if s != [] {
      SumBounds(s[1..], low, high);
      assert |s| as real == |s[1..]| as real + 1.0;
    }
  }

  lemma MeanBounds(s: seq<real>, low: real, high: real)
    requires s != [] && forall i | 0 <= i < |s| :: low <= s[i] <= high
    ensures low <= Mean(s).value <= high
  {
    SumBounds(s, low, high);
    DivideBounds(Sum(s), |s| as real, low, high);
  }

  lemma DivideBounds(total: real, n: real, low: real, high: real)
    requires n > 0.0 && low * n <= total <= high * n
    ensures low <= total / n <= high
  {
  }

  lemma ScaleOrder(factor: real, a: real, b: real)
    requires factor > 0.0
    ensures a < b <==> a * factor < b * factor
  {
    assert (b - a) * factor == b * factor - a * factor;
  }

  /** Smallest, median, 95th percentile and largest interval come in this order, and the mean lies between the ends. */
  lemma {:induction false} StatisticsAreOrdered(objects: seq<S3Object>, asOf: int, configured: Option<nat>)
    requires |objects| >= 2
    ensures var r := Describe(objects, asOf, configured);
            var smallest := Sort(Less, Seconds(Gaps(objects)))[..1];
            && |smallest| == 1 && 0.0 <= smallest[0]
            && r.medianSeconds.Some? && r.p95Seconds.Some? && r.largestSeconds.Some? && r.meanSeconds.Some?
            && smallest[0] <= r.medianSeconds.value <= r.p95Seconds.value <= r.largestSeconds.value
            && smallest[0] <= r.meanSeconds.value <= r.largestSeconds.value
  {
    var intervals := Seconds(Gaps(objects));
    var sorted := Sort(Less, intervals);
    SortContents(Less, intervals);
    LessIsWeakOrder(intervals);
    SortOrdered(Less, intervals);
    ListStatistics(sorted);
    assert sorted[0] in intervals;
  }

  lemma ListStatistics(sorted: seq<real>)
    requires sorted != [] && Ordered(Less, sorted)
    ensures sorted[0] <= Median(sorted).value <= PercentileNearestRank(sorted, 0.95).value <= Last(sorted).value
    ensures sorted[0] <= Mean(sorted).value <= Last(sorted).value
  {
    hide Median, Mean, NearestRank;
    var n := |sorted|;
    assert forall i, j | 0 <= i < j < n :: !Less(sorted[j], sorted[i]);
    MedianBounds(sorted);
    MedianRankBelowP95(n);
    MeanBounds(sorted, sorted[0], sorted[n - 1]);
  }

  ghost function Total(gaps: seq<nat>): nat
  {
    if gaps == [] then 0 else gaps[0] + Total(gaps[1..])
  }

  ghost predicate InOrder(objects: seq<S3Object>)
  {
    forall i, j | 0 <= i < j < |objects| :: objects[i].lastModified <= objects[j].lastModified
  }

  /** Truncating each of the n intervals loses less than a millisecond per interval but the last. */
  lemma {:induction false} TruncationShortfall(objects: seq<S3Object>)
    requires |objects| >= 2 && InOrder(objects)
    ensures var span := Millis(objects[0].lastModified, objects[|objects| - 1].lastModified);
            0 <= span - Total(Gaps(objects)) <= |objects| - 2
  {
    var first, second, last := objects[0].lastModified, objects[1].lastModified, objects[|objects| - 1].lastModified;
    assert Gaps(objects)[1..] == Gaps(objects[1..]);
    if |objects| == 2 {
      assert Gaps(objects) == [Millis(first, second)];
    } else {
      assert InOrder(objects[1..]);
      TruncationShortfall(objects[1..]);
      MillisAdd(first, second, last);
    }
  }

  lemma MillisAdd(a: int, b: int, c: int)
    requires a <= b <= c
    ensures 0 <= Millis(a, c) - Millis(a, b) - Millis(b, c) <= 1
  {
  }

  // ----- Lateness over time -----

  lemma GapExceeds(last: int, asOf: int, bound: nat)
    ensures Millis(Min(last, asOf), asOf) > bound <==> asOf >= last + bound * NANOS_PER_MILLI + NANOS_PER_MILLI
  {
    if last < asOf {
      var gap := (asOf - last) / NANOS_PER_MILLI;
      assert gap > bound <==> asOf - last >= (bound + 1) * NANOS_PER_MILLI;
    }
  }

  lemma WholeExceeds(n: int, x: real)
    ensures n as real > x <==> n > x.Floor
  {
  }

  /** `late_since` is the exact boundary: late from the first whole millisecond after it. */
  lemma LateExactlyAfter(last: int, expected: real, source: Source, asOf: int)
    requires expected > 0.0
    ensures var t := TimingOf(Some(last), Some((expected, source)), asOf);
            var since := last + (expected * DEFAULT_LATE_MULTIPLIER * 1000.0).Floor * NANOS_PER_MILLI;
            && (t.status == Late <==> asOf >= since + NANOS_PER_MILLI)
            && (t.status == Late ==>
                  t.lateSince == Some(since) && t.overdueSeconds.Some? && t.overdueSeconds.value > 0.0)
            && (t.status != Late ==> t.status == Healthy && t.lateSince == None && t.overdueSeconds == None)
  {
    var threshold, gap := expected * DEFAULT_LATE_MULTIPLIER, Millis(Min(last, asOf), asOf);
    var bound := threshold * 1000.0;
    assert bound.Floor >= 0;
    assert gap as real / 1000.0 > threshold <==> gap as real > bound;
    WholeExceeds(gap, bound);
    GapExceeds(last, asOf, bound.Floor);
    hide Millis;
  }

  /**
   * For a fixed history, once late is late at every later time with the same
   * `late_since`; overdue grows by the elapsed time, to within the
   * millisecond the gaps are truncated to.
   */
  lemma {:induction false} LatePersists(objects: seq<S3Object>, configured: Option<nat>, asOf: int, later: int)
    requires asOf <= later && Describe(objects, asOf, configured).timing.status == Late
    ensures var t, u := Describe(objects, asOf, configured).timing, Describe(objects, later, configured).timing;
            && u.status == Late && u.lateSince == t.lateSince && t.lateSince.Some?
            && t.overdueSeconds.Some? && u.overdueSeconds.Some?
            && var grown := u.overdueSeconds.value - t.overdueSeconds.value;
               -0.001 < grown - (later - asOf) as real / 1_000_000_000.0 < 0.001
               && ((later - asOf) % NANOS_PER_MILLI == 0 ==> grown == (later - asOf) as real / 1_000_000_000.0)
  {
    hide Sort, Seconds, Gaps, Median;
    var cadence := Cadence(configured, Sort(Less, Seconds(Gaps(objects))));
    var last := LastArrival(objects);
    CadenceIsPositive(configured, Sort(Less, Seconds(Gaps(objects))));
    LateExactlyAfter(last.value, cadence.value.0, cadence.value.1, asOf);
    LateExactlyAfter(last.value, cadence.value.0, cadence.value.1, later);
    GapGrows(last.value, asOf, later);
  }

  lemma CadenceIsPositive(configured: Option<nat>, sorted: seq<real>)
    ensures Cadence(configured, sorted).Some? ==> Cadence(configured, sorted).value.0 > 0.0
  {
  }

  lemma GapGrows(last: int, asOf: int, later: int)
    requires last < asOf <= later
    ensures var grown := SecondsBetween(Min(last, later), later) - SecondsBetween(Min(last, asOf), asOf);
            && -0.001 < grown - (later - asOf) as real / 1_000_000_000.0 < 0.001
            && ((later - asOf) % NANOS_PER_MILLI == 0 ==> grown == (later - asOf) as real / 1_000_000_000.0)
  {
    var a, b := Millis(last, asOf), Millis(last, later);
    var elapsed := later - asOf;
    assert elapsed - NANOS_PER_MILLI < (b - a) * NANOS_PER_MILLI < elapsed + NANOS_PER_MILLI;
    assert elapsed % NANOS_PER_MILLI == 0 ==> (b - a) * NANOS_PER_MILLI == elapsed;
    assert (b - a) as real / 1000.0 == ((b - a) * NANOS_PER_MILLI) as real / 1_000_000_000.0;
  }
}
