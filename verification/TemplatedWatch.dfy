/** A watcher whose prefixes follow the local time: what it shows, stated by time windows alone. */
module TemplatedWatch {
  import opened Objects
  import opened NewestN
  import opened Template
  import opened Calendar
  import opened Resolve
  import opened Scanning
  import opened History
  import opened HistoryLaws
  import opened Watcher
  import opened Client
  import opened Mirror
  import opened Pipeline

  /** The key begins with the rendering of some local time in the current or the `lookback` earlier periods. */
  ghost predicate KeyInWindow(segments: seq<Segment>, g: Granularity, at: LocalTime, lookback: nat, k: string)
    requires ValidTime(at)
  {
    exists s :: s <= k && RenderedWithin(segments, g, at, lookback, s)
  }

  ghost function InWindow(segments: seq<Segment>, g: Granularity, at: LocalTime, lookback: nat,
    bucket: map<string, S3Object>)
    : map<string, S3Object>
    requires ValidTime(at)
  {
    map k | k in bucket && KeyInWindow(segments, g, at, lookback, k) :: bucket[k]
  }

  ghost predicate SomePrefix(prefixes: seq<string>, k: string)
  {
    exists i | 0 <= i < |prefixes| :: prefixes[i] <= k
  }

  lemma {:induction false} SomePrefixInWindow(segments: seq<Segment>, g: Granularity, at: LocalTime, lookback: nat,
    k: string)
    requires ValidTime(at) && Finest(segments) == Some(g)
    ensures SomePrefix(Resolved(segments, g, at, lookback), k) <==> KeyInWindow(segments, g, at, lookback, k)
  {
    var prefixes := Resolved(segments, g, at, lookback);
    ResolvesExactly(segments, g, at, lookback);
    hide Resolved, RenderedWithin, Finest, ValidTime;
    if SomePrefix(prefixes, k) {
      var i :| 0 <= i < |prefixes| && prefixes[i] <= k;
      assert prefixes[i] in prefixes;
    }
    if KeyInWindow(segments, g, at, lookback, k) {
      var s :| s <= k && RenderedWithin(segments, g, at, lookback, s);
      var i :| 0 <= i < |prefixes| && prefixes[i] == s;
    }
  }

  /** Listing under the resolved prefixes sees exactly the keys of the window. */
  lemma {:induction false} PrefixesCoverWindow(segments: seq<Segment>, g: Granularity, at: LocalTime, lookback: nat,
    bucket: map<string, S3Object>)
    requires ValidTime(at) && Finest(segments) == Some(g)
    ensures UnderAny(Resolved(segments, g, at, lookback), bucket) == InWindow(segments, g, at, lookback, bucket)
  {
    hide KeyInWindow, Resolved, Finest, ValidTime;
    forall k | k in bucket
      ensures SomePrefix(Resolved(segments, g, at, lookback), k) <==> KeyInWindow(segments, g, at, lookback, k)
    {
      SomePrefixInWindow(segments, g, at, lookback, k);
    }
  }

  /**
   * One poll of a templated watcher: listing under every resolved prefix leaves
   * the history with the newest n of what it had and the window's keys.
   */
  lemma {:induction false} TemplatedPoll(n: nat, before: map<string, S3Object>, bucket: map<string, S3Object>,
    template: DateTemplate, at: LocalTime, lookback: nat, lists: seq<seq<S3Object>>)
    requires ValidTime(at) && Finest(template.segments) == Some(template.granularity)
    requires Keyed(bucket) && NotBack(before, bucket)
    requires var prefixes := Resolved(template.segments, template.granularity, at, lookback);
             && |lists| == |prefixes|
             && forall i | 0 <= i < |lists| :: Lists(lists[i], Newest(n, Under(prefixes[i], bucket)))
    ensures Newest(n, before + Index(Flatten(lists)))
         == Newest(n, before + InWindow(template.segments, template.granularity, at, lookback, bucket))
  {
    hide *;
    OneSnapshotPoll(n, before, bucket, Resolved(template.segments, template.granularity, at, lookback), lists);
    PrefixesCoverWindow(template.segments, template.granularity, at, lookback, bucket);
  }

  // ----- Runs of polls -----

  ghost predicate AllValid(moments: seq<LocalTime>)
  {
    forall t | t in moments :: ValidTime(t)
  }

  /** The prefixes of each poll, resolved at its own moment. */
  ghost function PrefixesAt(template: DateTemplate, moments: seq<LocalTime>, lookback: nat): (r: seq<seq<string>>)
    requires AllValid(moments)
    ensures |r| == |moments|
  {
    seq(|moments|, i requires 0 <= i < |moments| =>
      Resolved(template.segments, template.granularity, moments[i], lookback))
  }

  /** What each poll's bucket held in the window of its moment. */
  ghost function Windows(template: DateTemplate, moments: seq<LocalTime>, lookback: nat,
    buckets: seq<map<string, S3Object>>)
    : (r: seq<map<string, S3Object>>)
    requires AllValid(moments) && |moments| == |buckets|
    ensures |r| == |buckets|
  {
    seq(|buckets|, i requires 0 <= i < |buckets| =>
      InWindow(template.segments, template.granularity, moments[i], lookback, buckets[i]))
  }

  lemma {:induction false} VisibleAt(prefixes: seq<seq<string>>, buckets: seq<map<string, S3Object>>)
    requires |prefixes| == |buckets|
    ensures |Visible(prefixes, buckets)| == |buckets|
    ensures forall i | 0 <= i < |buckets| :: Visible(prefixes, buckets)[i] == UnderAny(prefixes[i], buckets[i])
    decreases |buckets|
  {
    hide UnderAny;
    if buckets != [] {
      var last := |buckets| - 1;
      VisibleAt(prefixes[..last], buckets[..last]);
    }
  }

  lemma {:induction false} VisibleIsWindows(template: DateTemplate, moments: seq<LocalTime>, lookback: nat,
    buckets: seq<map<string, S3Object>>)
    requires AllValid(moments) && |moments| == |buckets|
    requires Finest(template.segments) == Some(template.granularity)
    ensures Visible(PrefixesAt(template, moments, lookback), buckets) == Windows(template, moments, lookback, buckets)
  {
    hide UnderAny, InWindow, Visible, Finest, ValidTime, Resolved;
    VisibleAt(PrefixesAt(template, moments, lookback), buckets);
    forall i | 0 <= i < |buckets|
      ensures Visible(PrefixesAt(template, moments, lookback), buckets)[i]
           == Windows(template, moments, lookback, buckets)[i]
    {
      PrefixesCoverWindow(template.segments, template.granularity, moments[i], lookback, buckets[i]);
    }
  }

  /**
   * Bucket to screen for a templated watcher: after any run of polls in which no
   * key moves back, the history and the client's list are the newest n of the
   * keys that were, at some poll, in the bucket and in the window of that poll's
   * moment.
   */
  lemma {:induction false} ClientShowsNewestOfWindows(n: nat, locale: Locale, universe: set<S3Object>,
    template: DateTemplate, moments: seq<LocalTime>, lookback: nat, buckets: seq<map<string, S3Object>>,
    lists: seq<seq<seq<S3Object>>>, updates: seq<HistoryUpdate>, byKey: map<string, S3Object>)
    requires n > 0 && AllValid(moments) && |moments| == |buckets|
    requires Finest(template.segments) == Some(template.granularity)
    requires var prefixes := PrefixesAt(template, moments, lookback);
             BucketsNeverBack(prefixes, buckets) && Followed(n, lists, PollsOf(prefixes, buckets), updates, byKey)
    requires Within(universe, buckets) && AgreesOn(locale, universe)
    ensures var seen := Merged(map[], Windows(template, moments, lookback, buckets));
            Lists(ClientAfter(n, locale, updates), Newest(n, seen)) && byKey == Newest(n, seen)
  {
    hide *;
    VisibleIsWindows(template, moments, lookback, buckets);
    ClientShowsNewestOfBuckets(n, locale, universe, PrefixesAt(template, moments, lookback), buckets, lists, updates,
      byKey);
  }
}
