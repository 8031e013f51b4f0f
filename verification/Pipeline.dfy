/** The whole way of an object: from the bucket, through every truncation, to the client's list. */
module Pipeline {
  import opened Objects
  import opened NewestN
  import opened Scanning
  import opened History
  import opened HistoryLaws
  import opened Watcher
  import opened Client
  import opened Mirror

  /** Every snapshot of every poll holds objects of the universe only. */
  ghost predicate AllWithin(universe: set<S3Object>, polls: seq<seq<map<string, S3Object>>>)
  {
    forall i | 0 <= i < |polls| :: Within(universe, polls[i])
  }

  // ----- What the polls hand on never goes back -----

  lemma TrailsOn(short: map<string, S3Object>, full: map<string, S3Object>, snapshot: map<string, S3Object>,
    part: map<string, S3Object>)
    requires Trails(short, full) && NotBack(full, snapshot) && Submap(part, snapshot)
    ensures NotBack(short, part)
  {
  }

  lemma TrailsThrough(a: map<string, S3Object>, b: map<string, S3Object>, c: map<string, S3Object>)
    requires Trails(a, b) && Trails(b, c)
    ensures Trails(a, c)
  {
  }

  lemma MergedTrails(full: map<string, S3Object>, snapshot: map<string, S3Object>)
    requires NotBack(full, snapshot)
    ensures Trails(full, full + snapshot)
  {
  }

  lemma {:induction false} FullTrails(full: map<string, S3Object>, snapshots: seq<map<string, S3Object>>)
    requires NeverBack(full, snapshots)
    ensures Trails(full, Merged(full, snapshots))
  {
    hide Trails, NotBack;
    if snapshots == [] {
      TrailsItself(full);
    } else {
      var init, last := snapshots[..|snapshots| - 1], snapshots[|snapshots| - 1];
      NeverBackPrefix(full, snapshots);
      FullTrails(full, init);
      MergedTrails(Merged(full, init), last);
      TrailsThrough(full, Merged(full, init), Merged(full, snapshots));
    }
  }

  lemma TrailsItself(m: map<string, S3Object>)
    ensures Trails(m, m)
  {
  }

  lemma TrailsMerge(short: map<string, S3Object>, full: map<string, S3Object>, snapshot: map<string, S3Object>,
    part: map<string, S3Object>)
    requires Trails(short, full) && NotBack(full, snapshot) && Submap(part, snapshot)
    ensures Trails(short + part, full + snapshot)
  {
  }

  lemma NotBackSum(short: map<string, S3Object>, a: map<string, S3Object>, b: map<string, S3Object>)
    requires NotBack(short, a) && NotBack(short, b)
    ensures NotBack(short, a + b)
  {
  }

  /** The truncated lists of a poll neither go back nor get ahead of its complete snapshots. */
  lemma {:induction false} PollTrails(n: nat, short: map<string, S3Object>, full: map<string, S3Object>,
    snapshots: seq<map<string, S3Object>>, lists: seq<seq<S3Object>>)
    requires Contributes(n, lists, snapshots) && NeverBack(full, snapshots) && Trails(short, full)
    ensures NotBack(short, Index(Flatten(lists)))
    ensures Trails(short + Index(Flatten(lists)), Merged(full, snapshots))
    decreases |lists|
  {
    hide *;
    SplitLast(n, short, snapshots, lists);
    if |lists| == 0 {
      NothingHandedOn(short, full, snapshots, lists);
    } else {
      var last := |lists| - 1;
      var part := Newest(n, snapshots[last]);
      NeverBackPrefix(full, snapshots);
      PollTrails(n, short, full, snapshots[..last], lists[..last]);
      FullTrails(full, snapshots[..last]);
      TrailsThrough(short, full, Merged(full, snapshots[..last]));
      NewestIsSubmap(n, snapshots[last]);
      TrailsOn(short, Merged(full, snapshots[..last]), snapshots[last], part);
      TrailsMerge(short + Index(Flatten(lists[..last])), Merged(full, snapshots[..last]), snapshots[last], part);
      SplitIndex(n, short, lists, snapshots);
      MergedLast(full, snapshots);
    }
  }

  lemma NothingHandedOn(short: map<string, S3Object>, full: map<string, S3Object>,
    snapshots: seq<map<string, S3Object>>, lists: seq<seq<S3Object>>)
    requires lists == [] && snapshots == [] && Trails(short, full)
    ensures NotBack(short, Index(Flatten(lists))) && Trails(short + Index(Flatten(lists)), Merged(full, snapshots))
  {
    assert short + map[] == short;
  }

  lemma SplitIndex(n: nat, short: map<string, S3Object>, lists: seq<seq<S3Object>>,
    snapshots: seq<map<string, S3Object>>)
    requires Contributes(n, lists, snapshots) && lists != []
    requires var last := |lists| - 1;
             && |snapshots| == |lists| && NotBack(short, Index(Flatten(lists[..last])))
             && NotBack(short, Newest(n, snapshots[last]))
    ensures NotBack(short, Index(Flatten(lists)))
  {
    var last := |lists| - 1;
    IndexOfValues(lists[last], Newest(n, snapshots[last]));
    hide Newest, Lists, Index;
    FlattenLast(lists);
    IndexConcat(Flatten(lists[..last]), lists[last]);
    NotBackSum(short, Index(Flatten(lists[..last])), Newest(n, snapshots[last]));
  }

  /** Over a run, what was handed on trails what was seen, and never goes back. */
  lemma {:induction false} HandedOnNeverBack(n: nat, polls: seq<seq<map<string, S3Object>>>,
    lists: seq<seq<seq<S3Object>>>)
    requires AllContributed(n, lists, polls) && NeverBack(map[], Flatten(polls))
    ensures NeverBack(map[], Incomings(lists))
    ensures Trails(Merged(map[], Incomings(lists)), Merged(map[], Flatten(polls)))
    decreases |polls|
  {
    hide Contributes, Trails, Index, NotBack;
    if polls == [] {
      TrailsItself(map[]);
    } else {
      var last := |polls| - 1;
      var before := Incomings(lists[..last]);
      FlattenLast(polls);
      NeverBackSplit(map[], Flatten(polls[..last]), polls[last]);
      HandedOnNeverBack(n, polls[..last], lists[..last]);
      PollTrails(n, Merged(map[], before), Merged(map[], Flatten(polls[..last])), polls[last], lists[last]);
      MergedConcat(map[], Flatten(polls[..last]), polls[last]);
      NeverBackAppend(before, Index(Flatten(lists[last])));
    }
  }

  lemma NeverBackAppend(listings: seq<map<string, S3Object>>, next: map<string, S3Object>)
    requires NeverBack(map[], listings) && NotBack(Merged(map[], listings), next)
    ensures NeverBack(map[], listings + [next])
    ensures Merged(map[], listings + [next]) == Merged(map[], listings) + next
  {
    hide NotBack;
    var all := listings + [next];
    assert forall i | 0 <= i <= |listings| :: all[..i] == listings[..i];
    assert listings[..|listings|] == listings;
  }

  // ----- Both sides rank what was listed alike -----

  lemma {:induction false} ListedWithin(n: nat, universe: set<S3Object>, snapshots: seq<map<string, S3Object>>,
    lists: seq<seq<S3Object>>)
    requires Contributes(n, lists, snapshots) && Within(universe, snapshots)
    ensures forall o | o in Flatten(lists) :: o in universe
    decreases |lists|
  {
    if lists != [] {
      var last := |lists| - 1;
      FlattenLast(lists);
      assert Within(universe, snapshots[..last]);
      ListedWithin(n, universe, snapshots[..last], lists[..last]);
      forall o | o in lists[last]
        ensures o in universe
      {
        assert snapshots[last][o.key] == o;
      }
    }
  }

  lemma {:induction false} IncomingsWithin(n: nat, universe: set<S3Object>, polls: seq<seq<map<string, S3Object>>>,
    lists: seq<seq<seq<S3Object>>>)
    requires AllContributed(n, lists, polls) && AllWithin(universe, polls)
    ensures |Incomings(lists)| == |lists| && Within(universe, Incomings(lists))
    decreases |lists|
  {
    hide Contributes, Index;
    if lists != [] {
      var last := |lists| - 1;
      IncomingsWithin(n, universe, polls[..last], lists[..last]);
      ListedWithin(n, universe, polls[last], lists[last]);
      IndexContents(Flatten(lists[last]));
    }
  }

  // ----- The whole pipeline -----

  /**
   * After any run of polls in which no key moves back, folding every published
   * batch leaves the client with the newest n of everything ever listed, in
   * order, when both sides rank those objects alike.
   */
  lemma PipelineIsNewestOfAll(n: nat, locale: Locale, universe: set<S3Object>, polls: seq<seq<map<string, S3Object>>>,
    lists: seq<seq<seq<S3Object>>>, updates: seq<HistoryUpdate>, byKey: map<string, S3Object>)
    requires n > 0 && Followed(n, lists, polls, updates, byKey) && NeverBack(map[], Flatten(polls))
    requires AllWithin(universe, polls) && AgreesOn(locale, universe)
    ensures Lists(ClientAfter(n, locale, updates), Newest(n, Merged(map[], Flatten(polls))))
    ensures byKey == Newest(n, Merged(map[], Flatten(polls)))
  {
    hide NeverBack, IsRun, BoundedRun, ClientAfter, Lists, Newest, Merged, AgreesOn, Within, AllContributed;
    HandedOnNeverBack(n, polls, lists);
    IncomingsWithin(n, universe, polls, lists);
    AgreementMirrors(n, locale, universe);
    PollRunIsNewestOfAll(n, polls, lists);
  }

  // ----- From bucket snapshots -----

  /** What each poll could see of its bucket under its prefixes. */
  ghost function Visible(prefixes: seq<seq<string>>, buckets: seq<map<string, S3Object>>): seq<map<string, S3Object>>
    requires |prefixes| == |buckets|
  {
    if buckets == [] then []
    else
      var last := |buckets| - 1;
      Visible(prefixes[..last], buckets[..last]) + [UnderAny(prefixes[last], buckets[last])]
  }

  ghost function PollsOf(prefixes: seq<seq<string>>,
    buckets: seq<map<string, S3Object>>): seq<seq<map<string, S3Object>>>
    requires |prefixes| == |buckets|
  {
    if buckets == [] then []
    else
      var last := |buckets| - 1;
      PollsOf(prefixes[..last], buckets[..last]) + [Snapshots(prefixes[last], buckets[last])]
  }

  /** No bucket reports a key as older than it was last seen. */
  ghost predicate BucketsNeverBack(prefixes: seq<seq<string>>, buckets: seq<map<string, S3Object>>)
    requires |prefixes| == |buckets|
  {
    forall i | 0 <= i < |buckets| :: NotBack(Merged(map[], Visible(prefixes[..i], buckets[..i])), buckets[i])
  }

  lemma BucketsPrefix(prefixes: seq<seq<string>>, buckets: seq<map<string, S3Object>>)
    requires |prefixes| == |buckets| && buckets != [] && BucketsNeverBack(prefixes, buckets)
    ensures var last := |buckets| - 1;
            && BucketsNeverBack(prefixes[..last], buckets[..last])
            && NotBack(Merged(map[], Visible(prefixes[..last], buckets[..last])), buckets[last])
  {
    hide NotBack, Merged;
    var last := |buckets| - 1;
    forall i | 0 <= i < last
      ensures prefixes[..last][..i] == prefixes[..i] && buckets[..last][..i] == buckets[..i]
    {
    }
  }

  lemma {:induction false} NeverBackJoin(start: map<string, S3Object>, a: seq<map<string, S3Object>>,
    b: seq<map<string, S3Object>>)
    requires NeverBack(start, a) && NeverBack(Merged(start, a), b)
    ensures NeverBack(start, a + b)
  {
    hide NotBack, Merged;
    forall i | 0 <= i < |a + b|
      ensures NotBack(Merged(start, (a + b)[..i]), (a + b)[i])
    {
      if i < |a| {
        assert (a + b)[..i] == a[..i];
      } else {
        LaterPart(start, a, b, i - |a|);
      }
    }
  }

  lemma {:induction false} LaterPart(start: map<string, S3Object>, a: seq<map<string, S3Object>>,
    b: seq<map<string, S3Object>>, i: nat)
    requires i < |b|
    ensures Merged(start, (a + b)[..|a| + i]) == Merged(Merged(start, a), b[..i]) && (a + b)[|a| + i] == b[i]
  {
    hide Merged;
    assert (a + b)[..|a| + i] == a + b[..i];
    MergedConcat(start, a, b[..i]);
  }

  lemma {:induction false} BucketsAreSeen(prefixes: seq<seq<string>>, buckets: seq<map<string, S3Object>>)
    requires |prefixes| == |buckets| && BucketsNeverBack(prefixes, buckets)
    ensures NeverBack(map[], Flatten(PollsOf(prefixes, buckets)))
    ensures Merged(map[], Flatten(PollsOf(prefixes, buckets))) == Merged(map[], Visible(prefixes, buckets))
    decreases |buckets|
  {
    hide NotBack, NeverBack, UnderAny, Snapshots, BucketsNeverBack;
    if buckets == [] {
      NothingGoesBack();
    } else {
      var last := |buckets| - 1;
      var before, polls := Visible(prefixes[..last], buckets[..last]), PollsOf(prefixes[..last], buckets[..last]);
      BucketsPrefix(prefixes, buckets);
      BucketsAreSeen(prefixes[..last], buckets[..last]);
      FlattenAppend(polls, Snapshots(prefixes[last], buckets[last]));
      SnapshotsMerge(Merged(map[], before), prefixes[last], buckets[last]);
      SnapshotsNeverBack(Merged(map[], before), prefixes[last], buckets[last]);
      NeverBackJoin(map[], Flatten(polls), Snapshots(prefixes[last], buckets[last]));
      MergedConcat(map[], Flatten(polls), Snapshots(prefixes[last], buckets[last]));
      assert (before + [UnderAny(prefixes[last], buckets[last])])[..|before|] == before;
    }
  }

  lemma NothingGoesBack()
    ensures NeverBack(map[], [])
  {
  }

  /**
   * Bucket to screen: after any run of polls of buckets in which no key moves
   * back, the client's list and the history are the newest n of everything that
   * was ever under the polled prefixes.
   */
  lemma ClientShowsNewestOfBuckets(n: nat, locale: Locale, universe: set<S3Object>, prefixes: seq<seq<string>>,
    buckets: seq<map<string, S3Object>>, lists: seq<seq<seq<S3Object>>>, updates: seq<HistoryUpdate>,
    byKey: map<string, S3Object>)
    requires n > 0 && |prefixes| == |buckets| && BucketsNeverBack(prefixes, buckets)
    requires Within(universe, buckets) && AgreesOn(locale, universe)
    requires Followed(n, lists, PollsOf(prefixes, buckets), updates, byKey)
    ensures Lists(ClientAfter(n, locale, updates), Newest(n, Merged(map[], Visible(prefixes, buckets))))
    ensures byKey == Newest(n, Merged(map[], Visible(prefixes, buckets)))
  {
    hide *;
    BucketsAreSeen(prefixes, buckets);
    PollsWithin(universe, prefixes, buckets);
    PipelineIsNewestOfAll(n, locale, universe, PollsOf(prefixes, buckets), lists, updates, byKey);
  }

  lemma {:induction false} PollsWithin(universe: set<S3Object>, prefixes: seq<seq<string>>,
    buckets: seq<map<string, S3Object>>)
    requires |prefixes| == |buckets| && Within(universe, buckets)
    ensures AllWithin(universe, PollsOf(prefixes, buckets))
    decreases |buckets|
  {
    if buckets != [] {
      var last := |buckets| - 1;
      assert Within(universe, buckets[..last]);
      PollsWithin(universe, prefixes[..last], buckets[..last]);
      BucketWithin(universe, prefixes[last], buckets[last]);
    }
  }

  lemma BucketWithin(universe: set<S3Object>, prefixes: seq<string>, bucket: map<string, S3Object>)
    requires forall k | k in bucket :: bucket[k] in universe
    ensures Within(universe, Snapshots(prefixes, bucket))
  {
  }
}
