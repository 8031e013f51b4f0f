/** One poll: list every resolved prefix through the newest-n filter, then reconcile. */
module Watcher {
  import opened Objects
  import opened NewestN
  import opened Scanning
  import Store
  import opened History
  import opened HistoryLaws

  /** Each answer sequence shows the corresponding snapshot, all of it unless it breaks off. */
  ghost predicate Reports(answers: seq<seq<Store.Answer>>, snapshots: seq<map<string, S3Object>>)
  {
    && |answers| == |snapshots|
    && forall i | 0 <= i < |answers| ::
      Keyed(snapshots[i]) && Store.Ends(answers[i]) && Store.Truthful(answers[i], snapshots[i])
  }

  /** Keys of the bucket that one concrete prefix lists. */
  function Under(prefix: string, bucket: map<string, S3Object>): map<string, S3Object>
  {
    map k | k in bucket && prefix <= k :: bucket[k]
  }

  class PollingWatcher {
    const history: RollingHistory

    constructor (history: RollingHistory)
      ensures this.history == history
    {
      this.history := history;
    }

    /**
     * Lists the targets in turn and applies everything in one upsert; the first
     * failure is returned and leaves the history alone. `lists` is what the
     * targets contributed.
     */
    method PollOnce(answers: seq<seq<Store.Answer>>, ghost snapshots: seq<map<string, S3Object>>)
      returns (r: Result<HistoryUpdate, Store.StoreError>, ghost lists: seq<seq<S3Object>>)
      requires history.Valid() && Reports(answers, snapshots)
      modifies history`byKey
      ensures history.Valid()
      ensures r.Err? ==> history.byKey == old(history.byKey) && FirstFailure(answers, r.error)
      ensures r.Ok? ==> forall i | 0 <= i < |answers| :: Store.Listing(answers[i]).Ok?
      ensures r.Ok? ==> Contributes(history.capacity, lists, snapshots)
      ensures r.Ok? ==> history.byKey == Newest(history.capacity, old(history.byKey) + Index(Flatten(lists)))
      ensures r.Ok? ==> IsUpdate(r.value, old(history.byKey), Index(Flatten(lists)), history.byKey)
      ensures r.Ok? && NeverBack(old(history.byKey), snapshots) ==>
        history.byKey == Newest(history.capacity, Merged(old(history.byKey), snapshots))
    {
      hide *;
      var objects: seq<S3Object> := [];
      lists := [];
      NoLists();
      ReportsMatch(answers, snapshots);
      var i := 0;
      while i < |answers|
        invariant 0 <= i == |lists| <= |answers|
        invariant history.Valid() && history.byKey == old(history.byKey)
        invariant objects == Flatten(lists)
        invariant forall j | 0 <= j < i ::
          && Lists(lists[j], Newest(history.capacity, snapshots[j])) && Keyed(snapshots[j])
          && Store.Listing(answers[j]).Ok?
      {
        CapacityPositive(history);
        var listed, requests := Store.ListObjects(answers[i], history.capacity);
        if listed.Err? {
          FailsFirst(answers, i, listed.error);
          return Err(listed.error), lists;
        }
        OneListing(answers, snapshots, i, history.capacity, listed.value);
        FlattenAppend(lists, listed.value);
        objects := objects + listed.value;
        lists := lists + [listed.value];
        i := i + 1;
      }
      ghost var before := history.byKey;
      var update := history.UpsertMany(objects);
      AllContribute(history.capacity, lists, snapshots);
      if NeverBack(before, snapshots) {
        PollIsLossless(history.capacity, before, snapshots, lists);
      }
      r := Ok(update);
    }
  }

  /** The error is that of the first target whose listing fails. */
  ghost predicate FirstFailure(answers: seq<seq<Store.Answer>>, error: Store.StoreError)
    requires forall i | 0 <= i < |answers| :: Store.Ends(answers[i])
  {
    exists i | 0 <= i < |answers| ::
      Store.Listing(answers[i]) == Err(error) && forall j | 0 <= j < i :: Store.Listing(answers[j]).Ok?
  }

  lemma FailsFirst(answers: seq<seq<Store.Answer>>, i: nat, error: Store.StoreError)
    requires forall i | 0 <= i < |answers| :: Store.Ends(answers[i])
    requires i < |answers| && Store.Listing(answers[i]).Err? && Store.Listing(answers[i]).error == error
    requires forall j | 0 <= j < i :: Store.Listing(answers[j]).Ok?
    ensures FirstFailure(answers, error)
  {
  }

  lemma AllContribute(n: nat, lists: seq<seq<S3Object>>, snapshots: seq<map<string, S3Object>>)
    requires |lists| == |snapshots|
    requires forall i | 0 <= i < |lists| :: Lists(lists[i], Newest(n, snapshots[i])) && Keyed(snapshots[i])
    ensures Contributes(n, lists, snapshots)
  {
  }

  lemma CapacityPositive(history: RollingHistory)
    requires history.Valid()
    ensures history.capacity > 0
  {
  }

  lemma NoLists()
    ensures Flatten<S3Object>([]) == []
  {
  }

  lemma ReportsMatch(answers: seq<seq<Store.Answer>>, snapshots: seq<map<string, S3Object>>)
    requires Reports(answers, snapshots)
    ensures |answers| == |snapshots|
    ensures forall i | 0 <= i < |answers| :: Store.Ends(answers[i]) && Keyed(snapshots[i])
  {
  }

  lemma OneListing(answers: seq<seq<Store.Answer>>, snapshots: seq<map<string, S3Object>>, i: nat, n: nat,
    s: seq<S3Object>)
    requires Reports(answers, snapshots) && i < |answers| && Store.Listing(answers[i]).Ok?
    requires Store.IsNewestListing(n, Store.Listing(answers[i]).value, s)
    ensures Lists(s, Newest(n, snapshots[i]))
  {
    hide Store.Listing, Store.Truthful, Store.Visits;
    Store.ListingVisits(answers[i], snapshots[i]);
    Store.ListingOfBucket(n, Store.Listing(answers[i]).value, snapshots[i], s);
  }

  /** Every entry of `a` is in `b`, possibly with a later timestamp there. */
  ghost predicate Trails(a: map<string, S3Object>, b: map<string, S3Object>)
  {
    forall k | k in a :: k in b && a[k].key == b[k].key && a[k].lastModified <= b[k].lastModified
  }

  /** Each list is what one prefix contributes: its snapshot's newest n, in order. */
  ghost predicate Contributes(n: nat, lists: seq<seq<S3Object>>, snapshots: seq<map<string, S3Object>>)
  {
    && |lists| == |snapshots|
    && forall i | 0 <= i < |lists| :: Lists(lists[i], Newest(n, snapshots[i])) && Keyed(snapshots[i])
  }

  /**
   * The truncated listings of the snapshots give the history that the complete
   * listings would: no bounded stage of a poll loses anything.
   */
  lemma {:induction false} PollIsLossless(n: nat, before: map<string, S3Object>, snapshots: seq<map<string, S3Object>>,
    lists: seq<seq<S3Object>>)
    requires Contributes(n, lists, snapshots) && NeverBack(before, snapshots)
    ensures Newest(n, before + Index(Flatten(lists))) == Newest(n, Merged(before, snapshots))
    ensures Trails(before + Index(Flatten(lists)), Merged(before, snapshots))
    decreases |lists|
  {
    hide *;
    SplitLast(n, before, snapshots, lists);
    if |lists| > 0 {
      var last := |lists| - 1;
      NeverBackPrefix(before, snapshots);
      PollIsLossless(n, before, snapshots[..last], lists[..last]);
      LosslessStep(n, before + Index(Flatten(lists[..last])), Merged(before, snapshots[..last]), snapshots[last]);
    }
  }

  lemma SplitLast(n: nat, before: map<string, S3Object>, snapshots: seq<map<string, S3Object>>,
    lists: seq<seq<S3Object>>)
    requires Contributes(n, lists, snapshots)
    ensures |lists| == |snapshots|
    ensures lists == [] ==>
      before + Index(Flatten(lists)) == before == Merged(before, snapshots) && Trails(before, before)
    ensures lists != [] ==>
      var last := |lists| - 1;
      && Contributes(n, lists[..last], snapshots[..last])
      && before + Index(Flatten(lists)) == before + Index(Flatten(lists[..last])) + Newest(n, snapshots[last])
      && Merged(before, snapshots) == Merged(before, snapshots[..last]) + snapshots[last]
  {
    hide *;
    if lists == [] {
      NothingListed(n, before, snapshots, lists);
    } else {
      var last := |lists| - 1;
      ContributesSplit(n, snapshots, lists);
      FlattenLast(lists);
      IndexOfList(lists[last], Newest(n, snapshots[last]));
      IndexConcat(Flatten(lists[..last]), lists[last]);
      MergeAssociative(before, Index(Flatten(lists[..last])), Newest(n, snapshots[last]));
      MergedLast(before, snapshots);
    }
  }

  lemma NothingListed(n: nat, before: map<string, S3Object>, snapshots: seq<map<string, S3Object>>,
    lists: seq<seq<S3Object>>)
    requires Contributes(n, lists, snapshots) && lists == []
    ensures snapshots == []
    ensures before + Index(Flatten(lists)) == before == Merged(before, snapshots) && Trails(before, before)
  {
    assert before + map[] == before;
  }

  lemma ContributesSplit(n: nat, snapshots: seq<map<string, S3Object>>, lists: seq<seq<S3Object>>)
    requires Contributes(n, lists, snapshots) && lists != []
    ensures |lists| == |snapshots|
    ensures var last := |lists| - 1;
            && Contributes(n, lists[..last], snapshots[..last])
            && Lists(lists[last], Newest(n, snapshots[last])) && Keyed(Newest(n, snapshots[last]))
  {
    hide Lists;
  }

  lemma MergedLast(full: map<string, S3Object>, snapshots: seq<map<string, S3Object>>)
    requires snapshots != []
    ensures var last := |snapshots| - 1;
            Merged(full, snapshots) == Merged(full, snapshots[..last]) + snapshots[last]
  {
  }

  lemma LosslessStep(n: nat, short: map<string, S3Object>, full: map<string, S3Object>, snapshot: map<string, S3Object>)
    requires Newest(n, short) == Newest(n, full)
    requires Trails(short, full) && NotBack(full, snapshot)
    ensures Newest(n, short + Newest(n, snapshot)) == Newest(n, full + snapshot)
    ensures Trails(short + Newest(n, snapshot), full + snapshot)
  {
    NewestIncoming(n, short, snapshot);
    NewestOverride(n, short, snapshot);
    NewestOverride(n, full, snapshot);
  }

  // ----- One bucket snapshot behind every prefix -----

  ghost function UnderAny(prefixes: seq<string>, bucket: map<string, S3Object>): map<string, S3Object>
  {
    map k | k in bucket && exists i | 0 <= i < |prefixes| :: prefixes[i] <= k :: bucket[k]
  }

  ghost function Snapshots(prefixes: seq<string>, bucket: map<string, S3Object>): (r: seq<map<string, S3Object>>)
    ensures |r| == |prefixes| && forall i | 0 <= i < |r| :: r[i] == Under(prefixes[i], bucket)
  {
    seq(|prefixes|, i requires 0 <= i < |prefixes| => Under(prefixes[i], bucket))
  }

  lemma {:induction false} SnapshotsMerge(before: map<string, S3Object>, prefixes: seq<string>,
    bucket: map<string, S3Object>)
    requires NotBack(before, bucket)
    ensures Merged(before, Snapshots(prefixes, bucket)) == before + UnderAny(prefixes, bucket)
  {
    if prefixes == [] {
      assert UnderAny(prefixes, bucket) == map[];
    } else {
      var init, last := prefixes[..|prefixes| - 1], prefixes[|prefixes| - 1];
      assert Snapshots(prefixes, bucket)[..|init|] == Snapshots(init, bucket);
      SnapshotsMerge(before, init, bucket);
      UnderAnyExtends(init, last, bucket);
      assert prefixes == init + [last];
      hide UnderAny, Under, NotBack;
      MergeAssociative(before, UnderAny(init, bucket), Under(last, bucket));
    }
  }

  lemma UnderAnyExtends(init: seq<string>, last: string, bucket: map<string, S3Object>)
    ensures UnderAny(init + [last], bucket) == UnderAny(init, bucket) + Under(last, bucket)
  {
    var prefixes := init + [last];
    forall k | k in bucket
      ensures (exists i | 0 <= i < |prefixes| :: prefixes[i] <= k)
         <==> (exists i | 0 <= i < |init| :: init[i] <= k) || last <= k
    {
      if i :| 0 <= i < |init| && init[i] <= k {
        assert prefixes[i] <= k;
      }
      if last <= k {
        assert prefixes[|init|] <= k;
      }
    }
  }

  lemma SnapshotsNeverBack(before: map<string, S3Object>, prefixes: seq<string>, bucket: map<string, S3Object>)
    requires NotBack(before, bucket)
    ensures NeverBack(before, Snapshots(prefixes, bucket))
  {
    var all := Snapshots(prefixes, bucket);
    forall i | 0 <= i < |all| ensures NotBack(Merged(before, all[..i]), all[i]) {
      assert all[..i] == Snapshots(prefixes[..i], bucket);
      SnapshotsMerge(before, prefixes[..i], bucket);
    }
  }

  /**
   * For a bucket in which no key is older than the history has it, overlapping
   * prefixes, page boundaries and per-prefix limits leave no trace.
   */
  lemma OneSnapshotPoll(n: nat, before: map<string, S3Object>, bucket: map<string, S3Object>, prefixes: seq<string>,
    lists: seq<seq<S3Object>>)
    requires Keyed(bucket) && NotBack(before, bucket) && |lists| == |prefixes|
    requires forall i | 0 <= i < |lists| :: Lists(lists[i], Newest(n, Under(prefixes[i], bucket)))
    ensures Newest(n, before + Index(Flatten(lists))) == Newest(n, before + UnderAny(prefixes, bucket))
  {
    SnapshotsMerge(before, prefixes, bucket);
    SnapshotsNeverBack(before, prefixes, bucket);
    hide Newest, Index, Lists, Merged, NeverBack;
    PollIsLossless(n, before, Snapshots(prefixes, bucket), lists);
  }

  // ----- Runs of polls -----

  lemma {:induction false} MergedConcat(start: map<string, S3Object>, a: seq<map<string, S3Object>>,
    b: seq<map<string, S3Object>>)
    ensures Merged(start, a + b) == Merged(Merged(start, a), b)
  {
    if b == [] {
      assert a + b == a;
    } else {
      assert (a + b)[..|a + b| - 1] == a + b[..|b| - 1];
      MergedConcat(start, a, b[..|b| - 1]);
    }
  }

  lemma {:induction false} NewestMerged(n: nat, full: map<string, S3Object>, snapshots: seq<map<string, S3Object>>)
    requires NeverBack(full, snapshots)
    ensures Newest(n, Merged(Newest(n, full), snapshots)) == Newest(n, Merged(full, snapshots))
    ensures Submap(Merged(Newest(n, full), snapshots), Merged(full, snapshots))
  {
    if snapshots == [] {
      NewestBetween(n, full, Newest(n, full));
    } else {
      var init, last := snapshots[..|snapshots| - 1], snapshots[|snapshots| - 1];
      NeverBackPrefix(full, snapshots);
      NewestMerged(n, full, init);
      NewestOverride(n, Merged(Newest(n, full), init), last);
      NewestOverride(n, Merged(full, init), last);
    }
  }

  /** What a poll lists never goes back on the truncated history either. */
  lemma NeverBackKept(n: nat, full: map<string, S3Object>, snapshots: seq<map<string, S3Object>>)
    requires NeverBack(full, snapshots)
    ensures NeverBack(Newest(n, full), snapshots)
  {
    hide Newest, Merged;
    forall i | 0 <= i < |snapshots|
      ensures NotBack(Merged(Newest(n, full), snapshots[..i]), snapshots[i])
    {
      var front := snapshots[..i];
      assert forall j | 0 <= j < |front| :: front[..j] == snapshots[..j];
      NewestMerged(n, full, front);
      SubmapNotBack(Merged(Newest(n, full), front), Merged(full, front), snapshots[i]);
    }
  }

  /** One more poll on a history that is the newest n of everything before it. */
  lemma OnePoll(n: nat, seen: seq<map<string, S3Object>>, snapshots: seq<map<string, S3Object>>,
    lists: seq<seq<S3Object>>)
    requires Contributes(n, lists, snapshots) && NeverBack(map[], seen + snapshots)
    ensures Newest(n, Newest(n, Merged(map[], seen)) + Index(Flatten(lists)))
         == Newest(n, Merged(map[], seen + snapshots))
  {
    hide *;
    var full := Merged(map[], seen);
    NeverBackSplit(map[], seen, snapshots);
    NeverBackKept(n, full, snapshots);
    PollIsLossless(n, Newest(n, full), snapshots, lists);
    NewestMerged(n, full, snapshots);
    MergedConcat(map[], seen, snapshots);
  }

  /** What each poll of a run handed to the history. */
  ghost function Incomings(lists: seq<seq<seq<S3Object>>>): seq<map<string, S3Object>>
  {
    if lists == [] then [] else Incomings(lists[..|lists| - 1]) + [Index(Flatten(lists[|lists| - 1]))]
  }

  /** Each poll's lists are what its snapshots contribute. */
  ghost predicate AllContributed(n: nat, lists: seq<seq<seq<S3Object>>>, polls: seq<seq<map<string, S3Object>>>)
  {
    |lists| == |polls| && forall i | 0 <= i < |lists| :: Contributes(n, lists[i], polls[i])
  }

  /** After any run of polls in which no key moves back the history is the newest n of every key ever listed. */
  lemma {:induction false} PollRunIsNewestOfAll(n: nat, polls: seq<seq<map<string, S3Object>>>,
    lists: seq<seq<seq<S3Object>>>)
    requires AllContributed(n, lists, polls) && NeverBack(map[], Flatten(polls))
    ensures BoundedRun(n, map[], Incomings(lists)) == Newest(n, Merged(map[], Flatten(polls)))
    decreases |polls|
  {
    hide Newest, Contributes, NeverBack, Index;
    if polls == [] {
      NewestOfNothing(n);
    } else {
      var last := |polls| - 1;
      var before := Incomings(lists[..last]);
      FlattenLast(polls);
      NeverBackSplit(map[], Flatten(polls[..last]), polls[last]);
      PollRunIsNewestOfAll(n, polls[..last], lists[..last]);
      OnePoll(n, Flatten(polls[..last]), polls[last], lists[last]);
      assert Incomings(lists)[..|before|] == before;
    }
  }

  lemma NewestOfNothing(n: nat)
    ensures Newest<string>(n, map[]) == map[]
  {
  }

  /** The snapshots of the polls that succeeded. */
  ghost function Seen(answers: seq<seq<seq<Store.Answer>>>, polls: seq<seq<map<string, S3Object>>>)
    : seq<seq<map<string, S3Object>>>
    requires |answers| == |polls| && forall i | 0 <= i < |answers| :: Reports(answers[i], polls[i])
  {
    if answers == [] then []
    else
      var last := |answers| - 1;
      Seen(answers[..last], polls[..last]) + if Complete(answers[last], polls[last]) then [polls[last]] else []
  }

  ghost predicate Complete(answers: seq<seq<Store.Answer>>, snapshots: seq<map<string, S3Object>>)
    requires Reports(answers, snapshots)
  {
    forall i | 0 <= i < |answers| :: Store.Listing(answers[i]).Ok?
  }

  /** What a driver of polls keeps: the successful ones form a run of the history. */
  ghost predicate Followed(n: nat, lists: seq<seq<seq<S3Object>>>, polls: seq<seq<map<string, S3Object>>>,
    updates: seq<HistoryUpdate>, byKey: map<string, S3Object>)
  {
    && AllContributed(n, lists, polls) && IsRun(n, Incomings(lists), updates)
    && byKey == BoundedRun(n, map[], Incomings(lists))
  }

  lemma NothingFollowed(n: nat)
    ensures Followed(n, [], [], [], map[])
  {
  }

  lemma FollowOne(n: nat, lists: seq<seq<seq<S3Object>>>, polls: seq<seq<map<string, S3Object>>>,
    updates: seq<HistoryUpdate>, before: map<string, S3Object>,
    list: seq<seq<S3Object>>, poll: seq<map<string, S3Object>>, update: HistoryUpdate, after: map<string, S3Object>)
    requires Followed(n, lists, polls, updates, before) && Contributes(n, list, poll)
    requires after == Newest(n, before + Index(Flatten(list)))
    requires IsUpdate(update, before, Index(Flatten(list)), after)
    ensures Followed(n, lists + [list], polls + [poll], updates + [update], after)
  {
    hide Contributes, Newest, IsUpdate, Index;
    var past, incoming := Incomings(lists), Index(Flatten(list));
    assert (lists + [list])[..|lists|] == lists;
    assert Incomings(lists + [list]) == past + [incoming];
    assert (past + [incoming])[..|past|] == past;
    IndexContents(Flatten(list));
    RunGrows(n, past, updates, incoming, update);
  }

  lemma RunGrows(n: nat, listings: seq<map<string, S3Object>>, updates: seq<HistoryUpdate>,
    incoming: map<string, S3Object>, update: HistoryUpdate)
    requires IsRun(n, listings, updates) && Keyed(incoming)
    requires var before := BoundedRun(n, map[], listings);
             IsUpdate(update, before, incoming, Newest(n, before + incoming))
    ensures IsRun(n, listings + [incoming], updates + [update])
  {
    hide Newest, IsUpdate, Keyed;
    var all := listings + [incoming];
    assert forall i | 0 <= i <= |listings| :: all[..i] == listings[..i];
    assert listings[..|listings|] == listings && all[..|all|] == all;
    assert BoundedRun(n, map[], all) == Newest(n, BoundedRun(n, map[], listings) + incoming);
  }

  /**
   * Drives a watcher through a run of polls, of which some may fail. When no key
   * moves back in what the successful ones saw, the history is the newest
   * entries of everything they saw.
   */
  method RunPolls(capacity: nat, answers: seq<seq<seq<Store.Answer>>>, ghost polls: seq<seq<map<string, S3Object>>>)
    returns (history: RollingHistory, updates: seq<HistoryUpdate>, ghost lists: seq<seq<seq<S3Object>>>)
    requires capacity > 0
    requires |answers| == |polls| && forall i | 0 <= i < |answers| :: Reports(answers[i], polls[i])
    ensures history.Valid() && history.capacity == capacity
    ensures Followed(capacity, lists, Seen(answers, polls), updates, history.byKey)
    ensures NeverBack(map[], Flatten(Seen(answers, polls))) ==>
      history.byKey == Newest(capacity, Merged(map[], Flatten(Seen(answers, polls))))
  {
    hide *;
    history := new RollingHistory(capacity);
    var watcher := new PollingWatcher(history);
    updates, lists := [], [];
    ghost var seen := [];
    NothingFollowed(capacity);
    NothingSeen(answers, polls);
    var i := 0;
    while i < |answers|
      invariant 0 <= i <= |answers| && fresh(history) && watcher.history == history
      invariant history.Valid() && history.capacity == capacity
      invariant seen == Seen(answers[..i], polls[..i])
      invariant Followed(capacity, lists, seen, updates, history.byKey)
    {
      SeenMore(answers, polls, i);
      ghost var before := history.byKey;
      var r, list := watcher.PollOnce(answers[i], polls[i]);
      CompleteOr(answers[i], polls[i]);
      if r.Ok? {
        FollowOne(capacity, lists, seen, updates, before, list, polls[i], r.value, history.byKey);
        updates, lists, seen := updates + [r.value], lists + [list], seen + [polls[i]];
      } else {
        FailureShows(answers[i], r.error);
      }
      i := i + 1;
    }
    assert answers[..i] == answers && polls[..i] == polls;
    RunResult(capacity, lists, seen, updates, history.byKey);
  }

  lemma RunResult(n: nat, lists: seq<seq<seq<S3Object>>>, polls: seq<seq<map<string, S3Object>>>,
    updates: seq<HistoryUpdate>, byKey: map<string, S3Object>)
    requires Followed(n, lists, polls, updates, byKey)
    ensures NeverBack(map[], Flatten(polls)) ==> byKey == Newest(n, Merged(map[], Flatten(polls)))
  {
    hide Newest, NeverBack, Merged, AllContributed;
    if NeverBack(map[], Flatten(polls)) {
      PollRunIsNewestOfAll(n, polls, lists);
    }
  }

  lemma NothingSeen(answers: seq<seq<seq<Store.Answer>>>, polls: seq<seq<map<string, S3Object>>>)
    requires |answers| == |polls|
    ensures Seen(answers[..0], polls[..0]) == []
  {
  }

  lemma SeenMore(answers: seq<seq<seq<Store.Answer>>>, polls: seq<seq<map<string, S3Object>>>, i: nat)
    requires |answers| == |polls| && forall i | 0 <= i < |answers| :: Reports(answers[i], polls[i])
    requires i < |answers|
    ensures Seen(answers[..i + 1], polls[..i + 1])
         == Seen(answers[..i], polls[..i]) + if Complete(answers[i], polls[i]) then [polls[i]] else []
  {
    assert answers[..i + 1][..i] == answers[..i] && polls[..i + 1][..i] == polls[..i];
  }

  lemma CompleteOr(answers: seq<seq<Store.Answer>>, snapshots: seq<map<string, S3Object>>)
    requires Reports(answers, snapshots)
    ensures forall i | 0 <= i < |answers| :: Store.Ends(answers[i])
    ensures Complete(answers, snapshots) <==> forall i | 0 <= i < |answers| :: Store.Listing(answers[i]).Ok?
  {
  }

  lemma FailureShows(answers: seq<seq<Store.Answer>>, error: Store.StoreError)
    requires forall i | 0 <= i < |answers| :: Store.Ends(answers[i])
    requires FirstFailure(answers, error)
    ensures exists i | 0 <= i < |answers| :: !Store.Listing(answers[i]).Ok?
  {
  }

  lemma NeverBackSplit(start: map<string, S3Object>, a: seq<map<string, S3Object>>, b: seq<map<string, S3Object>>)
    requires NeverBack(start, a + b)
    ensures NeverBack(start, a) && NeverBack(Merged(start, a), b)
  {
    var all := a + b;
    forall i | 0 <= i < |a| ensures NotBack(Merged(start, a[..i]), a[i]) {
      assert all[..i] == a[..i] && all[i] == a[i];
    }
    forall i | 0 <= i < |b| ensures NotBack(Merged(Merged(start, a), b[..i]), b[i]) {
      assert all[..|a| + i] == a + b[..i] && all[|a| + i] == b[i];
      MergedConcat(start, a, b[..i]);
    }
  }
}
