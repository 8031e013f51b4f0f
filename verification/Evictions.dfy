/**
 * What the client misses because evictions are never sent to it: exactly when
 * the published delta is enough, for arbitrary timestamps.
 */
module Evictions {
  import opened Objects
  import opened NewestN
  import opened History
  import opened HistoryLaws
  import opened Client

  /** Every entry that left the history ranks, as it was last published, below everything that stayed. */
  ghost predicate Outranked(before: map<string, S3Object>, after: map<string, S3Object>)
  {
    forall k, j | k in before && k !in after && j in after :: Newer(after[j], before[k])
  }

  ghost function Applied(n: nat, before: map<string, S3Object>, incoming: map<string, S3Object>): map<string, S3Object>
  {
    before + Effective(before, incoming, Newest(n, before + incoming))
  }

  // ----- One poll -----

  lemma AppliedContents(n: nat, before: map<string, S3Object>, incoming: map<string, S3Object>)
    requires Keyed(before) && Keyed(incoming)
    ensures var after, applied := Newest(n, before + incoming), Applied(n, before, incoming);
            && Keyed(applied) && Keyed(after) && Submap(after, applied) && applied.Keys == before.Keys + after.Keys
            && forall k | k in applied && k !in after :: k in before && applied[k] == before[k]
  {
    hide Newest;
    NewestIsSubmap(n, before + incoming);
  }

  lemma FullWhenDropped(n: nat, merged: map<string, S3Object>, k: string)
    requires Keyed(merged) && k in merged && k !in Newest(n, merged)
    ensures |Newest(n, merged)| == n
  {
    KeyedComparable(merged);
    NewestSize(n, merged);
  }

  lemma AllAbove(after: map<string, S3Object>, o: S3Object)
    requires forall j | j in after :: Newer(after[j], o)
    ensures Above(after, o) == after.Keys
  {
  }

  lemma OutrankedSuffices(n: nat, before: map<string, S3Object>, incoming: map<string, S3Object>)
    requires Keyed(before) && Keyed(incoming) && Outranked(before, Newest(n, before + incoming))
    ensures Newest(n, Applied(n, before, incoming)) == Newest(n, before + incoming)
  {
    hide Newest, Applied, Above, Keyed, Newer;
    var after, applied := Newest(n, before + incoming), Applied(n, before, incoming);
    AppliedContents(n, before, incoming);
    KeyedSum(before, incoming);
    forall k | k in applied && k !in after
      ensures |Above(after, applied[k])| >= n
    {
      FullWhenDropped(n, before + incoming, k);
      AllAbove(after, before[k]);
    }
    SubmapSuffices(n, after, applied);
    NewestIsSubmap(n, before + incoming);
    NewestBetween(n, before + incoming, after);
  }

  lemma KeyedSum(a: map<string, S3Object>, b: map<string, S3Object>)
    requires Keyed(a) && Keyed(b)
    ensures Keyed(a + b)
  {
  }

  lemma UnrankedStays(n: nat, applied: map<string, S3Object>, after: map<string, S3Object>, k: string, j: string)
    requires Keyed(applied) && Newest(n, applied) == after && k in applied && k !in after && j in after
    ensures Newer(applied[j], applied[k])
  {
    NewerTotal(applied[j], applied[k]);
    if Newer(applied[k], applied[j]) {
      AboveMonotone(applied, applied, applied[k], applied[j]);
    }
  }

  /**
   * The published delta alone rebuilds the new history from the old one if and
   * only if every evicted entry, as last published, is outranked by everything
   * retained.
   */
  lemma {:induction false} DeltaSufficesExactly(n: nat, before: map<string, S3Object>, incoming: map<string, S3Object>)
    requires Keyed(before) && Keyed(incoming)
    ensures Newest(n, Applied(n, before, incoming)) == Newest(n, before + incoming)
       <==> Outranked(before, Newest(n, before + incoming))
  {
    var after, applied := Newest(n, before + incoming), Applied(n, before, incoming);
    AppliedContents(n, before, incoming);
    if Outranked(before, after) {
      OutrankedSuffices(n, before, incoming);
    } else if Newest(n, applied) == after {
      hide Newest, Applied;
      forall k, j | k in before && k !in after && j in after
        ensures Newer(after[j], before[k])
      {
        UnrankedStays(n, applied, after, k, j);
      }
    }
  }

  /** Timestamps that never move back are one way to be outranked. */
  lemma NotBackOutranks(n: nat, before: map<string, S3Object>, incoming: map<string, S3Object>)
    requires Keyed(before) && Keyed(incoming) && NotBack(before, incoming)
    ensures Outranked(before, Newest(n, before + incoming))
  {
    hide Newest, Outranked;
    DeltaSuffices(n, before, incoming);
    DeltaSufficesExactly(n, before, incoming);
  }

  // ----- The batches of one poll -----

  /** What the client still has to learn: the rest of the delta brings every retained entry up to date. */
  ghost predicate OnTheWay(m: map<string, S3Object>, after: map<string, S3Object>, rest: seq<S3Object>)
  {
    && Keyed(m) && Keyed(after) && Outranked(m, after)
    && (forall o | o in rest :: o.key in after && after[o.key] == o)
    && (forall j | j in after :: (j in m && m[j] == after[j]) || after[j] in rest)
  }

  ghost predicate Fits(n: nat, m: map<string, S3Object>, after: map<string, S3Object>)
  {
    |m| <= n && |after| <= n && (m.Keys <= after.Keys || |after| == n)
  }

  lemma Arrived(n: nat, m: map<string, S3Object>, after: map<string, S3Object>)
    requires OnTheWay(m, after, []) && Fits(n, m, after)
    ensures m == after
  {
    assert after.Keys <= m.Keys;
    if m.Keys <= after.Keys {
      assert m.Keys == after.Keys;
    } else {
      FullSubset(after.Keys, m.Keys);
    }
  }

  /** A batch can push out only entries that are outranked or still to come. */
  lemma RetainedStays(n: nat, x: map<string, S3Object>, after: map<string, S3Object>, j: string)
    requires |after| <= n && Outranked(x, after) && j in after && j in x && x[j] == after[j]
    ensures j in Newest(n, x)
  {
    NewerIrreflexive(x[j]);
    forall i | i in Above(x, x[j])
      ensures i in after.Keys - {j}
    {
      if i !in after {
        NewerTotalOrSame(x[i], x[j]);
      }
    }
    SubsetSize(Above(x, x[j]), after.Keys - {j});
  }

  lemma NewerTotalOrSame(a: S3Object, b: S3Object)
    ensures !(Newer(a, b) && Newer(b, a))
  {
    if Newer(a, b) && Newer(b, a) {
      NewerTransitive(a, b, a);
      NewerIrreflexive(a);
    }
  }

  lemma {:induction false} BatchApplied(m: map<string, S3Object>, after: map<string, S3Object>, batch: seq<S3Object>,
    rest: seq<S3Object>)
    requires OnTheWay(m, after, batch + rest)
    ensures OnTheWay(m + Index(batch), after, rest)
    ensures (m + Index(batch)).Keys <= m.Keys + after.Keys
  {
    IndexContents(batch);
    assert forall o :: o in batch + rest <==> o in batch || o in rest;
    hide Index, Newer;
    var x := m + Index(batch);
    assert forall k | k in Index(batch) :: Index(batch)[k] in batch && after[k] == Index(batch)[k];
    forall j | j in after && after[j] !in rest
      ensures j in x && x[j] == after[j]
    {
      if after[j] in batch {
        assert after[j].key in Index(batch);
      }
    }
  }

  lemma TruncatedFits(n: nat, x: map<string, S3Object>, after: map<string, S3Object>)
    requires Keyed(x) && |after| <= n && (x.Keys <= after.Keys || |after| == n)
    ensures Submap(Newest(n, x), x) && Fits(n, Newest(n, x), after)
  {
    hide Newer;
    KeyedComparable(x);
    NewestSize(n, x);
    NewestIsSubmap(n, x);
    hide Newest;
  }

  lemma {:induction false} BatchTruncated(n: nat, x: map<string, S3Object>, after: map<string, S3Object>,
    rest: seq<S3Object>)
    requires OnTheWay(x, after, rest) && |after| <= n && (x.Keys <= after.Keys || |after| == n)
    ensures OnTheWay(Newest(n, x), after, rest) && Fits(n, Newest(n, x), after)
  {
    hide Newest, Newer, Fits;
    TruncatedFits(n, x, after);
    forall j | j in after && after[j] !in rest
      ensures j in Newest(n, x)
    {
      RetainedStays(n, x, after, j);
    }
  }

  lemma {:induction false} BatchMovesOn(n: nat, m: map<string, S3Object>, after: map<string, S3Object>,
    batch: seq<S3Object>, rest: seq<S3Object>)
    requires OnTheWay(m, after, batch + rest) && Fits(n, m, after)
    ensures var x := m + Index(batch);
            Keyed(x) && OnTheWay(Newest(n, x), after, rest) && Fits(n, Newest(n, x), after)
  {
    hide Index, Newest, Newer;
    BatchApplied(m, after, batch, rest);
    BatchTruncated(n, m + Index(batch), after, rest);
  }

  lemma {:induction false} FoldArrives(n: nat, locale: Locale, list: seq<S3Object>, m: map<string, S3Object>,
    after: map<string, S3Object>, delta: seq<S3Object>, size: nat)
    requires n > 0 && size > 0 && Lists(list, m) && Agrees(locale, list + delta)
    requires OnTheWay(m, after, delta) && Fits(n, m, after)
    ensures Lists(Fold(locale, list, Chunks(delta, size), n), after)
    decreases |delta|
  {
    hide Newest, Agrees, Merge, Fits, Lists, Newer, Outranked;
    if delta == [] {
      Arrived(n, m, after);
    } else {
      var batch := if |delta| <= size then delta else delta[..size];
      var rest := delta[|batch|..];
      assert delta == batch + rest;
      BatchMovesOn(n, m, after, batch, rest);
      BatchMerged(n, locale, list, m, batch, rest);
      FoldArrives(n, locale, Merge(locale, list, batch, n), Newest(n, m + Index(batch)), after, rest, size);
    }
  }

  lemma {:induction false} IndexOfBoth(list: seq<S3Object>, m: map<string, S3Object>, batch: seq<S3Object>)
    requires Lists(list, m) && Keyed(m)
    ensures Index(list + batch) == m + Index(batch)
  {
    IndexOfList(list, m);
    IndexConcat(list, batch);
  }

  lemma {:induction false} MergedFromBoth(n: nat, locale: Locale, list: seq<S3Object>, batch: seq<S3Object>,
    o: S3Object)
    requires n > 0 && Lists(Merge(locale, list, batch, n), Newest(n, Index(list + batch)))
    requires o in Merge(locale, list, batch, n)
    ensures o in list + batch
  {
    hide Merge;
    NewestIsSubmap(n, Index(list + batch));
    IndexContents(list + batch);
  }

  lemma {:induction false} BatchMerged(n: nat, locale: Locale, list: seq<S3Object>, m: map<string, S3Object>,
    batch: seq<S3Object>, rest: seq<S3Object>)
    requires n > 0 && Lists(list, m) && Keyed(m) && Agrees(locale, list + (batch + rest))
    ensures var merged := Merge(locale, list, batch, n);
            Lists(merged, Newest(n, m + Index(batch))) && Agrees(locale, merged + rest)
  {
    hide Merge, Lists, Newest, Index, Agrees;
    AgreesOnPart(locale, list + (batch + rest), list + batch);
    MergeIsNewest(locale, list, batch, n);
    IndexOfBoth(list, m, batch);
    var merged := Merge(locale, list, batch, n);
    forall o | o in merged
      ensures o in list + batch
    {
      MergedFromBoth(n, locale, list, batch, o);
    }
    AgreesOnPart(locale, list + (batch + rest), merged + rest);
  }

  // ----- The client after a poll -----

  lemma DeltaFits(n: nat, before: map<string, S3Object>, incoming: map<string, S3Object>)
    requires Keyed(before) && Keyed(incoming) && |before| <= n
    ensures Fits(n, before, Newest(n, before + incoming)) && Keyed(Newest(n, before + incoming))
    ensures Submap(Newest(n, before + incoming), before + incoming)
  {
    hide Newest, Newer;
    var merged := before + incoming;
    KeyedSum(before, incoming);
    KeyedComparable(merged);
    NewestSize(n, merged);
    NewestIsSubmap(n, merged);
    if k :| k in before && k !in Newest(n, merged) {
      FullWhenDropped(n, merged, k);
    }
  }

  lemma DeltaIsRetained(before: map<string, S3Object>, incoming: map<string, S3Object>, update: HistoryUpdate,
    after: map<string, S3Object>, o: S3Object)
    requires Keyed(incoming) && Submap(after, before + incoming)
    requires IsUpdate(update, before, incoming, after) && o in ObjectsOf(update.changes)
    ensures o.key in after && after[o.key] == o
  {
    hide RankedList, OldestFirst;
    ObjectsOfContents(update.changes);
  }

  lemma DeltaIsOnTheWay(n: nat, before: map<string, S3Object>, incoming: map<string, S3Object>, update: HistoryUpdate)
    requires Keyed(before) && Keyed(incoming) && |before| <= n
    requires IsUpdate(update, before, incoming, Newest(n, before + incoming))
    requires Outranked(before, Newest(n, before + incoming))
    ensures var after := Newest(n, before + incoming);
            OnTheWay(before, after, ObjectsOf(update.changes)) && Fits(n, before, after)
  {
    var after := Newest(n, before + incoming);
    DeltaFits(n, before, incoming);
    hide Newest, IsUpdate, Fits, Outranked, Keyed;
    forall o | o in ObjectsOf(update.changes)
      ensures o.key in after && after[o.key] == o
    {
      DeltaIsRetained(before, incoming, update, after, o);
    }
    forall j | j in after
      ensures (j in before && before[j] == after[j]) || after[j] in ObjectsOf(update.changes)
    {
      RetainedIsKnown(before, incoming, update, after, j);
    }
  }

  lemma RetainedIsKnown(before: map<string, S3Object>, incoming: map<string, S3Object>, update: HistoryUpdate,
    after: map<string, S3Object>, j: string)
    requires Keyed(before) && Keyed(incoming) && Submap(after, before + incoming)
    requires IsUpdate(update, before, incoming, after) && j in after
    ensures (j in before && before[j] == after[j]) || after[j] in ObjectsOf(update.changes)
  {
    hide RankedList, OldestFirst;
    ObjectsOfContents(update.changes);
    if j in incoming && DiffOf(before, incoming[j]).Some? {
      assert DiffOf(before, incoming[j]).value in update.changes;
    }
  }

  /**
   * After a poll's batches, however many, the client holds the server's list
   * when every evicted entry is outranked; timestamps may move either way.
   */
  lemma {:induction false} ClientMirrorsOutranked(n: nat, locale: Locale, before: map<string, S3Object>,
    incoming: map<string, S3Object>, update: HistoryUpdate, list: seq<S3Object>)
    requires n > 0 && Keyed(before) && Keyed(incoming) && |before| <= n
    requires IsUpdate(update, before, incoming, Newest(n, before + incoming))
    requires Lists(list, before) && Agrees(locale, list + ObjectsOf(update.changes))
    requires Outranked(before, Newest(n, before + incoming))
    ensures Lists(Fold(locale, list, Chunks(ObjectsOf(update.changes), NOTIFICATION_BATCH_OBJECTS), n),
                  Newest(n, before + incoming))
  {
    assert NOTIFICATION_BATCH_OBJECTS > 0;
    hide *;
    DeltaIsOnTheWay(n, before, incoming, update);
    FoldArrives(n, locale, list, before, Newest(n, before + incoming), ObjectsOf(update.changes),
                NOTIFICATION_BATCH_OBJECTS);
  }

  lemma {:induction false} FoldOfOneBatch(n: nat, locale: Locale, list: seq<S3Object>, delta: seq<S3Object>)
    requires |delta| <= NOTIFICATION_BATCH_OBJECTS
    ensures Fold(locale, list, Chunks(delta, NOTIFICATION_BATCH_OBJECTS), n)
         == if delta == [] then list else Merge(locale, list, delta, n)
  {
    hide Merge;
    if delta != [] {
      assert Chunks(delta, NOTIFICATION_BATCH_OBJECTS) == [delta];
      assert [delta][1..] == [];
    }
  }

  /** What the client holds after a delta of one batch, whatever the timestamps. */
  lemma {:induction false} OneBatchLists(n: nat, locale: Locale, before: map<string, S3Object>,
    incoming: map<string, S3Object>, update: HistoryUpdate, list: seq<S3Object>)
    requires n > 0 && Keyed(before) && Keyed(incoming) && |before| <= n
    requires IsUpdate(update, before, incoming, Newest(n, before + incoming))
    requires Lists(list, before) && Agrees(locale, list + ObjectsOf(update.changes))
    requires |update.changes| <= NOTIFICATION_BATCH_OBJECTS
    ensures Lists(Fold(locale, list, Chunks(ObjectsOf(update.changes), NOTIFICATION_BATCH_OBJECTS), n),
                  Newest(n, Applied(n, before, incoming)))
  {
    assert NOTIFICATION_BATCH_OBJECTS > 0;
    hide *;
    DeltaIndexed(n, before, incoming, update);
    OneBatchFolds(n, locale, before, list, ObjectsOf(update.changes));
  }

  lemma {:induction false} OneBatchFolds(n: nat, locale: Locale, m: map<string, S3Object>, list: seq<S3Object>,
    delta: seq<S3Object>)
    requires n > 0 && Keyed(m) && Newest(n, m) == m && |delta| <= NOTIFICATION_BATCH_OBJECTS
    requires Lists(list, m) && Agrees(locale, list + delta)
    ensures Lists(Fold(locale, list, Chunks(delta, NOTIFICATION_BATCH_OBJECTS), n), Newest(n, m + Index(delta)))
  {
    FoldOfOneBatch(n, locale, list, delta);
    hide Newest, Merge, Lists, Agrees, Keyed, Fold, Chunks;
    if delta == [] {
      EmptyDelta(m);
    } else {
      hide Index;
      assert delta + [] == delta;
      BatchMerged(n, locale, list, m, delta, []);
    }
  }

  lemma DeltaIndexed(n: nat, before: map<string, S3Object>, incoming: map<string, S3Object>, update: HistoryUpdate)
    requires Keyed(before) && Keyed(incoming) && |before| <= n
    requires IsUpdate(update, before, incoming, Newest(n, before + incoming))
    ensures before + Index(ObjectsOf(update.changes)) == Applied(n, before, incoming)
    ensures Newest(n, before) == before && |ObjectsOf(update.changes)| == |update.changes|
  {
    assert Applied(n, before, incoming) == before + Effective(before, incoming, Newest(n, before + incoming));
    hide *;
    IndexOfChanges(update, before, incoming, Newest(n, before + incoming));
    KeyedComparable(before);
    NewestSize(n, before);
  }

  lemma EmptyDelta(m: map<string, S3Object>)
    ensures m + Index([]) == m
  {
  }

  /**
   * For a delta of one batch the client holds the server's list if and only if
   * every evicted entry, as the client knows it, is outranked by everything
   * retained: evictions themselves are never sent.
   */
  lemma {:induction false} ClientMirrorsPollExactly(n: nat, locale: Locale, before: map<string, S3Object>,
    incoming: map<string, S3Object>, update: HistoryUpdate, list: seq<S3Object>)
    requires n > 0 && Keyed(before) && Keyed(incoming) && |before| <= n
    requires IsUpdate(update, before, incoming, Newest(n, before + incoming))
    requires Lists(list, before) && Agrees(locale, list + ObjectsOf(update.changes))
    requires |update.changes| <= NOTIFICATION_BATCH_OBJECTS
    ensures Lists(Fold(locale, list, Chunks(ObjectsOf(update.changes), NOTIFICATION_BATCH_OBJECTS), n),
                  Newest(n, before + incoming))
       <==> Outranked(before, Newest(n, before + incoming))
  {
    assert NOTIFICATION_BATCH_OBJECTS > 0;
    hide *;
    OneBatchLists(n, locale, before, incoming, update, list);
    DeltaSufficesExactly(n, before, incoming);
    var client := Fold(locale, list, Chunks(ObjectsOf(update.changes), NOTIFICATION_BATCH_OBJECTS), n);
    if Lists(client, Newest(n, before + incoming)) {
      SumsKeyed(n, before, incoming);
      SameMap(client, Newest(n, Applied(n, before, incoming)), Newest(n, before + incoming));
    }
  }

  lemma SumsKeyed(n: nat, before: map<string, S3Object>, incoming: map<string, S3Object>)
    requires Keyed(before) && Keyed(incoming)
    ensures Keyed(Newest(n, Applied(n, before, incoming))) && Keyed(Newest(n, before + incoming))
  {
    AppliedContents(n, before, incoming);
    KeyedSum(before, incoming);
  }

  /** A list is the list of one map only. */
  lemma {:induction false} SameMap(list: seq<S3Object>, a: map<string, S3Object>, b: map<string, S3Object>)
    requires Lists(list, a) && Lists(list, b) && Keyed(a) && Keyed(b)
    ensures a == b
  {
    IndexOfList(list, a);
    IndexOfList(list, b);
  }

  // ----- Whole runs, with timestamps moving either way -----

  /** At every poll of the run the evicted entries are outranked. */
  ghost predicate AlwaysOutranked(n: nat, listings: seq<map<string, S3Object>>)
  {
    forall i | 0 <= i < |listings| ::
      Outranked(BoundedRun(n, map[], listings[..i]), BoundedRun(n, map[], listings[..i + 1]))
  }

  /** Whatever was retained was listed at some time. */
  lemma {:induction false} RetainedWasListed(n: nat, listings: seq<map<string, S3Object>>)
    requires forall i | 0 <= i < |listings| :: Keyed(listings[i])
    ensures var b := BoundedRun(n, map[], listings);
            Keyed(b) && |b| <= n && forall k | k in b :: Listed(listings, b[k])
  {
    if listings != [] {
      var init, last := listings[..|listings| - 1], listings[|listings| - 1];
      RetainedWasListed(n, init);
      var merged := BoundedRun(n, map[], init) + last;
      KeyedComparable(merged);
      NewestSize(n, merged);
      hide Newest;
      NewestIsSubmap(n, merged);
      forall k | k in Newest(n, merged)
        ensures Listed(listings, merged[k])
      {
        if k in last {
          assert listings[|listings| - 1][k] == merged[k];
        } else {
          ListedLater(listings, merged[k]);
        }
      }
    }
  }

  lemma {:induction false} ListedLater(listings: seq<map<string, S3Object>>, o: S3Object)
    requires listings != [] && Listed(listings[..|listings| - 1], o)
    ensures Listed(listings, o)
  {
    var init := listings[..|listings| - 1];
    var i :| 0 <= i < |init| && o.key in init[i] && init[i][o.key] == o;
    assert listings[i] == init[i];
  }

  /** What one more poll of the run finds on the server's side. */
  lemma {:induction false} PollStep(n: nat, listings: seq<map<string, S3Object>>, updates: seq<HistoryUpdate>, i: nat)
    requires IsRun(n, listings, updates) && i < |listings|
    ensures var before, after := BoundedRun(n, map[], listings[..i]), BoundedRun(n, map[], listings[..i + 1]);
            && after == Newest(n, before + listings[i]) && Keyed(before) && |before| <= n && Keyed(listings[i])
            && |updates| == |listings| && IsUpdate(updates[i], before, listings[i], after)
            && forall k | k in before :: Listed(listings[..i], before[k])
  {
    hide Newest, RankedList, OldestFirst, Listed;
    RetainedWasListed(n, listings[..i]);
    assert listings[..i + 1][..i] == listings[..i];
  }

  lemma {:induction false} ChangesWereListed(listings: seq<map<string, S3Object>>, i: nat,
    before: map<string, S3Object>, after: map<string, S3Object>, update: HistoryUpdate, o: S3Object)
    requires i < |listings| && Keyed(listings[i]) && IsUpdate(update, before, listings[i], after)
    requires o in ObjectsOf(update.changes)
    ensures Listed(listings, o)
  {
    hide RankedList, OldestFirst;
    ObjectsOfContents(update.changes);
    assert listings[i][o.key] == o;
  }

  /** The client ranks what it holds and what the poll publishes as the server does. */
  lemma {:induction false} PollAgrees(n: nat, locale: Locale, listings: seq<map<string, S3Object>>,
    updates: seq<HistoryUpdate>, i: nat, list: seq<S3Object>)
    requires IsRun(n, listings, updates) && AgreesEver(locale, listings) && i < |listings| == |updates|
    requires Lists(list, BoundedRun(n, map[], listings[..i]))
    ensures Agrees(locale, list + ObjectsOf(updates[i].changes))
  {
    PollStep(n, listings, updates, i);
    var before, after := BoundedRun(n, map[], listings[..i]), BoundedRun(n, map[], listings[..i + 1]);
    hide IsRun, BoundedRun, Newest, IsUpdate, AgreesEver, Listed, Agrees, RankedList;
    forall o | o in list + ObjectsOf(updates[i].changes)
      ensures Listed(listings, o)
    {
      if o in list {
        ListedInPrefix(listings, i, o);
      } else {
        ChangesWereListed(listings, i, before, after, updates[i], o);
      }
    }
    ListedAgree(locale, listings, list + ObjectsOf(updates[i].changes));
  }

  lemma {:induction false} ListedInPrefix(listings: seq<map<string, S3Object>>, i: nat, o: S3Object)
    requires i <= |listings| && Listed(listings[..i], o)
    ensures Listed(listings, o)
  {
    var j :| 0 <= j < i && o.key in listings[..i][j] && listings[..i][j][o.key] == o;
    assert listings[j] == listings[..i][j];
  }

  ghost predicate MirroredAt(n: nat, locale: Locale, listings: seq<map<string, S3Object>>,
    updates: seq<HistoryUpdate>, i: nat)
    requires i <= |listings| == |updates|
  {
    Lists(ClientAfter(n, locale, updates[..i]), BoundedRun(n, map[], listings[..i]))
  }

  lemma {:induction false} ClientStepAt(n: nat, locale: Locale, updates: seq<HistoryUpdate>, i: nat)
    requires i < |updates|
    ensures ClientAfter(n, locale, updates[..i + 1])
         == Fold(locale, ClientAfter(n, locale, updates[..i]),
                 Chunks(ObjectsOf(updates[i].changes), NOTIFICATION_BATCH_OBJECTS), n)
  {
    assert updates[..i + 1][..i] == updates[..i];
  }

  /** A client that mirrors the server before a poll mirrors it afterwards when the evicted entries are outranked. */
  lemma {:induction false} MirrorSurvives(n: nat, locale: Locale, listings: seq<map<string, S3Object>>,
    updates: seq<HistoryUpdate>, i: nat)
    requires n > 0 && IsRun(n, listings, updates) && AgreesEver(locale, listings) && i < |listings| == |updates|
    requires MirroredAt(n, locale, listings, updates, i)
    ensures var out := Outranked(BoundedRun(n, map[], listings[..i]), BoundedRun(n, map[], listings[..i + 1]));
            && (out ==> MirroredAt(n, locale, listings, updates, i + 1))
            && (|updates[i].changes| <= NOTIFICATION_BATCH_OBJECTS ==>
                  (MirroredAt(n, locale, listings, updates, i + 1) <==> out))
  {
    hide IsRun, AgreesEver, BoundedRun, ClientAfter, Newest, Lists, IsUpdate, Outranked, Agrees, Fold, Chunks, Keyed;
    var list := ClientAfter(n, locale, updates[..i]);
    PollStep(n, listings, updates, i);
    PollAgrees(n, locale, listings, updates, i, list);
    ClientStepAt(n, locale, updates, i);
    var before, after := BoundedRun(n, map[], listings[..i]), BoundedRun(n, map[], listings[..i + 1]);
    if Outranked(before, after) {
      ClientMirrorsOutranked(n, locale, before, listings[i], updates[i], list);
    }
    if |updates[i].changes| <= NOTIFICATION_BATCH_OBJECTS {
      ClientMirrorsPollExactly(n, locale, before, listings[i], updates[i], list);
    }
  }

  /**
   * Over any run in which both sides rank alike, timestamps moving either way,
   * the client holds the server's list after every poll when at each one the
   * evicted entries are outranked; and, if every delta fits one batch, only then.
   */
  lemma {:induction false} RunMirroredExactly(n: nat, locale: Locale, listings: seq<map<string, S3Object>>,
    updates: seq<HistoryUpdate>)
    requires n > 0 && IsRun(n, listings, updates) && AgreesEver(locale, listings)
    ensures |updates| == |listings|
    ensures AlwaysOutranked(n, listings) ==>
      forall i: nat | i <= |listings| :: MirroredAt(n, locale, listings, updates, i)
    ensures (forall i | 0 <= i < |updates| :: |updates[i].changes| <= NOTIFICATION_BATCH_OBJECTS)
        && (forall i: nat | i <= |listings| :: MirroredAt(n, locale, listings, updates, i))
        ==> AlwaysOutranked(n, listings)
  {
    hide MirroredAt, Outranked, AgreesEver, BoundedRun;
    RunLength(n, listings, updates);
    if AlwaysOutranked(n, listings) {
      forall i: nat | i <= |listings|
        ensures MirroredAt(n, locale, listings, updates, i)
      {
        MirroredUpTo(n, locale, listings, updates, i);
      }
    }
    if (forall i | 0 <= i < |updates| :: |updates[i].changes| <= NOTIFICATION_BATCH_OBJECTS)
       && (forall i: nat | i <= |listings| :: MirroredAt(n, locale, listings, updates, i)) {
      forall i | 0 <= i < |listings|
        ensures Outranked(BoundedRun(n, map[], listings[..i]), BoundedRun(n, map[], listings[..i + 1]))
      {
        MirrorSurvives(n, locale, listings, updates, i);
      }
    }
  }

  lemma {:induction false} RunLength(n: nat, listings: seq<map<string, S3Object>>, updates: seq<HistoryUpdate>)
    requires IsRun(n, listings, updates)
    ensures |updates| == |listings|
  {
  }

  lemma {:induction false} MirroredUpTo(n: nat, locale: Locale, listings: seq<map<string, S3Object>>,
    updates: seq<HistoryUpdate>, i: nat)
    requires n > 0 && IsRun(n, listings, updates) && AgreesEver(locale, listings) && i <= |listings| == |updates|
    requires AlwaysOutranked(n, listings)
    ensures MirroredAt(n, locale, listings, updates, i)
  {
    if i > 0 {
      hide IsRun, AgreesEver, BoundedRun, ClientAfter, Outranked;
      MirroredUpTo(n, locale, listings, updates, i - 1);
      assert Outranked(BoundedRun(n, map[], listings[..i - 1]), BoundedRun(n, map[], listings[..i - 1 + 1]));
      MirrorSurvives(n, locale, listings, updates, i - 1);
    }
  }
}
