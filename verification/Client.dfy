/** The extension's copy of a feed: batched deltas folded through its own truncation. */
module Client {
  import opened Objects
  import opened Sorting
  import opened NewestN
  import Scanning
  import Store
  import opened History
  import opened HistoryLaws

  const NOTIFICATION_BATCH_OBJECTS: nat := 250

  /** String collation as the client's runtime provides it. */
  type Locale = (string, string) -> int

  /** The client parses timestamps to whole milliseconds. */
  function Millis(o: S3Object): int
  {
    o.lastModified / 1_000_000
  }

  function Compare(locale: Locale, left: S3Object, right: S3Object): int
  {
    var byTime := Millis(right) - Millis(left);
    if byTime != 0 then byTime else locale(left.key, right.key)
  }

  function Precedes(locale: Locale): (S3Object, S3Object) -> bool
  {
    (left, right) => Compare(locale, left, right) < 0
  }

  /**
   * Setting a key of an insertion-ordered map: an existing key keeps its place.
   * A normalized record carries every property, so spreading it over the old one
   * replaces it.
   */
  function Put(table: seq<S3Object>, o: S3Object): seq<S3Object>
  {
    if table == [] then [o]
    else if table[0].key == o.key then [o] + table[1..]
    else [table[0]] + Put(table[1..], o)
  }

  function PutAll(table: seq<S3Object>, items: seq<S3Object>): seq<S3Object>
  {
    if items == [] then table
    else Put(PutAll(table, items[..|items| - 1]), items[|items| - 1])
  }

  function Limit(limit: int): (n: nat)
    ensures n >= 1 && n >= limit && (n == 1 || n == limit)
  {
    if limit < 1 then 1 else limit
  }

  function Take(n: nat, s: seq<S3Object>): seq<S3Object>
  {
    if n <= |s| then s[..n] else s
  }

  function Merge(locale: Locale, current: seq<S3Object>, incoming: seq<S3Object>, limit: int): seq<S3Object>
  {
    Take(Limit(limit), Sort(Precedes(locale), PutAll(PutAll([], current), incoming)))
  }

  method MergeObjects(locale: Locale, current: seq<S3Object>, incoming: seq<S3Object>, limit: int)
    returns (r: seq<S3Object>)
    ensures r == Merge(locale, current, incoming, limit)
    ensures Agrees(locale, current + incoming) ==> Lists(r, Newest(Limit(limit), Index(current + incoming)))
  {
    var table: seq<S3Object> := [];
    var i := 0;
    while i < |current|
      invariant 0 <= i <= |current|
      invariant table == PutAll([], current[..i])
    {
      assert current[..i + 1][..i] == current[..i];
      table := Put(table, current[i]);
      i := i + 1;
    }
    assert current[..i] == current;
    ghost var objects := table;
    i := 0;
    while i < |incoming|
      invariant 0 <= i <= |incoming|
      invariant table == PutAll(objects, incoming[..i])
    {
      assert incoming[..i + 1][..i] == incoming[..i];
      table := Put(table, incoming[i]);
      i := i + 1;
    }
    assert incoming[..i] == incoming;
    r := Sort(Precedes(locale), table);
    r := if Limit(limit) <= |r| then r[..Limit(limit)] else r;
    if Agrees(locale, current + incoming) {
      MergeIsNewest(locale, current, incoming, limit);
    }
  }

  /** The client ranks any two of these objects under different keys as the server does. */
  ghost predicate Agrees(locale: Locale, s: seq<S3Object>)
  {
    forall a, b | a in s && b in s && a.key != b.key :: Compare(locale, a, b) < 0 <==> Newer(a, b)
  }

  /** Distinct milliseconds are enough, whatever the collation. */
  lemma DistinctMillisAgree(locale: Locale, s: seq<S3Object>)
    requires forall a, b | a in s && b in s && a.key != b.key :: Millis(a) != Millis(b)
    ensures Agrees(locale, s)
  {
  }

  lemma {:induction false} PutContents(table: seq<S3Object>, o: S3Object)
    requires DistinctKeys(table)
    ensures DistinctKeys(Put(table, o))
    ensures forall x :: x in Put(table, o) <==> x == o || (x in table && x.key != o.key)
  {
    if table != [] {
      var tail := table[1..];
      assert table == [table[0]] + tail;
      PutContents(tail, o);
      var rest := Put(tail, o);
      forall i | 0 <= i < |rest| && table[0].key != o.key ensures rest[i].key != table[0].key {
        assert rest[i] in rest;
        if rest[i] in tail {
          var j :| 0 <= j < |tail| && tail[j] == rest[i];
          assert tail[j] == table[j + 1];
        }
      }
    }
  }

  /** The insertion-ordered map holds the final observation of every key. */
  lemma {:induction false} PutAllContents(table: seq<S3Object>, items: seq<S3Object>, m: map<string, S3Object>)
    requires DistinctKeys(table) && forall o :: o in table <==> o.key in m && m[o.key] == o
    ensures DistinctKeys(PutAll(table, items))
    ensures forall o :: o in PutAll(table, items) <==> o.key in m + Index(items) && (m + Index(items))[o.key] == o
  {
    if items != [] {
      PutAllContents(table, items[..|items| - 1], m);
      PutContents(PutAll(table, items[..|items| - 1]), items[|items| - 1]);
    }
  }

  lemma MergedContents(current: seq<S3Object>, incoming: seq<S3Object>)
    ensures var values := PutAll(PutAll([], current), incoming);
            var m := Index(current + incoming);
            DistinctKeys(values) && forall o :: o in values <==> o.key in m && m[o.key] == o
  {
    PutAllContents([], current, map[]);
    PutAllContents(PutAll([], current), incoming, map[] + Index(current));
    IndexConcat(current, incoming);
    assert map[] + Index(current) == Index(current);
  }

  lemma MergeIsNewest(locale: Locale, current: seq<S3Object>, incoming: seq<S3Object>, limit: int)
    requires Agrees(locale, current + incoming)
    ensures Lists(Merge(locale, current, incoming, limit), Newest(Limit(limit), Index(current + incoming)))
  {
    var values, m := PutAll(PutAll([], current), incoming), Index(current + incoming);
    MergedContents(current, incoming);
    IndexContents(current + incoming);
    forall i, j | 0 <= i < |values| && 0 <= j < |values| && i != j
      ensures Precedes(locale)(values[i], values[j]) == Newer(values[i], values[j])
    {
      assert values[i] in values && values[j] in values;
      assert values[i] in current + incoming && values[j] in current + incoming;
      assert values[i].key != values[j].key;
    }
    SortCongruent(Precedes(locale), Newer, values);
    Store.SortIsRanked(values);
    hide Newest, Index, PutAll, Agrees;
    TakeIsNewest(Limit(limit), Sort(Newer, values), m);
  }

  // ----- Batches -----

  function Chunks(s: seq<S3Object>, size: nat): seq<seq<S3Object>>
    requires size > 0
  {
    if s == [] then []
    else if |s| <= size then [s]
    else [s[..size]] + Chunks(s[size..], size)
  }

  /** Batches lose, repeat and reorder nothing; all are full except possibly the last. */
  lemma {:induction false} ChunksPartition(s: seq<S3Object>, size: nat)
    requires size > 0
    ensures var batches := Chunks(s, size);
            && Scanning.Flatten(batches) == s
            && (forall i | 0 <= i < |batches| :: 0 < |batches[i]| <= size)
            && (forall i | 0 <= i < |batches| - 1 :: |batches[i]| == size)
  {
    if |s| > size {
      ChunksPartition(s[size..], size);
      assert s == s[..size] + s[size..];
    } else if s != [] {
      assert [s][1..] == [] && s + [] == s;
    }
  }

  /** The client's list after each batch of one poll has been merged in turn. */
  function Fold(locale: Locale, list: seq<S3Object>, batches: seq<seq<S3Object>>, limit: int): seq<S3Object>
    decreases |batches|
  {
    if batches == [] then list
    else Fold(locale, Merge(locale, list, batches[0], limit), batches[1..], limit)
  }

  /**
   * Merging a delta batch by batch, truncating after each batch, is the same as
   * applying the whole delta to the map and truncating once.
   */
  lemma {:induction false} FoldIsNewest(n: nat, locale: Locale, list: seq<S3Object>, m: map<string, S3Object>,
    delta: seq<S3Object>, size: nat)
    requires n > 0 && size > 0 && Keyed(m) && DistinctKeys(delta)
    requires Lists(list, Newest(n, m)) && NotBack(m, Index(delta))
    requires Agrees(locale, list + delta)
    ensures Lists(Fold(locale, list, Chunks(delta, size), n), Newest(n, m + Index(delta)))
    decreases |delta|
  {
    hide Newest, Agrees, Merge;
    if delta == [] {
      assert m + Index(delta) == m;
    } else {
      var batch := if |delta| <= size then delta else delta[..size];
      var rest := delta[|batch|..];
      assert delta == batch + rest;
      OneBatch(n, locale, list, m, batch, rest);
      FoldIsNewest(n, locale, Merge(locale, list, batch, n), m + Index(batch), rest, size);
      IndexConcat(batch, rest);
      MergeAssociative(m, Index(batch), Index(rest));
    }
  }

  lemma OneBatch(n: nat, locale: Locale, list: seq<S3Object>, m: map<string, S3Object>,
    batch: seq<S3Object>, rest: seq<S3Object>)
    requires n > 0 && Keyed(m) && DistinctKeys(batch + rest)
    requires Lists(list, Newest(n, m)) && NotBack(m, Index(batch + rest))
    requires Agrees(locale, list + (batch + rest))
    ensures var merged := Merge(locale, list, batch, n);
            Lists(merged, Newest(n, m + Index(batch))) && Agrees(locale, merged + rest)
    ensures Keyed(m + Index(batch)) && DistinctKeys(rest) && NotBack(m + Index(batch), Index(rest))
  {
    SplitDelta(m, batch, rest);
    AgreesOnPart(locale, list + (batch + rest), list + batch);
    MergeIsNewest(locale, list, batch, n);
    IndexContents(list + batch);
    KeptIndex(n, list, m);
    IndexConcat(list, batch);
    NewestOverride(n, m, Index(batch));
    var merged := Merge(locale, list, batch, n);
    forall o | o in merged ensures o in list + batch {
      assert o == Index(list + batch)[o.key];
    }
    AgreesOnPart(locale, list + (batch + rest), merged + rest);
  }

  lemma AgreesOnPart(locale: Locale, all: seq<S3Object>, part: seq<S3Object>)
    requires Agrees(locale, all) && forall o | o in part :: o in all
    ensures Agrees(locale, part)
  {
  }

  lemma KeptIndex(n: nat, list: seq<S3Object>, m: map<string, S3Object>)
    requires Keyed(m) && Lists(list, Newest(n, m))
    ensures Index(list) == Newest(n, m)
  {
    IndexOfList(list, Newest(n, m));
  }

  lemma HalvesDistinct(batch: seq<S3Object>, rest: seq<S3Object>)
    requires DistinctKeys(batch + rest)
    ensures DistinctKeys(rest) && forall a, b | a in batch && b in rest :: a.key != b.key
  {
    var all := batch + rest;
    assert forall i | 0 <= i < |batch| :: all[i] == batch[i];
    assert forall i | 0 <= i < |rest| :: all[|batch| + i] == rest[i];
  }

  lemma SplitDelta(m: map<string, S3Object>, batch: seq<S3Object>, rest: seq<S3Object>)
    requires Keyed(m) && DistinctKeys(batch + rest) && NotBack(m, Index(batch + rest))
    ensures Keyed(m + Index(batch)) && DistinctKeys(rest)
    ensures NotBack(m, Index(batch)) && NotBack(m + Index(batch), Index(rest))
  {
    HalvesDistinct(batch, rest);
    IndexContents(batch);
    IndexContents(rest);
    IndexConcat(batch, rest);
    hide Index, DistinctKeys;
    assert forall k | k in Index(rest) :: k !in Index(batch);
  }

  // ----- The client mirrors the server -----

  /** When no key moves back, the published delta alone rebuilds the truncated history from the previous one. */
  lemma {:induction false} DeltaSuffices(n: nat, before: map<string, S3Object>, incoming: map<string, S3Object>)
    requires Keyed(before) && Keyed(incoming) && NotBack(before, incoming)
    ensures var after := Newest(n, before + incoming);
            Newest(n, before + Effective(before, incoming, after)) == after
  {
    var merged := before + incoming;
    var after := Newest(n, merged);
    var applied := before + Effective(before, incoming, after);
    forall k | k in applied && k !in after ensures |Above(after, applied[k])| >= n {
      AboveKept(n, merged, merged[k]);
      assert Above(after, merged[k]) <= Above(after, before[k]);
      SubsetSize(Above(after, merged[k]), Above(after, before[k]));
    }
    SubmapSuffices(n, after, applied);
    NewestBetween(n, merged, after);
  }

  /** After the batches of a poll in which no key moves back the client holds exactly the server's list, in order. */
  lemma {:induction false} ClientMirrorsPoll(n: nat, locale: Locale, before: map<string, S3Object>,
    incoming: map<string, S3Object>, update: HistoryUpdate, list: seq<S3Object>)
    requires n > 0 && Keyed(before) && Keyed(incoming) && |before| <= n && NotBack(before, incoming)
    requires IsUpdate(update, before, incoming, Newest(n, before + incoming))
    requires Lists(list, before) && Agrees(locale, list + ObjectsOf(update.changes))
    ensures Lists(Fold(locale, list, Chunks(ObjectsOf(update.changes), NOTIFICATION_BATCH_OBJECTS), n),
                  Newest(n, before + incoming))
  {
    var after := Newest(n, before + incoming);
    var delta := ObjectsOf(update.changes);
    NewestIsSubmap(n, before + incoming);
    UpdateKeys(update, before, incoming, after);
    IndexOfChanges(update, before, incoming, after);
    KeyedComparable(before);
    NewestSize(n, before);
    DeltaSuffices(n, before, incoming);
    DeltaDistinct(update.changes);
    EffectiveNotBack(before, incoming, after);
    hide Newest, IsUpdate, Effective;
    FoldIsNewest(n, locale, list, before, delta, NOTIFICATION_BATCH_OBJECTS);
  }

  lemma DeltaDistinct(changes: seq<ObjectChange>)
    requires DistinctChanges(changes)
    ensures DistinctKeys(ObjectsOf(changes))
  {
  }

  lemma EffectiveNotBack(before: map<string, S3Object>, incoming: map<string, S3Object>, after: map<string, S3Object>)
    requires NotBack(before, incoming)
    ensures NotBack(before, Effective(before, incoming, after))
  {
  }

  /** The client's list after a run of polls, starting empty. */
  ghost function ClientAfter(n: nat, locale: Locale, updates: seq<HistoryUpdate>): seq<S3Object>
  {
    if updates == [] then []
    else
      Fold(locale, ClientAfter(n, locale, updates[..|updates| - 1]),
        Chunks(ObjectsOf(updates[|updates| - 1].changes), NOTIFICATION_BATCH_OBJECTS), n)
  }

  /** The two sides rank every pair of objects ever listed alike. */
  ghost predicate AgreesEver(locale: Locale, listings: seq<map<string, S3Object>>)
  {
    forall i, j, k, l | 0 <= i < |listings| && 0 <= j < |listings| && k in listings[i] && l in listings[j] && k != l ::
      Compare(locale, listings[i][k], listings[j][l]) < 0 <==> Newer(listings[i][k], listings[j][l])
  }

  lemma {:induction false} MergedOrigin(listings: seq<map<string, S3Object>>)
    requires forall i | 0 <= i < |listings| :: Keyed(listings[i])
    ensures Keyed(Merged(map[], listings))
    ensures forall k | k in Merged(map[], listings) ::
      exists i | 0 <= i < |listings| :: k in listings[i] && listings[i][k] == Merged(map[], listings)[k]
  {
    if listings != [] {
      var init := listings[..|listings| - 1];
      MergedOrigin(init);
      forall k | k in Merged(map[], listings)
        ensures exists i | 0 <= i < |listings| :: k in listings[i] && listings[i][k] == Merged(map[], listings)[k]
      {
        if k !in listings[|listings| - 1] {
          var i :| 0 <= i < |init| && k in init[i] && init[i][k] == Merged(map[], init)[k];
          assert listings[i] == init[i];
        }
      }
    }
  }

  lemma RunPrefix(n: nat, locale: Locale, listings: seq<map<string, S3Object>>, updates: seq<HistoryUpdate>)
    requires listings != [] && IsRun(n, listings, updates)
    requires NeverBack(map[], listings) && AgreesEver(locale, listings)
    ensures |updates| == |listings|
    ensures var last := |listings| - 1;
            && IsRun(n, listings[..last], updates[..last])
            && NeverBack(map[], listings[..last])
            && AgreesEver(locale, listings[..last])
            && Keyed(listings[last])
            && IsUpdate(updates[last], BoundedRun(n, map[], listings[..last]), listings[last],
                        BoundedRun(n, map[], listings))
            && NotBack(Merged(map[], listings[..last]), listings[last])
            && BoundedRun(n, map[], listings) == Newest(n, BoundedRun(n, map[], listings[..last]) + listings[last])
  {
    hide Newest, IsUpdate, Keyed, NotBack, Merged, NeverBack;
    var r := listings[..|listings| - 1];
    assert forall i | 0 <= i <= |r| :: r[..i] == listings[..i];
    assert listings[..|listings|] == listings;
    NeverBackPrefix(map[], listings);
    AgreesEverPrefix(locale, listings);
  }

  lemma AgreesEverPrefix(locale: Locale, listings: seq<map<string, S3Object>>)
    requires listings != [] && AgreesEver(locale, listings)
    ensures AgreesEver(locale, listings[..|listings| - 1])
  {
  }

  lemma ServerState(n: nat, listings: seq<map<string, S3Object>>)
    requires NeverBack(map[], listings) && forall i | 0 <= i < |listings| :: Keyed(listings[i])
    ensures var b := BoundedRun(n, map[], listings); Keyed(b) && |b| <= n && Submap(b, Merged(map[], listings))
  {
    RunIsNewestOfAll(n, listings);
    MergedOrigin(listings);
    KeyedComparable(Merged(map[], listings));
    NewestSize(n, Merged(map[], listings));
  }

  ghost predicate Listed(listings: seq<map<string, S3Object>>, o: S3Object)
  {
    exists i | 0 <= i < |listings| :: o.key in listings[i] && listings[i][o.key] == o
  }

  lemma ListedAgree(locale: Locale, listings: seq<map<string, S3Object>>, s: seq<S3Object>)
    requires AgreesEver(locale, listings) && forall o | o in s :: Listed(listings, o)
    ensures Agrees(locale, s)
  {
  }

  lemma PollIsListed(listings: seq<map<string, S3Object>>, list: seq<S3Object>, before: map<string, S3Object>,
    update: HistoryUpdate, after: map<string, S3Object>)
    requires listings != [] && forall i | 0 <= i < |listings| :: Keyed(listings[i])
    requires Lists(list, before) && Submap(before, Merged(map[], listings[..|listings| - 1]))
    requires IsUpdate(update, before, listings[|listings| - 1], after)
    ensures forall o | o in list + ObjectsOf(update.changes) :: Listed(listings, o)
  {
    hide RankedList, OldestFirst, Keyed, Merged, DiffOf;
    var last := |listings| - 1;
    assert forall i | 0 <= i < last :: listings[..last][i] == listings[i];
    MergedOrigin(listings[..last]);
    forall o | o in list ensures Listed(listings, o) {
      var i :| 0 <= i < last && o.key in listings[..last][i] && listings[..last][i][o.key] == o;
      assert listings[i] == listings[..last][i];
    }
    ObjectsOfContents(update.changes);
    forall o | o in ObjectsOf(update.changes) ensures Listed(listings, o) {
      assert listings[last][o.key] == o;
    }
  }

  /** After every poll of a run in which no key moves back the two sides hold the same list. */
  lemma {:induction false} ClientMirrorsServer(n: nat, locale: Locale, listings: seq<map<string, S3Object>>,
    updates: seq<HistoryUpdate>)
    requires n > 0 && IsRun(n, listings, updates)
    requires NeverBack(map[], listings) && AgreesEver(locale, listings)
    ensures Lists(ClientAfter(n, locale, updates), BoundedRun(n, map[], listings))
    decreases |listings|
  {
    if listings != [] {
      var last := |listings| - 1;
      RunPrefix(n, locale, listings, updates);
      ClientMirrorsServer(n, locale, listings[..last], updates[..last]);
      assert forall i | 0 <= i < |listings| :: Keyed(listings[i]);
      hide *;
      OnePollMore(n, locale, listings, updates, ClientAfter(n, locale, updates[..last]));
      ClientStep(n, locale, updates);
    }
  }

  lemma ClientStep(n: nat, locale: Locale, updates: seq<HistoryUpdate>)
    requires updates != []
    ensures var last := |updates| - 1;
            ClientAfter(n, locale, updates) == Fold(locale, ClientAfter(n, locale, updates[..last]),
              Chunks(ObjectsOf(updates[last].changes), NOTIFICATION_BATCH_OBJECTS), n)
  {
  }

  lemma OnePollMore(n: nat, locale: Locale, listings: seq<map<string, S3Object>>, updates: seq<HistoryUpdate>,
    list: seq<S3Object>)
    requires n > 0 && listings != [] && IsRun(n, listings, updates)
    requires NeverBack(map[], listings) && AgreesEver(locale, listings)
    requires Lists(list, BoundedRun(n, map[], listings[..|listings| - 1]))
    ensures |updates| == |listings|
    ensures Lists(Fold(locale, list, Chunks(ObjectsOf(updates[|listings| - 1].changes), NOTIFICATION_BATCH_OBJECTS), n),
                  BoundedRun(n, map[], listings))
  {
    var last := |listings| - 1;
    assert forall i | 0 <= i < |listings| :: Keyed(listings[i]);
    assert forall i | 0 <= i < last :: listings[..last][i] == listings[i];
    RunPrefix(n, locale, listings, updates);
    hide *;
    var before := BoundedRun(n, map[], listings[..last]);
    ServerState(n, listings[..last]);
    PollIsListed(listings, list, before, updates[last], BoundedRun(n, map[], listings));
    ListedAgree(locale, listings, list + ObjectsOf(updates[last].changes));
    SubmapNotBack(before, Merged(map[], listings[..last]), listings[last]);
    ClientMirrorsPoll(n, locale, before, listings[last], updates[last], list);
  }
}
