/** Exactly when the client's list is the server's over every run, timestamps moving either way. */
module Reversals {
  import opened Objects
  import opened NewestN
  import opened History
  import opened HistoryLaws
  import opened Client
  import opened Mirror
  import opened Evictions

  /** Every run over the universe leaves the client with the server's list, whether or not keys move back in it. */
  ghost predicate AlwaysMirrored(n: nat, locale: Locale, universe: set<S3Object>)
  {
    forall listings, updates | IsRun(n, listings, updates) && Within(universe, listings) ::
      Lists(ClientAfter(n, locale, updates), BoundedRun(n, map[], listings))
  }

  /** Of n objects under other keys, newest first, the last ranks between two observations of one key. */
  ghost predicate Straddle(newer: S3Object, older: S3Object, ys: seq<S3Object>)
  {
    && newer.key == older.key && RankedList(ys) && DistinctKeys(ys) && ys != []
    && (forall y | y in ys :: y.key != newer.key)
    && Newer(newer, ys[|ys| - 1]) && Newer(ys[|ys| - 1], older)
  }

  ghost predicate Straddled(n: nat, universe: set<S3Object>)
  {
    exists newer, older, ys: seq<S3Object> | newer in universe && older in universe ::
      |ys| == n && (forall y | y in ys :: y in universe) && Straddle(newer, older, ys)
  }

  // ----- Two polls on which they part -----

  function AddedAll(ys: seq<S3Object>): (r: seq<ObjectChange>)
    ensures |r| == |ys| && forall i | 0 <= i < |ys| :: r[i] == ObjectChange(Added, ys[i], None)
  {
    seq(|ys|, i requires 0 <= i < |ys| => ObjectChange(Added, ys[i], None))
  }

  /** First one object is listed, then the older observation of its key and the others. */
  function ReversalPolls(newer: S3Object, older: S3Object, ys: seq<S3Object>): seq<map<string, S3Object>>
  {
    [Single(newer), Index(ys) + Single(older)]
  }

  function ReversalUpdates(newer: S3Object, older: S3Object, ys: seq<S3Object>): seq<HistoryUpdate>
  {
    [Adds(newer, []), HistoryUpdate(AddedAll(ys), [older])]
  }

  lemma {:induction false} IndexedList(ys: seq<S3Object>)
    requires RankedList(ys) && DistinctKeys(ys)
    ensures Lists(ys, Index(ys)) && Keyed(Index(ys)) && |Index(ys)| == |ys|
  {
    IndexContents(ys);
    DistinctIndex(ys);
    hide Index;
    ListsHasDistinctKeys(ys, Index(ys));
  }

  lemma {:induction false} DistinctIndex(ys: seq<S3Object>)
    requires DistinctKeys(ys)
    ensures forall o | o in ys :: o.key in Index(ys) && Index(ys)[o.key] == o
  {
    if ys != [] {
      var init := ys[..|ys| - 1];
      DistinctIndex(init);
      assert forall o | o in ys :: o in init || o == ys[|ys| - 1];
    }
  }

  /** The last of a newest-first list is outranked by everything else on it. */
  lemma {:induction false} LastListed(ys: seq<S3Object>, o: S3Object)
    requires RankedList(ys) && o in ys
    ensures ys[|ys| - 1] == o || Newer(o, ys[|ys| - 1])
  {
  }

  /** Truncating the others and one that all of them outrank leaves the others. */
  lemma {:induction false} OneTooOld(ys: seq<S3Object>, kept: map<string, S3Object>, o: S3Object)
    requires Lists(ys, kept) && Keyed(kept) && ys != [] && Newer(ys[|ys| - 1], o) && o.key !in kept
    ensures Newest(|kept|, kept + Single(o)) == kept
  {
    forall k | k in kept
      ensures Newer(kept[k], o)
    {
      LastListed(ys, kept[k]);
      if kept[k] != ys[|ys| - 1] {
        NewerTransitive(kept[k], ys[|ys| - 1], o);
      }
    }
    hide Newest, Newer;
    DropForgettable(|kept|, kept, o);
    assert kept[o.key := o] == kept + Single(o);
  }

  /** Truncating the others and one that outranks the last of them loses the last. */
  lemma {:induction false} LastIsLost(ys: seq<S3Object>, kept: map<string, S3Object>, o: S3Object)
    requires Lists(ys, kept) && Keyed(kept) && ys != [] && Newer(o, ys[|ys| - 1]) && o.key !in kept
    ensures var m := Single(o) + kept;
            Keyed(m) && ys[|ys| - 1].key in kept && Newest(|kept|, m) == m - {ys[|ys| - 1].key}
  {
    var m, last := Single(o) + kept, ys[|ys| - 1];
    assert m.Keys == kept.Keys + {o.key};
    assert last in ys;
    forall k | k in m && k != last.key
      ensures Newer(m[k], m[last.key])
    {
      if k in kept {
        LastListed(ys, kept[k]);
      }
    }
    hide Newest, Newer, RankedList;
    DropOldest(|kept|, m, last.key);
  }

  lemma {:induction false} ReversalChanges(newer: S3Object, older: S3Object, ys: seq<S3Object>,
    kept: map<string, S3Object>)
    requires Lists(ys, kept) && Keyed(kept) && newer.key == older.key && older.key !in kept
    ensures var incoming := kept + Single(older);
            forall c :: c in AddedAll(ys) <==>
              c.item.key in kept && c.item.key in incoming && incoming[c.item.key] == c.item
              && DiffOf(Single(newer), c.item) == Some(c)
  {
    hide RankedList, Keyed;
    forall o | o in ys
      ensures ObjectChange(Added, o, None) in AddedAll(ys)
    {
      var i :| 0 <= i < |ys| && ys[i] == o;
      assert AddedAll(ys)[i] == ObjectChange(Added, o, None);
    }
  }

  lemma ReversalEvicted(newer: S3Object, older: S3Object, kept: map<string, S3Object>)
    requires newer.key == older.key && older.key !in kept
    ensures var before, incoming := Single(newer), kept + Single(older);
            forall o :: o in [older] <==> o.key in before && o.key !in kept && (before + incoming)[o.key] == o
  {
  }

  lemma {:induction false} ReversalUpdate(newer: S3Object, older: S3Object, ys: seq<S3Object>,
    kept: map<string, S3Object>)
    requires Lists(ys, kept) && Keyed(kept) && newer.key == older.key && older.key !in kept
    ensures IsUpdate(HistoryUpdate(AddedAll(ys), [older]), Single(newer), kept + Single(older), kept)
  {
    assert ObjectsOf(AddedAll(ys)) == ys && RankedList(ys) && OldestFirst([older]);
    hide RankedList, Keyed, Lists, DiffOf, AddedAll, ObjectsOf, OldestFirst, Single, Newer, Older, DistinctKeys;
    ReversalChanges(newer, older, ys, kept);
    ReversalEvicted(newer, older, kept);
  }

  lemma {:induction false} ReversalRun(newer: S3Object, older: S3Object, ys: seq<S3Object>)
    requires Straddle(newer, older, ys)
    ensures IsRun(|ys|, ReversalPolls(newer, older, ys), ReversalUpdates(newer, older, ys))
    ensures BoundedRun(|ys|, map[], ReversalPolls(newer, older, ys)) == Index(ys)
  {
    IndexedList(ys);
    assert older.key !in Index(ys);
    hide Index, RankedList, DistinctKeys, Newer, IsRun, BoundedRun, Lists, Keyed;
    ReversalOf(newer, older, ys, Index(ys));
  }

  lemma {:induction false} ReversalKeeps(newer: S3Object, older: S3Object, ys: seq<S3Object>,
    kept: map<string, S3Object>)
    requires Lists(ys, kept) && Keyed(kept) && |kept| == |ys| > 0 && newer.key == older.key && older.key !in kept
    requires Newer(ys[|ys| - 1], older)
    ensures var first, second := Single(newer), kept + Single(older);
            Keyed(first) && Keyed(second) && Newest(|ys|, first + second) == kept
  {
    hide Newest, Newer, Lists;
    OneTooOld(ys, kept, older);
    assert Single(newer) + (kept + Single(older)) == kept + Single(older);
  }

  lemma {:induction false} ReversalOf(newer: S3Object, older: S3Object, ys: seq<S3Object>, kept: map<string, S3Object>)
    requires Lists(ys, kept) && Keyed(kept) && |kept| == |ys| > 0 && newer.key == older.key && older.key !in kept
    requires Newer(ys[|ys| - 1], older)
    ensures var listings := [Single(newer), kept + Single(older)];
            IsRun(|ys|, listings, ReversalUpdates(newer, older, ys)) && BoundedRun(|ys|, map[], listings) == kept
  {
    var first, second, updates := Single(newer), kept + Single(older), ReversalUpdates(newer, older, ys);
    assert updates[0] == Adds(newer, []) && updates[1] == HistoryUpdate(AddedAll(ys), [older]) && |updates| == 2;
    hide *;
    ReversalKeeps(newer, older, ys, kept);
    FirstUpdate(newer);
    NewestOfOne(|ys|, newer);
    ReversalUpdate(newer, older, ys, kept);
    TwoListings(|ys|, first, second, updates);
  }

  lemma ListsSingle(o: S3Object)
    ensures Lists([o], Single(o)) && Keyed(Single(o))
  {
  }

  lemma {:induction false} ReversalClient(locale: Locale, newer: S3Object, older: S3Object, ys: seq<S3Object>)
    requires Straddle(newer, older, ys) && Agrees(locale, [newer] + ys)
    ensures Lists(ClientAfter(|ys|, locale, ReversalUpdates(newer, older, ys)),
                  Newest(|ys|, Single(newer) + Index(ys)))
  {
    IndexedList(ys);
    assert newer.key !in Index(ys);
    hide Index, RankedList, Newer, Lists, Keyed, Agrees, ClientAfter;
    SecondPollFolds(locale, newer, older, ys);
  }

  lemma {:induction false} SecondPollFolds(locale: Locale, newer: S3Object, older: S3Object, ys: seq<S3Object>)
    requires DistinctKeys(ys) && ys != [] && newer.key !in Index(ys) && Agrees(locale, [newer] + ys)
    ensures Lists(ClientAfter(|ys|, locale, ReversalUpdates(newer, older, ys)),
                  Newest(|ys|, Single(newer) + Index(ys)))
  {
    ListsSingle(newer);
    assert map[] + Single(newer) == Single(newer);
    assert NotBack(Single(newer), Index(ys)) && NOTIFICATION_BATCH_OBJECTS > 0;
    assert ObjectsOf(AddedAll(ys)) == ys;
    hide Fold, Chunks, ClientAfter, Newest, Index, Agrees, Lists, Keyed, NotBack, Single, AddedAll, DistinctKeys;
    NewestOfOne(|ys|, newer);
    ClientOfUpdates(|ys|, locale, newer, ReversalUpdates(newer, older, ys)[1]);
    FoldIsNewest(|ys|, locale, [newer], Single(newer), ys, NOTIFICATION_BATCH_OBJECTS);
  }

  /**
   * A key that moves back below the n-th of the other objects is evicted by the
   * server, but never by the client, which goes on ranking it where it was.
   */
  lemma {:induction false} ReversalDiverges(locale: Locale, newer: S3Object, older: S3Object, ys: seq<S3Object>)
    requires Straddle(newer, older, ys) && Agrees(locale, [newer] + ys)
    ensures !Lists(ClientAfter(|ys|, locale, ReversalUpdates(newer, older, ys)),
                   BoundedRun(|ys|, map[], ReversalPolls(newer, older, ys)))
  {
    ReversalRun(newer, older, ys);
    ReversalClient(locale, newer, older, ys);
    IndexedList(ys);
    var client, kept, last := ClientAfter(|ys|, locale, ReversalUpdates(newer, older, ys)), Index(ys), ys[|ys| - 1];
    LastIsLost(ys, kept, newer);
    KeyedPart(Single(newer) + kept, last.key);
    hide IsRun, BoundedRun, ClientAfter, Lists, Newest, Index, Straddle;
    if Lists(client, kept) {
      SameMap(client, kept, Single(newer) + kept - {last.key});
    }
  }

  lemma KeyedPart(m: map<string, S3Object>, k: string)
    requires Keyed(m)
    ensures Keyed(m - {k})
  {
  }

  // ----- Otherwise they stay together -----

  lemma {:induction false} SomeList(m: map<string, S3Object>) returns (s: seq<S3Object>)
    requires Keyed(m)
    ensures Lists(s, m) && |s| == |m|
    decreases |m|
  {
    s := [];
    if m != map[] {
      KeyedComparable(m);
      var k := OldestExists(m, m.Keys);
      assert |m - {k}| < |m| by {
        assert (m - {k}).Keys == m.Keys - {k};
      }
      var init := SomeList(m - {k});
      s := init + [m[k]];
    }
    ListsHasDistinctKeys(s, m);
  }

  /** An entry that truncation drops is outranked by what it keeps. */
  lemma DroppedIsBelow(n: nat, merged: map<string, S3Object>, k: string, j: string)
    requires Keyed(merged) && k in merged && k !in Newest(n, merged) && j in Newest(n, merged)
    ensures Newer(merged[j], merged[k])
  {
    NewerTotal(merged[j], merged[k]);
    if Newer(merged[k], merged[j]) {
      AboveMonotone(merged, merged, merged[k], merged[j]);
    }
  }

  /** The list of what is kept instead of a dropped entry that some of it does not outrank in its former state. */
  lemma {:induction false} KeptInstead(n: nat, merged: map<string, S3Object>, k: string, j: string, former: S3Object)
    returns (ys: seq<S3Object>)
    requires Keyed(merged) && k in merged && k !in Newest(n, merged)
    requires j in Newest(n, merged) && Newer(former, merged[j])
    ensures Lists(ys, Newest(n, merged)) && Keyed(Newest(n, merged)) && |ys| == n && ys != []
    ensures Newer(former, ys[|ys| - 1]) && Newer(ys[|ys| - 1], merged[k])
  {
    FullWhenDropped(n, merged, k);
    NewestIsSubmap(n, merged);
    var kept := Newest(n, merged);
    ys := SomeList(kept);
    hide Newest, Newer;
    DroppedIsBelow(n, merged, k, LastKey(ys, kept));
    LastIsBelow(ys, kept, j, former);
  }

  lemma NotOutrankedStraddles(n: nat, before: map<string, S3Object>, incoming: map<string, S3Object>,
    universe: set<S3Object>, k: string, j: string)
    requires Keyed(before) && Keyed(incoming)
    requires forall o | o in before.Values + incoming.Values :: o in universe
    requires var after := Newest(n, before + incoming);
             k in before && k !in after && j in after && !Newer(after[j], before[k])
    ensures Straddled(n, universe)
  {
    var merged, after := before + incoming, Newest(n, before + incoming);
    KeyedSum(before, incoming);
    NewestIsSubmap(n, merged);
    NewerTotal(before[k], after[j]);
    hide Newest;
    DroppedIsBelow(n, merged, k, j);
    assert k in incoming && merged[k] == incoming[k];
    hide Newer;
    var ys := KeptInstead(n, merged, k, j, before[k]);
    assert forall o | o in ys :: o in universe && o.key != k;
    hide Keyed;
    ListsHasDistinctKeys(ys, after);
    assert Straddle(before[k], incoming[k], ys);
  }

  ghost function LastKey(ys: seq<S3Object>, m: map<string, S3Object>): (k: string)
    requires Lists(ys, m) && Keyed(m) && ys != []
    ensures k in m && m[k] == ys[|ys| - 1]
  {
    assert ys[|ys| - 1] in ys;
    ys[|ys| - 1].key
  }

  lemma {:induction false} LastIsBelow(ys: seq<S3Object>, m: map<string, S3Object>, j: string, o: S3Object)
    requires Lists(ys, m) && Keyed(m) && j in m && Newer(o, m[j])
    ensures Newer(o, ys[|ys| - 1])
  {
    assert m[j] in ys;
    LastListed(ys, m[j]);
    if ys[|ys| - 1] != m[j] {
      NewerTransitive(o, m[j], ys[|ys| - 1]);
    }
  }

  lemma {:induction false} UnstraddledOutranks(n: nat, universe: set<S3Object>, listings: seq<map<string, S3Object>>)
    requires (forall i | 0 <= i < |listings| :: Keyed(listings[i])) && Within(universe, listings)
    requires !Straddled(n, universe)
    ensures AlwaysOutranked(n, listings)
  {
    forall i | 0 <= i < |listings|
      ensures Outranked(BoundedRun(n, map[], listings[..i]), BoundedRun(n, map[], listings[..i + 1]))
    {
      UnstraddledPoll(n, universe, listings, i);
    }
  }

  lemma {:induction false} UnstraddledPoll(n: nat, universe: set<S3Object>, listings: seq<map<string, S3Object>>,
    i: nat)
    requires (forall i | 0 <= i < |listings| :: Keyed(listings[i])) && Within(universe, listings)
    requires !Straddled(n, universe) && i < |listings|
    ensures Outranked(BoundedRun(n, map[], listings[..i]), BoundedRun(n, map[], listings[..i + 1]))
  {
    hide Newest, Straddled;
    var before := BoundedRun(n, map[], listings[..i]);
    RetainedWasListed(n, listings[..i]);
    assert listings[..i + 1][..i] == listings[..i];
    forall k, j | k in before && k !in Newest(n, before + listings[i]) && j in Newest(n, before + listings[i])
      ensures Newer(Newest(n, before + listings[i])[j], before[k])
    {
      if !Newer(Newest(n, before + listings[i])[j], before[k]) {
        NotOutrankedStraddles(n, before, listings[i], universe, k, j);
      }
    }
  }

  // ----- Exactly -----

  /**
   * For any collation, limit and universe of objects: every run over the
   * universe, timestamps moving either way, is mirrored if and only if both
   * sides rank every two of its objects of different keys alike and no two
   * observations of one key straddle the last of n objects under other keys.
   */
  lemma {:induction false} AlwaysMirroredExactly(n: nat, locale: Locale, universe: set<S3Object>)
    requires n > 0 && Consistent(locale)
    ensures AlwaysMirrored(n, locale, universe) <==> AgreesOn(locale, universe) && !Straddled(n, universe)
  {
    if AlwaysMirrored(n, locale, universe) {
      assert Mirrored(n, locale, universe);
      MirroredExactly(n, locale, universe);
      if Straddled(n, universe) {
        var newer, older, ys: seq<S3Object> :| newer in universe && older in universe && |ys| == n
          && (forall y | y in ys :: y in universe) && Straddle(newer, older, ys);
        StraddleParts(locale, universe, newer, older, ys);
      }
    } else if AgreesOn(locale, universe) && !Straddled(n, universe) {
      UnstraddledMirrors(n, locale, universe);
    }
  }

  lemma {:induction false} StraddleParts(locale: Locale, universe: set<S3Object>, newer: S3Object, older: S3Object,
    ys: seq<S3Object>)
    requires AgreesOn(locale, universe) && newer in universe && older in universe
    requires (forall y | y in ys :: y in universe) && Straddle(newer, older, ys)
    ensures !AlwaysMirrored(|ys|, locale, universe)
  {
    hide Compare, Newer, BoundedRun, ClientAfter, IsRun, Lists, RankedList, DistinctKeys;
    assert Agrees(locale, [newer] + ys);
    ReversalDiverges(locale, newer, older, ys);
    ReversalRun(newer, older, ys);
    ReversalWithin(universe, newer, older, ys);
  }

  lemma {:induction false} ReversalWithin(universe: set<S3Object>, newer: S3Object, older: S3Object, ys: seq<S3Object>)
    requires newer in universe && older in universe && forall y | y in ys :: y in universe
    ensures Within(universe, ReversalPolls(newer, older, ys))
  {
    IndexContents(ys);
  }

  lemma UnstraddledMirrors(n: nat, locale: Locale, universe: set<S3Object>)
    requires n > 0 && AgreesOn(locale, universe) && !Straddled(n, universe)
    ensures AlwaysMirrored(n, locale, universe)
  {
    hide BoundedRun, ClientAfter, Lists, AgreesOn, Straddled, IsUpdate;
    forall listings, updates | IsRun(n, listings, updates) && Within(universe, listings)
      ensures Lists(ClientAfter(n, locale, updates), BoundedRun(n, map[], listings))
    {
      WithinAgrees(n, locale, universe, listings, updates);
      UnstraddledOutranks(n, universe, listings);
      RunMirroredExactly(n, locale, listings, updates);
      assert MirroredAt(n, locale, listings, updates, |listings|);
      assert updates[..|updates|] == updates && listings[..|listings|] == listings;
    }
  }

  /**
   * The smallest such run, whatever the collation and with all milliseconds
   * distinct: a key listed at 10 ms comes back at 1 ms beside another at 5 ms.
   * The server keeps the other; the client, told only of the other, keeps the
   * first as it was.
   */
  lemma MovingBackDiverges(locale: Locale)
    ensures
      var x := S3Object("x", 10_000_000, 1, None, None);
      var back, y := x.(lastModified := 1_000_000), S3Object("y", 5_000_000, 1, None, None);
      var listings := [Single(x), map["y" := y, "x" := back]];
      var updates := [Adds(x, []), Adds(y, [back])];
      && AgreesOn(locale, {x, back, y}) && Within({x, back, y}, listings)
      && IsRun(1, listings, updates) && !NeverBack(map[], listings)
      && BoundedRun(1, map[], listings) == Single(y) && ClientAfter(1, locale, updates) == [x]
  {
    var x := S3Object("x", 10_000_000, 1, None, None);
    var back, y := x.(lastModified := 1_000_000), S3Object("y", 5_000_000, 1, None, None);
    DistinctMillisAgree(locale, [x] + [y]);
    assert AgreesOn(locale, {x, back, y});
    assert Straddle(x, back, [y]);
    hide Newer, Compare, Straddle, IsRun, BoundedRun, ClientAfter, Agrees, AgreesOn, NeverBack;
    ReversalOfOne(locale, x, back, y);
    MovesBack(x, back, y);
  }

  lemma ReversalOfOne(locale: Locale, x: S3Object, back: S3Object, y: S3Object)
    requires Straddle(x, back, [y]) && Agrees(locale, [x] + [y])
    ensures var listings, updates := [Single(x), map[y.key := y, x.key := back]], [Adds(x, []), Adds(y, [back])];
            && IsRun(1, listings, updates) && BoundedRun(1, map[], listings) == Single(y)
            && ClientAfter(1, locale, updates) == [x]
  {
    IndexOfOne(y);
    assert AddedAll([y]) == [ObjectChange(Added, y, None)];
    assert ReversalUpdates(x, back, [y]) == [Adds(x, []), Adds(y, [back])];
    assert Single(y) + Single(back) == map[y.key := y, x.key := back];
    assert Newer(x, y) && x.key != y.key by {
      assert y in [y] && [y][0] == y;
    }
    assert Single(x) + Single(y) == Single(y) + Single(x);
    ListsSingle(x);
    assert ReversalPolls(x, back, [y]) == [Single(x), map[y.key := y, x.key := back]];
    hide IsRun, BoundedRun, ClientAfter, Newest, Index, Straddle, Agrees, Newer, Single, AddedAll, ReversalPolls,
      ReversalUpdates, Adds, Keyed, Fold;
    ReversalRun(x, back, [y]);
    ReversalClient(locale, x, back, [y]);
    NewestOfTwo(1, y, x);
    ListsUnique(ClientAfter(1, locale, ReversalUpdates(x, back, [y])), [x]);
  }

  lemma IndexOfOne(y: S3Object)
    ensures Index([y]) == Single(y)
  {
    assert [y][..0] == [];
  }

  lemma MovesBack(x: S3Object, back: S3Object, y: S3Object)
    requires x.key == back.key && x.lastModified > back.lastModified && y.key != x.key
    ensures !NeverBack(map[], [Single(x), map[y.key := y, x.key := back]])
  {
    var listings := [Single(x), map[y.key := y, x.key := back]];
    assert listings[..1] == [Single(x)] && [Single(x)][..0] == [];
    var merged := Merged(map[], listings[..1]);
    assert merged == Merged(map[], []) + Single(x) == Single(x);
    assert x.key in merged && x.key in listings[1] && listings[1][x.key] == back;
    assert !NotBack(merged, listings[1]);
  }
}
