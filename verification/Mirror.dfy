/**
 * Which rankings of the objects keep the client's list the server's, over runs
 * in which no key moves back. Runs in which one does are treated in Reversals.
 */
module Mirror {
  import opened Objects
  import opened Sorting
  import opened NewestN
  import opened History
  import opened HistoryLaws
  import opened Client

  /** A collation never ranks two keys before each other. */
  ghost predicate Consistent(locale: Locale)
  {
    forall a, b :: !(locale(a, b) < 0 && locale(b, a) < 0)
  }

  /** Only objects of the universe are ever listed. */
  ghost predicate Within(universe: set<S3Object>, listings: seq<map<string, S3Object>>)
  {
    forall i, k | 0 <= i < |listings| && k in listings[i] :: listings[i][k] in universe
  }

  /** The two sides rank every two objects of different keys alike. */
  ghost predicate AgreesOn(locale: Locale, universe: set<S3Object>)
  {
    forall x, y | x in universe && y in universe && x.key != y.key :: Compare(locale, x, y) < 0 <==> Newer(x, y)
  }

  /** Every run over the universe in which no key moves back leaves the client with the server's list. */
  ghost predicate Mirrored(n: nat, locale: Locale, universe: set<S3Object>)
  {
    forall listings, updates
      | IsRun(n, listings, updates) && NeverBack(map[], listings) && Within(universe, listings) ::
      Lists(ClientAfter(n, locale, updates), BoundedRun(n, map[], listings))
  }

  // ----- Two polls on which they part -----

  function Single(o: S3Object): map<string, S3Object>
  {
    map[o.key := o]
  }

  function Adds(o: S3Object, evicted: seq<S3Object>): HistoryUpdate
  {
    HistoryUpdate([ObjectChange(Added, o, None)], evicted)
  }

  /** First the lower-ranked object is listed, then only the higher-ranked one. */
  function TwoPolls(low: S3Object, high: S3Object): seq<map<string, S3Object>>
  {
    [Single(low), Single(high)]
  }

  function TwoUpdates(n: nat, low: S3Object, high: S3Object): seq<HistoryUpdate>
  {
    [Adds(low, []), Adds(high, if n == 1 then [low] else [])]
  }

  lemma NewestOfOne(n: nat, o: S3Object)
    requires n > 0
    ensures Newest(n, map[] + Single(o)) == Single(o)
  {
    NewerIrreflexive(o);
    assert Above(Single(o), o) == {};
    assert map[] + Single(o) == Single(o);
  }

  lemma NewestOfTwo(n: nat, low: S3Object, high: S3Object)
    requires n > 0 && low.key != high.key && Newer(high, low)
    ensures var both := Single(low) + Single(high);
            Newest(n, both) == if n == 1 then Single(high) else both
  {
    var both := Single(low) + Single(high);
    NewerIrreflexive(low);
    NewerIrreflexive(high);
    NewerTotal(low, high);
    assert both.Keys == {low.key, high.key} && both[low.key] == low && both[high.key] == high;
    assert Above(both, high) == {};
    assert Above(both, low) == {high.key};
  }

  lemma FirstUpdate(low: S3Object)
    ensures IsUpdate(Adds(low, []), map[], Single(low), Single(low))
  {
    var update := Adds(low, []);
    assert ObjectsOf(update.changes) == [low] by {
      assert update.changes[1..] == [];
    }
  }

  lemma SecondUpdate(n: nat, low: S3Object, high: S3Object)
    requires n > 0 && low.key != high.key && Newer(high, low)
    ensures IsUpdate(TwoUpdates(n, low, high)[1], Single(low), Single(high), Newest(n, Single(low) + Single(high)))
  {
    NewestOfTwo(n, low, high);
    hide Newest;
    var update := TwoUpdates(n, low, high)[1];
    assert ObjectsOf(update.changes) == [high] by {
      assert update.changes[1..] == [];
    }
  }

  lemma TwoListings(n: nat, first: map<string, S3Object>, second: map<string, S3Object>, updates: seq<HistoryUpdate>)
    requires Keyed(first) && Keyed(second) && |updates| == 2 && Newest(n, map[] + first) == first
    requires IsUpdate(updates[0], map[], first, first)
    requires IsUpdate(updates[1], first, second, Newest(n, first + second))
    ensures IsRun(n, [first, second], updates)
    ensures BoundedRun(n, map[], [first, second]) == Newest(n, first + second)
  {
    hide Newest, IsUpdate, Keyed;
    var polls := [first, second];
    assert polls[..0] == [] && polls[..1] == [first] && polls[..2] == polls;
    assert BoundedRun(n, map[], []) == map[];
    assert [first][..0] == [];
    assert BoundedRun(n, map[], [first]) == first;
  }

  lemma TwoPollsRun(n: nat, low: S3Object, high: S3Object)
    requires n > 0 && low.key != high.key && Newer(high, low)
    ensures IsRun(n, TwoPolls(low, high), TwoUpdates(n, low, high)) && NeverBack(map[], TwoPolls(low, high))
    ensures Within({low, high}, TwoPolls(low, high))
    ensures BoundedRun(n, map[], TwoPolls(low, high)) == Newest(n, Single(low) + Single(high))
  {
    FirstUpdate(low);
    SecondUpdate(n, low, high);
    NewestOfOne(n, low);
    hide Newest, IsUpdate;
    TwoListings(n, Single(low), Single(high), TwoUpdates(n, low, high));
    var polls := TwoPolls(low, high);
    assert polls[..0] == [] && polls[..1] == [Single(low)] && [Single(low)][..0] == [];
    assert Merged(map[], [Single(low)]) == Merged(map[], []) + Single(low) == Single(low);
  }

  lemma MergeOne(locale: Locale, o: S3Object, n: nat)
    requires n > 0
    ensures Fold(locale, [], Chunks([o], NOTIFICATION_BATCH_OBJECTS), n) == [o]
  {
    FoldOne(locale, [], o, n);
    assert PutAll([], [o]) == [o] by {
      assert [o][..0] == [];
    }
    assert PutAll([], []) == [];
    assert Sort(Precedes(locale), [o]) == [o] by {
      assert [o][1..] == [];
    }
  }

  lemma FoldOne(locale: Locale, list: seq<S3Object>, o: S3Object, n: nat)
    ensures Fold(locale, list, Chunks([o], NOTIFICATION_BATCH_OBJECTS), n) == Merge(locale, list, [o], n)
  {
    hide Merge;
    assert Chunks([o], NOTIFICATION_BATCH_OBJECTS) == [[o]];
    assert [[o]][1..] == [];
  }

  /** The client leaves the lower-ranked object first when it does not rank the other one before it. */
  lemma MergeSecond(locale: Locale, low: S3Object, high: S3Object, n: nat)
    requires n > 0 && low.key != high.key && Compare(locale, high, low) >= 0
    ensures Merge(locale, [low], [high], n) == if n == 1 then [low] else [low, high]
  {
    var less := Precedes(locale);
    assert PutAll([], [low]) == [low] by {
      assert [low][..0] == [];
    }
    assert PutAll([low], [high]) == [low, high] by {
      assert [high][..0] == [] && [low][1..] == [];
      assert Put([low], high) == [low] + Put([], high);
    }
    assert Sort(less, [high]) == [high] by {
      assert [high][1..] == [];
    }
    assert Sort(less, [low, high]) == [low, high] by {
      assert [low, high][1..] == [high];
    }
  }

  lemma ClientOfUpdates(n: nat, locale: Locale, o: S3Object, second: HistoryUpdate)
    requires n > 0
    ensures ClientAfter(n, locale, [Adds(o, []), second])
         == Fold(locale, [o], Chunks(ObjectsOf(second.changes), NOTIFICATION_BATCH_OBJECTS), n)
  {
    hide Fold, Chunks;
    var updates := [Adds(o, []), second];
    MergeOne(locale, o, n);
    AddsOne(o, []);
    assert updates[..1] == [updates[0]] && [updates[0]][..0] == [];
    assert ClientAfter(n, locale, []) == [];
    assert ClientAfter(n, locale, [updates[0]]) == [o];
  }

  lemma ClientOfTwo(n: nat, locale: Locale, low: S3Object, high: S3Object)
    requires n > 0 && low.key != high.key && Compare(locale, high, low) >= 0
    ensures ClientAfter(n, locale, TwoUpdates(n, low, high)) == if n == 1 then [low] else [low, high]
  {
    hide Merge, Fold, Chunks, Compare, ClientAfter;
    var updates := TwoUpdates(n, low, high);
    ClientOfUpdates(n, locale, low, updates[1]);
    AddsOne(high, updates[1].evicted);
    FoldOne(locale, [low], high, n);
    MergeSecond(locale, low, high, n);
  }

  lemma AddsOne(o: S3Object, evicted: seq<S3Object>)
    ensures ObjectsOf(Adds(o, evicted).changes) == [o]
  {
    assert Adds(o, evicted).changes[1..] == [];
  }

  /**
   * When the client does not rank the higher object before the lower one, by
   * ranking it after or by a tie, two polls leave it with another list.
   */
  lemma TwoPollsDiverge(n: nat, locale: Locale, low: S3Object, high: S3Object)
    requires n > 0 && low.key != high.key && Newer(high, low) && Compare(locale, high, low) >= 0
    ensures !Mirrored(n, locale, {low, high})
    ensures !Lists(ClientAfter(n, locale, TwoUpdates(n, low, high)), BoundedRun(n, map[], TwoPolls(low, high)))
  {
    TwoPollsRun(n, low, high);
    ClientOfTwo(n, locale, low, high);
    NewestOfTwo(n, low, high);
    NewerTotal(low, high);
    hide IsRun, NeverBack, Within, BoundedRun, ClientAfter, Newest;
    var list := if n == 1 then [low] else [low, high];
    assert list[0] == low && low in list;
    if n > 1 {
      assert list[1] == high;
    }
  }

  // ----- Exactly -----

  lemma CompareConsistent(locale: Locale, x: S3Object, y: S3Object)
    requires Consistent(locale)
    ensures !(Compare(locale, x, y) < 0 && Compare(locale, y, x) < 0)
  {
  }

  /**
   * For any collation, limit and universe of objects: every run over the
   * universe in which no key moves back is mirrored if and only if both sides
   * rank every two of its objects of different keys alike.
   */
  lemma {:induction false} MirroredExactly(n: nat, locale: Locale, universe: set<S3Object>)
    requires n > 0 && Consistent(locale)
    ensures Mirrored(n, locale, universe) <==> AgreesOn(locale, universe)
  {
    hide Mirrored, Compare, Newer;
    if AgreesOn(locale, universe) {
      AgreementMirrors(n, locale, universe);
    } else {
      var x, y :| x in universe && y in universe && x.key != y.key && !(Compare(locale, x, y) < 0 <==> Newer(x, y));
      CompareConsistent(locale, x, y);
      NewerTotal(x, y);
      var (low, high) := if Newer(x, y) then (y, x) else (x, y);
      TwoPollsDiverge(n, locale, low, high);
      SmallerUniverse(n, locale, {low, high}, universe);
    }
  }

  lemma SmallerUniverse(n: nat, locale: Locale, part: set<S3Object>, universe: set<S3Object>)
    requires part <= universe
    ensures Mirrored(n, locale, universe) ==> Mirrored(n, locale, part)
  {
    hide IsRun, NeverBack, BoundedRun, ClientAfter, Lists;
  }

  lemma AgreementMirrors(n: nat, locale: Locale, universe: set<S3Object>)
    requires n > 0 && AgreesOn(locale, universe)
    ensures Mirrored(n, locale, universe)
  {
    hide BoundedRun, ClientAfter, Lists, NeverBack;
    forall listings, updates | IsRun(n, listings, updates) && NeverBack(map[], listings) && Within(universe, listings)
      ensures Lists(ClientAfter(n, locale, updates), BoundedRun(n, map[], listings))
    {
      WithinAgrees(n, locale, universe, listings, updates);
      ClientMirrorsServer(n, locale, listings, updates);
    }
  }

  lemma WithinAgrees(n: nat, locale: Locale, universe: set<S3Object>, listings: seq<map<string, S3Object>>,
    updates: seq<HistoryUpdate>)
    requires IsRun(n, listings, updates) && Within(universe, listings) && AgreesOn(locale, universe)
    ensures AgreesEver(locale, listings)
  {
    hide Compare, Newer;
  }

  /**
   * For two objects of different keys: every run over them in which neither
   * moves back is mirrored exactly when both sides rank the two alike.
   */
  lemma TwoObjectsMirroredExactly(n: nat, locale: Locale, x: S3Object, y: S3Object)
    requires n > 0 && Consistent(locale) && x.key != y.key
    ensures Mirrored(n, locale, {x, y}) <==> Agrees(locale, [x, y])
  {
    MirroredExactly(n, locale, {x, y});
    assert forall o :: o in {x, y} <==> o in [x, y];
  }

  /**
   * Pairwise distinct milliseconds keep the two sides together over every run in
   * which no key moves back, whatever the collation.
   */
  lemma DistinctMillisMirror(n: nat, locale: Locale, universe: set<S3Object>)
    requires n > 0 && forall x, y | x in universe && y in universe && x.key != y.key :: Millis(x) != Millis(y)
    ensures Mirrored(n, locale, universe)
  {
    hide Mirrored;
    AgreementMirrors(n, locale, universe);
  }

  /**
   * Objects of the same millisecond under a caseless collation: the server ends
   * up with "B", the client, which was told so, with "a".
   */
  lemma SameMillisecondDiverges()
    ensures
      var a, b := S3Object("a", 1_000_000, 1, None, None), S3Object("B", 1_000_000, 1, None, None);
      var ignoreCase: Locale := (x, y) => if x == "a" && y == "B" then -1 else if x == "B" && y == "a" then 1 else 0;
      && Millis(a) == Millis(b)
      && IsRun(1, TwoPolls(a, b), TwoUpdates(1, a, b)) && NeverBack(map[], TwoPolls(a, b))
      && Lists([b], BoundedRun(1, map[], TwoPolls(a, b)))
      && ClientAfter(1, ignoreCase, TwoUpdates(1, a, b)) == [a]
  {
    var a, b := S3Object("a", 1_000_000, 1, None, None), S3Object("B", 1_000_000, 1, None, None);
    var ignoreCase: Locale := (x, y) => if x == "a" && y == "B" then -1 else if x == "B" && y == "a" then 1 else 0;
    assert a.key[0] == 'a' && b.key[0] == 'B';
    assert Newer(b, a) && Compare(ignoreCase, b, a) == 1;
    hide Newer, Compare;
    TwoPollsRun(1, a, b);
    NewestOfTwo(1, a, b);
    ClientOfTwo(1, ignoreCase, a, b);
  }
}
