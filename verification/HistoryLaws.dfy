/** What holds of the history across calls: exact deltas, replays, whole runs. */
module HistoryLaws {
  import opened Objects
  import opened NewestN
  import opened History

  ghost function Added(changes: seq<ObjectChange>): seq<S3Object>
  {
    if changes == [] then []
    else
      var front, last := changes[..|changes| - 1], changes[|changes| - 1];
      Added(front) + if last.kind.Added? then [last.item] else []
  }

  lemma {:induction false} AddedContents(changes: seq<ObjectChange>)
    requires DistinctChanges(changes)
    ensures DistinctKeys(Added(changes))
    ensures forall o :: o in Added(changes) <==> exists c | c in changes :: c.kind.Added? && c.item == o
  {
    if changes != [] {
      var front, last := changes[..|changes| - 1], changes[|changes| - 1];
      AddedContents(front);
      assert changes == front + [last];
      assert last in changes;
      var added := Added(front);
      forall i | 0 <= i < |added| ensures added[i].key != last.item.key {
        assert added[i] in added;
      }
    }
  }

  lemma UpdateKeys(update: HistoryUpdate, before: map<string, S3Object>, incoming: map<string, S3Object>,
    after: map<string, S3Object>)
    requires Keyed(before) && Keyed(incoming) && Submap(after, before + incoming)
    requires IsUpdate(update, before, incoming, after)
    ensures DistinctChanges(update.changes) && DistinctKeys(update.evicted)
    ensures KeySet(Added(update.changes)) == after.Keys - before.Keys
    ensures KeySet(update.evicted) == before.Keys - after.Keys
    ensures DistinctKeys(Added(update.changes))
  {
    var s := ObjectsOf(update.changes);
    forall i, j | 0 <= i < j < |s| ensures s[i].key != s[j].key {
      assert update.changes[i] in update.changes && update.changes[j] in update.changes;
      NewerIrreflexive(s[i]);
    }
    forall i, j | 0 <= i < j < |update.evicted| ensures update.evicted[i].key != update.evicted[j].key {
      assert update.evicted[i] in update.evicted && update.evicted[j] in update.evicted;
      NewerIrreflexive(update.evicted[i]);
    }
    AddedContents(update.changes);
    AddedKeys(update, before, incoming, after);
    forall k | k in before && k !in after ensures k in KeySet(update.evicted) {
      assert (before + incoming)[k] in update.evicted;
    }
  }

  lemma AddedKeys(update: HistoryUpdate, before: map<string, S3Object>, incoming: map<string, S3Object>,
    after: map<string, S3Object>)
    requires Keyed(incoming) && Submap(after, before + incoming)
    requires IsUpdate(update, before, incoming, after) && DistinctChanges(update.changes)
    ensures KeySet(Added(update.changes)) == after.Keys - before.Keys
  {
    AddedContents(update.changes);
    forall k | k in after && k !in before ensures k in KeySet(Added(update.changes)) {
      assert ObjectChange(ChangeKind.Added, incoming[k], None) in update.changes;
      assert incoming[k] in Added(update.changes);
    }
  }

  /** Applying the changes and removing the evicted keys reproduces the new history. */
  lemma {:induction false} DeltaIsExact(n: nat, update: HistoryUpdate, before: map<string, S3Object>,
    incoming: map<string, S3Object>)
    requires Keyed(before) && Keyed(incoming)
    requires IsUpdate(update, before, incoming, Newest(n, before + incoming))
    ensures before + Index(ObjectsOf(update.changes)) - KeySet(update.evicted) == Newest(n, before + incoming)
    ensures |Newest(n, before + incoming)| == |before| + |Added(update.changes)| - |update.evicted|
    ensures KeySet(ObjectsOf(update.changes)) !! KeySet(update.evicted)
  {
    hide *;
    var after := Newest(n, before + incoming);
    NewestIsSubmap(n, before + incoming);
    UpdateKeys(update, before, incoming, after);
    IndexOfChanges(update, before, incoming, after);
    ApplyDelta(before, incoming, after);
    DeltaSizes(before.Keys, after.Keys);
    DistinctSize(Added(update.changes));
    DistinctSize(update.evicted);
  }

  lemma NewestIsSubmap(n: nat, m: map<string, S3Object>)
    ensures Submap(Newest(n, m), m)
  {
  }

  lemma DistinctSize(s: seq<S3Object>)
    requires DistinctKeys(s)
    ensures |KeySet(s)| == |s|
  {
    KeySetSize(s);
  }

  lemma DeltaSizes(before: set<string>, after: set<string>)
    ensures |after| == |before| + |after - before| - |before - after|
  {
    assert after == after * before + (after - before);
    assert before == after * before + (before - after);
  }

  /** The part of a listing that both changes the history and survives. */
  ghost function Effective(before: map<string, S3Object>, incoming: map<string, S3Object>,
    after: map<string, S3Object>):
    map<string, S3Object>
  {
    map k | k in incoming && k in after && DiffOf(before, incoming[k]).Some? :: incoming[k]
  }

  lemma ApplyDelta(before: map<string, S3Object>, incoming: map<string, S3Object>, after: map<string, S3Object>)
    requires Keyed(incoming) && Submap(after, before + incoming)
    ensures before + Effective(before, incoming, after) - (before.Keys - after.Keys) == after
  {
    assert (before + Effective(before, incoming, after) - (before.Keys - after.Keys)).Keys == after.Keys;
  }

  lemma ObjectsOfContents(changes: seq<ObjectChange>)
    ensures forall o :: o in ObjectsOf(changes) <==> exists c | c in changes :: c.item == o
  {
  }

  lemma IndexOfChanges(update: HistoryUpdate, before: map<string, S3Object>, incoming: map<string, S3Object>,
    after: map<string, S3Object>)
    requires Keyed(incoming) && IsUpdate(update, before, incoming, after)
    ensures Index(ObjectsOf(update.changes)) == Effective(before, incoming, after)
    ensures KeySet(ObjectsOf(update.changes)) <= after.Keys
  {
    var changed, effective := ObjectsOf(update.changes), Effective(before, incoming, after);
    ObjectsOfContents(update.changes);
    forall o ensures o in changed <==> o.key in effective && effective[o.key] == o {
      if o.key in effective && effective[o.key] == o {
        assert DiffOf(before, o).value in update.changes;
      }
    }
    IndexOfValues(changed, effective);
  }

  /** A list of a map's entries indexes back to the map. */
  lemma IndexOfList(list: seq<S3Object>, m: map<string, S3Object>)
    requires Lists(list, m) && Keyed(m)
    ensures Index(list) == m
  {
    IndexOfValues(list, m);
  }

  lemma SomeMember<T>(s: seq<T>)
    requires s != []
    ensures exists x :: x in s
  {
    assert s[0] in s;
  }

  /** Applying the same listing again changes nothing and reports nothing. */
  lemma RepeatReportsNothing(n: nat, before: map<string, S3Object>, incoming: map<string, S3Object>,
    again: HistoryUpdate)
    requires Keyed(before) && Keyed(incoming)
    requires var after := Newest(n, before + incoming);
             IsUpdate(again, after, incoming, Newest(n, after + incoming))
    ensures Newest(n, Newest(n, before + incoming) + incoming) == Newest(n, before + incoming)
    ensures again == HistoryUpdate([], [])
  {
    hide *;
    Reapply(n, before, incoming);
    NothingNew(Newest(n, before + incoming), incoming, again);
  }

  lemma Reapply(n: nat, before: map<string, S3Object>, incoming: map<string, S3Object>)
    ensures Newest(n, Newest(n, before + incoming) + incoming) == Newest(n, before + incoming)
    ensures forall k | k in Newest(n, before + incoming) && k in incoming ::
      Newest(n, before + incoming)[k] == incoming[k]
  {
    NewestBetween(n, before + incoming, Newest(n, before + incoming) + incoming);
  }

  lemma NothingNew(after: map<string, S3Object>, incoming: map<string, S3Object>, again: HistoryUpdate)
    requires Keyed(incoming) && IsUpdate(again, after, incoming, after)
    requires forall k | k in after && k in incoming :: after[k] == incoming[k]
    ensures again == HistoryUpdate([], [])
  {
    if again.changes != [] {
      SomeMember(again.changes);
    }
    if again.evicted != [] {
      SomeMember(again.evicted);
    }
  }

  // ----- Undoing an update -----

  /** What the changes say was there before. */
  ghost function Previous(changes: seq<ObjectChange>): map<string, S3Object>
  {
    if changes == [] then map[]
    else
      var last := changes[|changes| - 1];
      var rest := Previous(changes[..|changes| - 1]);
      if last.previous.Some? then rest[last.item.key := last.previous.value] else rest
  }

  lemma {:induction false} PreviousContents(changes: seq<ObjectChange>)
    requires DistinctChanges(changes)
    ensures forall k :: k in Previous(changes) <==> exists c | c in changes :: c.item.key == k && c.previous.Some?
    ensures forall c | c in changes && c.previous.Some? :: Previous(changes)[c.item.key] == c.previous.value
  {
    if changes != [] {
      var front, last := changes[..|changes| - 1], changes[|changes| - 1];
      PreviousContents(front);
      assert changes == front + [last] && last in changes;
      assert forall c | c in front :: c.item.key != last.item.key;
    }
  }

  /** The update taken back: added keys go, changed ones get what they had, evicted ones return. */
  ghost function Undone(update: HistoryUpdate, after: map<string, S3Object>): map<string, S3Object>
  {
    after - KeySet(ObjectsOf(update.changes)) + Previous(update.changes) + Index(update.evicted)
  }

  /** No key that leaves the history was changed by the same listing. */
  ghost predicate LeavesUnchanged(before: map<string, S3Object>, incoming: map<string, S3Object>,
    after: map<string, S3Object>)
  {
    forall k | k in before && k !in after && k in incoming :: incoming[k] == before[k]
  }

  /** A retained key is reported with what it had, when the listing changed it, and not reported otherwise. */
  lemma KeptKeyReported(update: HistoryUpdate, before: map<string, S3Object>, incoming: map<string, S3Object>,
    after: map<string, S3Object>, k: string)
    requires Keyed(before) && Keyed(incoming) && Submap(after, before + incoming)
    requires IsUpdate(update, before, incoming, after) && DistinctChanges(update.changes) && k in after
    ensures var changed := k in incoming && DiffOf(before, incoming[k]).Some?;
            && (k in KeySet(ObjectsOf(update.changes)) <==> changed)
            && (k in Previous(update.changes) <==> changed && k in before)
            && (changed && k in before ==> Previous(update.changes)[k] == before[k])
            && (!changed ==> k in before && after[k] == before[k])
  {
    hide RankedList, OldestFirst;
    PreviousContents(update.changes);
    ObjectsOfContents(update.changes);
    if k in incoming && DiffOf(before, incoming[k]).Some? {
      assert DiffOf(before, incoming[k]).value in update.changes;
    }
    hide Previous, ObjectsOf;
  }

  lemma KeptKeyUndone(update: HistoryUpdate, before: map<string, S3Object>, incoming: map<string, S3Object>,
    after: map<string, S3Object>, k: string)
    requires Keyed(before) && Keyed(incoming) && Submap(after, before + incoming)
    requires IsUpdate(update, before, incoming, after) && k in after
    ensures k in Undone(update, after) <==> k in before
    ensures k in before ==> Undone(update, after)[k] == before[k]
  {
    UpdateKeys(update, before, incoming, after);
    KeptKeyReported(update, before, incoming, after, k);
    IndexContents(update.evicted);
    hide Index, Previous, ObjectsOf, RankedList, OldestFirst, Keyed, DiffOf;
    assert k !in Index(update.evicted);
    hide IsUpdate;
  }

  lemma GoneKeyUndone(update: HistoryUpdate, before: map<string, S3Object>, incoming: map<string, S3Object>,
    after: map<string, S3Object>, k: string)
    requires Keyed(before) && Keyed(incoming) && Submap(after, before + incoming)
    requires IsUpdate(update, before, incoming, after) && k !in after
    ensures k in Undone(update, after) <==> k in before
    ensures k in before ==> Undone(update, after)[k] == (before + incoming)[k]
  {
    hide RankedList, OldestFirst;
    UpdateKeys(update, before, incoming, after);
    PreviousContents(update.changes);
    IndexContents(update.evicted);
    if k in before {
      assert (before + incoming)[k] in update.evicted;
    }
    hide Index, Previous;
  }

  /**
   * An update can be taken back from what it reports if and only if no key that
   * left the history was changed by the same listing: such a key is reported as
   * evicted in its new state only.
   */
  lemma {:induction false} UndoneExactly(update: HistoryUpdate, before: map<string, S3Object>,
    incoming: map<string, S3Object>, after: map<string, S3Object>)
    requires Keyed(before) && Keyed(incoming) && Submap(after, before + incoming)
    requires IsUpdate(update, before, incoming, after)
    ensures Undone(update, after) == before <==> LeavesUnchanged(before, incoming, after)
  {
    hide IsUpdate, Undone;
    var undone := Undone(update, after);
    forall k
      ensures k in undone <==> k in before
      ensures k in before ==> undone[k] == if k in after then before[k] else (before + incoming)[k]
    {
      if k in after {
        KeptKeyUndone(update, before, incoming, after, k);
      } else {
        GoneKeyUndone(update, before, incoming, after, k);
      }
    }
    assert undone.Keys == before.Keys;
  }

  /** A key that comes back older and is evicted for it cannot be restored. */
  lemma MovedBackIsNotUndone()
    ensures
      var x, y := S3Object("x", 10, 1, None, None), S3Object("y", 5, 1, None, None);
      var back := x.(lastModified := 1);
      var before, incoming, after := map["x" := x], map["x" := back, "y" := y], map["y" := y];
      var update := HistoryUpdate([ObjectChange(ChangeKind.Added, y, None)], [back]);
      && after == Newest(1, before + incoming) && IsUpdate(update, before, incoming, after)
      && Undone(update, after) == map["x" := back] != before
  {
    var x, y := S3Object("x", 10, 1, None, None), S3Object("y", 5, 1, None, None);
    var back := x.(lastModified := 1);
    var before, incoming, after := map["x" := x], map["x" := back, "y" := y], map["y" := y];
    var update := HistoryUpdate([ObjectChange(ChangeKind.Added, y, None)], [back]);
    assert Above(incoming, y) == {} && Above(incoming, back) == {"y"};
    assert before + incoming == incoming;
    assert Newest(1, incoming) == after;
    hide Newest;
    assert update.changes[1..] == [] && ObjectsOf(update.changes) == [y];
    assert update.changes[..0] == [] && [back][..0] == [];
    assert Previous(update.changes) == map[] && Index([back]) == map["x" := back];
    assert KeySet([y]) == {"y"};
  }

  // ----- Whole runs -----

  /** Everything ever observed, by its last observation. */
  ghost function Merged(start: map<string, S3Object>, listings: seq<map<string, S3Object>>): map<string, S3Object>
  {
    if listings == [] then start
    else Merged(start, listings[..|listings| - 1]) + listings[|listings| - 1]
  }

  ghost function BoundedRun(n: nat, start: map<string, S3Object>,
    listings: seq<map<string, S3Object>>): map<string, S3Object>
  {
    if listings == [] then start
    else Newest(n, BoundedRun(n, start, listings[..|listings| - 1]) + listings[|listings| - 1])
  }

  /** No listing reports a key as older than any earlier observation of it. */
  ghost predicate NeverBack(start: map<string, S3Object>, listings: seq<map<string, S3Object>>)
  {
    forall i | 0 <= i < |listings| :: NotBack(Merged(start, listings[..i]), listings[i])
  }

  /** A run of the history: each update reports its listing against the bounded history so far. */
  ghost predicate IsRun(n: nat, listings: seq<map<string, S3Object>>, updates: seq<HistoryUpdate>)
  {
    && |updates| == |listings|
    && forall i | 0 <= i < |listings| ::
      && Keyed(listings[i])
      && IsUpdate(updates[i], BoundedRun(n, map[], listings[..i]), listings[i], BoundedRun(n, map[], listings[..i + 1]))
  }

  lemma SubmapNotBack(a: map<string, S3Object>, b: map<string, S3Object>, later: map<string, S3Object>)
    requires Submap(a, b) && NotBack(b, later)
    ensures NotBack(a, later)
  {
  }

  lemma NeverBackPrefix(start: map<string, S3Object>, listings: seq<map<string, S3Object>>)
    requires NeverBack(start, listings) && listings != []
    ensures NeverBack(start, listings[..|listings| - 1])
    ensures NotBack(Merged(start, listings[..|listings| - 1]), listings[|listings| - 1])
  {
    var init := listings[..|listings| - 1];
    assert forall i | 0 <= i < |init| :: init[..i] == listings[..i];
  }

  /** However often it truncates, the history is the newest n of everything seen. */
  lemma {:induction false} RunIsNewestOfAll(n: nat, listings: seq<map<string, S3Object>>)
    requires NeverBack(map[], listings)
    ensures BoundedRun(n, map[], listings) == Newest(n, Merged(map[], listings))
  {
    if listings != [] {
      var init, last := listings[..|listings| - 1], listings[|listings| - 1];
      assert forall i | 0 <= i < |init| :: init[..i] == listings[..i];
      RunIsNewestOfAll(n, init);
      NewestOverride(n, Merged(map[], init), last);
    }
  }

  lemma BoundedRunSteps(n: nat, start: map<string, S3Object>, listings: seq<map<string, S3Object>>)
    ensures BoundedRun(n, start, listings[..0]) == start
    ensures forall i | 0 <= i < |listings| ::
      BoundedRun(n, start, listings[..i + 1]) == Newest(n, BoundedRun(n, start, listings[..i]) + listings[i])
  {
    forall i | 0 <= i < |listings|
      ensures BoundedRun(n, start, listings[..i + 1]) == Newest(n, BoundedRun(n, start, listings[..i]) + listings[i])
    {
      assert listings[..i + 1][..i] == listings[..i];
    }
  }

  /** Replays a run of listings through one history. */
  method Replay(capacity: nat, runs: seq<seq<S3Object>>, ghost listings: seq<map<string, S3Object>>)
    returns (history: RollingHistory)
    requires capacity > 0
    requires |listings| == |runs| && forall i | 0 <= i < |runs| :: listings[i] == Index(runs[i])
    ensures history.Valid() && history.byKey == BoundedRun(capacity, map[], listings)
    ensures NeverBack(map[], listings) ==> history.byKey == Newest(capacity, Merged(map[], listings))
  {
    hide *;
    history := new RollingHistory(capacity);
    BoundedRunSteps(capacity, map[], listings);
    var i := 0;
    while i < |runs|
      invariant 0 <= i <= |runs| && fresh(history)
      invariant history.Valid() && history.capacity == capacity
      invariant history.byKey == BoundedRun(capacity, map[], listings[..i])
    {
      var update := history.UpsertMany(runs[i]);
      i := i + 1;
    }
    assert listings[..i] == listings;
    if NeverBack(map[], listings) {
      RunIsNewestOfAll(capacity, listings);
    }
  }

  // ----- When early truncation is harmless, exactly -----

  /**
   * For arbitrary timestamps: truncating before merging agrees with merging
   * everything exactly when every forgotten entry is still beaten by n others.
   */
  lemma {:induction false} TruncationAgreesExactly(n: nat, a: map<string, S3Object>, b: map<string, S3Object>)
    ensures Newest(n, Newest(n, a) + b) == Newest(n, a + b)
       <==> forall k | k in a && k !in Newest(n, a) && k !in b :: |Above(a + b, a[k])| >= n
  {
    var g, m := Newest(n, a) + b, a + b;
    if forall k | k in a && k !in Newest(n, a) && k !in b :: |Above(m, a[k])| >= n {
      forall k | k in Newest(n, m) ensures k in g {
        assert m[k] == if k in b then b[k] else a[k];
      }
      NewestBetween(n, m, g);
    } else {
      var k :| k in a && k !in Newest(n, a) && k !in b && |Above(m, a[k])| < n;
      assert k in Newest(n, m) && k !in Newest(n, g);
    }
  }

  // ----- When it is harmless, from what the server still holds -----

  ghost predicate IsOldest(m: map<string, S3Object>, k: string)
  {
    k in m && forall i | i in m && i != k :: Newer(m[i], m[k])
  }

  /** The first key after `key` that is not in use. */
  ghost function FreshKey(key: string, used: set<string>): (r: string)
    ensures |r| > |key| && r !in used
    decreases |used|
  {
    var next := key + "\0";
    if next in used then FreshKey(next, used - {next}) else next
  }

  lemma {:induction false} NextKey(key: string, s: string)
    requires KeyLess(key, s)
    ensures s == key + "\0" || KeyLess(key + "\0", s)
    ensures KeyLess(key, key + "\0")
  {
    if key == "" {
      assert s[0] == '\0' ==> s == "\0" + s[1..];
    } else {
      var next := key + "\0";
      assert next[1..] == key[1..] + "\0";
      if s[0] == key[0] {
        NextKey(key[1..], s[1..]);
        assert s == [s[0]] + s[1..] && next == [key[0]] + next[1..];
      } else {
        AppendedIsLater(key);
      }
    }
  }

  lemma {:induction false} AppendedIsLater(key: string)
    ensures KeyLess(key, key + "\0")
  {
    if key != "" {
      assert (key + "\0")[1..] == key[1..] + "\0";
      AppendedIsLater(key[1..]);
    }
  }

  lemma {:induction false} FreshKeyIsFirst(key: string, used: set<string>, s: string)
    requires KeyLess(key, s) && s !in used
    ensures s == FreshKey(key, used) || KeyLess(FreshKey(key, used), s)
    decreases |used|
  {
    NextKey(key, s);
    var next := key + "\0";
    if next in used {
      FreshKeyIsFirst(next, used - {next}, s);
    }
  }

  lemma {:induction false} FreshKeyIsLater(key: string, used: set<string>)
    ensures KeyLess(key, FreshKey(key, used))
    decreases |used|
  {
    AppendedIsLater(key);
    var next := key + "\0";
    if next in used {
      FreshKeyIsLater(next, used - {next});
      KeyLessTransitive(key, next, FreshKey(next, used - {next}));
    }
  }

  /**
   * The highest-ranked object that truncation may have dropped unseen: just below
   * the oldest kept, under a free key.
   */
  ghost function NewestForgettable(kept: map<string, S3Object>, b: map<string, S3Object>, oldest: string): S3Object
    requires oldest in kept
  {
    S3Object(FreshKey(oldest, kept.Keys + b.Keys), kept[oldest].lastModified, 0, None, None)
  }

  /** Nothing is missing, or n entries outrank everything that may have been dropped. */
  ghost predicate Settled(n: nat, kept: map<string, S3Object>, b: map<string, S3Object>)
  {
    || |kept| < n
    || forall oldest | IsOldest(kept, oldest) :: |Above(kept + b, NewestForgettable(kept, b, oldest))| >= n
  }

  lemma ForgottenIsOlder(n: nat, a: map<string, S3Object>, oldest: string, k: string)
    requires |Newest(n, a)| == n && oldest in Newest(n, a) && k in a && k !in Newest(n, a)
    ensures Newer(a[oldest], a[k])
  {
    var kept := Newest(n, a);
    AboveKept(n, a, a[k]);
    FullSubset(Above(kept, a[k]), kept.Keys);
  }

  lemma FullSubset<T>(a: set<T>, b: set<T>)
    requires a <= b && |a| >= |b|
    ensures a == b
  {
    assert b == a + (b - a);
  }

  lemma NothingForgottenIsNewer(kept: map<string, S3Object>, b: map<string, S3Object>, oldest: string, o: S3Object,
    e: S3Object)
    requires Keyed(kept) && oldest in kept && Newer(kept[oldest], o) && o.key !in kept && o.key !in b
    requires Newer(e, NewestForgettable(kept, b, oldest))
    ensures Newer(e, o)
  {
    var f := NewestForgettable(kept, b, oldest);
    if o.lastModified == f.lastModified {
      FreshKeyIsFirst(oldest, kept.Keys + b.Keys, o.key);
      if o.key != f.key {
        NewerTransitive(e, f, o);
      }
    } else {
      NewerTransitive(e, f, o);
    }
  }

  lemma SettledSuffices(n: nat, a: map<string, S3Object>, b: map<string, S3Object>, oldest: string, k: string)
    requires Keyed(a) && |Newest(n, a)| == n && oldest in Newest(n, a)
    requires |Above(Newest(n, a) + b, NewestForgettable(Newest(n, a), b, oldest))| >= n
    requires k in a && k !in Newest(n, a) && k !in b
    ensures |Above(a + b, a[k])| >= n
  {
    var kept := Newest(n, a);
    var f := NewestForgettable(kept, b, oldest);
    ForgottenIsOlder(n, a, oldest, k);
    forall i | i in Above(kept + b, f)
      ensures i in Above(a + b, a[k])
    {
      NothingForgottenIsNewer(kept, b, oldest, a[k], (kept + b)[i]);
    }
    SubsetSize(Above(kept + b, f), Above(a + b, a[k]));
  }

  lemma OldestKept(m: map<string, S3Object>) returns (oldest: string)
    requires Keyed(m) && m != map[]
    ensures IsOldest(m, oldest)
  {
    KeyedComparable(m);
    oldest := OldestExists(m, m.Keys);
  }

  /** One object dropped just below the oldest kept is all it takes. */
  lemma ForgettableMatters(n: nat, kept: map<string, S3Object>, b: map<string, S3Object>, oldest: string)
    requires n > 0 && Keyed(kept) && |kept| == n && IsOldest(kept, oldest)
    requires |Above(kept + b, NewestForgettable(kept, b, oldest))| < n
    ensures var f := NewestForgettable(kept, b, oldest);
            var a := kept[f.key := f];
            Keyed(a) && Newest(n, a) == kept && Newest(n, kept + b) != Newest(n, a + b)
  {
    hide *;
    ForgettableIsBelow(kept, b, oldest);
    var f := NewestForgettable(kept, b, oldest);
    var a := kept[f.key := f];
    DropForgettable(n, kept, f);
    AboveForgettable(kept, b, f);
    TruncationAgreesExactly(n, a, b);
  }

  lemma ForgettableIsBelow(kept: map<string, S3Object>, b: map<string, S3Object>, oldest: string)
    requires Keyed(kept) && IsOldest(kept, oldest)
    ensures oldest in kept
    ensures var f := NewestForgettable(kept, b, oldest);
            f.key !in kept && f.key !in b && forall k | k in kept :: Newer(kept[k], f)
  {
    var f := NewestForgettable(kept, b, oldest);
    FreshKeyIsLater(oldest, kept.Keys + b.Keys);
    forall k | k in kept
      ensures Newer(kept[k], f)
    {
      if k != oldest {
        NewerTransitive(kept[k], kept[oldest], f);
      }
    }
  }

  lemma DropForgettable(n: nat, kept: map<string, S3Object>, f: S3Object)
    requires Keyed(kept) && |kept| == n && f.key !in kept && forall k | k in kept :: Newer(kept[k], f)
    ensures Keyed(kept[f.key := f]) && Newest(n, kept[f.key := f]) == kept
  {
    hide Newest, Newer;
    var a := kept[f.key := f];
    assert a.Keys == kept.Keys + {f.key};
    DropOldest(n, a, f.key);
    assert a - {f.key} == kept;
  }

  lemma AboveForgettable(kept: map<string, S3Object>, b: map<string, S3Object>, f: S3Object)
    requires f.key !in kept && f.key !in b
    ensures Above(kept[f.key := f] + b, f) == Above(kept + b, f)
  {
    NewerIrreflexive(f);
    assert forall k | k in kept + b :: k != f.key && (kept[f.key := f] + b)[k] == (kept + b)[k];
  }

  /**
   * The exact condition on what the server holds: merging `b` into the kept
   * entries gives the true newest n, whatever was dropped before, if and only if
   * fewer than n are kept or n of the merged entries outrank every object that
   * may have been dropped.
   */
  lemma {:induction false} TruncationAgreesGivenKept(n: nat, kept: map<string, S3Object>, b: map<string, S3Object>)
    requires n > 0 && Keyed(kept) && |kept| <= n
    ensures Settled(n, kept, b) <==>
      forall a: map<string, S3Object> | Keyed(a) && Newest(n, a) == kept :: Newest(n, kept + b) == Newest(n, a + b)
  {
    hide Newest, Above, Keyed, NewestForgettable;
    if Settled(n, kept, b) {
      forall a: map<string, S3Object> | Keyed(a) && Newest(n, a) == kept
        ensures Newest(n, kept + b) == Newest(n, a + b)
      {
        SettledAgrees(n, a, b);
      }
    } else {
      var oldest :| IsOldest(kept, oldest) && |Above(kept + b, NewestForgettable(kept, b, oldest))| < n;
      ForgettableMatters(n, kept, b, oldest);
    }
  }

  lemma SettledAgrees(n: nat, a: map<string, S3Object>, b: map<string, S3Object>)
    requires n > 0 && Keyed(a) && Settled(n, Newest(n, a), b)
    ensures Newest(n, Newest(n, a) + b) == Newest(n, a + b)
  {
    KeyedComparable(a);
    NewestSize(n, a);
    NewestIsSubmap(n, a);
    var kept := Newest(n, a);
    hide Newest, Above, NewestForgettable;
    if |kept| == n {
      var oldest := OldestKept(kept);
      forall k | k in a && k !in kept && k !in b
        ensures |Above(a + b, a[k])| >= n
      {
        SettledSuffices(n, a, b, oldest, k);
      }
      TruncationAgreesExactly(n, a, b);
    }
  }

  /** One retained key moving back makes the bounded history lose a forgotten one. */
  lemma MovingBackLosesAnEntry()
    ensures
      var x, y := S3Object("x", 10, 1, None, None), S3Object("y", 5, 1, None, None);
      var a, b := map["x" := x, "y" := y], map["x" := x.(lastModified := 1)];
      !NotBack(a, b) && Newest(1, Newest(1, a) + b) != Newest(1, a + b)
  {
    var x, y := S3Object("x", 10, 1, None, None), S3Object("y", 5, 1, None, None);
    var back := x.(lastModified := 1);
    var a, b := map["x" := x, "y" := y], map["x" := back];
    assert Above(a, y) == {"x"};
    assert Above(a + b, y) == {};
    assert "y" !in Newest(1, a) && "y" in Newest(1, a + b);
  }
}
