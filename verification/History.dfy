/** The bounded arrival history of one feed and the delta it reports per listing. */
module History {
  import opened Objects
  import opened Sorting
  import opened NewestN
  import Store

  datatype ConfigError = ZeroHistoryCapacity | ZeroExpectedInterval

  datatype ChangeKind = Added | Updated

  datatype ObjectChange = ObjectChange(kind: ChangeKind, item: S3Object, previous: Option<S3Object>)

  datatype HistoryUpdate = HistoryUpdate(changes: seq<ObjectChange>, evicted: seq<S3Object>)

  /** What a listing says about each key: its final observation. */
  function Index(xs: seq<S3Object>): map<string, S3Object>
  {
    if xs == [] then map[]
    else Index(xs[..|xs| - 1])[xs[|xs| - 1].key := xs[|xs| - 1]]
  }

  lemma {:induction false} IndexContents(xs: seq<S3Object>)
    ensures Keyed(Index(xs))
    ensures forall k | k in Index(xs) :: Index(xs)[k] in xs
    ensures forall o | o in xs :: o.key in Index(xs)
  {
    if xs != [] {
      IndexContents(xs[..|xs| - 1]);
      assert xs == xs[..|xs| - 1] + [xs[|xs| - 1]];
    }
  }

  lemma {:induction false} IndexConcat(xs: seq<S3Object>, ys: seq<S3Object>)
    ensures Index(xs + ys) == Index(xs) + Index(ys)
  {
    if ys == [] {
      assert xs + ys == xs;
    } else {
      var init, last := ys[..|ys| - 1], ys[|ys| - 1];
      assert (xs + ys)[..|xs + ys| - 1] == xs + init;
      IndexConcat(xs, init);
    }
  }

  /** What one observation changes in the history, if anything. */
  function DiffOf(before: map<string, S3Object>, o: S3Object): Option<ObjectChange>
  {
    if o.key !in before then Some(ObjectChange(Added, o, None))
    else if before[o.key] != o then Some(ObjectChange(Updated, o, Some(before[o.key])))
    else None
  }

  ghost predicate DistinctChanges(s: seq<ObjectChange>)
  {
    forall i, j | 0 <= i < j < |s| :: s[i].item.key != s[j].item.key
  }

  ghost predicate DistinctKeys(s: seq<S3Object>)
  {
    forall i, j | 0 <= i < j < |s| :: s[i].key != s[j].key
  }

  function ObjectsOf(changes: seq<ObjectChange>): (s: seq<S3Object>)
    ensures |s| == |changes| && forall i | 0 <= i < |s| :: s[i] == changes[i].item
  {
    if changes == [] then [] else [changes[0].item] + ObjectsOf(changes[1..])
  }

  ghost predicate OldestFirst(s: seq<S3Object>)
  {
    forall i, j | 0 <= i < j < |s| :: Older(s[i], s[j])
  }

  /** One change for every item that alters the history, and none else. */
  ghost predicate ReportsExactly(changes: seq<ObjectChange>, before: map<string, S3Object>, items: seq<S3Object>)
  {
    && (forall c :: c in changes <==> c.item in items && DiffOf(before, c.item) == Some(c))
    && DistinctChanges(changes)
  }

  /**
   * `changes` are the retained listed keys whose entry is new or differs, newest
   * first; `evicted` are the previously retained keys that are gone, oldest first.
   */
  ghost predicate IsUpdate(update: HistoryUpdate, before: map<string, S3Object>, incoming: map<string, S3Object>,
    after: map<string, S3Object>)
  {
    && RankedList(ObjectsOf(update.changes))
    && OldestFirst(update.evicted)
    && (forall c :: c in update.changes <==>
        c.item.key in after && c.item.key in incoming && incoming[c.item.key] == c.item
        && DiffOf(before, c.item) == Some(c))
    && (forall o :: o in update.evicted <==>
        o.key in before && o.key !in after && (before + incoming)[o.key] == o)
  }

  class RollingHistory {
    const capacity: nat
    const expectedIntervalSeconds: Option<nat>
    var byKey: map<string, S3Object>

    ghost predicate Valid()
      reads this
    {
      capacity > 0 && Keyed(byKey) && |byKey| <= capacity
    }

    constructor (capacity: nat, expectedIntervalSeconds: Option<nat> := None)
      requires capacity > 0
      ensures Valid() && this.capacity == capacity && byKey == map[]
      ensures this.expectedIntervalSeconds == expectedIntervalSeconds
    {
      this.capacity, this.expectedIntervalSeconds := capacity, expectedIntervalSeconds;
      byKey := map[];
    }

    /** A capacity or expected interval of zero is refused. */
    static method WithExpectedInterval(capacity: nat, expectedIntervalSeconds: Option<nat>)
      returns (r: Result<RollingHistory, ConfigError>)
      ensures r.Ok? <==> capacity > 0 && expectedIntervalSeconds != Some(0)
      ensures r.Err? ==> r.error == if capacity == 0 then ZeroHistoryCapacity else ZeroExpectedInterval
      ensures r.Ok? ==> fresh(r.value) && r.value.Valid() && r.value.capacity == capacity && r.value.byKey == map[]
      ensures r.Ok? ==> r.value.expectedIntervalSeconds == expectedIntervalSeconds
    {
      if capacity == 0 {
        return Err(ZeroHistoryCapacity);
      }
      if expectedIntervalSeconds == Some(0) {
        return Err(ZeroExpectedInterval);
      }
      var history := new RollingHistory(capacity, expectedIntervalSeconds);
      r := Ok(history);
    }

    /** Owned objects, newest first. */
    method Objects() returns (s: seq<S3Object>)
      requires Valid()
      ensures Lists(s, byKey)
    {
      s := Values(byKey);
      s := Ranked(s, byKey);
    }

    /** Applies a listing atomically and enforces the capacity. */
    method UpsertMany(objects: seq<S3Object>) returns (update: HistoryUpdate)
      requires Valid()
      modifies this`byKey
      ensures Valid()
      ensures byKey == Newest(capacity, old(byKey) + Index(objects))
      ensures IsUpdate(update, old(byKey), Index(objects), byKey)
    {
      hide Newest, RankedList, OldestFirst, Index, Submap, ReportsExactly;
      var oldKeys := byKey.Keys;
      var incoming := Collect(objects);
      IndexContents(objects);
      var items := Values(incoming);
      IndexOfValues(items, incoming);
      var changes := Reconcile(items);
      ghost var merged := byKey;
      var retained := RetainedKeys();
      var evicted := Evicted(oldKeys, retained);
      Restriction(Newest(capacity, merged), merged, retained);
      byKey := map k | k in byKey && k in retained :: byKey[k];
      changes := Publish(changes, retained, old(byKey), items);
      update := HistoryUpdate(changes, evicted);
      Assemble(update, old(byKey), incoming, items, merged, byKey);
      hide IsUpdate;
    }

    method RetainedKeys() returns (retained: set<string>)
      requires capacity > 0 && Keyed(byKey)
      ensures retained == Newest(capacity, byKey).Keys
      ensures Submap(Newest(capacity, byKey), byKey) && |Newest(capacity, byKey)| <= capacity
    {
      var values := Values(byKey);
      var ranked := Ranked(values, byKey);
      TakeIsNewest(capacity, ranked, byKey);
      KeyedComparable(byKey);
      NewestSize(capacity, byKey);
      var kept := if capacity <= |ranked| then ranked[..capacity] else ranked;
      KeysOfList(kept, Newest(capacity, byKey));
      retained := set o | o in kept :: o.key;
    }

    /** Inserts every incoming observation, recording what differs. */
    method Reconcile(items: seq<S3Object>) returns (changes: seq<ObjectChange>)
      requires DistinctKeys(items)
      modifies this`byKey
      ensures byKey == old(byKey) + Index(items)
      ensures ReportsExactly(changes, old(byKey), items)
    {
      changes := [];
      ghost var before := byKey;
      hide Index, ReportsExactly, DistinctKeys, DiffOf;
      StartReconcile(before);
      var i := 0;
      while i < |items|
        invariant 0 <= i <= |items|
        invariant byKey == before + Index(items[..i])
        invariant ReportsExactly(changes, before, items[..i])
      {
        KeyIsFresh(before, items, i);
        var change := Observe(items[i]);
        ChangesGrow(changes, before, items, i);
        if change.Some? {
          changes := changes + [change.value];
        }
        i := i + 1;
      }
      assert items[..i] == items;
    }

    method Observe(item: S3Object) returns (change: Option<ObjectChange>)
      modifies this`byKey
      ensures byKey == old(byKey)[item.key := item]
      ensures change == DiffOf(old(byKey), item)
    {
      if item.key !in byKey {
        change := Some(ObjectChange(Added, item, None));
      } else if byKey[item.key] != item {
        change := Some(ObjectChange(Updated, item, Some(byKey[item.key])));
      } else {
        change := None;
      }
      byKey := byKey[item.key := item];
    }

    /** Previously retained entries that did not survive, oldest first. */
    method Evicted(oldKeys: set<string>, retained: set<string>) returns (s: seq<S3Object>)
      requires Keyed(byKey) && oldKeys <= byKey.Keys
      ensures OldestFirst(s)
      ensures forall o :: o in s <==> o.key in oldKeys && o.key !in retained && byKey[o.key] == o
    {
      var gone := map k | k in byKey && k !in retained && k in oldKeys :: byKey[k];
      s := Values(gone);
      SortIsOldestFirst(s);
      s := Sort(Older, s);
    }
  }

  lemma Restriction(kept: map<string, S3Object>, m: map<string, S3Object>, keys: set<string>)
    requires Submap(kept, m) && keys == kept.Keys
    ensures (map k | k in m && k in keys :: m[k]) == kept
    ensures Keyed(m) ==> Keyed(kept)
  {
  }

  lemma StartReconcile(before: map<string, S3Object>)
    ensures before + Index([]) == before && ReportsExactly([], before, [])
  {
  }

  /** Keys are distinct, so each observation is compared with the previous history. */
  lemma KeyIsFresh(before: map<string, S3Object>, items: seq<S3Object>, i: nat)
    requires DistinctKeys(items) && i < |items|
    ensures (before + Index(items[..i]))[items[i].key := items[i]] == before + Index(items[..i + 1])
    ensures DiffOf(before + Index(items[..i]), items[i]) == DiffOf(before, items[i])
  {
    IndexContents(items[..i]);
    assert items[..i + 1][..i] == items[..i];
  }

  lemma ChangesGrow(changes: seq<ObjectChange>, before: map<string, S3Object>, items: seq<S3Object>, i: nat)
    requires i < |items| && ReportsExactly(changes, before, items[..i])
    requires DistinctKeys(items)
    ensures DiffOf(before, items[i]).None? ==> ReportsExactly(changes, before, items[..i + 1])
    ensures DiffOf(before, items[i]).Some? ==>
      ReportsExactly(changes + [DiffOf(before, items[i]).value], before, items[..i + 1])
  {
    assert items[..i + 1] == items[..i] + [items[i]];
    assert forall c | c in changes :: c.item in items[..i];
  }

  lemma IndexOfValues(items: seq<S3Object>, m: map<string, S3Object>)
    requires forall o :: o in items <==> o.key in m && m[o.key] == o
    requires Keyed(m)
    ensures Index(items) == m
  {
    IndexContents(items);
    forall k | k in m ensures k in Index(items) {
      assert m[k] in items;
    }
    forall k | k in Index(items) ensures k in m && Index(items)[k] == m[k] {
      assert Index(items)[k] in items;
    }
  }

  lemma Assemble(update: HistoryUpdate, before: map<string, S3Object>, incoming: map<string, S3Object>,
    items: seq<S3Object>, merged: map<string, S3Object>, after: map<string, S3Object>)
    requires merged == before + incoming
    requires forall o :: o in items <==> o.key in incoming && incoming[o.key] == o
    requires RankedList(ObjectsOf(update.changes)) && OldestFirst(update.evicted)
    requires forall c :: c in update.changes <==>
      c.item in items && c.item.key in after.Keys && DiffOf(before, c.item) == Some(c)
    requires forall o :: o in update.evicted <==> o.key in before.Keys && o.key !in after.Keys && merged[o.key] == o
    ensures IsUpdate(update, before, incoming, after)
  {
  }

  /** A map's values in some order; nothing below depends on which. */
  method Values(m: map<string, S3Object>) returns (s: seq<S3Object>)
    requires Keyed(m)
    ensures forall o :: o in s <==> o.key in m && m[o.key] == o
    ensures DistinctKeys(s)
  {
    s := [];
    var rest := m.Keys;
    while rest != {}
      invariant rest <= m.Keys
      invariant forall o :: o in s <==> o.key in m.Keys - rest && m[o.key] == o
      invariant DistinctKeys(s)
      decreases |rest|
    {
      var k :| k in rest;
      s := s + [m[k]];
      rest := rest - {k};
    }
  }

  method Ranked(values: seq<S3Object>, ghost m: map<string, S3Object>) returns (s: seq<S3Object>)
    requires forall o :: o in values <==> o.key in m && m[o.key] == o
    requires DistinctKeys(values)
    ensures Lists(s, m)
  {
    Store.SortIsRanked(values);
    s := Sort(Newer, values);
  }

  method Collect(objects: seq<S3Object>) returns (incoming: map<string, S3Object>)
    ensures incoming == Index(objects)
  {
    incoming := map[];
    var i := 0;
    while i < |objects|
      invariant 0 <= i <= |objects|
      invariant incoming == Index(objects[..i])
    {
      assert objects[..i + 1][..i] == objects[..i];
      incoming := incoming[objects[i].key := objects[i]];
      i := i + 1;
    }
    assert objects[..i] == objects;
  }

  /** Drops changes that did not survive truncation and orders the rest newest first. */
  method Publish(changes: seq<ObjectChange>, retained: set<string>,
    ghost before: map<string, S3Object>, ghost items: seq<S3Object>)
    returns (r: seq<ObjectChange>)
    requires ReportsExactly(changes, before, items)
    ensures forall c :: c in r <==> c.item in items && c.item.key in retained && DiffOf(before, c.item) == Some(c)
    ensures RankedList(ObjectsOf(r))
  {
    r := [];
    var i := 0;
    while i < |changes|
      invariant 0 <= i <= |changes|
      invariant r == Surviving(changes[..i], retained)
    {
      assert changes[..i + 1][..i] == changes[..i];
      if changes[i].item.key in retained {
        r := r + [changes[i]];
      }
      i := i + 1;
    }
    assert changes[..i] == changes;
    SurvivingContents(changes, retained);
    r := SortChanges(r);
  }

  ghost function Surviving(changes: seq<ObjectChange>, retained: set<string>): seq<ObjectChange>
  {
    if changes == [] then []
    else
      var front, last := changes[..|changes| - 1], changes[|changes| - 1];
      Surviving(front, retained) + if last.item.key in retained then [last] else []
  }

  lemma {:induction false} SurvivingContents(changes: seq<ObjectChange>, retained: set<string>)
    requires DistinctChanges(changes)
    ensures DistinctChanges(Surviving(changes, retained))
    ensures forall c :: c in Surviving(changes, retained) <==> c in changes && c.item.key in retained
  {
    if changes != [] {
      var front, last := changes[..|changes| - 1], changes[|changes| - 1];
      SurvivingContents(front, retained);
      assert changes == front + [last];
    }
  }

  predicate NewerChange(a: ObjectChange, b: ObjectChange)
  {
    Newer(a.item, b.item)
  }

  method SortChanges(changes: seq<ObjectChange>) returns (r: seq<ObjectChange>)
    requires DistinctChanges(changes)
    ensures forall c :: c in r <==> c in changes
    ensures RankedList(ObjectsOf(r))
  {
    r := Sort(NewerChange, changes);
    SortContents(NewerChange, changes);
    forall a, b | a in changes && b in changes && NewerChange(a, b) ensures !NewerChange(b, a) {
      NewerTotal(a.item, b.item);
    }
    forall a, b, c | a in changes && b in changes && c in changes && !NewerChange(b, a) && !NewerChange(c, b)
      ensures !NewerChange(c, a)
    {
      Store.NewerWeakOrder([a.item, b.item, c.item]);
    }
    SortOrdered(NewerChange, changes);
    forall i, j | 0 <= i < j < |r| ensures Newer(r[i].item, r[j].item) {
      StaysDistinct(changes, r, i, j);
      NewerTotal(r[i].item, r[j].item);
    }
  }

  lemma SortIsOldestFirst(s: seq<S3Object>)
    requires DistinctKeys(s)
    ensures OldestFirst(Sort(Older, s))
    ensures forall o :: o in Sort(Older, s) <==> o in s
  {
    var r := Sort(Older, s);
    forall a, b | a in s && b in s && Older(a, b) ensures !Older(b, a) {
      OlderTotal(a, b);
    }
    forall a, b, c | a in s && b in s && c in s && !Older(b, a) && !Older(c, b) ensures !Older(c, a) {
      OlderTotal(a, b);
      OlderTotal(b, c);
      if Older(c, a) {
        OlderTotal(c, a);
        if Older(b, c) { OlderTransitive(b, c, a); }
      }
    }
    SortOrdered(Older, s);
    SortContents(Older, s);
    forall i, j | 0 <= i < j < |r| ensures Older(r[i], r[j]) {
      StaysDistinct(s, r, i, j);
      OlderTotal(r[i], r[j]);
    }
  }

  lemma KeysOfList(s: seq<S3Object>, m: map<string, S3Object>)
    requires Lists(s, m) && Keyed(m)
    ensures KeySet(s) == m.Keys
  {
  }
}
