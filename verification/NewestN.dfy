/**
 * What "the newest n entries" means, and when truncating early loses nothing.
 *
 * An entry is kept exactly when fewer than n entries are newer. Every bounded
 * stage of the pipeline is proved against this one definition.
 */
module NewestN {
  import opened Objects

  /** Keys of the entries that are newer than `o`. */
  ghost function Above<K>(m: map<K, S3Object>, o: S3Object): set<K>
  {
    set k | k in m && Newer(m[k], o)
  }

  ghost function Newest<K>(n: nat, m: map<K, S3Object>): map<K, S3Object>
  {
    map k | k in m && |Above(m, m[k])| < n :: m[k]
  }

  ghost predicate Submap<K>(g: map<K, S3Object>, m: map<K, S3Object>)
  {
    forall k | k in g :: k in m && m[k] == g[k]
  }

  ghost predicate Keyed(m: map<string, S3Object>)
  {
    forall k | k in m :: m[k].key == k
  }

  /** No two entries share both key and timestamp. */
  ghost predicate Comparable<K>(m: map<K, S3Object>)
  {
    forall i, j | i in m && j in m && i != j :: Newer(m[i], m[j]) || Newer(m[j], m[i])
  }

  /** `later` never reports an older timestamp than `earlier` does for the same entry. */
  ghost predicate NotBack<K>(earlier: map<K, S3Object>, later: map<K, S3Object>)
  {
    forall k | k in earlier && k in later ::
      later[k].key == earlier[k].key && later[k].lastModified >= earlier[k].lastModified
  }

  lemma KeyedComparable(m: map<string, S3Object>)
    requires Keyed(m)
    ensures Comparable(m)
  {
    forall i, j | i in m && j in m && i != j ensures Newer(m[i], m[j]) || Newer(m[j], m[i]) {
      NewerTotal(m[i], m[j]);
    }
  }

  lemma MergeAssociative<K, V>(a: map<K, V>, b: map<K, V>, c: map<K, V>)
    ensures a + (b + c) == a + b + c
  {
    assert (a + (b + c)).Keys == (a + b + c).Keys;
  }

  lemma {:induction false} SubsetSize<T>(a: set<T>, b: set<T>)
    requires a <= b
    ensures |a| <= |b|
  {
    if a != {} {
      var x :| x in a;
      SubsetSize(a - {x}, b - {x});
    }
  }

  /** Everything newer than `p` is newer than `o` once `p` is at least as new as `o`. */
  lemma AboveMonotone<K>(g: map<K, S3Object>, m: map<K, S3Object>, p: S3Object, o: S3Object)
    requires Submap(g, m)
    requires p == o || Newer(p, o)
    ensures Above(g, p) <= Above(m, o)
    ensures |Above(g, p)| <= |Above(m, o)|
  {
    forall k | k in Above(g, p) ensures k in Above(m, o) {
      if p != o {
        NewerTransitive(g[k], p, o);
      }
    }
    SubsetSize(Above(g, p), Above(m, o));
  }

  /** Entries with n newer companions can be dropped before truncating to n. */
  lemma SubmapSuffices<K>(n: nat, g: map<K, S3Object>, m: map<K, S3Object>)
    requires Submap(g, m)
    requires forall k | k in m && k !in g :: |Above(g, m[k])| >= n
    ensures Newest(n, m) == Newest(n, g)
  {
    forall k | k in m
      ensures k in Newest(n, m) <==> k in Newest(n, g)
    {
      var o := m[k];
      AboveMonotone(g, m, o, o);
      if k in g && Above(m, o) != Above(g, o) {
        assert forall i | i in Above(m, o) && i in g :: i in Above(g, o);
        var j :| j in Above(m, o) && j !in g;
        AboveMonotone(g, g, m[j], o);
      }
    }
    assert Newest(n, m).Keys == Newest(n, g).Keys;
  }

  /** If n entries of the whole map beat `o`, then n of the kept ones do. */
  lemma {:induction false} AboveKept<K>(n: nat, m: map<K, S3Object>, o: S3Object)
    requires |Above(m, o)| >= n
    ensures |Above(Newest(n, m), o)| >= n
    decreases |Above(m, o)|
  {
    var kept := Newest(n, m);
    if forall k | k in Above(m, o) :: k in kept {
      assert Above(kept, o) == Above(m, o);
    } else {
      var j :| j in Above(m, o) && j !in kept;
      AboveMonotone(m, m, m[j], o);
      NewerIrreflexive(m[j]);
      assert j in Above(m, o) - Above(m, m[j]);
      assert Above(m, m[j]) <= Above(m, o) - {j};
      SubsetSize(Above(m, m[j]), Above(m, o) - {j});
      AboveKept(n, m, m[j]);
      AboveMonotone(kept, kept, m[j], o);
    }
  }

  /** Newest-n of (newest-n of a, overridden by b) is newest-n of (a overridden by b). */
  lemma NewestOverride<K>(n: nat, a: map<K, S3Object>, b: map<K, S3Object>)
    requires NotBack(a, b)
    ensures Newest(n, Newest(n, a) + b) == Newest(n, a + b)
  {
    var kept := Newest(n, a);
    var g, m := kept + b, a + b;
    forall k | k in m && k !in g ensures |Above(g, m[k])| >= n {
      var o := a[k];
      AboveKept(n, a, o);
      forall j | j in Above(kept, o) ensures j in Above(g, o) {
        assert g[j].key == a[j].key && g[j].lastModified >= a[j].lastModified;
      }
      SubsetSize(Above(kept, o), Above(g, o));
    }
    SubmapSuffices(n, g, m);
  }

  /** The incoming side may be truncated first as well. */
  lemma NewestIncoming<K>(n: nat, a: map<K, S3Object>, b: map<K, S3Object>)
    requires NotBack(a, b)
    ensures Newest(n, a + Newest(n, b)) == Newest(n, a + b)
  {
    var kept := Newest(n, b);
    var short, full := a + kept, a + b;
    var g := map k | k in short && (k in b ==> k in kept) :: short[k];
    assert Submap(kept, g);
    forall k | k in b && k !in kept
      ensures |Above(g, b[k])| >= n
      ensures k in a ==> |Above(g, a[k])| >= n
    {
      AboveKept(n, b, b[k]);
      AboveMonotone(kept, g, b[k], b[k]);
      if k in a {
        assert b[k].key == a[k].key && b[k].lastModified >= a[k].lastModified;
        assert Above(g, b[k]) <= Above(g, a[k]);
        SubsetSize(Above(g, b[k]), Above(g, a[k]));
      }
    }
    SubmapSuffices(n, g, full);
    SubmapSuffices(n, g, short);
  }

  /** Re-adding part of what was truncated changes nothing. */
  lemma NewestBetween<K>(n: nat, m: map<K, S3Object>, between: map<K, S3Object>)
    requires Submap(Newest(n, m), between) && Submap(between, m)
    ensures Newest(n, between) == Newest(n, m)
  {
    var kept := Newest(n, m);
    forall k | k in m && k !in between ensures |Above(between, m[k])| >= n {
      AboveKept(n, m, m[k]);
      AboveMonotone(kept, between, m[k], m[k]);
    }
    SubmapSuffices(n, between, m);
  }

  lemma {:induction false} OldestExists<K>(m: map<K, S3Object>, keys: set<K>) returns (oldest: K)
    requires Comparable(m) && keys != {} && keys <= m.Keys
    ensures oldest in keys && forall k | k in keys && k != oldest :: Newer(m[k], m[oldest])
  {
    var x :| x in keys;
    if keys == {x} {
      oldest := x;
    } else {
      var y := OldestExists(m, keys - {x});
      if Newer(m[x], m[y]) {
        oldest := y;
      } else {
        oldest := x;
        forall k | k in keys && k != x ensures Newer(m[k], m[x]) {
          if k != y {
            NewerTransitive(m[k], m[y], m[x]);
          }
        }
      }
    }
  }

  /** Exactly the smaller of n and the number of entries are kept. */
  lemma NewestSize<K>(n: nat, m: map<K, S3Object>)
    requires Comparable(m)
    ensures |Newest(n, m)| == if |m| <= n then |m| else n
    ensures |m| <= n ==> Newest(n, m) == m
  {
    var kept := Newest(n, m);
    SubsetSize(kept.Keys, m.Keys);
    if |m| <= n {
      forall k | k in m ensures k in kept {
        NewerIrreflexive(m[k]);
        assert Above(m, m[k]) <= m.Keys - {k};
        SubsetSize(Above(m, m[k]), m.Keys - {k});
      }
      assert kept.Keys == m.Keys;
    } else {
      var last := OldestExists(m, m.Keys);
      assert Above(m, m[last]) >= m.Keys - {last};
      SubsetSize(m.Keys - {last}, Above(m, m[last]));
      AboveKept(n, m, m[last]);
      SubsetSize(Above(kept, m[last]), kept.Keys);
      if |kept| > n {
        var edge := OldestExists(m, kept.Keys);
        assert kept.Keys - {edge} <= Above(m, m[edge]);
        SubsetSize(kept.Keys - {edge}, Above(m, m[edge]));
        assert false;
      }
    }
  }

  /** One entry over the limit: truncating removes the oldest and nothing else. */
  lemma DropOldest<K>(n: nat, m: map<K, S3Object>, oldest: K)
    requires |m| == n + 1 && oldest in m
    requires forall k | k in m && k != oldest :: Newer(m[k], m[oldest])
    ensures Newest(n, m) == m - {oldest}
  {
    assert Above(m, m[oldest]) >= m.Keys - {oldest};
    SubsetSize(m.Keys - {oldest}, Above(m, m[oldest]));
    forall k | k in m && k != oldest ensures k in Newest(n, m) {
      NewerIrreflexive(m[k]);
      NewerTotal(m[k], m[oldest]);
      assert Above(m, m[k]) <= m.Keys - {k, oldest};
      SubsetSize(Above(m, m[k]), m.Keys - {k, oldest});
    }
    assert Newest(n, m).Keys == (m - {oldest}).Keys;
  }

  // ----- The same truncation on ranked lists -----

  ghost predicate RankedList(s: seq<S3Object>)
  {
    forall i, j | 0 <= i < j < |s| :: Newer(s[i], s[j])
  }

  /** `s` is the newest-first list of the entries of `m`. */
  ghost predicate Lists(s: seq<S3Object>, m: map<string, S3Object>)
  {
    && RankedList(s)
    && forall o :: o in s <==> o.key in m && m[o.key] == o
  }

  lemma {:induction false} ListsUnique(s: seq<S3Object>, t: seq<S3Object>)
    requires RankedList(s) && RankedList(t) && forall o :: o in s <==> o in t
    ensures s == t
  {
    assert s != [] ==> s[0] in s;
    assert t != [] ==> t[0] in t;
    if s != [] && t != [] {
      HeadIsNewest(s, t);
      HeadIsNewest(t, s);
      NewerTotal(s[0], t[0]);
      assert s[0] == t[0];
      NewerIrreflexive(s[0]);
      forall o ensures o in s[1..] <==> o in s && o != s[0]
               ensures o in t[1..] <==> o in t && o != t[0] {
        assert s == [s[0]] + s[1..] && t == [t[0]] + t[1..];
      }
      ListsUnique(s[1..], t[1..]);
      assert s == [s[0]] + s[1..] && t == [t[0]] + t[1..];
    }
  }

  lemma HeadIsNewest(s: seq<S3Object>, t: seq<S3Object>)
    requires RankedList(s) && s != [] && t != [] && forall o | o in t :: o in s
    ensures t[0] == s[0] || Newer(s[0], t[0])
  {
    assert t[0] in s;
  }

  ghost function KeySet(s: seq<S3Object>): set<string>
  {
    set o | o in s :: o.key
  }

  lemma {:induction false} KeySetSize(s: seq<S3Object>)
    requires forall i, j | 0 <= i < j < |s| :: s[i].key != s[j].key
    ensures |KeySet(s)| == |s|
  {
    if s != [] {
      var init, last := s[..|s| - 1], s[|s| - 1];
      KeySetSize(init);
      assert s == init + [last];
      assert KeySet(s) == KeySet(init) + {last.key};
      assert last.key !in KeySet(init);
    }
  }

  lemma ListsHasDistinctKeys(s: seq<S3Object>, m: map<string, S3Object>)
    requires Lists(s, m)
    ensures forall i, j | 0 <= i < j < |s| :: s[i].key != s[j].key
    ensures |s| == |m| || !Keyed(m)
  {
    forall i, j | 0 <= i < j < |s| ensures s[i].key != s[j].key {
      assert s[i] in s && s[j] in s;
      NewerIrreflexive(s[i]);
    }
    KeySetSize(s);
    if Keyed(m) {
      forall k | k in m ensures k in KeySet(s) {
        assert m[k] in s;
      }
      assert KeySet(s) == m.Keys;
    }
  }

  /** Taking the first n of the ranked list is truncating the map to its newest n. */
  lemma TakeIsNewest(n: nat, s: seq<S3Object>, m: map<string, S3Object>)
    requires Keyed(m) && Lists(s, m)
    ensures Lists(if n <= |s| then s[..n] else s, Newest(n, m))
  {
    var r := if n <= |s| then s[..n] else s;
    assert RankedList(r);
    forall o ensures o in r <==> o.key in Newest(n, m) && Newest(n, m)[o.key] == o {
      if o in s {
        var i :| 0 <= i < |s| && s[i] == o;
        TakenIfNewest(n, s, m, i);
      }
    }
  }

  lemma TakenIfNewest(n: nat, s: seq<S3Object>, m: map<string, S3Object>, i: nat)
    requires Keyed(m) && Lists(s, m) && i < |s|
    ensures s[i] in (if n <= |s| then s[..n] else s) <==> s[i].key in Newest(n, m)
  {
    ListsHasDistinctKeys(s, m);
    RankIsIndex(s, m, i);
    assert s[i] in s;
    hide RankedList, Newer, Above;
    if n <= |s| {
      assert s[i] in s[..n] <==> i < n by {
        if i < n {
          assert s[..n][i] == s[i];
        }
      }
    }
  }

  lemma RankIsIndex(s: seq<S3Object>, m: map<string, S3Object>, i: nat)
    requires Keyed(m) && Lists(s, m) && i < |s|
    ensures |Above(m, s[i])| == i
  {
    ListsHasDistinctKeys(s, m);
    KeySetSize(s[..i]);
    forall k ensures k in Above(m, s[i]) <==> k in KeySet(s[..i]) {
      if k in Above(m, s[i]) {
        assert m[k] in s;
        var j :| 0 <= j < |s| && s[j] == m[k];
        NewerTotal(s[i], s[j]);
        NewerIrreflexive(s[i]);
        assert j < i;
        assert s[..i][j] == m[k];
      }
      if k in KeySet(s[..i]) {
        var o :| o in s[..i] && o.key == k;
        var j :| 0 <= j < i && s[..i][j] == o;
        assert s[j] in s;
      }
    }
    assert Above(m, s[i]) == KeySet(s[..i]);
  }
}
