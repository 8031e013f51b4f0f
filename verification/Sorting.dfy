/** The stable sort that every component calls, as a function of a comparison. */
module Sorting {
  function Insert<T>(less: (T, T) -> bool, x: T, s: seq<T>): seq<T>
  {
    if s == [] || !less(s[0], x) then [x] + s
    else [s[0]] + Insert(less, x, s[1..])
  }

  function Sort<T>(less: (T, T) -> bool, s: seq<T>): seq<T>
  {
    if s == [] then [] else Insert(less, s[0], Sort(less, s[1..]))
  }

  /** No element is preceded by one that should come after it. */
  ghost predicate Ordered<T>(less: (T, T) -> bool, s: seq<T>)
  {
    forall i, j | 0 <= i < j < |s| :: !less(s[j], s[i])
  }

  /** On the elements of `s`, `less` never holds both ways and "not after" is transitive. */
  ghost predicate WeakOrderOn<T>(less: (T, T) -> bool, s: seq<T>)
  {
    && (forall a, b | a in s && b in s && less(a, b) :: !less(b, a))
    && (forall a, b, c | a in s && b in s && c in s && !less(b, a) && !less(c, b) :: !less(c, a))
  }

  lemma {:induction false} InsertContents<T>(less: (T, T) -> bool, x: T, s: seq<T>)
    ensures multiset(Insert(less, x, s)) == multiset([x] + s)
    ensures |Insert(less, x, s)| == |s| + 1
  {
    if s != [] && less(s[0], x) {
      InsertContents(less, x, s[1..]);
      assert s == [s[0]] + s[1..];
    }
  }

  lemma {:induction false} SortContents<T>(less: (T, T) -> bool, s: seq<T>)
    ensures multiset(Sort(less, s)) == multiset(s)
    ensures |Sort(less, s)| == |s|
    ensures forall x | x in Sort(less, s) :: x in s
    ensures forall x | x in s :: x in Sort(less, s)
  {
    if s != [] {
      SortContents(less, s[1..]);
      InsertContents(less, s[0], Sort(less, s[1..]));
      assert s == [s[0]] + s[1..];
    }
    var r := Sort(less, s);
    assert forall x | x in r :: x in multiset(r) && x in multiset(s);
    assert forall x | x in s :: x in multiset(s) && x in multiset(r);
  }

  lemma {:induction false} InsertOrdered<T>(less: (T, T) -> bool, x: T, s: seq<T>)
    requires Ordered(less, s) && WeakOrderOn(less, [x] + s)
    ensures Ordered(less, Insert(less, x, s))
  {
    var r := Insert(less, x, s);
    var all := [x] + s;
    assert x == all[0] && forall i | 0 <= i < |s| :: s[i] == all[i + 1];
    if s == [] {
    } else if !less(s[0], x) {
      forall j | 0 <= j < |s| ensures !less(s[j], x) {
        assert s[j] in all && s[0] in all && x in all;
        assert j == 0 || !less(s[j], s[0]);
      }
    } else {
      var tail := s[1..];
      assert forall y | y in [x] + tail :: y in all;
      InsertOrdered(less, x, tail);
      InsertContents(less, x, tail);
      forall j | 1 <= j < |r| ensures !less(r[j], s[0]) {
        assert r[j] in multiset(Insert(less, x, tail));
        assert r[j] == x || r[j] in tail;
        assert s[0] in all && x in all;
      }
    }
  }

  lemma {:induction false} SortOrdered<T>(less: (T, T) -> bool, s: seq<T>)
    requires WeakOrderOn(less, s)
    ensures Ordered(less, Sort(less, s))
  {
    if s != [] {
      var tail := s[1..];
      assert forall y | y in tail :: y in s;
      SortOrdered(less, tail);
      SortContents(less, tail);
      forall y | y in [s[0]] + Sort(less, tail) ensures y in s {
        assert y == s[0] || y in tail;
      }
      InsertOrdered(less, s[0], Sort(less, tail));
    }
  }

  /** Sorting looks only at how elements at different places compare. */
  lemma {:induction false} SortCongruent<T>(first: (T, T) -> bool, second: (T, T) -> bool, s: seq<T>)
    requires forall i, j | 0 <= i < |s| && 0 <= j < |s| && i != j :: first(s[i], s[j]) == second(s[i], s[j])
    ensures Sort(first, s) == Sort(second, s)
  {
    if s != [] {
      var tail := s[1..];
      SortCongruent(first, second, tail);
      SortContents(first, tail);
      forall a | a in Sort(first, tail) ensures first(a, s[0]) == second(a, s[0]) {
        var j :| 0 <= j < |tail| && tail[j] == a;
        assert s[j + 1] == a;
      }
      InsertCongruent(first, second, s[0], Sort(first, tail));
    }
  }

  lemma {:induction false} InsertCongruent<T>(first: (T, T) -> bool, second: (T, T) -> bool, x: T, s: seq<T>)
    requires forall a | a in s :: first(a, x) == second(a, x)
    ensures Insert(first, x, s) == Insert(second, x, s)
  {
    if s != [] {
      assert s[0] in s;
      InsertCongruent(first, second, x, s[1..]);
    }
  }

  /** A list already in order is left alone. */
  lemma {:induction false} SortOfOrdered<T>(less: (T, T) -> bool, s: seq<T>)
    requires Ordered(less, s)
    ensures Sort(less, s) == s
  {
    if s != [] {
      var tail := s[1..];
      assert Ordered(less, tail);
      SortOfOrdered(less, tail);
      if tail != [] {
        assert !less(s[1], s[0]);
      }
      assert s == [s[0]] + tail;
    }
  }

  /** Sorting, or any permutation, introduces no duplicates. */
  lemma StaysDistinct<T>(s: seq<T>, r: seq<T>, i: nat, j: nat)
    requires multiset(r) == multiset(s)
    requires forall i, j | 0 <= i < j < |s| :: s[i] != s[j]
    requires i < j < |r|
    ensures r[i] != r[j] && r[i] in s && r[j] in s
  {
    assert r[i] in multiset(s) && r[j] in multiset(s);
    if r[i] == r[j] {
      var p :| 0 <= p < |s| && s[p] == r[i];
      CountOfDistinct(s, p);
      CountOfPair(r, i, j);
    }
  }

  lemma CountOfDistinct<T>(s: seq<T>, p: nat)
    requires forall i, j | 0 <= i < j < |s| :: s[i] != s[j]
    requires p < |s|
    ensures multiset(s)[s[p]] == 1
  {
    assert s == s[..p] + [s[p]] + s[p + 1..];
    assert s[p] !in s[..p];
    assert s[p] !in s[p + 1..];
  }

  lemma CountOfPair<T>(s: seq<T>, i: nat, j: nat)
    requires i < j < |s| && s[i] == s[j]
    ensures multiset(s)[s[i]] >= 2
  {
    assert s == s[..i] + [s[i]] + s[i + 1..j] + [s[j]] + s[j + 1..];
  }
}
