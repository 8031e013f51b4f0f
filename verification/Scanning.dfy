/** Finding a separator, and input that arrives in pieces. */
module Scanning {
  /** Position of the first `mark`, or the length when there is none. */
  function Position<T(==)>(s: seq<T>, mark: T): (k: nat)
    ensures k <= |s| && (k < |s| ==> s[k] == mark) && forall i | 0 <= i < k :: s[i] != mark
  {
    if s == [] then 0
    else if s[0] == mark then 0
    else 1 + Position(s[1..], mark)
  }

  function Flatten<T>(chunks: seq<seq<T>>): seq<T>
  {
    if chunks == [] then [] else chunks[0] + Flatten(chunks[1..])
  }

  lemma {:induction false} FlattenConcat<T>(a: seq<seq<T>>, b: seq<seq<T>>)
    ensures Flatten(a + b) == Flatten(a) + Flatten(b)
  {
    if a == [] {
      assert a + b == b;
    } else {
      assert (a + b)[1..] == a[1..] + b;
      FlattenConcat(a[1..], b);
    }
  }

  lemma FlattenAppend<T>(chunks: seq<seq<T>>, last: seq<T>)
    ensures Flatten(chunks + [last]) == Flatten(chunks) + last
  {
    FlattenConcat(chunks, [last]);
    assert [last][1..] == [] && last + [] == last;
  }

  lemma FlattenLast<T>(chunks: seq<seq<T>>)
    requires chunks != []
    ensures Flatten(chunks) == Flatten(chunks[..|chunks| - 1]) + chunks[|chunks| - 1]
  {
    assert chunks == chunks[..|chunks| - 1] + [chunks[|chunks| - 1]];
    FlattenAppend(chunks[..|chunks| - 1], chunks[|chunks| - 1]);
  }
}
