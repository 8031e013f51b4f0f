/** Paged listing that keeps only the newest observations while it streams. */
module Store {
  import opened Objects
  import opened Sorting
  import opened NewestN

  type Rank = (int, string)

  datatype StoreErrorKind = InvalidResponse | Service | Other

  datatype StoreError = StoreError(kind: StoreErrorKind, retryable: bool)

  datatype Modified = Missing | OutOfRange | At(nanoseconds: int)

  /** One element of a page as the service sends it; any field may be absent. */
  datatype RawObject = RawObject(
    key: Option<string>,
    modified: Modified,
    size: Option<int>,
    etag: Option<string>,
    storageClass: Option<string>)

  /** The service's answer to one LIST request. */
  datatype Answer =
    | Failed(error: StoreError)
    | Page(contents: seq<RawObject>, truncated: bool, token: Option<string>)

  function RankOf(o: S3Object): Rank
  {
    (o.lastModified, o.key)
  }

  ghost predicate RankKeyed(m: map<Rank, S3Object>)
  {
    forall r | r in m :: RankOf(m[r]) == r
  }

  lemma RankKeyedComparable(m: map<Rank, S3Object>)
    requires RankKeyed(m)
    ensures Comparable(m)
  {
    forall i, j | i in m && j in m && i != j ensures Newer(m[i], m[j]) || Newer(m[j], m[i]) {
      NewerTotal(m[i], m[j]);
    }
  }

  /** The ranked table that an unlimited listing would build. */
  ghost function Entries(xs: seq<S3Object>): map<Rank, S3Object>
  {
    if xs == [] then map[]
    else Entries(xs[..|xs| - 1])[RankOf(xs[|xs| - 1]) := xs[|xs| - 1]]
  }

  lemma {:induction false} EntriesContents(xs: seq<S3Object>)
    ensures RankKeyed(Entries(xs))
    ensures forall r | r in Entries(xs) :: Entries(xs)[r] in xs
    ensures forall o | o in xs :: RankOf(o) in Entries(xs)
  {
    if xs != [] {
      EntriesContents(xs[..|xs| - 1]);
      assert xs == xs[..|xs| - 1] + [xs[|xs| - 1]];
    }
  }

  class NewestBuffer {
    var ranked: map<Rank, S3Object>

    ghost predicate Valid(max: nat)
      reads this
    {
      RankKeyed(ranked) && |ranked| <= max
    }

    constructor ()
      ensures ranked == map[]
    {
      ranked := map[];
    }

    /** Inserts one observation and evicts the oldest one when over the limit. */
    method Retain(o: S3Object, max: nat)
      requires Valid(max)
      modifies this
      ensures Valid(max)
      ensures ranked == Newest(max, old(ranked)[RankOf(o) := o])
    {
      ranked := ranked[RankOf(o) := o];
      RankKeyedComparable(ranked);
      NewestSize(max, ranked);
      assert ranked.Keys == old(ranked).Keys + {RankOf(o)};
      if |ranked| > max {
        ghost var last := OldestExists(ranked, ranked.Keys);
        var first :| first in ranked && forall r | r in ranked && r != first :: Newer(ranked[r], ranked[first]);
        DropOldest(max, ranked, first);
        ranked := ranked - {first};
      }
    }

    method Finish() returns (s: seq<S3Object>)
      requires RankKeyed(ranked)
      ensures RankedList(s)
      ensures forall o :: o in s <==> RankOf(o) in ranked && ranked[RankOf(o)] == o
    {
      s := [];
      var rest := ranked.Keys;
      while rest != {}
        invariant rest <= ranked.Keys
        invariant forall o :: o in s <==> RankOf(o) in ranked.Keys - rest && ranked[RankOf(o)] == o
        invariant forall i, j | 0 <= i < j < |s| :: RankOf(s[i]) != RankOf(s[j])
        decreases |rest|
      {
        var r :| r in rest;
        s := s + [ranked[r]];
        rest := rest - {r};
      }
      ghost var unsorted := s;
      s := Sort(Newer, s);
      SortIsRanked(unsorted);
    }
  }

  /** Sorting distinct observations newest first leaves no ties. */
  lemma SortIsRanked(s: seq<S3Object>)
    requires forall i, j | 0 <= i < j < |s| :: RankOf(s[i]) != RankOf(s[j])
    ensures RankedList(Sort(Newer, s))
    ensures forall o :: o in Sort(Newer, s) <==> o in s
  {
    var r := Sort(Newer, s);
    NewerWeakOrder(s);
    SortOrdered(Newer, s);
    SortContents(Newer, s);
    forall i, j | 0 <= i < j < |r| ensures Newer(r[i], r[j]) {
      StaysDistinct(s, r, i, j);
      NewerTotal(r[i], r[j]);
    }
  }

  lemma NewerWeakOrder(s: seq<S3Object>)
    ensures WeakOrderOn(Newer, s)
  {
    forall a, b | a in s && b in s && Newer(a, b) ensures !Newer(b, a) {
      NewerTotal(a, b);
    }
    forall a, b, c | a in s && b in s && c in s && !Newer(b, a) && !Newer(c, b) ensures !Newer(c, a) {
      NewerTotal(a, b);
      NewerTotal(b, c);
      if Newer(c, a) {
        NewerTotal(c, a);
        if Newer(b, c) { NewerTransitive(b, c, a); }
      }
    }
  }

  // ----- The paging loop -----

  function Prepend(front: seq<S3Object>, r: Result<seq<S3Object>, StoreError>): Result<seq<S3Object>, StoreError>
  {
    match r
    case Ok(rest) => Ok(front + rest)
    case Err(error) => Err(error)
  }

  function Accept(raw: RawObject): Result<S3Object, StoreError>
  {
    if raw.key.None? || raw.modified.Missing? then Err(StoreError(InvalidResponse, true))
    else if raw.modified.OutOfRange? then Err(StoreError(InvalidResponse, false))
    else
      var size := if raw.size.Some? then raw.size.value else 0;
      if size < 0 then Err(StoreError(InvalidResponse, false))
      else Ok(S3Object(raw.key.value, raw.modified.nanoseconds, size, raw.etag, raw.storageClass))
  }

  /** The first unusable element decides. */
  function AcceptAll(raws: seq<RawObject>): Result<seq<S3Object>, StoreError>
  {
    if raws == [] then Ok([])
    else
      var front := AcceptAll(raws[..|raws| - 1]);
      var last := Accept(raws[|raws| - 1]);
      if front.Err? then front
      else if last.Err? then Err(last.error)
      else Ok(front.value + [last.value])
  }

  lemma {:induction false} ErrorSticks(raws: seq<RawObject>, i: nat)
    requires i <= |raws| && AcceptAll(raws[..i]).Err?
    ensures AcceptAll(raws) == AcceptAll(raws[..i])
    decreases |raws|
  {
    if i < |raws| {
      var front := raws[..|raws| - 1];
      assert front[..i] == raws[..i];
      ErrorSticks(front, i);
    } else {
      assert raws[..i] == raws;
    }
  }

  predicate LastAnswer(answer: Answer)
  {
    answer.Failed? || !answer.truncated || answer.token.None?
  }

  /** No further page is asked for after this answer: it is the last one, or an element of it is unusable. */
  predicate Stops(answer: Answer)
  {
    LastAnswer(answer) || AcceptAll(answer.contents).Err?
  }

  /** The service stops handing out continuation tokens at some point. */
  predicate Ends(answers: seq<Answer>)
  {
    answers != [] && (LastAnswer(answers[0]) || Ends(answers[1..]))
  }

  /** Some answer is a last one; nothing else is asked of the service. */
  lemma {:induction false} EndsExactly(answers: seq<Answer>)
    ensures Ends(answers) <==> exists answer :: answer in answers && LastAnswer(answer)
  {
    if answers != [] {
      EndsExactly(answers[1..]);
      assert answers == [answers[0]] + answers[1..];
    }
  }

  /** Everything the service reports across all pages, or the first error. */
  function Listing(answers: seq<Answer>): Result<seq<S3Object>, StoreError>
    requires Ends(answers)
  {
    match answers[0]
    case Failed(error) => Err(error)
    case Page(contents, truncated, token) =>
      match AcceptAll(contents)
      case Err(error) => Err(error)
      case Ok(objects) =>
        if !truncated then Ok(objects)
        else if token.None? then Err(StoreError(InvalidResponse, true))
        else Prepend(objects, Listing(answers[1..]))
  }

  // ----- What the service says, field by field -----

  /** The element carries every field of the object; an absent size stands for 0. */
  ghost predicate Shows(raw: RawObject, o: S3Object)
  {
    && raw.key == Some(o.key) && raw.modified == At(o.lastModified)
    && (raw.size == Some(o.size) || (raw.size.None? && o.size == 0))
    && raw.etag == o.etag && raw.storageClass == o.storageClass
  }

  ghost predicate Readable(raw: RawObject)
  {
    exists o :: Shows(raw, o)
  }

  /** Without a key or a timestamp asking again may help; a timestamp or size out of range stays so. */
  ghost predicate RefusedWith(raw: RawObject, error: StoreError)
  {
    && error.kind == InvalidResponse
    && if raw.key.None? || raw.modified.Missing? then error.retryable
       else !error.retryable && (raw.modified.OutOfRange? || (raw.size.Some? && raw.size.value < 0))
  }

  /** An element is accepted exactly as the object it shows, and refused exactly when it shows none. */
  lemma AcceptsWhatIsShown(raw: RawObject)
    ensures forall o :: Accept(raw) == Ok(o) <==> Shows(raw, o)
    ensures forall error :: Accept(raw) == Err(error) <==> RefusedWith(raw, error)
    ensures Accept(raw).Ok? <==> Readable(raw)
  {
    if Accept(raw).Ok? {
      assert Shows(raw, Accept(raw).value);
    }
  }

  lemma {:induction false} AcceptAllExactly(raws: seq<RawObject>)
    ensures AcceptAll(raws).Ok? <==> forall raw | raw in raws :: Readable(raw)
    ensures AcceptAll(raws).Ok? ==>
      |AcceptAll(raws).value| == |raws| && forall i | 0 <= i < |raws| :: Shows(raws[i], AcceptAll(raws).value[i])
  {
    hide Shows, Readable, Accept;
    if raws != [] {
      var front, last := raws[..|raws| - 1], raws[|raws| - 1];
      AcceptAllExactly(front);
      AcceptsWhatIsShown(last);
      assert raws == front + [last];
    }
  }

  /** The elements of all pages up to the last answer. */
  function Elements(answers: seq<Answer>): seq<RawObject>
    requires Ends(answers)
  {
    match answers[0]
    case Failed(_) => []
    case Page(contents, _, _) => if LastAnswer(answers[0]) then contents else contents + Elements(answers[1..])
  }

  /** Page follows page until one is not truncated. */
  predicate Unbroken(answers: seq<Answer>)
    requires Ends(answers)
  {
    answers[0].Page? && (!answers[0].truncated || (answers[0].token.Some? && Unbroken(answers[1..])))
  }

  /** What the service shows is in the bucket, and unless it breaks off it shows the whole bucket. */
  ghost predicate Truthful(answers: seq<Answer>, bucket: map<string, S3Object>)
    requires Ends(answers)
  {
    && (forall raw, o | raw in Elements(answers) && Shows(raw, o) :: o.key in bucket && bucket[o.key] == o)
    && (Unbroken(answers) ==> forall k | k in bucket :: Shown(Elements(answers), bucket[k]))
  }

  ghost predicate Shown(raws: seq<RawObject>, o: S3Object)
  {
    exists raw | raw in raws :: Shows(raw, o)
  }

  /** A listing succeeds exactly when it is unbroken and readable, and then yields the objects shown, in order. */
  lemma {:induction false} ListingExactly(answers: seq<Answer>)
    requires Ends(answers)
    ensures Listing(answers).Ok? <==> Unbroken(answers) && forall raw | raw in Elements(answers) :: Readable(raw)
    ensures Listing(answers).Ok? ==>
      && |Listing(answers).value| == |Elements(answers)|
      && forall i | 0 <= i < |Elements(answers)| :: Shows(Elements(answers)[i], Listing(answers).value[i])
  {
    hide Shows, Readable, AcceptAll;
    if answers[0].Page? {
      AcceptAllExactly(answers[0].contents);
      if !LastAnswer(answers[0]) {
        ListingExactly(answers[1..]);
      }
    }
  }

  lemma ListingVisits(answers: seq<Answer>, bucket: map<string, S3Object>)
    requires Ends(answers) && Keyed(bucket) && Truthful(answers, bucket) && Listing(answers).Ok?
    ensures Visits(Listing(answers).value, bucket)
  {
    hide Shows, Readable, Listing, Elements, Unbroken;
    ListingExactly(answers);
    var xs, raws := Listing(answers).value, Elements(answers);
    forall o | o in xs
      ensures o.key in bucket && bucket[o.key] == o
    {
      var i :| 0 <= i < |xs| && xs[i] == o;
      assert raws[i] in raws && Shows(raws[i], o);
    }
    forall k | k in bucket
      ensures bucket[k] in xs
    {
      assert Shown(raws, bucket[k]);
      var raw :| raw in raws && Shows(raw, bucket[k]);
      var i :| 0 <= i < |raws| && raws[i] == raw;
      ShowsOne(raw, xs[i], bucket[k]);
    }
  }

  lemma ShowsOne(raw: RawObject, a: S3Object, b: S3Object)
    requires Shows(raw, a) && Shows(raw, b)
    ensures a == b
  {
  }

  // ----- Which error a failing listing reports -----

  /** An element of the page is refused with this error, and all before it are readable. */
  ghost predicate ElementFails(contents: seq<RawObject>, error: StoreError)
  {
    exists j | 0 <= j < |contents| ::
      RefusedWith(contents[j], error) && forall i | 0 <= i < j :: Readable(contents[i])
  }

  /** This answer ends the listing with this error. */
  ghost predicate FailsWith(answer: Answer, error: StoreError)
  {
    match answer
    case Failed(reported) => error == reported
    case Page(contents, truncated, token) =>
      || ElementFails(contents, error)
      || ((forall raw | raw in contents :: Readable(raw))
          && truncated && token.None? && error == StoreError(InvalidResponse, true))
  }

  /** The answer is a readable page with another to come. */
  ghost predicate Continues(answer: Answer)
  {
    !LastAnswer(answer) && forall raw | raw in answer.contents :: Readable(raw)
  }

  ghost predicate FailsAt(answers: seq<Answer>, p: nat, error: StoreError)
  {
    p < |answers| && FailsWith(answers[p], error) && forall i | 0 <= i < p :: Continues(answers[i])
  }

  lemma {:induction false} AcceptAllFails(raws: seq<RawObject>, error: StoreError)
    ensures AcceptAll(raws) == Err(error) <==> ElementFails(raws, error)
  {
    hide Readable, RefusedWith, Accept;
    if raws != [] {
      var front, last := raws[..|raws| - 1], raws[|raws| - 1];
      AcceptAllFails(front, error);
      AcceptAllExactly(front);
      AcceptsWhatIsShown(last);
      if ElementFails(raws, error) {
        var j :| 0 <= j < |raws| && RefusedWith(raws[j], error) && forall i | 0 <= i < j :: Readable(raws[i]);
        assert j < |front| ==> front[j] == raws[j];
        assert forall i | 0 <= i < j && i < |front| :: front[i] == raws[i];
      }
    }
  }

  lemma FailsLater(answers: seq<Answer>, error: StoreError)
    requires answers != []
    ensures (exists p: nat :: FailsAt(answers, p, error))
       <==> FailsWith(answers[0], error) || (Continues(answers[0]) && exists p: nat :: FailsAt(answers[1..], p, error))
  {
    hide FailsWith, Continues;
    if p: nat :| FailsAt(answers, p, error) {
      if p > 0 {
        assert forall i | 0 <= i < p - 1 :: answers[1..][i] == answers[i + 1];
        assert FailsAt(answers[1..], p - 1, error);
      }
    }
    if FailsWith(answers[0], error) {
      assert FailsAt(answers, 0, error);
    }
    if Continues(answers[0]) {
      if p: nat :| FailsAt(answers[1..], p, error) {
        assert forall i | 1 <= i < p + 1 :: answers[i] == answers[1..][i - 1];
        assert FailsAt(answers, p + 1, error);
      }
    }
  }

  /** A listing fails with an error exactly when that is the error of the first answer that does not go on. */
  lemma {:induction false} ListingFailsExactly(answers: seq<Answer>, error: StoreError)
    requires Ends(answers)
    ensures Listing(answers) == Err(error) <==> exists p: nat :: FailsAt(answers, p, error)
  {
    hide FailsAt, ElementFails, Readable, AcceptAll;
    FailsLater(answers, error);
    if answers[0].Page? {
      AcceptAllFails(answers[0].contents, error);
      AcceptAllExactly(answers[0].contents);
      if !LastAnswer(answers[0]) {
        ListingFailsExactly(answers[1..], error);
      }
    }
  }

  /** The list is the newest `max` of the reported observations, newest first. */
  ghost predicate IsNewestListing(max: nat, reported: seq<S3Object>, s: seq<S3Object>)
  {
    && RankedList(s)
    && var kept := Newest(max, Entries(reported));
       forall o :: o in s <==> RankOf(o) in kept && kept[RankOf(o)] == o
  }

  /** `requests` is the number of billed LIST calls, whether or not the listing succeeds. */
  method ListObjects(answers: seq<Answer>, max: nat)
    returns (r: Result<seq<S3Object>, StoreError>, requests: nat)
    requires Ends(answers)
    ensures max == 0 ==> r == Err(StoreError(Other, false)) && requests == 0
    ensures max > 0 ==> (r.Ok? <==> Listing(answers).Ok?)
    ensures max > 0 ==> forall error :: r == Err(error) <==> exists p: nat :: FailsAt(answers, p, error)
    ensures max > 0 && r.Err? ==> r.error == Listing(answers).error
    ensures r.Ok? ==> Listing(answers).Ok? && IsNewestListing(max, Listing(answers).value, r.value)
    ensures r.Ok? ==>
      forall bucket | Keyed(bucket) && Truthful(answers, bucket) :: Lists(r.value, Newest(max, bucket))
    ensures max > 0 ==> 0 < requests <= |answers| && Stops(answers[requests - 1])
    ensures max > 0 ==> forall i | 0 <= i < requests - 1 :: !Stops(answers[i])
    ensures r.Ok? ==> !answers[requests - 1].Failed? && !answers[requests - 1].truncated
  {
    if max == 0 {
      return Err(StoreError(Other, false)), 0;
    }
    hide *;
    var newest := new NewestBuffer();
    ghost var seen := [];
    NothingRetained(max);
    requests := 0;
    PrependNothing(Listing(answers));
    FailuresOf(answers);
    assert answers[0..] == answers;
    EndsHaveMore(answers);
    while true
      invariant fresh(newest) && newest.Valid(max)
      invariant newest.ranked == Newest(max, Entries(seen))
      invariant requests < |answers| && Ends(answers[requests..])
      invariant Listing(answers) == Prepend(seen, Listing(answers[requests..]))
      invariant forall i | 0 <= i < requests :: !Stops(answers[i])
      decreases |answers| - requests
    {
      var answer := answers[requests];
      NextAnswer(seen, answers[requests..]);
      requests := requests + 1;
      if answer.Failed? {
        return Err(answer.error), requests;
      }
      var failure := RetainPage(newest, answer.contents, max, seen);
      if failure.Some? {
        return Err(failure.value), requests;
      }
      ghost var page := AcceptAll(answer.contents).value;
      assert answers[requests - 1..][1..] == answers[requests..];
      if !answer.truncated {
        RankedIsValid(newest, max);
        var s := newest.Finish();
        FinishedListing(max, seen + page, s);
        ListsItsBuckets(max, answers, s);
        return Ok(s), requests;
      }
      if answer.token.None? {
        return Err(StoreError(InvalidResponse, true)), requests;
      }
      EndsHaveMore(answers[requests..]);
      seen := seen + page;
    }
  }

  lemma NothingRetained(max: nat)
    ensures Newest(max, Entries([])) == map[]
    ensures forall newest: NewestBuffer :: newest.ranked == map[] ==> newest.Valid(max)
  {
  }

  lemma RankedIsValid(newest: NewestBuffer, max: nat)
    requires newest.Valid(max)
    ensures RankKeyed(newest.ranked)
  {
  }

  lemma EndsHaveMore(answers: seq<Answer>)
    requires Ends(answers)
    ensures answers != []
  {
  }

  /** What the first of the remaining answers means for the whole listing. */
  lemma NextAnswer(seen: seq<S3Object>, rest: seq<Answer>)
    requires Ends(rest)
    ensures rest != []
    ensures rest[0].Failed? ==> Stops(rest[0]) && Prepend(seen, Listing(rest)) == Err(rest[0].error)
    ensures rest[0].Page? ==>
      var page := AcceptAll(rest[0].contents);
      && (page.Err? ==> Stops(rest[0]) && Prepend(seen, Listing(rest)) == page)
      && (page.Ok? && !rest[0].truncated ==> Stops(rest[0]) && Prepend(seen, Listing(rest)) == Ok(seen + page.value))
      && (page.Ok? && rest[0].truncated && rest[0].token.None? ==>
            Stops(rest[0]) && Prepend(seen, Listing(rest)) == Err(StoreError(InvalidResponse, true)))
      && (page.Ok? && rest[0].truncated && rest[0].token.Some? ==>
            && !Stops(rest[0]) && Ends(rest[1..])
            && Prepend(seen, Listing(rest)) == Prepend(seen + page.value, Listing(rest[1..])))
  {
    hide AcceptAll;
    if rest[0].Page? && AcceptAll(rest[0].contents).Ok? && rest[0].truncated && rest[0].token.Some? {
      PrependTwice(seen, AcceptAll(rest[0].contents).value, Listing(rest[1..]));
    }
  }

  /** The per-object part of one page; stops at the first unusable element. */
  method RetainPage(newest: NewestBuffer, contents: seq<RawObject>, max: nat, ghost seen: seq<S3Object>)
    returns (failure: Option<StoreError>)
    requires newest.Valid(max) && newest.ranked == Newest(max, Entries(seen))
    modifies newest
    ensures newest.Valid(max)
    ensures failure.Some? ==> AcceptAll(contents) == Err(failure.value)
    ensures failure.None? ==> AcceptAll(contents).Ok?
    ensures failure.None? ==> newest.ranked == Newest(max, Entries(seen + AcceptAll(contents).value))
  {
    hide Entries, Newest;
    var i := 0;
    assert seen + [] == seen;
    while i < |contents|
      invariant 0 <= i <= |contents|
      invariant AcceptAll(contents[..i]).Ok?
      invariant newest.Valid(max)
      invariant newest.ranked == Newest(max, Entries(seen + AcceptAll(contents[..i]).value))
    {
      ghost var done := AcceptAll(contents[..i]).value;
      failure := RetainOne(newest, contents[i], max, seen + done);
      assert contents[..i + 1][..i] == contents[..i];
      if failure.Some? {
        ErrorSticks(contents, i + 1);
        return;
      }
      assert seen + done + [Accept(contents[i]).value] == seen + (done + [Accept(contents[i]).value]);
      i := i + 1;
    }
    assert contents[..i] == contents;
    failure := None;
  }

  method RetainOne(newest: NewestBuffer, raw: RawObject, max: nat, ghost seen: seq<S3Object>)
    returns (failure: Option<StoreError>)
    requires newest.Valid(max) && newest.ranked == Newest(max, Entries(seen))
    modifies newest
    ensures newest.Valid(max)
    ensures failure.Some? ==> Accept(raw) == Err(failure.value)
    ensures failure.None? ==> Accept(raw).Ok? && newest.ranked == Newest(max, Entries(seen + [Accept(raw).value]))
  {
    match Accept(raw) {
      case Err(error) =>
        failure := Some(error);
      case Ok(o) =>
        newest.Retain(o, max);
        RetainContinues(max, seen, o);
        failure := None;
    }
  }

  lemma FinishedListing(max: nat, reported: seq<S3Object>, s: seq<S3Object>)
    requires RankedList(s)
    requires var kept := Newest(max, Entries(reported));
             forall o :: o in s <==> RankOf(o) in kept && kept[RankOf(o)] == o
    ensures IsNewestListing(max, reported, s)
  {
  }

  lemma FailuresOf(answers: seq<Answer>)
    requires Ends(answers)
    ensures forall error :: Listing(answers) == Err(error) <==> exists p: nat :: FailsAt(answers, p, error)
  {
    hide *;
    forall error
      ensures Listing(answers) == Err(error) <==> exists p: nat :: FailsAt(answers, p, error)
    {
      ListingFailsExactly(answers, error);
    }
  }

  lemma ListsItsBuckets(max: nat, answers: seq<Answer>, s: seq<S3Object>)
    requires Ends(answers) && Listing(answers).Ok? && IsNewestListing(max, Listing(answers).value, s)
    ensures forall bucket | Keyed(bucket) && Truthful(answers, bucket) :: Lists(s, Newest(max, bucket))
  {
    hide *;
    forall bucket | Keyed(bucket) && Truthful(answers, bucket)
      ensures Lists(s, Newest(max, bucket))
    {
      ListingVisits(answers, bucket);
      ListingOfBucket(max, Listing(answers).value, bucket, s);
    }
  }

  lemma PrependNothing(r: Result<seq<S3Object>, StoreError>)
    ensures Prepend([], r) == r
  {
    if r.Ok? {
      assert [] + r.value == r.value;
    }
  }

  lemma PrependTwice(a: seq<S3Object>, b: seq<S3Object>, r: Result<seq<S3Object>, StoreError>)
    ensures Prepend(a, Prepend(b, r)) == Prepend(a + b, r)
  {
    if r.Ok? {
      assert a + (b + r.value) == a + b + r.value;
    }
  }

  lemma RetainContinues(max: nat, seen: seq<S3Object>, o: S3Object)
    ensures Newest(max, Newest(max, Entries(seen))[RankOf(o) := o]) == Newest(max, Entries(seen + [o]))
  {
    var all, one := Entries(seen), map[RankOf(o) := o];
    assert Entries(seen + [o]) == all + one by {
      assert (seen + [o])[..|seen|] == seen;
    }
    assert NotBack(all, one) by {
      EntriesContents(seen);
    }
    NewestOverride(max, all, one);
    var kept := Newest(max, all);
    assert kept + one == kept[RankOf(o) := o];
  }

  // ----- What a listing of a bucket amounts to -----

  /** `xs` visits the objects of `bucket`, in any order and with any repetition. */
  ghost predicate Visits(xs: seq<S3Object>, bucket: map<string, S3Object>)
  {
    forall o :: o in xs <==> o.key in bucket && bucket[o.key] == o
  }

  lemma {:induction false} ProjectionSize(ranks: set<Rank>)
    requires forall r, q | r in ranks && q in ranks && r.1 == q.1 :: r == q
    ensures |set r | r in ranks :: r.1| == |ranks|
  {
    if ranks != {} {
      var x :| x in ranks;
      var rest := ranks - {x};
      ProjectionSize(rest);
      assert (set r | r in ranks :: r.1) == (set r | r in rest :: r.1) + {x.1};
    }
  }

  /** Page order and page boundaries never show: the result is the bucket's newest n. */
  lemma ListingOfBucket(n: nat, xs: seq<S3Object>, bucket: map<string, S3Object>, s: seq<S3Object>)
    requires Keyed(bucket) && Visits(xs, bucket)
    requires IsNewestListing(n, xs, s)
    ensures Lists(s, Newest(n, bucket))
  {
    var entries := Entries(xs);
    EntriesContents(xs);
    forall o: S3Object
      ensures (o.key in bucket && bucket[o.key] == o) <==> (RankOf(o) in entries && entries[RankOf(o)] == o)
    {
      if o in xs {
        assert entries[RankOf(o)] in xs;
      }
    }
    forall o: S3Object
      ensures (RankOf(o) in Newest(n, entries) && Newest(n, entries)[RankOf(o)] == o)
         <==> (o.key in Newest(n, bucket) && Newest(n, bucket)[o.key] == o)
    {
      var ranks := Above(entries, o);
      forall r, q | r in ranks && q in ranks && r.1 == q.1 ensures r == q {
        assert entries[r] in xs && entries[q] in xs;
      }
      ProjectionSize(ranks);
      forall k ensures k in Above(bucket, o) <==> k in (set r | r in ranks :: r.1) {
        if k in Above(bucket, o) {
          assert RankOf(bucket[k]) in ranks;
        }
        if k in (set r | r in ranks :: r.1) {
          var r :| r in ranks && r.1 == k;
          assert entries[r] in xs;
        }
      }
      assert Above(bucket, o) == set r | r in ranks :: r.1;
    }
  }
}
