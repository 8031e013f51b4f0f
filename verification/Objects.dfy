/** Listed objects and the order every component ranks them by. */
module Objects {
  datatype Option<+T> = None | Some(value: T)

  datatype Result<+T, +E> = Ok(value: T) | Err(error: E)

  function Min(a: int, b: int): int
  {
    if a < b then a else b
  }

  /** `lastModified` counts nanoseconds since the epoch. */
  datatype S3Object = S3Object(
    key: string,
    lastModified: int,
    size: nat,
    etag: Option<string>,
    storageClass: Option<string>)

  /** Code-point order, which is the byte order of the UTF-8 encodings. */
  predicate KeyLess(a: string, b: string)
  {
    if b == "" then false
    else if a == "" then true
    else if a[0] != b[0] then a[0] < b[0]
    else KeyLess(a[1..], b[1..])
  }

  /** Later timestamp first; equal timestamps are ranked by ascending key. */
  predicate Newer(a: S3Object, b: S3Object)
  {
    || a.lastModified > b.lastModified
    || (a.lastModified == b.lastModified && KeyLess(a.key, b.key))
  }

  predicate Older(a: S3Object, b: S3Object)
  {
    || a.lastModified < b.lastModified
    || (a.lastModified == b.lastModified && KeyLess(a.key, b.key))
  }

  lemma {:induction false} KeyLessIrreflexive(a: string)
    ensures !KeyLess(a, a)
  {
    if a != "" {
      KeyLessIrreflexive(a[1..]);
    }
  }

  lemma {:induction false} KeyLessTransitive(a: string, b: string, c: string)
    requires KeyLess(a, b) && KeyLess(b, c)
    ensures KeyLess(a, c)
  {
    if a != "" && a[0] == b[0] == c[0] {
      KeyLessTransitive(a[1..], b[1..], c[1..]);
    }
  }

  lemma {:induction false} KeyLessTotal(a: string, b: string)
    ensures a == b || KeyLess(a, b) || KeyLess(b, a)
  {
    if a != "" && b != "" && a[0] == b[0] {
      KeyLessTotal(a[1..], b[1..]);
      assert a == [a[0]] + a[1..] && b == [b[0]] + b[1..];
    }
  }

  lemma NewerIrreflexive(a: S3Object)
    ensures !Newer(a, a) && !Older(a, a)
  {
    KeyLessIrreflexive(a.key);
  }

  lemma NewerTransitive(a: S3Object, b: S3Object, c: S3Object)
    requires Newer(a, b) && Newer(b, c)
    ensures Newer(a, c)
  {
    if a.lastModified == b.lastModified == c.lastModified {
      KeyLessTransitive(a.key, b.key, c.key);
    }
  }

  /** Two objects that no ranking separates have the same key and timestamp. */
  lemma NewerTotal(a: S3Object, b: S3Object)
    ensures Newer(a, b) || Newer(b, a) || (a.key == b.key && a.lastModified == b.lastModified)
    ensures !(Newer(a, b) && Newer(b, a))
  {
    KeyLessTotal(a.key, b.key);
    if Newer(a, b) && Newer(b, a) {
      NewerTransitive(a, b, a);
      NewerIrreflexive(a);
    }
  }

  lemma OlderTransitive(a: S3Object, b: S3Object, c: S3Object)
    requires Older(a, b) && Older(b, c)
    ensures Older(a, c)
  {
    if a.lastModified == b.lastModified == c.lastModified {
      KeyLessTransitive(a.key, b.key, c.key);
    }
  }

  lemma OlderTotal(a: S3Object, b: S3Object)
    ensures Older(a, b) || Older(b, a) || (a.key == b.key && a.lastModified == b.lastModified)
    ensures !(Older(a, b) && Older(b, a))
  {
    KeyLessTotal(a.key, b.key);
    if Older(a, b) && Older(b, a) {
      OlderTransitive(a, b, a);
      NewerIrreflexive(a);
    }
  }

  /** The two orders differ in the timestamps only: both rank ties by ascending key. */
  lemma OrdersAreOpposite(a: S3Object, b: S3Object)
    ensures a.lastModified < b.lastModified ==> Newer(b, a) && Older(a, b) && !Newer(a, b) && !Older(b, a)
    ensures a.lastModified == b.lastModified ==> (Newer(a, b) <==> Older(a, b))
    ensures a.lastModified == b.lastModified && a.key != b.key ==> (Newer(a, b) <==> !Newer(b, a))
  {
    NewerTotal(a, b);
  }

  /** Keys are ranked by their first different character; a key comes before its extensions. */
  lemma {:induction false} KeysByFirstDifference(common: string, a: string, b: string)
    ensures a != "" ==> KeyLess(common, common + a)
    ensures a != "" && b != "" && a[0] < b[0] ==> KeyLess(common + a, common + b)
    decreases |common|
  {
    if common == "" {
      assert common + a == a && common + b == b;
    } else {
      KeysByFirstDifference(common[1..], a, b);
      assert (common + a)[1..] == common[1..] + a && (common + b)[1..] == common[1..] + b;
    }
  }
}
