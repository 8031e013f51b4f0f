/** Rendering a template at a local time, and matching keys against it. */
module Matching {
  import opened Template
  import opened Calendar

  // ----- Rendering -----

  function Digit(d: nat): char
    requires d < 10
  {
    "0123456789"[d]
  }

  predicate IsDigit(c: char)
  {
    '0' <= c <= '9'
  }

  predicate AllDigits(s: string)
  {
    forall i | 0 <= i < |s| :: IsDigit(s[i])
  }

  function Decimal(n: nat): string
  {
    if n < 10 then [Digit(n)] else Decimal(n / 10) + [Digit(n % 10)]
  }

  function Zeros(n: int): string
  {
    if n <= 0 then "" else "0" + Zeros(n - 1)
  }

  /** Zero-padded to a minimum total width; a sign counts towards it. */
  function Padded(width: nat, n: int): string
  {
    if n >= 0 then Zeros(width - |Decimal(n)|) + Decimal(n)
    else "-" + Zeros(width - 1 - |Decimal(-n)|) + Decimal(-n)
  }

  function RenderField(field: Field, t: LocalTime): string
    requires ValidTime(t)
  {
    match field
    case Year4 => Padded(4, t.year)
    case Year2 => Padded(2, t.year % 100)
    case Month2 => Padded(2, t.month)
    case Month1 => Decimal(t.month)
    case Day2 => Padded(2, t.day)
    case Day1 => Decimal(t.day)
    case Hour2 => Padded(2, t.hour)
    case Hour1 => Decimal(t.hour)
  }

  function RenderSegment(segment: Segment, t: LocalTime): string
    requires ValidTime(t)
  {
    match segment
    case Literal(text) => text
    case Placeholder(field) => RenderField(field, t)
  }

  function Render(segments: seq<Segment>, t: LocalTime): string
    requires ValidTime(t)
  {
    if segments == [] then "" else RenderSegment(segments[0], t) + Render(segments[1..], t)
  }

  lemma {:induction false} ZerosEnd(n: nat)
    ensures Zeros(n + 1) == Zeros(n) + "0"
  {
    if n > 0 {
      ZerosEnd(n - 1);
    }
  }

  /** Padding to one more place keeps the front and appends the last digit. */
  lemma PadStep(width: nat, n: nat)
    requires width > 0
    ensures Padded(width + 1, n) == Padded(width, n / 10) + [Digit(n % 10)]
  {
    if n < 10 {
      ZerosEnd(width - 1);
    }
  }

  /** `n` has at most `width` digits. */
  predicate Fits(width: nat, n: nat)
  {
    width > 0 && if width == 1 then n < 10 else Fits(width - 1, n / 10)
  }

  lemma {:induction false} PaddedWidth(width: nat, n: nat)
    requires Fits(width, n)
    ensures |Padded(width, n)| == width && AllDigits(Padded(width, n))
  {
    hide *;
    FitsShape(width, n);
    if width > 1 {
      PaddedWidth(width - 1, n / 10);
      PadStep(width - 1, n);
      OneDigit(Padded(width - 1, n / 10), n % 10);
    } else {
      OneDigit("", n);
    }
  }

  lemma OneDigit(front: string, d: nat)
    requires d < 10
    ensures |front + [Digit(d)]| == |front| + 1
    ensures AllDigits(front) ==> AllDigits(front + [Digit(d)])
    ensures AllDigits("")
  {
  }

  lemma {:induction false} PaddedInjective(width: nat, a: nat, b: nat)
    requires Fits(width, a) && Fits(width, b) && Padded(width, a) == Padded(width, b)
    ensures a == b
  {
    hide *;
    FitsShape(width, a);
    FitsShape(width, b);
    if width > 1 {
      PadStep(width - 1, a);
      PadStep(width - 1, b);
      LastOf(Padded(width - 1, a / 10), Digit(a % 10), Padded(width - 1, b / 10), Digit(b % 10));
      PaddedInjective(width - 1, a / 10, b / 10);
      DigitInjective(a % 10, b % 10);
      assert a == a / 10 * 10 + a % 10 && b == b / 10 * 10 + b % 10;
    } else {
      LastOf("", Digit(a), "", Digit(b));
      DigitInjective(a, b);
    }
  }

  lemma FitsShape(width: nat, n: nat)
    requires Fits(width, n)
    ensures width == 1 ==> n < 10 && Padded(1, n) == "" + [Digit(n)]
    ensures width != 1 ==> width > 1 && Fits(width - 1, n / 10)
  {
  }

  lemma LastOf(p: string, c: char, q: string, d: char)
    requires p + [c] == q + [d]
    ensures p == q && c == d
  {
    assert p == (p + [c])[..|p + [c]| - 1] == q;
    assert c == (p + [c])[|p + [c]| - 1] == d;
  }

  lemma DigitInjective(a: nat, b: nat)
    requires a < 10 && b < 10 && Digit(a) == Digit(b)
    ensures a == b
  {
  }

  lemma FitsSmall(n: nat)
    ensures n < 100 ==> Fits(2, n)
    ensures n < 10000 ==> Fits(4, n)
  {
    if n < 100 {
      assert Fits(1, n / 10);
    }
    if n < 10000 {
      var a := n / 10;
      var b := a / 10;
      assert a < 1000 && b < 100 && b / 10 < 10;
      assert Fits(1, b / 10);
      assert Fits(2, b);
      assert Fits(3, a);
    }
  }

  lemma DecimalWidth(n: nat)
    requires n < 100
    ensures AllDigits(Decimal(n)) && |Decimal(n)| == if n < 10 then 1 else 2
  {
    assert n >= 10 ==> Decimal(n) == Decimal(n / 10) + [Digit(n % 10)];
  }

  // ----- Matching -----

  function Widths(field: Field): seq<nat>
  {
    match field
    case Year4 => [4]
    case Year2 => [2]
    case Month2 => [2]
    case Day2 => [2]
    case Hour2 => [2]
    case Month1 => [2, 1]
    case Day1 => [2, 1]
    case Hour1 => [2, 1]
  }

  /** Tries each width in order, backtracking when the tail does not fit. */
  predicate MatchesSegments(segments: seq<Segment>, rest: string)
    decreases |segments|
  {
    if segments == [] then true
    else
      match segments[0]
      case Literal(text) => text <= rest && MatchesSegments(segments[1..], rest[|text|..])
      case Placeholder(field) =>
        exists width | width in Widths(field) ::
          width <= |rest| && AllDigits(rest[..width]) && MatchesSegments(segments[1..], rest[width..])
  }

  /** What one segment may cover: its exact text, or digits of an allowed width. */
  ghost predicate Covers(segment: Segment, piece: string)
  {
    match segment
    case Literal(text) => piece == text
    case Placeholder(field) => |piece| in Widths(field) && AllDigits(piece)
  }

  ghost function Join(pieces: seq<string>): string
  {
    if pieces == [] then "" else pieces[0] + Join(pieces[1..])
  }

  /** `key` is one covering piece per segment, followed by anything. */
  ghost predicate SplitsAs(segments: seq<Segment>, key: string, pieces: seq<string>)
  {
    && |pieces| == |segments|
    && (forall i | 0 <= i < |segments| :: Covers(segments[i], pieces[i]))
    && Join(pieces) <= key
  }

  lemma {:induction false} MatchIsSound(segments: seq<Segment>, key: string) returns (pieces: seq<string>)
    requires MatchesSegments(segments, key)
    ensures SplitsAs(segments, key, pieces)
    decreases |segments|
  {
    if segments == [] {
      pieces := [];
    } else {
      var width: nat;
      match segments[0] {
        case Literal(text) => width := |text|;
        case Placeholder(field) =>
          width :| width in Widths(field) && width <= |key| && AllDigits(key[..width])
            && MatchesSegments(segments[1..], key[width..]);
      }
      var rest := MatchIsSound(segments[1..], key[width..]);
      pieces := [key[..width]] + rest;
      assert pieces[1..] == rest;
      assert key == key[..width] + key[width..];
    }
  }

  lemma {:induction false} MatchIsComplete(segments: seq<Segment>, key: string, pieces: seq<string>)
    requires SplitsAs(segments, key, pieces)
    ensures MatchesSegments(segments, key)
    decreases |segments|
  {
    if segments != [] {
      var width := |pieces[0]|;
      assert Join(pieces) == pieces[0] + Join(pieces[1..]);
      assert key[..width] == pieces[0];
      assert forall i | 0 <= i < |segments| - 1 :: Covers(segments[1..][i], pieces[1..][i]);
      MatchIsComplete(segments[1..], key[width..], pieces[1..]);
      assert Covers(segments[0], pieces[0]);
    }
  }

  /** The backtracking matcher accepts exactly the keys that split into covering pieces. */
  lemma MatchesExactly(segments: seq<Segment>, key: string)
    ensures MatchesSegments(segments, key) <==> exists pieces :: SplitsAs(segments, key, pieces)
  {
    if MatchesSegments(segments, key) {
      var pieces := MatchIsSound(segments, key);
    }
    if pieces :| SplitsAs(segments, key, pieces) {
      MatchIsComplete(segments, key, pieces);
    }
  }

  predicate FourDigitYear(t: LocalTime)
  {
    0 <= t.year <= 9999
  }

  lemma RenderedFieldCovers(field: Field, t: LocalTime)
    requires ValidTime(t) && (field == Year4 ==> FourDigitYear(t))
    ensures Covers(Placeholder(field), RenderField(field, t))
  {
    hide Padded, Decimal, Digit, AllDigits, Fits;
    if field in {Month1, Day1, Hour1} {
      DecimalWidth(NumberOf(field, t));
    } else {
      FitsSmall(NumberOf(field, t));
      PaddedWidth(if field == Year4 then 4 else 2, NumberOf(field, t));
    }
  }

  /** The number a field shows. */
  function NumberOf(field: Field, t: LocalTime): int
  {
    match field
    case Year4 => t.year
    case Year2 => t.year % 100
    case Month2 => t.month
    case Month1 => t.month
    case Day2 => t.day
    case Day1 => t.day
    case Hour2 => t.hour
    case Hour1 => t.hour
  }

  /** Every rendering, with any object name after it, is recognised. */
  lemma {:induction false} RenderingMatches(segments: seq<Segment>, t: LocalTime, suffix: string)
    requires ValidTime(t) && (Placeholder(Year4) in segments ==> FourDigitYear(t))
    ensures MatchesSegments(segments, Render(segments, t) + suffix)
    decreases |segments|
  {
    if segments != [] {
      var piece, tail := RenderSegment(segments[0], t), Render(segments[1..], t);
      RenderingMatches(segments[1..], t, suffix);
      var key := Render(segments, t) + suffix;
      assert key == piece + (tail + suffix);
      assert key[..|piece|] == piece && key[|piece|..] == tail + suffix;
      if segments[0].Placeholder? {
        RenderedFieldCovers(segments[0].field, t);
      }
    }
  }

  /** Numbers of five or more digits outgrow the four that `{yyyy}` matches. */
  lemma {:induction false} LongYear(n: nat)
    requires n > 9999
    ensures |Decimal(n)| > 4 && AllDigits(Decimal(n))
  {
    if n < 100000 {
      FourPlaces(n / 10);
      AllDecimal(n);
    } else {
      LongYear(n / 10);
    }
  }

  lemma FourPlaces(n: nat)
    requires 1000 <= n <= 9999
    ensures |Decimal(n)| == 4
  {
    assert Decimal(n) == Decimal(n / 10) + [Digit(n % 10)];
    assert Decimal(n / 10) == Decimal(n / 10 / 10) + [Digit(n / 10 % 10)];
    DecimalWidth(n / 10 / 10);
  }

  lemma {:induction false} AllDecimal(n: nat)
    ensures AllDigits(Decimal(n))
  {
    if n >= 10 {
      AllDecimal(n / 10);
    }
  }

  predicate PaddedField(field: Field)
  {
    field in {Year4, Year2, Month2, Day2, Hour2}
  }

  /** The first `{yyyy}` comes after padded fields only, and a literal that starts with no digit follows it. */
  ghost predicate YearStandsOut(front: seq<Segment>, text: string)
  {
    && (forall s | s in front && s.Placeholder? :: PaddedField(s.field) && s.field != Year4)
    && text != "" && !IsDigit(text[0])
  }

  lemma {:induction false} RenderConcat(a: seq<Segment>, b: seq<Segment>, t: LocalTime)
    requires ValidTime(t)
    ensures Render(a + b, t) == Render(a, t) + Render(b, t)
  {
    if a == [] {
      assert a + b == b;
    } else {
      assert (a + b)[1..] == a[1..] + b;
      RenderConcat(a[1..], b, t);
    }
  }

  lemma RenderHead(segments: seq<Segment>, t: LocalTime)
    requires ValidTime(t)
    ensures segments == [] ==> Render(segments, t) == ""
    ensures segments != [] ==> Render(segments, t) == RenderSegment(segments[0], t) + Render(segments[1..], t)
  {
  }

  /** Padded fields and literals have one width, so a match can only split where the rendering does. */
  lemma {:induction false} FixedFront(front: seq<Segment>, rest: seq<Segment>, t: LocalTime, tail: string)
    requires ValidTime(t)
    requires forall s | s in front && s.Placeholder? :: PaddedField(s.field) && s.field != Year4
    ensures MatchesSegments(front + rest, Render(front, t) + tail) <==> MatchesSegments(rest, tail)
  {
    hide *;
    RenderHead(front, t);
    if front == [] {
      assert front + rest == rest && Render(front, t) + tail == tail;
    } else {
      var head, piece := front[0], RenderSegment(front[0], t);
      assert head in front && forall s | s in front[1..] :: s in front;
      FixedFront(front[1..], rest, t, tail);
      var inner := Render(front[1..], t) + tail;
      assert Render(front, t) + tail == piece + inner;
      assert (front + rest)[0] == head && (front + rest)[1..] == front[1..] + rest;
      HeadSplits(head, front + rest, piece, inner, t);
    }
  }

  lemma HeadSplits(head: Segment, segments: seq<Segment>, piece: string, inner: string, t: LocalTime)
    requires ValidTime(t) && segments != [] && segments[0] == head && piece == RenderSegment(head, t)
    requires head.Placeholder? ==> PaddedField(head.field) && head.field != Year4
    ensures MatchesSegments(segments, piece + inner) <==> MatchesSegments(segments[1..], inner)
  {
    hide Padded, Decimal;
    assert (piece + inner)[|piece|..] == inner && (piece + inner)[..|piece|] == piece;
    if head.Placeholder? {
      RenderedFieldCovers(head.field, t);
      assert 2 in Widths(head.field) && forall width | width in Widths(head.field) :: width == 2;
    }
  }

  /** Four characters and a non-digit: a year of another width or with a sign does not fit. */
  lemma YearNeedsFourDigits(t: LocalTime, text: string, back: seq<Segment>, tail: string)
    requires ValidTime(t) && text != "" && !IsDigit(text[0]) && !FourDigitYear(t)
    ensures !MatchesSegments([Placeholder(Year4), Literal(text)] + back, Padded(4, t.year) + text + tail)
  {
    var segments, year := [Placeholder(Year4), Literal(text)] + back, Padded(4, t.year);
    assert segments[1..] == [Literal(text)] + back;
    var key := year + text + tail;
    assert 4 in Widths(Year4) && forall width | width in Widths(Year4) :: width == 4;
    if t.year > 9999 {
      LongYear(t.year);
      assert year == Decimal(t.year);
      assert key[4..][0] == year[4];
    } else {
      assert key[..4][0] == '-';
    }
  }

  /**
   * A template in which padded fields only come before the first `{yyyy}`, and
   * a literal that starts with no digit comes after it, recognises its own
   * rendering exactly for the years 0 to 9999.
   */
  lemma YearRangeDecides(front: seq<Segment>, text: string, back: seq<Segment>, t: LocalTime, suffix: string)
    requires ValidTime(t) && YearStandsOut(front, text)
    ensures var segments := front + [Placeholder(Year4), Literal(text)] + back;
            MatchesSegments(segments, Render(segments, t) + suffix) <==> FourDigitYear(t)
  {
    hide Padded, MatchesSegments, FourDigitYear;
    var rest := [Placeholder(Year4), Literal(text)] + back;
    var segments := front + [Placeholder(Year4), Literal(text)] + back;
    assert segments == front + rest;
    RenderConcat(front, rest, t);
    var tail := Render(rest, t) + suffix;
    assert Render(segments, t) + suffix == Render(front, t) + tail;
    FixedFront(front, rest, t, tail);
    if FourDigitYear(t) {
      RenderingMatches(segments, t, suffix);
    } else {
      assert rest[1..] == [Literal(text)] + back && rest[1..][1..] == back;
      assert tail == Padded(4, t.year) + text + (Render(back, t) + suffix);
      YearNeedsFourDigits(t, text, back, Render(back, t) + suffix);
    }
  }

  // ----- Which templates recognise all their renderings -----

  ghost function Dashes(s: string): nat
  {
    if s == "" then 0 else (if s[0] == '-' then 1 else 0) + Dashes(s[1..])
  }

  lemma {:induction false} DashesConcat(a: string, b: string)
    ensures Dashes(a + b) == Dashes(a) + Dashes(b)
  {
    if a == "" {
      assert a + b == b;
    } else {
      assert (a + b)[1..] == a[1..] + b;
      DashesConcat(a[1..], b);
    }
  }

  lemma {:induction false} DigitsHaveNoDash(s: string)
    requires AllDigits(s)
    ensures Dashes(s) == 0
  {
    if s != "" {
      DigitsHaveNoDash(s[1..]);
    }
  }

  /** The month, the day and the hour each show as one digit when not padded. */
  predicate OneDigitEach(t: LocalTime)
  {
    t.month < 10 && t.day < 10 && t.hour < 10
  }

  lemma RenderedWidth(field: Field, t: LocalTime)
    requires ValidTime(t) && OneDigitEach(t) && field != Year4
    ensures |RenderField(field, t)| == if PaddedField(field) then 2 else 1
  {
    hide Padded, Decimal, Digit, AllDigits;
    RenderedFieldCovers(field, t);
    if !PaddedField(field) {
      DecimalWidth(NumberOf(field, t));
    }
  }

  lemma CoveringPiece(s: Segment, t: LocalTime, piece: string)
    requires ValidTime(t) && OneDigitEach(t) && s != Placeholder(Year4) && Covers(s, piece)
    ensures |piece| >= |RenderSegment(s, t)| && Dashes(piece) == Dashes(RenderSegment(s, t))
  {
    hide RenderField, AllDigits, Dashes;
    if s.Placeholder? {
      RenderedFieldCovers(s.field, t);
      RenderedWidth(s.field, t);
      DigitsHaveNoDash(piece);
      DigitsHaveNoDash(RenderField(s.field, t));
    }
  }

  /** What covers the segments before a year is no shorter than what they render, and holds as many dashes. */
  lemma {:induction false} CoveringPieces(front: seq<Segment>, t: LocalTime, pieces: seq<string>)
    requires ValidTime(t) && OneDigitEach(t) && Placeholder(Year4) !in front
    requires |pieces| == |front| && forall i | 0 <= i < |front| :: Covers(front[i], pieces[i])
    ensures |Join(pieces)| >= |Render(front, t)| && Dashes(Join(pieces)) == Dashes(Render(front, t))
  {
    hide Covers, Dashes, RenderSegment;
    if front != [] {
      CoveringPiece(front[0], t, pieces[0]);
      assert forall i | 0 <= i < |front| - 1 :: Covers(front[1..][i], pieces[1..][i]);
      CoveringPieces(front[1..], t, pieces[1..]);
      DashesConcat(pieces[0], Join(pieces[1..]));
      DashesConcat(RenderSegment(front[0], t), Render(front[1..], t));
    }
  }

  lemma {:induction false} JoinPrefix(pieces: seq<string>, n: nat)
    requires n <= |pieces|
    ensures Join(pieces[..n]) <= Join(pieces)
  {
    if n > 0 {
      JoinPrefix(pieces[1..], n - 1);
      assert pieces[..n][1..] == pieces[1..][..n - 1];
    } else {
      assert pieces[..n] == [];
    }
  }

  lemma {:induction false} JoinLast(pieces: seq<string>)
    requires pieces != []
    ensures Join(pieces) == Join(pieces[..|pieces| - 1]) + pieces[|pieces| - 1]
  {
    if |pieces| == 1 {
      assert pieces[1..] == [] && pieces[..0] == [];
    } else {
      JoinLast(pieces[1..]);
      assert pieces[1..][..|pieces| - 2] == pieces[..|pieces| - 1][1..];
    }
  }

  /** Of two prefixes of one text the shorter holds no more dashes. */
  lemma ShorterHoldsFewer(a: string, b: string, text: string)
    requires a <= text && b <= text && |a| <= |b|
    ensures Dashes(a) <= Dashes(b)
  {
    assert b == a + b[|a|..];
    DashesConcat(a, b[|a|..]);
  }

  /** The sign after the segments before a year is a dash that neither their pieces nor the year's digits cover. */
  lemma SignIsNotCovered(front: seq<Segment>, t: LocalTime, pieces: seq<string>, year: string, key: string)
    requires ValidTime(t) && OneDigitEach(t) && Placeholder(Year4) !in front
    requires |pieces| == |front| && forall i | 0 <= i < |front| :: Covers(front[i], pieces[i])
    requires Render(front, t) + "-" <= key && Covers(Placeholder(Year4), year)
    ensures !(Join(pieces) + year <= key)
  {
    CoveringPieces(front, t, pieces);
    DashesConcat(Render(front, t), "-");
    DashesConcat(Join(pieces), year);
    DigitsHaveNoDash(year);
    OneDash();
    hide *;
    if Join(pieces) + year <= key {
      ShorterHoldsFewer(Render(front, t) + "-", Join(pieces) + year, key);
    }
  }

  lemma NegativeYearUnmatched(front: seq<Segment>, back: seq<Segment>, t: LocalTime, suffix: string)
    requires ValidTime(t) && OneDigitEach(t) && t.year < 0 && Placeholder(Year4) !in front
    ensures var segments := front + [Placeholder(Year4)] + back;
            !MatchesSegments(segments, Render(segments, t) + suffix)
  {
    var segments := front + [Placeholder(Year4)] + back;
    var key, n := Render(segments, t) + suffix, |front|;
    SignFollows(front, back, t, suffix);
    hide MatchesSegments, Render;
    if MatchesSegments(segments, key) {
      var pieces := MatchIsSound(segments, key);
      FrontPieces(front, back, key, pieces);
      SignIsNotCovered(front, t, pieces[..n], pieces[n], key);
    }
  }

  lemma FrontPieces(front: seq<Segment>, back: seq<Segment>, key: string, pieces: seq<string>)
    requires SplitsAs(front + [Placeholder(Year4)] + back, key, pieces)
    ensures |pieces| > |front| && Covers(Placeholder(Year4), pieces[|front|])
    ensures forall i | 0 <= i < |front| :: Covers(front[i], pieces[..|front|][i])
    ensures Join(pieces[..|front|]) + pieces[|front|] <= key
  {
    hide Covers;
    var segments, n := front + [Placeholder(Year4)] + back, |front|;
    assert forall i | 0 <= i < n :: segments[i] == front[i];
    assert segments[n] == Placeholder(Year4);
    JoinPrefix(pieces, n + 1);
    JoinLast(pieces[..n + 1]);
    assert pieces[..n + 1][..n] == pieces[..n];
  }

  lemma OneDash()
    ensures Dashes("-") == 1
  {
  }

  lemma SignFollows(front: seq<Segment>, back: seq<Segment>, t: LocalTime, suffix: string)
    requires ValidTime(t) && t.year < 0
    ensures Render(front, t) + "-" <= Render(front + [Placeholder(Year4)] + back, t) + suffix
  {
    var rest := [Placeholder(Year4)] + back;
    assert front + [Placeholder(Year4)] + back == front + rest;
    RenderConcat(front, rest, t);
    RenderHead(rest, t);
    assert "-" <= Padded(4, t.year);
  }

  lemma {:induction false} FirstYear(segments: seq<Segment>) returns (front: seq<Segment>, back: seq<Segment>)
    requires Placeholder(Year4) in segments
    ensures segments == front + [Placeholder(Year4)] + back && Placeholder(Year4) !in front
  {
    if segments[0] == Placeholder(Year4) {
      front, back := [], segments[1..];
    } else {
      front, back := FirstYear(segments[1..]);
      front := [segments[0]] + front;
    }
  }

  /** A template recognises its rendering at every local time, whatever follows, if and only if it shows no `{yyyy}`. */
  lemma RecognisesAllYearsExactly(segments: seq<Segment>)
    ensures (forall t: LocalTime, suffix: string | ValidTime(t) ::
               MatchesSegments(segments, Render(segments, t) + suffix))
       <==> Placeholder(Year4) !in segments
  {
    hide MatchesSegments, Render;
    if Placeholder(Year4) in segments {
      var front, back := FirstYear(segments);
      var t := LocalTime(-1, 1, 1, 0, 0, 0);
      assert ValidTime(t);
      NegativeYearUnmatched(front, back, t, "");
    } else {
      forall t: LocalTime, suffix: string | ValidTime(t)
        ensures MatchesSegments(segments, Render(segments, t) + suffix)
      {
        RenderingMatches(segments, t, suffix);
      }
    }
  }

  /** After an unpadded field the width is not fixed: `{M}{yyyy}/` reads January 12024 as 11 | 2024. */
  lemma UnpaddedFieldHidesLongYear()
    ensures var segments := [Placeholder(Month1), Placeholder(Year4), Literal("/")];
            var t := LocalTime(12024, 1, 1, 0, 0, 0);
            && ValidTime(t) && !FourDigitYear(t)
            && Render(segments, t) == "112024/" && MatchesSegments(segments, Render(segments, t))
  {
    var segments := [Placeholder(Month1), Placeholder(Year4), Literal("/")];
    JanuaryOf12024();
    SplitJanuary();
    hide Render, MatchesSegments, SplitsAs;
    MatchIsComplete(segments, "112024/", ["11", "2024", "/"]);
  }

  lemma SplitJanuary()
    ensures SplitsAs([Placeholder(Month1), Placeholder(Year4), Literal("/")], "112024/", ["11", "2024", "/"])
  {
    var pieces := ["11", "2024", "/"];
    assert pieces[1..] == ["2024", "/"] && pieces[1..][1..] == ["/"] && ["/"][1..] == [];
    assert Join(["/"]) == "/" + Join([]) && Join(["2024", "/"]) == "2024" + Join(["/"]);
    assert Join(pieces) == "112024/";
  }

  lemma JanuarySegments()
    ensures var t := LocalTime(12024, 1, 1, 0, 0, 0);
            && RenderSegment(Placeholder(Month1), t) == "1" && RenderSegment(Placeholder(Year4), t) == "12024"
            && RenderSegment(Literal("/"), t) == "/"
  {
    LongDecimal();
  }

  lemma JanuaryOf12024()
    ensures var segments := [Placeholder(Month1), Placeholder(Year4), Literal("/")];
            Render(segments, LocalTime(12024, 1, 1, 0, 0, 0)) == "112024/"
  {
    var segments, t := [Placeholder(Month1), Placeholder(Year4), Literal("/")], LocalTime(12024, 1, 1, 0, 0, 0);
    JanuarySegments();
    hide Render, RenderSegment;
    RenderHead(segments, t);
    RenderHead(segments[1..], t);
    RenderHead(segments[2..], t);
    RenderHead(segments[3..], t);
    assert segments[1..][1..] == segments[2..] && segments[2..][1..] == segments[3..];
    assert "1" + ("12024" + ("/" + "")) == "112024/";
  }

  lemma LongDecimal()
    ensures Padded(4, 12024) == "12024"
  {
    assert Decimal(1) == "1";
    assert Decimal(12) == Decimal(1) + "2";
    assert Decimal(120) == Decimal(12) + "0";
    assert Decimal(1202) == Decimal(120) + "2";
    assert Decimal(12024) == Decimal(1202) + "4";
  }
}
