/** What rendered placeholders say: their text read back as numbers, from the character codes alone. */
module ReadBack {
  import opened Template
  import opened Calendar
  import opened Matching

  /** The number that a string of decimal figures writes. */
  function PlaceValue(s: string): int
  {
    if s == "" then 0 else PlaceValue(s[..|s| - 1]) * 10 + (s[|s| - 1] as int - 48)
  }

  predicate Figures(s: string)
  {
    forall i | 0 <= i < |s| :: 48 <= s[i] as int <= 57
  }

  /** The text is the number in figures, without zeros in front beyond those that fill `width`. */
  predicate Writes(text: string, number: nat, width: nat)
  {
    && text != "" && Figures(text) && PlaceValue(text) == number
    && |text| >= width && (|text| > width && |text| > 1 ==> text[0] != '0')
  }

  /** The number a placeholder of this name stands for: its letter tells the unit. */
  function NumberNamed(name: string, t: LocalTime): int
    requires name in NAMES
  {
    if name[0] == 'y' then if |name| == 4 then t.year else t.year % 100
    else if name[0] == 'M' then t.month
    else if name[0] == 'd' then t.day
    else t.hour
  }

  // ----- Numbers -----

  lemma OneMore(front: string, d: nat)
    requires d < 10
    ensures PlaceValue(front + [Digit(d)]) == PlaceValue(front) * 10 + d
    ensures Figures(front) ==> Figures(front + [Digit(d)])
  {
    assert (front + [Digit(d)])[..|front|] == front;
  }

  lemma {:induction false} DecimalReads(n: nat)
    ensures Decimal(n) != "" && Figures(Decimal(n)) && PlaceValue(Decimal(n)) == n
    ensures n > 0 ==> Decimal(n)[0] != '0'
    ensures n == 0 ==> Decimal(n) == "0"
  {
    hide Figures, PlaceValue;
    if n < 10 {
      OneMore("", n);
      assert "" + [Digit(n)] == [Digit(n)];
      Nothing();
    } else {
      DecimalReads(n / 10);
      OneMore(Decimal(n / 10), n % 10);
    }
  }

  lemma Nothing()
    ensures PlaceValue("") == 0 && Figures("")
  {
  }

  lemma {:induction false} ZerosRead(k: int, s: string)
    requires Figures(s)
    ensures Figures(Zeros(k) + s) && PlaceValue(Zeros(k) + s) == PlaceValue(s)
    ensures |Zeros(k)| == (if k < 0 then 0 else k) && (k > 0 ==> Zeros(k)[0] == '0')
  {
    if k <= 0 {
      assert Zeros(k) + s == s;
    } else {
      ZerosRead(k - 1, s);
      assert Zeros(k) + s == "0" + (Zeros(k - 1) + s);
      ZeroInFront(Zeros(k - 1) + s);
    }
  }

  lemma {:induction false} ZeroInFront(s: string)
    ensures PlaceValue("0" + s) == PlaceValue(s)
  {
    if s == "" {
      assert ("0" + s)[..0] == "";
    } else {
      ZeroInFront(s[..|s| - 1]);
      assert ("0" + s)[..|s|] == "0" + s[..|s| - 1];
    }
  }

  /** Zero-padded figures, with a minus sign in front that counts towards the width. */
  lemma PaddedReads(width: nat, n: int)
    requires width > 0
    ensures n >= 0 ==> Writes(Padded(width, n), n, width)
    ensures n < 0 ==> "-" <= Padded(width, n) && Writes(Padded(width, n)[1..], -n, width - 1)
  {
    hide Zeros, Decimal, Figures, PlaceValue;
    if n >= 0 {
      PaddedFigures(width, n);
    } else {
      PaddedFigures(width - 1, -n);
      assert Padded(width, n)[1..] == Zeros(width - 1 - |Decimal(-n)|) + Decimal(-n);
    }
  }

  lemma PaddedFigures(width: nat, n: nat)
    ensures Writes(Zeros(width - |Decimal(n)|) + Decimal(n), n, width)
  {
    hide Zeros, Decimal, Figures, PlaceValue;
    DecimalReads(n);
    ZerosRead(width - |Decimal(n)|, Decimal(n));
  }

  // ----- Fields -----

  /** The text shows the number of this placeholder, in at least as many figures as the name has letters. */
  predicate ShowsNamed(text: string, name: string, t: LocalTime)
    requires name in NAMES
  {
    var number := NumberNamed(name, t);
    if number >= 0 then Writes(text, number, |name|)
    else "-" <= text && Writes(text[1..], -number, |name| - 1)
  }

  /**
   * `{yyyy}` shows the year, `{yy}` its last two figures, `{MM}`, `{dd}` and
   * `{HH}` the month, day and hour in two figures, `{M}`, `{d}` and `{H}` the
   * same without a zero in front; `{yyyy}` keeps four figures up to 9999.
   */
  lemma FieldReadsBack(name: string, t: LocalTime)
    requires ValidTime(t) && name in NAMES
    ensures FieldNamed(name).Some? && NameOf(FieldNamed(name).value) == name
    ensures ShowsNamed(RenderField(FieldNamed(name).value, t), name, t)
    ensures 0 <= NumberNamed(name, t) <= 9999 && |name| > 1 ==> |RenderField(FieldNamed(name).value, t)| == |name|
  {
    NamesAreAccepted(name);
    FieldNameRoundTrip(name);
    FieldWritesNumber(FieldNamed(name).value, t);
    hide Writes, RenderField;
  }

  lemma FieldWritesNumber(field: Field, t: LocalTime)
    requires ValidTime(t)
    ensures NameOf(field) in NAMES && ShowsNamed(RenderField(field, t), NameOf(field), t)
    ensures PaddedField(field) && (field == Year4 ==> FourDigitYear(t)) ==> |RenderField(field, t)| == |NameOf(field)|
  {
    hide Padded, Decimal, Writes;
    if PaddedField(field) {
      PaddedReads(|NameOf(field)|, NumberOf(field, t));
      if field == Year4 ==> FourDigitYear(t) {
        RenderedFieldCovers(field, t);
      }
    } else {
      UnpaddedReads(NumberOf(field, t));
    }
  }

  lemma UnpaddedReads(n: nat)
    ensures Writes(Decimal(n), n, 1)
  {
    hide Decimal, Figures, PlaceValue;
    DecimalReads(n);
  }

  // ----- Whole renderings -----

  ghost predicate ShowsSegment(piece: string, segment: Segment, t: LocalTime)
  {
    match segment
    case Literal(text) => piece == text
    case Placeholder(field) => NameOf(field) in NAMES && ShowsNamed(piece, NameOf(field), t)
  }

  /** A rendering is one piece after the other: plain text as it is, and every placeholder's number. */
  lemma {:induction false} RenderingReadsBack(segments: seq<Segment>, t: LocalTime) returns (pieces: seq<string>)
    requires ValidTime(t)
    ensures |pieces| == |segments| && Join(pieces) == Render(segments, t)
    ensures forall i | 0 <= i < |segments| :: ShowsSegment(pieces[i], segments[i], t)
  {
    hide RenderSegment, ShowsSegment;
    if segments == [] {
      pieces := [];
    } else {
      var rest := RenderingReadsBack(segments[1..], t);
      SegmentShows(segments[0], t);
      pieces := [RenderSegment(segments[0], t)] + rest;
      assert pieces[1..] == rest;
    }
  }

  lemma SegmentShows(segment: Segment, t: LocalTime)
    requires ValidTime(t)
    ensures ShowsSegment(RenderSegment(segment, t), segment, t)
  {
    hide RenderField, ShowsNamed;
    if segment.Placeholder? {
      FieldWritesNumber(segment.field, t);
    }
  }

  // ----- Matching what is rendered -----

  lemma DigitsAreFigures(s: string)
    ensures AllDigits(s) <==> Figures(s)
  {
  }

  /** The matcher tries exactly the widths that renderings with a year of four figures have. */
  lemma WidthsAreRendered(field: Field, width: nat)
    ensures width in Widths(field)
       <==> exists t :: ValidTime(t) && FourDigitYear(t) && |RenderField(field, t)| == width
  {
    hide RenderField;
    forall t | ValidTime(t) && FourDigitYear(t)
      ensures |RenderField(field, t)| in Widths(field)
    {
      RenderedFieldCovers(field, t);
    }
    var early, late := LocalTime(2024, 1, 1, 0, 0, 0), LocalTime(2024, 12, 12, 12, 0, 0);
    WidthsOf(field);
    assert ValidTime(early) && ValidTime(late);
  }

  lemma WidthsOf(field: Field)
    ensures var early, late := LocalTime(2024, 1, 1, 0, 0, 0), LocalTime(2024, 12, 12, 12, 0, 0);
            && ValidTime(early) && ValidTime(late)
            && (PaddedField(field) ==> |RenderField(field, late)| in Widths(field) && |Widths(field)| == 1)
            && (!PaddedField(field) ==> |RenderField(field, early)| == 1 && |RenderField(field, late)| == 2
                                        && forall width | width in Widths(field) :: width == 1 || width == 2)
  {
    var early, late := LocalTime(2024, 1, 1, 0, 0, 0), LocalTime(2024, 12, 12, 12, 0, 0);
    assert ValidTime(early) && ValidTime(late);
    RenderedFieldCovers(field, late);
    hide Padded, Decimal;
    if !PaddedField(field) {
      DecimalWidth(NumberOf(field, early));
      DecimalWidth(NumberOf(field, late));
    }
  }
}
