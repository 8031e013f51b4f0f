/** Date templates: the placeholder syntax, and its two-way round trip with text. */
module Template {
  import opened Objects
  import opened Scanning

  datatype Granularity = Year | Month | Day | Hour

  datatype Field = Year4 | Year2 | Month2 | Month1 | Day2 | Day1 | Hour2 | Hour1

  datatype Segment = Literal(text: string) | Placeholder(field: Field)

  datatype DateTemplate = DateTemplate(segments: seq<Segment>, granularity: Granularity)

  datatype TemplateError = UnclosedPlaceholder | UnmatchedBrace | MinutesNotMonths | UnknownPlaceholder(name: string)

  function NameOf(field: Field): string
  {
    match field
    case Year4 => "yyyy"
    case Year2 => "yy"
    case Month2 => "MM"
    case Month1 => "M"
    case Day2 => "dd"
    case Day1 => "d"
    case Hour2 => "HH"
    case Hour1 => "H"
  }

  function FieldNamed(name: string): Option<Field>
  {
    if name == "yyyy" then Some(Year4)
    else if name == "yy" then Some(Year2)
    else if name == "MM" then Some(Month2)
    else if name == "M" then Some(Month1)
    else if name == "dd" then Some(Day2)
    else if name == "d" then Some(Day1)
    else if name == "HH" then Some(Hour2)
    else if name == "H" then Some(Hour1)
    else None
  }

  function GranularityOf(field: Field): Granularity
  {
    match field
    case Year4 => Year
    case Year2 => Year
    case Month2 => Month
    case Month1 => Month
    case Day2 => Day
    case Day1 => Day
    case Hour2 => Hour
    case Hour1 => Hour
  }

  function Fineness(g: Granularity): nat
  {
    match g
    case Year => 0
    case Month => 1
    case Day => 2
    case Hour => 3
  }

  function FinerOf(left: Granularity, right: Granularity): Granularity
  {
    if Fineness(right) > Fineness(left) then right else left
  }

  /** The finest unit the segments vary by; none for plain text. */
  function Finest(segments: seq<Segment>): Option<Granularity>
  {
    if segments == [] then None
    else
      var front, last := Finest(segments[..|segments| - 1]), segments[|segments| - 1];
      if last.Literal? then front
      else if front.None? then Some(GranularityOf(last.field))
      else Some(FinerOf(front.value, GranularityOf(last.field)))
  }

  // ----- Printing -----

  function Escape(text: string): string
  {
    if text == "" then ""
    else (if text[0] == '{' then "{{" else if text[0] == '}' then "}}" else [text[0]]) + Escape(text[1..])
  }

  function PrintSegment(segment: Segment): string
  {
    match segment
    case Literal(text) => Escape(text)
    case Placeholder(field) => "{" + NameOf(field) + "}"
  }

  function Print(segments: seq<Segment>): string
  {
    if segments == [] then "" else PrintSegment(segments[0]) + Print(segments[1..])
  }

  /** No empty literal, and never two literals in a row. */
  ghost predicate Canonical(segments: seq<Segment>)
  {
    && (forall i | 0 <= i < |segments| && segments[i].Literal? :: segments[i].text != "")
    && (forall i | 0 <= i < |segments| - 1 && segments[i].Literal? :: segments[i + 1].Placeholder?)
  }

  // ----- Parsing -----

  function Flush(segments: seq<Segment>, literal: string): seq<Segment>
  {
    if literal == "" then segments else segments + [Literal(literal)]
  }

  function NameError(name: string): TemplateError
  {
    if name == "mm" || name == "m" then MinutesNotMonths else UnknownPlaceholder(name)
  }

  /** The parse of `rest` continuing from finished segments and an open literal. */
  function Scan(rest: string, literal: string, segments: seq<Segment>): Result<seq<Segment>, TemplateError>
    decreases |rest|
  {
    if rest == "" then Ok(Flush(segments, literal))
    else if rest[0] == '{' && |rest| > 1 && rest[1] == '{' then Scan(rest[2..], literal + "{", segments)
    else if rest[0] == '}' && |rest| > 1 && rest[1] == '}' then Scan(rest[2..], literal + "}", segments)
    else if rest[0] == '{' then
      var close := Position(rest[1..], '}');
      if close == |rest| - 1 then Err(UnclosedPlaceholder)
      else
        var name := rest[1..close + 1];
        match FieldNamed(name)
        case None => Err(NameError(name))
        case Some(field) => Scan(rest[close + 2..], "", Flush(segments, literal) + [Placeholder(field)])
    else if rest[0] == '}' then Err(UnmatchedBrace)
    else Scan(rest[1..], literal + [rest[0]], segments)
  }

  function Parsed(prefix: string): Result<Option<DateTemplate>, TemplateError>
  {
    match Scan(prefix, "", [])
    case Err(error) => Err(error)
    case Ok(segments) =>
      match Finest(segments)
      case None => Ok(None)
      case Some(granularity) => Ok(Some(DateTemplate(segments, granularity)))
  }

  method Parse(prefix: string) returns (r: Result<Option<DateTemplate>, TemplateError>)
    ensures r == Parsed(prefix)
    ensures r.Ok? && r.value.Some? ==>
      Print(r.value.value.segments) == prefix && Canonical(r.value.value.segments)
      && Finest(r.value.value.segments) == Some(r.value.value.granularity)
  {
    hide FieldNamed, NameError, Position, Canonical, Print, Escape, Flush, FinerOf, GranularityOf;
    var segments: seq<Segment> := [];
    var literal := "";
    StartParse();
    var finest: Option<Granularity> := None;
    var i := 0;
    while i < |prefix|
      invariant 0 <= i <= |prefix|
      invariant Scan(prefix[i..], literal, segments) == Scan(prefix, "", [])
      invariant finest == Finest(segments)
    {
      ghost var rest := prefix[i..];
      if prefix[i] == '{' && i + 1 < |prefix| && prefix[i + 1] == '{' {
        assert rest[2..] == prefix[i + 2..];
        literal := literal + "{";
        i := i + 2;
      } else if prefix[i] == '}' && i + 1 < |prefix| && prefix[i + 1] == '}' {
        assert rest[2..] == prefix[i + 2..];
        literal := literal + "}";
        i := i + 2;
      } else if prefix[i] == '{' {
        var name, closed, next := ReadName(prefix, i + 1);
        assert rest[1..] == prefix[i + 1..];
        if !closed {
          return Err(UnclosedPlaceholder);
        }
        assert rest[1..next - i - 1] == name;
        var field := FieldNamed(name);
        if field.None? {
          return Err(NameError(name));
        }
        assert rest[next - i..] == prefix[next..];
        finest := Some(if finest.Some? then FinerOf(finest.value, GranularityOf(field.value))
                       else GranularityOf(field.value));
        FinestExtends(segments, literal, field.value);
        segments := Flush(segments, literal) + [Placeholder(field.value)];
        literal := "";
        i := next;
      } else if prefix[i] == '}' {
        return Err(UnmatchedBrace);
      } else {
        assert rest[1..] == prefix[i + 1..];
        literal := literal + [prefix[i]];
        i := i + 1;
      }
    }
    FlushFinest(segments, literal);
    segments := Flush(segments, literal);
    ScanIsPrintable(prefix, "", []);
    assert Print([]) + Escape("") + prefix == prefix;
    r := if finest.None? then Ok(None) else Ok(Some(DateTemplate(segments, finest.value)));
  }

  lemma StartParse()
    ensures Open([]) && Print([]) == "" && Escape("") == ""
  {
  }

  /** Collects characters up to the closing brace; `next` is just past it. */
  method ReadName(prefix: string, start: nat) returns (name: string, closed: bool, next: nat)
    requires start <= |prefix|
    ensures var close := Position(prefix[start..], '}');
            && (closed <==> close < |prefix| - start)
            && (closed ==> next == start + close + 1 <= |prefix| && name == prefix[start..next - 1])
  {
    next := start;
    name := "";
    while next < |prefix|
      invariant start <= next <= |prefix|
      invariant name == prefix[start..next]
      invariant forall i | start <= i < next :: prefix[i] != '}'
    {
      if prefix[next] == '}' {
        CloseIsFirst(prefix[start..], next - start);
        return name, true, next + 1;
      }
      name := name + [prefix[next]];
      next := next + 1;
    }
    CloseIsFirst(prefix[start..], next - start);
    closed := false;
  }

  lemma CloseIsFirst(text: string, k: nat)
    requires k <= |text| && (k < |text| ==> text[k] == '}') && forall i | 0 <= i < k :: text[i] != '}'
    ensures Position(text, '}') == k
  {
  }

  lemma FlushFinest(segments: seq<Segment>, literal: string)
    ensures Finest(Flush(segments, literal)) == Finest(segments)
  {
    assert (segments + [Literal(literal)])[..|segments|] == segments;
  }

  lemma FinestExtends(segments: seq<Segment>, literal: string, field: Field)
    ensures Finest(Flush(segments, literal) + [Placeholder(field)]) ==
      Some(if Finest(segments).Some? then FinerOf(Finest(segments).value, GranularityOf(field))
           else GranularityOf(field))
  {
  }

  // ----- Parse, then print -----

  lemma {:induction false} PrintConcat(a: seq<Segment>, b: seq<Segment>)
    ensures Print(a + b) == Print(a) + Print(b)
  {
    if a == [] {
      assert a + b == b;
    } else {
      assert (a + b)[1..] == a[1..] + b;
      PrintConcat(a[1..], b);
    }
  }

  lemma PrintPlaceholder(field: Field)
    ensures Print([Placeholder(field)]) == "{" + NameOf(field) + "}"
  {
    PrintOne(Placeholder(field));
  }

  lemma PrintOne(segment: Segment)
    ensures Print([segment]) == PrintSegment(segment)
  {
    assert [segment][1..] == [];
  }

  lemma {:induction false} EscapeConcat(a: string, b: string)
    ensures Escape(a + b) == Escape(a) + Escape(b)
  {
    if a == "" {
      assert a + b == b;
    } else {
      assert (a + b)[1..] == a[1..] + b;
      EscapeConcat(a[1..], b);
    }
  }

  lemma EscapeOne(c: char)
    ensures Escape([c]) == if c == '{' then "{{" else if c == '}' then "}}" else [c]
  {
    assert [c][1..] == "";
  }

  lemma FlushPrint(segments: seq<Segment>, literal: string)
    ensures Print(Flush(segments, literal)) == Print(segments) + Escape(literal)
  {
    if literal != "" {
      PrintConcat(segments, [Literal(literal)]);
      PrintOne(Literal(literal));
    }
  }

  lemma FieldNameRoundTrip(name: string)
    ensures FieldNamed(name).Some? ==> NameOf(FieldNamed(name).value) == name
  {
  }

  /** Ends in a field, so a literal may follow. */
  ghost predicate Open(segments: seq<Segment>)
  {
    Canonical(segments) && (segments != [] ==> segments[|segments| - 1].Placeholder?)
  }

  lemma FlushCanonical(segments: seq<Segment>, literal: string)
    requires Open(segments)
    ensures Canonical(Flush(segments, literal))
    ensures forall field: Field :: Open(Flush(segments, literal) + [Placeholder(field)])
  {
  }

  /** Whatever parses prints back to the text it came from, in canonical form. */
  lemma {:induction false} ScanIsPrintable(rest: string, literal: string, segments: seq<Segment>)
    requires Open(segments)
    ensures var r := Scan(rest, literal, segments);
            r.Ok? ==> Print(r.value) == Print(segments) + Escape(literal) + rest && Canonical(r.value)
    decreases |rest|
  {
    hide Canonical, Open, Print, Escape;
    if rest == "" {
      FlushPrint(segments, literal);
      FlushCanonical(segments, literal);
      assert Print(segments) + Escape(literal) + rest == Print(segments) + Escape(literal);
    } else if rest[0] == '{' && !(|rest| > 1 && rest[1] == '{') {
      PlaceholderPrintable(rest, literal, segments);
    } else if Scan(rest, literal, segments).Ok? {
      var step := if rest[0] == '{' || rest[0] == '}' then 2 else 1;
      ScanIsPrintable(rest[step..], literal + [rest[0]], segments);
      LiteralText(rest, literal, step);
      assert Print(segments) + Escape(literal + [rest[0]]) + rest[step..]
          == Print(segments) + (Escape(literal + [rest[0]]) + rest[step..]);
      assert Print(segments) + Escape(literal) + rest == Print(segments) + (Escape(literal) + rest);
    }
  }

  lemma LiteralText(rest: string, literal: string, step: nat)
    requires rest != "" && step == (if rest[0] == '{' || rest[0] == '}' then 2 else 1) <= |rest|
    requires step == 2 ==> rest[1] == rest[0]
    ensures Escape(literal + [rest[0]]) + rest[step..] == Escape(literal) + rest
  {
    EscapeConcat(literal, [rest[0]]);
    EscapeOne(rest[0]);
    hide Escape;
    assert rest[..step] == Escape([rest[0]]);
    assert rest == rest[..step] + rest[step..];
    assert Escape(literal) + rest[..step] + rest[step..] == Escape(literal) + (rest[..step] + rest[step..]);
  }

  lemma PlaceholderPrintable(rest: string, literal: string, segments: seq<Segment>)
    requires Open(segments) && rest != "" && rest[0] == '{' && !(|rest| > 1 && rest[1] == '{')
    ensures var r := Scan(rest, literal, segments);
            r.Ok? ==> Print(r.value) == Print(segments) + Escape(literal) + rest && Canonical(r.value)
    decreases |rest|, 0
  {
    hide Canonical, Open, Print, Escape;
    var close := Position(rest[1..], '}');
    if close < |rest| - 1 && FieldNamed(rest[1..close + 1]).Some? {
      var field := FieldNamed(rest[1..close + 1]).value;
      var after := rest[close + 2..];
      FlushCanonical(segments, literal);
      ScanIsPrintable(after, "", Flush(segments, literal) + [Placeholder(field)]);
      FieldNameRoundTrip(rest[1..close + 1]);
      PlaceholderText(rest, literal, segments, close, field);
    }
  }

  lemma PlaceholderText(rest: string, literal: string, segments: seq<Segment>, close: nat, field: Field)
    requires close + 1 < |rest| && rest[0] == '{' && rest[close + 1] == '}'
    requires NameOf(field) == rest[1..close + 1]
    ensures Print(Flush(segments, literal) + [Placeholder(field)]) + Escape("") + rest[close + 2..]
         == Print(segments) + Escape(literal) + rest
  {
    hide *;
    FlushPrint(segments, literal);
    PrintConcat(Flush(segments, literal), [Placeholder(field)]);
    PrintPlaceholder(field);
    EscapeNothing();
    var name, after := rest[1..close + 1], rest[close + 2..];
    Braced(rest, close);
    assert Print(segments) + Escape(literal) + ("{" + name + "}") + "" + after
        == Print(segments) + Escape(literal) + ("{" + name + "}" + after);
  }

  lemma Braced(rest: string, close: nat)
    requires close + 1 < |rest| && rest[0] == '{' && rest[close + 1] == '}'
    ensures rest == "{" + rest[1..close + 1] + "}" + rest[close + 2..]
  {
    assert rest == [rest[0]] + rest[1..close + 1] + [rest[close + 1]] + rest[close + 2..];
  }

  lemma EscapeNothing()
    ensures Escape("") == ""
  {
  }

  // ----- Print, then parse -----

  lemma ScanChar(c: char, rest: string, literal: string, segments: seq<Segment>)
    ensures Scan(Escape([c]) + rest, literal, segments) == Scan(rest, literal + [c], segments)
  {
  }

  lemma ScanEnd(literal: string, segments: seq<Segment>)
    ensures Scan("", literal, segments) == Ok(Flush(segments, literal))
  {
  }

  /** Escaped text is read back into the open literal. */
  lemma {:induction false} ScanEscaped(text: string, rest: string, literal: string, segments: seq<Segment>)
    ensures Scan(Escape(text) + rest, literal, segments) == Scan(rest, literal + text, segments)
  {
    hide Scan;
    if text == "" {
      assert Escape(text) + rest == rest && literal + text == literal;
    } else {
      var c, tail := text[0], text[1..];
      EscapeConcat([c], tail);
      assert text == [c] + tail;
      assert Escape([c]) + Escape(tail) + rest == Escape([c]) + (Escape(tail) + rest);
      ScanChar(c, Escape(tail) + rest, literal, segments);
      ScanEscaped(tail, rest, literal + [c], segments);
      assert literal + [c] + tail == literal + text;
    }
  }

  lemma ScanPlaceholder(field: Field, rest: string, literal: string, segments: seq<Segment>)
    ensures Scan("{" + NameOf(field) + "}" + rest, literal, segments)
         == Scan(rest, "", Flush(segments, literal) + [Placeholder(field)])
  {
    var name := NameOf(field);
    NameIsPlain(field);
    hide NameOf, FieldNamed, Flush;
    var all := "{" + name + "}" + rest;
    BracedParts(name, rest);
    CloseIsFirst(all[1..], |name|);
  }

  lemma NameIsPlain(field: Field)
    ensures FieldNamed(NameOf(field)) == Some(field)
    ensures NameOf(field) != ""
    ensures forall i | 0 <= i < |NameOf(field)| :: NameOf(field)[i] != '{' && NameOf(field)[i] != '}'
  {
  }

  lemma BracedParts(name: string, rest: string)
    ensures var all := "{" + name + "}" + rest;
            && |all| == |name| + 2 + |rest| && all[0] == '{'
            && all[1..|name| + 1] == name && all[|name| + 2..] == rest
            && all[1..][|name|] == '}' && forall i | 0 <= i < |name| :: all[1..][i] == name[i]
  {
  }

  function OpenLiteral(segments: seq<Segment>): string
  {
    if segments != [] && segments[|segments| - 1].Literal? then segments[|segments| - 1].text else ""
  }

  function Closed(segments: seq<Segment>): seq<Segment>
  {
    if OpenLiteral(segments) == "" then segments else segments[..|segments| - 1]
  }

  lemma {:induction false} ScanPrinted(front: seq<Segment>, segments: seq<Segment>)
    requires Canonical(front + segments)
    ensures Scan(Print(segments), OpenLiteral(front), Closed(front)) == Ok(front + segments)
    decreases |segments|
  {
    hide Scan, FieldNamed, NameOf;
    if segments == [] {
      assert front + segments == front;
      ScanEnd(OpenLiteral(front), Closed(front));
      Reopen(front);
    } else {
      var head, tail := segments[0], segments[1..];
      assert front + segments == front + [head] + tail;
      ScanPrinted(front + [head], tail);
      HeadFollows(front, segments);
      assert Print(segments) == PrintSegment(head) + Print(tail);
      match head
      case Placeholder(field) =>
        ScanPlaceholder(field, Print(tail), OpenLiteral(front), Closed(front));
        Reopen(front);
        assert OpenLiteral(front + [head]) == "";
      case Literal(text) =>
        ScanEscaped(text, Print(tail), "", front);
        assert "" + text == text;
        assert (front + [head])[..|front|] == front;
    }
  }

  lemma Reopen(front: seq<Segment>)
    ensures Flush(Closed(front), OpenLiteral(front)) == front
  {
  }

  lemma HeadFollows(front: seq<Segment>, segments: seq<Segment>)
    requires Canonical(front + segments) && segments != []
    ensures segments[0].Literal? ==> segments[0].text != "" && OpenLiteral(front) == ""
  {
    var all := front + segments;
    assert all[|front|] == segments[0];
    if front != [] {
      assert all[|front| - 1] == front[|front| - 1];
    }
  }

  /** Canonical segments survive printing and parsing unchanged, with their finest unit. */
  lemma {:induction false} PrintThenParse(segments: seq<Segment>)
    requires Canonical(segments)
    ensures Parsed(Print(segments)) == Ok(
      if Finest(segments).None? then None else Some(DateTemplate(segments, Finest(segments).value)))
  {
    assert [] + segments == segments;
    ScanPrinted([], segments);
  }

  /** The parser accepts exactly the printed forms, and each has one meaning. */
  lemma AcceptsExactlyThePrinted(prefix: string)
    ensures Parsed(prefix).Ok? <==> exists segments :: Canonical(segments) && Print(segments) == prefix
  {
    if Parsed(prefix).Ok? {
      ScanIsPrintable(prefix, "", []);
      var segments := Scan(prefix, "", []).value;
      assert Canonical(segments) && Print(segments) == prefix;
    }
    if segments :| Canonical(segments) && Print(segments) == prefix {
      PrintThenParse(segments);
    }
  }

  lemma PrintIsInjective(a: seq<Segment>, b: seq<Segment>)
    requires Canonical(a) && Canonical(b) && Print(a) == Print(b)
    ensures a == b
  {
    assert [] + a == a && [] + b == b;
    ScanPrinted([], a);
    ScanPrinted([], b);
  }

  // ----- Refusals, exactly -----

  /** The placeholder names there are: one letter, repeated. */
  const NAMES: set<string> := {"yyyy", "yy", "MM", "M", "dd", "d", "HH", "H"}

  /** The text starts with something that is neither plain text nor an escape nor a placeholder. */
  ghost predicate StartsBadly(text: string, error: TemplateError)
  {
    || (text != "" && text[0] == '}' && !("}}" <= text) && error == UnmatchedBrace)
    || (text != "" && text[0] == '{' && !("{{" <= text) && '}' !in text && error == UnclosedPlaceholder)
    || exists name :: BadName(text, name, error)
  }

  ghost predicate BadName(text: string, name: string, error: TemplateError)
  {
    && "{" + name + "}" <= text && '}' !in name && !("{" <= name) && name !in NAMES
    && error == if name == "mm" || name == "m" then MinutesNotMonths else UnknownPlaceholder(name)
  }

  lemma NamesAreAccepted(name: string)
    ensures FieldNamed(name).Some? <==> name in NAMES
  {
  }

  lemma {:induction false} BadStartFails(text: string, error: TemplateError, literal: string, segments: seq<Segment>)
    requires StartsBadly(text, error)
    ensures Scan(text, literal, segments) == Err(error)
  {
    if name :| BadName(text, name, error) {
      NamesAreAccepted(name);
      var rest := text[|name| + 2..];
      assert text == "{" + name + "}" + rest;
      BracedParts(name, rest);
      hide NAMES, FieldNamed;
      CloseIsFirst(text[1..], |name|);
    } else if text[0] == '{' {
      hide FieldNamed;
      CloseIsFirst(text[1..], |text| - 1);
    }
  }

  /** Behind any printed segments a bad start is found and reported. */
  lemma {:induction false} FoundBehind(front: seq<Segment>, text: string, error: TemplateError, literal: string,
    segments: seq<Segment>)
    requires StartsBadly(text, error)
    ensures Scan(Print(front) + text, literal, segments) == Err(error)
    decreases |front|
  {
    hide Scan, FieldNamed, NameOf, StartsBadly;
    if front == [] {
      assert Print(front) + text == text;
      BadStartFails(text, error, literal, segments);
    } else {
      var head, tail := front[0], front[1..];
      assert Print(front) + text == PrintSegment(head) + (Print(tail) + text);
      match head
      case Placeholder(field) =>
        ScanPlaceholder(field, Print(tail) + text, literal, segments);
        FoundBehind(tail, text, error, "", Flush(segments, literal) + [Placeholder(field)]);
      case Literal(plain) =>
        ScanEscaped(plain, Print(tail) + text, literal, segments);
        FoundBehind(tail, text, error, literal + plain, segments);
    }
  }

  lemma {:induction false} ScanPlain(text: string, literal: string, segments: seq<Segment>)
    requires text != "" && ((text[0] != '{' && text[0] != '}') || (|text| > 1 && text[1] == text[0]))
    ensures var step := if text[0] == '{' || text[0] == '}' then 2 else 1;
            Scan(text, literal, segments) == Scan(text[step..], literal + [text[0]], segments)
  {
  }

  lemma {:induction false} ScanField(text: string, literal: string, segments: seq<Segment>, close: nat)
    requires |text| > 1 && text[0] == '{' && text[1] != '{' && close == Position(text[1..], '}') < |text| - 1
    requires FieldNamed(text[1..close + 1]).Some?
    ensures Scan(text, literal, segments)
         == Scan(text[close + 2..], "", Flush(segments, literal) + [Placeholder(FieldNamed(text[1..close + 1]).value)])
  {
    hide FieldNamed, Flush;
  }

  /** A failing parse got through some printed segments and then met a bad start. */
  lemma {:induction false} FailureHasStart(text: string, literal: string, segments: seq<Segment>, error: TemplateError)
    returns (front: seq<Segment>, rest: string)
    requires Scan(text, literal, segments) == Err(error)
    ensures text == Print(front) + rest && StartsBadly(rest, error)
    decreases |text|, 1
  {
    assert text != "";
    hide *;
    if (text[0] != '{' && text[0] != '}') || (|text| > 1 && text[1] == text[0]) {
      var step := if text[0] == '{' || text[0] == '}' then 2 else 1;
      ScanPlain(text, literal, segments);
      var tail;
      tail, rest := FailureHasStart(text[step..], literal + [text[0]], segments, error);
      CharacterBefore(text, step, tail, rest);
      front := [Literal([text[0]])] + tail;
    } else if text[0] == '}' {
      front, rest := [], text;
      PrintNothing(text);
      BraceFails(text, literal, segments);
    } else {
      front, rest := OpenBraceHasStart(text, literal, segments, error);
    }
  }

  lemma {:induction false} OpenBraceHasStart(text: string, literal: string, segments: seq<Segment>,
    error: TemplateError)
    returns (front: seq<Segment>, rest: string)
    requires text != "" && text[0] == '{' && !(|text| > 1 && text[1] == '{')
    requires Scan(text, literal, segments) == Err(error)
    ensures text == Print(front) + rest && StartsBadly(rest, error)
    decreases |text|, 0
  {
    hide *;
    var close := Position(text[1..], '}');
    if close < |text| - 1 && FieldNamed(text[1..close + 1]).Some? {
      var field := FieldNamed(text[1..close + 1]).value;
      ScanField(text, literal, segments, close);
      var tail;
      tail, rest := FailureHasStart(text[close + 2..], "", Flush(segments, literal) + [Placeholder(field)], error);
      PlaceholderBefore(text, close, field, tail, rest);
      front := [Placeholder(field)] + tail;
    } else {
      front, rest := [], text;
      PrintNothing(text);
      PlaceholderFails(text, literal, segments);
    }
  }

  lemma {:induction false} PlaceholderBefore(text: string, close: nat, field: Field, front: seq<Segment>, rest: string)
    requires close + 1 < |text| && text[0] == '{' && text[close + 1] == '}'
    requires FieldNamed(text[1..close + 1]) == Some(field) && text[close + 2..] == Print(front) + rest
    ensures text == Print([Placeholder(field)] + front) + rest
  {
    FieldNameRoundTrip(text[1..close + 1]);
    PutBack(Placeholder(field), front);
    Braced(text, close);
    var shown, printed := PrintSegment(Placeholder(field)), Print(front);
    assert shown == "{" + text[1..close + 1] + "}";
    hide *;
    assert shown + (printed + rest) == shown + printed + rest;
  }

  lemma {:induction false} CharacterBefore(text: string, step: nat, front: seq<Segment>, rest: string)
    requires text != "" && step == (if text[0] == '{' || text[0] == '}' then 2 else 1) <= |text|
    requires (step == 2 ==> text[1] == text[0]) && text[step..] == Print(front) + rest
    ensures text == Print([Literal([text[0]])] + front) + rest
  {
    PutBack(Literal([text[0]]), front);
    EscapeOne(text[0]);
    var shown, printed := PrintSegment(Literal([text[0]])), Print(front);
    hide *;
    assert text[..step] == shown;
    assert text == text[..step] + text[step..];
    assert shown + (printed + rest) == shown + printed + rest;
  }

  lemma {:induction false} PutBack(head: Segment, front: seq<Segment>)
    ensures Print([head] + front) == PrintSegment(head) + Print(front)
  {
    assert ([head] + front)[1..] == front;
  }

  lemma PrintNothing(text: string)
    ensures Print([]) + text == text
  {
  }

  lemma {:induction false} BraceFails(text: string, literal: string, segments: seq<Segment>)
    requires text != "" && text[0] == '}' && !(|text| > 1 && text[1] == '}')
    ensures Scan(text, literal, segments) == Err(UnmatchedBrace) && StartsBadly(text, UnmatchedBrace)
  {
  }

  lemma {:induction false} PlaceholderFails(text: string, literal: string, segments: seq<Segment>)
    requires text != "" && text[0] == '{' && !(|text| > 1 && text[1] == '{')
    requires var close := Position(text[1..], '}'); close == |text| - 1 || FieldNamed(text[1..close + 1]).None?
    ensures Scan(text, literal, segments).Err? && StartsBadly(text, Scan(text, literal, segments).error)
  {
    hide FieldNamed, NAMES;
    var close := Position(text[1..], '}');
    if close < |text| - 1 {
      UnknownNameFails(text, close);
    } else {
      assert forall i | 1 <= i < |text| :: text[i] == text[1..][i - 1];
    }
  }

  lemma {:induction false} UnknownNameFails(text: string, close: nat)
    requires close + 1 < |text| && text[0] == '{' && !(text[1] == '{') && close == Position(text[1..], '}')
    requires FieldNamed(text[1..close + 1]).None?
    ensures StartsBadly(text, NameError(text[1..close + 1]))
  {
    var name := text[1..close + 1];
    NamesAreAccepted(name);
    hide FieldNamed, NAMES;
    Braced(text, close);
    assert forall i | 0 <= i < |name| :: name[i] == text[1..][i];
    assert BadName(text, name, NameError(name));
  }

  /**
   * A prefix is refused with an error exactly when it is some printed segments
   * followed by a bad start of that sort.
   */
  lemma {:induction false} RefusesExactlyBadStarts(prefix: string, error: TemplateError)
    ensures Parsed(prefix) == Err(error)
       <==> exists front, rest :: prefix == Print(front) + rest && StartsBadly(rest, error)
  {
    hide Scan, StartsBadly, Print;
    if Parsed(prefix) == Err(error) {
      var front, rest := FailureHasStart(prefix, "", [], error);
    }
    if front, rest :| prefix == Print(front) + rest && StartsBadly(rest, error) {
      FoundBehind(front, rest, error, "", []);
    }
  }
}
