/** The client's line decoder: JSON values from text that arrives in arbitrary chunks. */
module LineDecoder {
  import opened Objects
  import opened Scanning

  /** One UTF-16 code unit, the unit in which the buffer length is measured. */
  newtype CodeUnit = x: int | 0 <= x < 0x1_0000

  type Text = seq<CodeUnit>

  const NEWLINE: CodeUnit := 10

  const MAXIMUM_BUFFER_LENGTH: nat := 8 * 1024 * 1024

  datatype Failure = TooLong | BadJson

  // ----- Trimming -----

  /** White space and line terminators, as trimmed by `String.prototype.trim`. */
  predicate IsSpace(u: CodeUnit)
  {
    || 9 <= u <= 13 || u == 0x20 || u == 0xA0 || u == 0x1680 || 0x2000 <= u <= 0x200A
    || u == 0x2028 || u == 0x2029 || u == 0x202F || u == 0x205F || u == 0x3000 || u == 0xFEFF
  }

  /**
   * White space and line ends as ECMAScript has them: the five control
   * characters, the space separators, the two line separators and the byte order mark.
   */
  lemma SpacesOneByOne(u: CodeUnit)
    ensures IsSpace(u) <==> u in {
      0x09, 0x0A, 0x0B, 0x0C, 0x0D, 0x20, 0xA0, 0x1680, 0x2000, 0x2001, 0x2002, 0x2003, 0x2004, 0x2005, 0x2006, 0x2007,
      0x2008, 0x2009, 0x200A, 0x2028, 0x2029, 0x202F, 0x205F, 0x3000, 0xFEFF}
  {
  }

  predicate Blank(s: Text)
  {
    forall i | 0 <= i < |s| :: IsSpace(s[i])
  }

  function TrimStart(s: Text): Text
  {
    if s != [] && IsSpace(s[0]) then TrimStart(s[1..]) else s
  }

  function TrimEnd(s: Text): Text
  {
    if s != [] && IsSpace(s[|s| - 1]) then TrimEnd(s[..|s| - 1]) else s
  }

  function Trim(s: Text): Text
  {
    TrimEnd(TrimStart(s))
  }

  lemma {:induction false} TrimStartCuts(s: Text) returns (cut: Text)
    ensures s == cut + TrimStart(s) && Blank(cut)
    ensures TrimStart(s) != [] ==> !IsSpace(TrimStart(s)[0])
  {
    if s != [] && IsSpace(s[0]) {
      var rest := TrimStartCuts(s[1..]);
      cut := [s[0]] + rest;
      assert s == [s[0]] + s[1..];
    } else {
      cut := [];
    }
  }

  lemma {:induction false} TrimEndCuts(s: Text) returns (cut: Text)
    ensures s == TrimEnd(s) + cut && Blank(cut)
    ensures TrimEnd(s) != [] ==> !IsSpace(TrimEnd(s)[|TrimEnd(s)| - 1])
  {
    if s != [] && IsSpace(s[|s| - 1]) {
      var rest := TrimEndCuts(s[..|s| - 1]);
      cut := rest + [s[|s| - 1]];
      assert s == s[..|s| - 1] + [s[|s| - 1]];
    } else {
      cut := [];
    }
  }

  /** Trimming removes only white space, and all of it at both ends. */
  lemma TrimIsExact(s: Text) returns (before: Text, after: Text)
    ensures s == before + Trim(s) + after && Blank(before) && Blank(after)
    ensures Trim(s) != [] ==> !IsSpace(Trim(s)[0]) && !IsSpace(Trim(s)[|Trim(s)| - 1])
    ensures Trim(s) == [] <==> Blank(s)
  {
    before := TrimStartCuts(s);
    var inner := TrimStart(s);
    after := TrimEndCuts(inner);
    if Trim(s) != [] {
      assert inner[0] == Trim(s)[0];
      assert s[|before|] == inner[0];
    }
  }

  // ----- What a text means -----

  /** The newline-terminated lines of a text, without their newlines. */
  function Complete(text: Text): seq<Text>
    decreases |text|
  {
    var k := Position(text, NEWLINE);
    if k == |text| then [] else [text[..k]] + Complete(text[k + 1..])
  }

  /** What follows the last newline. */
  function Partial(text: Text): (p: Text)
    ensures |p| <= |text|
    decreases |text|
  {
    var k := Position(text, NEWLINE);
    if k == |text| then text else Partial(text[k + 1..])
  }

  function Lines(text: Text): seq<Text>
  {
    Complete(text) + [Partial(text)]
  }

  /** The values of the non-blank lines in order, or a failure when one does not parse. */
  function Evaluate<V>(parse: Text -> Option<V>, lines: seq<Text>): Result<seq<V>, Failure>
  {
    if lines == [] then Ok([])
    else if Blank(lines[0]) then Evaluate(parse, lines[1..])
    else match parse(Trim(lines[0]))
      case None => Err(BadJson)
      case Some(value) =>
        match Evaluate(parse, lines[1..])
        case Err(failure) => Err(failure)
        case Ok(values) => Ok([value] + values)
  }

  /** What stays buffered: the text after the first line that does not parse, or the partial line. */
  function Unread<V>(parse: Text -> Option<V>, text: Text): Text
    decreases |text|
  {
    var k := Position(text, NEWLINE);
    if k == |text| then text
    else if Evaluate(parse, [text[..k]]).Err? then text[k + 1..]
    else Unread(parse, text[k + 1..])
  }

  lemma {:induction false} UnreadIsPartial<V>(parse: Text -> Option<V>, text: Text)
    requires Evaluate(parse, Complete(text)).Ok?
    ensures Unread(parse, text) == Partial(text)
    decreases |text|
  {
    var k := Position(text, NEWLINE);
    if k < |text| {
      EvaluateConcat(parse, [text[..k]], Complete(text[k + 1..]));
      UnreadIsPartial(parse, text[k + 1..]);
    }
  }

  function Join<V>(first: Result<seq<V>, Failure>, second: Result<seq<V>, Failure>): Result<seq<V>, Failure>
  {
    if first.Err? then first else if second.Err? then second else Ok(first.value + second.value)
  }

  lemma JoinNothing<V>(r: Result<seq<V>, Failure>)
    ensures Join(Ok([]), r) == r && Join(r, Ok([])) == r
  {
    if r.Ok? {
      assert [] + r.value == r.value == r.value + [];
    }
  }

  lemma JoinAfter<V>(value: V, first: Result<seq<V>, Failure>, second: Result<seq<V>, Failure>)
    ensures Join(Ok([value]), Join(first, second)) == Join(Join(Ok([value]), first), second)
  {
    if first.Ok? && second.Ok? {
      assert [value] + (first.value + second.value) == [value] + first.value + second.value;
    }
  }

  lemma {:induction false} EvaluateConcat<V>(parse: Text -> Option<V>, a: seq<Text>, b: seq<Text>)
    ensures Evaluate(parse, a + b) == Join(Evaluate(parse, a), Evaluate(parse, b))
  {
    if a == [] {
      assert a + b == b;
      JoinNothing(Evaluate(parse, b));
    } else {
      assert (a + b)[1..] == a[1..] + b;
      EvaluateConcat(parse, a[1..], b);
      if !Blank(a[0]) {
        match parse(Trim(a[0])) {
          case None =>
          case Some(value) => JoinAfter(value, Evaluate(parse, a[1..]), Evaluate(parse, b));
        }
      }
    }
  }

  /** Only the partial line of what came before matters to what comes after. */
  lemma {:induction false} LinesResume(a: Text, b: Text)
    ensures Complete(a + b) == Complete(a) + Complete(Partial(a) + b)
    ensures Partial(a + b) == Partial(Partial(a) + b)
    decreases |a|
  {
    hide Complete, Partial, Position;
    var k := Position(a, NEWLINE);
    Unfolded(a);
    if k < |a| {
      PositionIn(a, b);
      Unfolded(a + b);
      assert (a + b)[..k] == a[..k];
      assert (a + b)[k + 1..] == a[k + 1..] + b;
      LinesResume(a[k + 1..], b);
      assert [a[..k]] + (Complete(a[k + 1..]) + Complete(Partial(a) + b))
          == [a[..k]] + Complete(a[k + 1..]) + Complete(Partial(a) + b);
    }
  }

  lemma Unfolded(text: Text)
    ensures var k := Position(text, NEWLINE);
            if k == |text| then Complete(text) == [] && Partial(text) == text
            else
              && k < |text|
              && Complete(text) == [text[..k]] + Complete(text[k + 1..])
              && Partial(text) == Partial(text[k + 1..])
  {
    hide Position;
  }

  lemma PositionIn(a: Text, b: Text)
    requires Position(a, NEWLINE) < |a|
    ensures Position(a + b, NEWLINE) == Position(a, NEWLINE)
  {
    var k := Position(a, NEWLINE);
    assert (a + b)[k] == NEWLINE;
    assert forall i | 0 <= i < k :: (a + b)[i] == a[i];
  }

  /** The outcome of one line, given the values already read and what the rest would yield. */
  function Turn<V>(parse: Text -> Option<V>, values: seq<V>, line: Text, rest: Result<seq<V>, Failure>)
    : Result<seq<V>, Failure>
  {
    if Blank(line) then Join(Ok(values), rest)
    else match parse(Trim(line))
      case None => Err(BadJson)
      case Some(value) => Join(Ok(values + [value]), rest)
  }

  lemma TurnIs<V>(parse: Text -> Option<V>, values: seq<V>, line: Text, rest: Result<seq<V>, Failure>)
    ensures Blank(line) ==> Turn(parse, values, line, rest) == Join(Ok(values), rest)
    ensures !Blank(line) && parse(Trim(line)).None? ==> Turn(parse, values, line, rest) == Err(BadJson)
    ensures !Blank(line) && parse(Trim(line)).Some? ==>
      Turn(parse, values, line, rest) == Join(Ok(values + [parse(Trim(line)).value]), rest)
  {
  }

  lemma TurnIsHead<V>(parse: Text -> Option<V>, values: seq<V>, line: Text, rest: seq<Text>)
    ensures Join(Ok(values), Evaluate(parse, [line] + rest)) == Turn(parse, values, line, Evaluate(parse, rest))
    ensures Evaluate(parse, [line]).Ok? <==> Blank(line) || parse(Trim(line)).Some?
  {
    assert ([line] + rest)[1..] == rest;
    var tail := Evaluate(parse, rest);
    if !Blank(line) && parse(Trim(line)).Some? && tail.Ok? {
      var value := parse(Trim(line)).value;
      assert values + ([value] + tail.value) == values + [value] + tail.value;
    }
  }

  lemma FirstLine<V>(parse: Text -> Option<V>, text: Text)
    requires Position(text, NEWLINE) < |text|
    ensures var k := Position(text, NEWLINE);
            var line, rest := text[..k], text[k + 1..];
            && Complete(text) == [line] + Complete(rest)
            && Unread(parse, text) == if Evaluate(parse, [line]).Ok? then Unread(parse, rest) else rest
  {
    hide Position, Evaluate;
  }

  /** One turn of the consuming loop: its line is evaluated, the rest is left. */
  lemma OneLine<V>(parse: Text -> Option<V>, text: Text, values: seq<V>)
    requires Position(text, NEWLINE) < |text|
    ensures var k := Position(text, NEWLINE);
            var line, rest := text[..k], text[k + 1..];
            && (Trim(line) == [] <==> Blank(line))
            && Join(Ok(values), Evaluate(parse, Complete(text)))
               == Turn(parse, values, line, Evaluate(parse, Complete(rest)))
            && Unread(parse, text) == if Blank(line) || parse(Trim(line)).Some? then Unread(parse, rest) else rest
  {
    hide *;
    FirstLine(parse, text);
    var k := Position(text, NEWLINE);
    TurnIsHead(parse, values, text[..k], Complete(text[k + 1..]));
    var before, after := TrimIsExact(text[..k]);
  }

  lemma NoMoreLines<V>(parse: Text -> Option<V>, text: Text, values: seq<V>)
    requires Position(text, NEWLINE) == |text|
    ensures Join(Ok(values), Evaluate(parse, Complete(text))) == Ok(values) && Unread(parse, text) == text
  {
    JoinNothing(Ok(values));
  }

  lemma LastLine<V>(parse: Text -> Option<V>, text: Text)
    ensures var all := Evaluate(parse, Lines(text));
            match Evaluate(parse, Complete(text))
            case Err(failure) => all == Err(failure)
            case Ok(values) =>
              && all == Turn(parse, values, Partial(text), Ok([]))
              && Unread(parse, text) == Partial(text)
              && (Trim(Partial(text)) == [] <==> Blank(Partial(text)))
  {
    hide Trim, Blank, Turn, Position, IsSpace;
    EvaluateConcat(parse, Complete(text), [Partial(text)]);
    var before, after := TrimIsExact(Partial(text));
    match Evaluate(parse, Complete(text)) {
      case Err(failure) =>
      case Ok(values) =>
        UnreadIsPartial(parse, text);
        assert [Partial(text)] + [] == [Partial(text)];
        TurnIsHead(parse, values, Partial(text), []);
    }
  }

  // ----- The decoder -----

  class JsonLineDecoder<V> {
    const parse: Text -> Option<V>
    const maximumBufferLength: nat
    var buffer: Text

    constructor (parse: Text -> Option<V>, maximumBufferLength: nat := MAXIMUM_BUFFER_LENGTH)
      ensures this.parse == parse && this.maximumBufferLength == maximumBufferLength && buffer == []
    {
      this.parse := parse;
      this.maximumBufferLength := maximumBufferLength;
      buffer := [];
    }

    method ConsumeCompleteLines() returns (result: Result<seq<V>, Failure>)
      modifies this
      ensures result == Evaluate(parse, Complete(old(buffer)))
      ensures buffer == Unread(parse, old(buffer))
    {
      hide *;
      var values: seq<V> := [];
      JoinNothing(Evaluate(parse, Complete(buffer)));
      while true
        invariant Join(Ok(values), Evaluate(parse, Complete(buffer))) == Evaluate(parse, Complete(old(buffer)))
        invariant Unread(parse, buffer) == Unread(parse, old(buffer))
        decreases |buffer|
      {
        var newline := Position(buffer, NEWLINE);
        if newline == |buffer| {
          NoMoreLines(parse, buffer, values);
          return Ok(values);
        }
        OneLine(parse, buffer, values);
        var line := Trim(buffer[..newline]);
        ghost var raw, rest := buffer[..newline], buffer[newline + 1..];
        TurnIs(parse, values, raw, Evaluate(parse, Complete(rest)));
        buffer := buffer[newline + 1..];
        if line != [] {
          match parse(line) {
            case None => return Err(BadJson);
            case Some(value) => values := values + [value];
          }
        }
      }
    }

    method Push(chunk: Text) returns (result: Result<seq<V>, Failure>)
      modifies this
      ensures |old(buffer)| + |chunk| > maximumBufferLength ==> result == Err(TooLong) && buffer == []
      ensures |old(buffer)| + |chunk| <= maximumBufferLength ==>
        && result == Evaluate(parse, Complete(old(buffer) + chunk))
        && buffer == Unread(parse, old(buffer) + chunk)
    {
      buffer := buffer + chunk;
      if |buffer| > maximumBufferLength {
        buffer := [];
        return Err(TooLong);
      }
      result := ConsumeCompleteLines();
    }

    method Finish() returns (result: Result<seq<V>, Failure>)
      modifies this
      ensures result == Evaluate(parse, Lines(old(buffer)))
      ensures buffer == if Evaluate(parse, Complete(old(buffer))).Ok? then [] else Unread(parse, old(buffer))
    {
      hide *;
      LastLine(parse, buffer);
      ghost var text := buffer;
      result := ConsumeCompleteLines();
      if result.Err? {
        return;
      }
      TurnIs(parse, result.value, Partial(text), Ok([]));
      var finalLine := Trim(buffer);
      buffer := [];
      if finalLine != [] {
        match parse(finalLine) {
          case None => result := Err(BadJson);
          case Some(value) =>
            JoinNothing(Ok(result.value + [value]));
            result := Ok(result.value + [value]);
        }
      } else {
        JoinNothing(result);
      }
    }
  }

  // ----- Whole streams -----

  /** No chunk, joined to the partial line before it, exceeds the limit. */
  predicate Fits(pending: Text, chunks: seq<Text>, max: nat)
    decreases |chunks|
  {
    chunks == [] || (|pending| + |chunks[0]| <= max && Fits(Partial(pending + chunks[0]), chunks[1..], max))
  }

  /** What pushing every chunk and then finishing yields, stopping at the first exception. */
  function Decoded<V>(parse: Text -> Option<V>, pending: Text, chunks: seq<Text>, max: nat): Result<seq<V>, Failure>
    decreases |chunks|
  {
    if chunks == [] then Evaluate(parse, Lines(pending))
    else if |pending| + |chunks[0]| > max then Err(TooLong)
    else
      var text := pending + chunks[0];
      Join(Evaluate(parse, Complete(text)), Decoded(parse, Partial(text), chunks[1..], max))
  }

  method DecodeAll<V>(parse: Text -> Option<V>, chunks: seq<Text>, max: nat) returns (result: Result<seq<V>, Failure>)
    ensures result == Decoded(parse, [], chunks, max)
  {
    hide *;
    var decoder := new JsonLineDecoder(parse, max);
    var values: seq<V> := [];
    var i := 0;
    JoinNothing(Decoded(parse, [], chunks, max));
    assert chunks[0..] == chunks;
    while i < |chunks|
      invariant 0 <= i <= |chunks|
      invariant decoder.parse == parse && decoder.maximumBufferLength == max
      invariant Join(Ok(values), Decoded(parse, decoder.buffer, chunks[i..], max)) == Decoded(parse, [], chunks, max)
    {
      DecodedStep(parse, decoder.buffer, chunks, i, max, values);
      ghost var text := decoder.buffer + chunks[i];
      var part := decoder.Push(chunks[i]);
      if part.Err? {
        return Err(part.error);
      }
      UnreadIsPartial(parse, text);
      values := values + part.value;
      i := i + 1;
    }
    DecodedEnd(parse, decoder.buffer, chunks[i..], max, values);
    var last := decoder.Finish();
    result := if last.Err? then Err(last.error) else Ok(values + last.value);
  }

  lemma DecodedStep<V>(parse: Text -> Option<V>, pending: Text, chunks: seq<Text>, i: nat, max: nat, values: seq<V>)
    requires i < |chunks|
    ensures var all := Join(Ok(values), Decoded(parse, pending, chunks[i..], max));
            var text := pending + chunks[i];
            if |pending| + |chunks[i]| > max then all == Err(TooLong)
            else match Evaluate(parse, Complete(text))
              case Err(failure) => all == Err(failure)
              case Ok(part) => all == Join(Ok(values + part), Decoded(parse, Partial(text), chunks[i + 1..], max))
  {
    assert chunks[i..][1..] == chunks[i + 1..];
    var text := pending + chunks[i];
    if |pending| + |chunks[i]| <= max && Evaluate(parse, Complete(text)).Ok? {
      var rest := Decoded(parse, Partial(text), chunks[i + 1..], max);
      if rest.Ok? {
        assert values + (Evaluate(parse, Complete(text)).value + rest.value)
            == values + Evaluate(parse, Complete(text)).value + rest.value;
      }
    }
  }

  lemma DecodedEnd<V>(parse: Text -> Option<V>, pending: Text, chunks: seq<Text>, max: nat, values: seq<V>)
    requires chunks == []
    ensures Join(Ok(values), Decoded(parse, pending, chunks, max))
         == match Evaluate(parse, Lines(pending))
            case Err(failure) => Err(failure)
            case Ok(last) => Ok(values + last)
  {
  }

  /**
   * A stream decodes exactly when no push exceeds the limit and every
   * non-blank line parses, and then to the values of the whole text.
   */
  lemma {:induction false} DecodedIsWholeText<V>(parse: Text -> Option<V>, pending: Text, chunks: seq<Text>, max: nat)
    ensures var whole := Evaluate(parse, Lines(pending + Flatten(chunks)));
            var decoded := Decoded(parse, pending, chunks, max);
            && (decoded.Ok? <==> Fits(pending, chunks, max) && whole.Ok?)
            && (decoded.Ok? ==> decoded == whole)
    decreases |chunks|
  {
    if chunks == [] {
      assert pending + Flatten(chunks) == pending;
    } else {
      var text, rest := pending + chunks[0], Flatten(chunks[1..]);
      assert pending + Flatten(chunks) == text + rest;
      LinesResume(text, rest);
      assert Lines(text + rest) == Complete(text) + Lines(Partial(text) + rest);
      EvaluateConcat(parse, Complete(text), Lines(Partial(text) + rest));
      DecodedIsWholeText(parse, Partial(text), chunks[1..], max);
    }
  }

  /** When neither chunking throws, both give the same values. */
  lemma ChunkingIsInvisible<V>(parse: Text -> Option<V>, first: seq<Text>, second: seq<Text>, max: nat)
    requires Flatten(first) == Flatten(second)
    requires Fits([], first, max) && Fits([], second, max)
    ensures Decoded(parse, [], first, max).Ok? <==> Decoded(parse, [], second, max).Ok?
    ensures Decoded(parse, [], first, max).Ok? ==>
      Decoded(parse, [], first, max) == Decoded(parse, [], second, max) == Evaluate(parse, Lines(Flatten(first)))
  {
    DecodedIsWholeText(parse, [], first, max);
    DecodedIsWholeText(parse, [], second, max);
    assert [] + Flatten(first) == Flatten(first);
  }

  /** The limit itself is on a push, not on a line: short lines arriving together can still throw. */
  lemma LimitDependsOnChunking()
    ensures var x: Text := [0x78, NEWLINE];
            Flatten([x, x]) == Flatten([x + x]) && Fits([], [x, x], 3) && !Fits([], [x + x], 3)
  {
    var x: Text := [0x78, NEWLINE];
    assert Position(x, NEWLINE) == 1;
    assert Partial(x) == [] by {
      assert x[2..] == [];
    }
    assert [] + x == x;
    assert Fits(Partial([] + x), [x], 3);
    assert [x, x][1..] == [x];
    assert [x][1..] == [];
    assert Flatten([x]) == x + Flatten([]) == x;
    assert Flatten([x + x]) == x + x + Flatten([]) == x + x;
    assert Flatten([x, x]) == x + Flatten([x]);
  }
}
