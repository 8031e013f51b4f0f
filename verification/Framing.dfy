/** Bounded newline framing of the server's input, whatever the chunk boundaries. */
module Framing {
  import opened Scanning

  type byte = bv8

  const NEWLINE: byte := 10

  const MAX_LINE_BYTES: nat := 8 * 1024 * 1024

  datatype Outcome = Eof | Complete | TooLarge

  /** The next line with its newline, or whatever is left before end of input. */
  function NextLine(data: seq<byte>): seq<byte>
  {
    var k := Position(data, NEWLINE);
    if k < |data| then data[..k + 1] else data
  }

  /** A buffered reader over input that arrives in arbitrary non-empty chunks. */
  class Reader {
    var pending: seq<seq<byte>>

    ghost predicate Valid()
      reads this
    {
      forall i | 0 <= i < |pending| :: pending[i] != []
    }

    ghost function Remaining(): seq<byte>
      reads this
    {
      Flatten(pending)
    }

    constructor (chunks: seq<seq<byte>>)
      requires forall i | 0 <= i < |chunks| :: chunks[i] != []
      ensures Valid() && pending == chunks
    {
      pending := chunks;
    }

    /** The currently buffered bytes; empty only at end of input. */
    method FillBuf() returns (available: seq<byte>)
      requires Valid()
      ensures available == if pending == [] then [] else pending[0]
    {
      available := if pending == [] then [] else pending[0];
    }

    method Consume(n: nat)
      requires Valid() && pending != [] && n <= |pending[0]|
      modifies this
      ensures Valid()
      ensures Remaining() == old(Remaining())[n..]
      ensures |Remaining()| == |old(Remaining())| - n
    {
      ghost var head, tail := pending[0], Flatten(pending[1..]);
      assert (head + tail)[n..] == head[n..] + tail;
      if n == |pending[0]| {
        assert head[n..] + tail == tail;
        pending := pending[1..];
      } else {
        pending := [pending[0][n..]] + pending[1..];
        assert pending[1..] == old(pending)[1..];
      }
    }
  }

  /** What one call must report for this remaining input. */
  function Expected(data: seq<byte>, max: nat): Outcome
  {
    if data == [] then Eof
    else if |NextLine(data)| > max then TooLarge
    else Complete
  }

  /** After `taken` bytes without a newline: what is left, and what has been kept of them. */
  ghost predicate Progress(data: seq<byte>, max: nat, taken: nat, remaining: seq<byte>, line: seq<byte>, tooLarge: bool)
  {
    && taken <= |data| && remaining == data[taken..]
    && (forall i | 0 <= i < taken :: data[i] != NEWLINE)
    && Kept(data, max, taken, line, tooLarge)
  }

  ghost predicate Kept(data: seq<byte>, max: nat, taken: nat, line: seq<byte>, tooLarge: bool)
    requires taken <= |data|
  {
    && (tooLarge <==> taken > max)
    && line == (if tooLarge then [] else data[..taken])
  }

  /** What a call has to leave behind and report. */
  ghost predicate IsRead(data: seq<byte>, max: nat, remaining: seq<byte>, outcome: Outcome, line: seq<byte>)
  {
    && outcome == Expected(data, max)
    && line == (if outcome == Complete then NextLine(data) else [])
    && remaining == data[|NextLine(data)|..]
  }

  /**
   * Reads one message, never retaining more than `max` bytes (`peak` is the
   * most it held); oversized input is consumed through its newline.
   */
  method ReadProtocolLine(reader: Reader, max: nat := MAX_LINE_BYTES) returns (outcome: Outcome, line: seq<byte>,
    ghost peak: nat)
    requires reader.Valid()
    modifies reader
    ensures reader.Valid()
    ensures outcome == Expected(old(reader.Remaining()), max)
    ensures outcome == Complete ==> line == NextLine(old(reader.Remaining()))
    ensures outcome != Complete ==> line == []
    ensures reader.Remaining() == old(reader.Remaining())[|NextLine(old(reader.Remaining()))|..]
    ensures peak <= max && |line| <= peak
  {
    hide *;
    line, peak := [], 0;
    var tooLarge := false;
    ghost var data := reader.Remaining();
    ghost var taken: nat := 0;
    Beginning(data, max);
    while true
      invariant reader.Valid() && taken + |reader.Remaining()| == |data|
      invariant Progress(data, max, taken, reader.Remaining(), line, tooLarge)
      invariant |line| <= peak <= max
      decreases |reader.Remaining()|
    {
      var available := reader.FillBuf();
      RemainingHead(reader);
      if available == [] {
        AtEnd(data, max, taken, line, tooLarge);
        outcome := if tooLarge then TooLarge else if line == [] then Eof else Complete;
        Reported(data, max, reader.Remaining(), outcome, line);
        return;
      }
      NewlineFound(available);
      var position := Position(available, NEWLINE);
      var consumed := if position < |available| then position + 1 else |available|;
      ghost var before, was := line, tooLarge;
      line, tooLarge := Keep(line, tooLarge, available[..consumed], max);
      Absorb(data, max, taken, reader.Remaining(), before, was, available, consumed, line, tooLarge);
      peak := if |line| > peak then |line| else peak;
      reader.Consume(consumed);
      taken := taken + consumed;
      if position < |available| {
        outcome := if tooLarge then TooLarge else Complete;
        Reported(data, max, reader.Remaining(), outcome, line);
        return;
      }
    }
  }

  /** Extends the line, or drops it for good once it would exceed the limit. */
  method Keep(line: seq<byte>, tooLarge: bool, piece: seq<byte>, max: nat) returns (kept: seq<byte>, over: bool)
    ensures over == (tooLarge || |line| + |piece| > max)
    ensures kept == if tooLarge then line else if over then [] else line + piece
  {
    kept, over := line, tooLarge;
    if !tooLarge {
      if |line| + |piece| > max {
        over := true;
        kept := [];
      } else {
        kept := line + piece;
      }
    }
  }

  lemma Reported(data: seq<byte>, max: nat, remaining: seq<byte>, outcome: Outcome, line: seq<byte>)
    requires IsRead(data, max, remaining, outcome, line)
    ensures outcome == Expected(data, max)
    ensures line == if outcome == Complete then NextLine(data) else []
    ensures remaining == data[|NextLine(data)|..]
  {
  }

  lemma Beginning(data: seq<byte>, max: nat)
    ensures Progress(data, max, 0, data, [], false)
  {
  }

  lemma NewlineFound(data: seq<byte>)
    ensures var k := Position(data, NEWLINE);
      k <= |data| && (k < |data| ==> data[k] == NEWLINE) && forall i | 0 <= i < k :: data[i] != NEWLINE
  {
  }

  lemma RemainingHead(reader: Reader)
    requires reader.Valid()
    ensures reader.pending == [] <==> reader.Remaining() == []
    ensures reader.pending != [] ==> reader.pending[0] != [] && reader.pending[0] <= reader.Remaining()
  {
  }

  /** Stopping just past the first newline, or at the end, is stopping after one line. */
  lemma LineEnds(data: seq<byte>, taken: nat)
    requires taken <= |data|
    requires forall i | 0 <= i < taken - 1 :: data[i] != NEWLINE
    requires taken == |data| || (taken > 0 && data[taken - 1] == NEWLINE)
    ensures taken == |NextLine(data)| && data[..taken] == NextLine(data)
  {
  }

  lemma LineRead(data: seq<byte>, max: nat, taken: nat, line: seq<byte>, tooLarge: bool)
    requires taken <= |data| && Kept(data, max, taken, line, tooLarge)
    requires taken == |NextLine(data)| && data[..taken] == NextLine(data)
    ensures IsRead(data, max, data[taken..], if tooLarge then TooLarge else if line == [] then Eof else Complete, line)
  {
    hide Position;
  }

  lemma AtEnd(data: seq<byte>, max: nat, taken: nat, line: seq<byte>, tooLarge: bool)
    requires Progress(data, max, taken, [], line, tooLarge)
    ensures IsRead(data, max, [], if tooLarge then TooLarge else if line == [] then Eof else Complete, line)
  {
    hide NextLine, IsRead;
    LineEnds(data, taken);
    LineRead(data, max, taken, line, tooLarge);
  }

  lemma KeptMore(data: seq<byte>, max: nat, taken: nat, line: seq<byte>, tooLarge: bool, piece: seq<byte>,
    kept: seq<byte>, over: bool)
    requires taken + |piece| <= |data| && data[taken..taken + |piece|] == piece
    requires Kept(data, max, taken, line, tooLarge)
    requires over == (tooLarge || |line| + |piece| > max)
    requires kept == if tooLarge then line else if over then [] else line + piece
    ensures Kept(data, max, taken + |piece|, kept, over) && |kept| <= max
  {
    assert data[..taken + |piece|] == data[..taken] + data[taken..taken + |piece|];
  }

  /** One buffered piece is absorbed: either the line goes on, or its newline has been reached. */
  lemma Absorb(data: seq<byte>, max: nat, taken: nat, remaining: seq<byte>, line: seq<byte>, tooLarge: bool,
    available: seq<byte>, consumed: nat, kept: seq<byte>, over: bool)
    requires Progress(data, max, taken, remaining, line, tooLarge) && available <= remaining
    requires 0 < consumed <= |available| && forall i | 0 <= i < consumed - 1 :: available[i] != NEWLINE
    requires over == (tooLarge || |line| + |available[..consumed]| > max)
    requires kept == if tooLarge then line else if over then [] else line + available[..consumed]
    ensures taken + consumed <= |data| && remaining[consumed..] == data[taken + consumed..] && |kept| <= max
    ensures available[consumed - 1] != NEWLINE ==>
      Progress(data, max, taken + consumed, remaining[consumed..], kept, over)
    ensures available[consumed - 1] == NEWLINE ==>
      IsRead(data, max, remaining[consumed..], if over then TooLarge else Complete, kept)
  {
    hide NextLine, IsRead, Kept;
    Piece(data, taken, available, consumed);
    KeptMore(data, max, taken, line, tooLarge, available[..consumed], kept, over);
    if available[consumed - 1] == NEWLINE {
      LineEnds(data, taken + consumed);
      LineRead(data, max, taken + consumed, kept, over);
      KeptSize(data, max, taken + consumed, kept, over);
    }
  }

  lemma KeptSize(data: seq<byte>, max: nat, taken: nat, line: seq<byte>, tooLarge: bool)
    requires 0 < taken <= |data| && Kept(data, max, taken, line, tooLarge)
    ensures !tooLarge ==> line != []
  {
  }

  lemma Piece(data: seq<byte>, taken: nat, available: seq<byte>, consumed: nat)
    requires taken <= |data| && available <= data[taken..] && consumed <= |available|
    ensures taken + consumed <= |data| && data[taken..taken + consumed] == available[..consumed]
    ensures data[taken..][consumed..] == data[taken + consumed..]
    ensures forall i | taken <= i < taken + consumed :: data[i] == available[i - taken]
  {
    assert forall i | 0 <= i < consumed :: data[taken..][i] == available[i];
  }

  // ----- The whole input -----

  datatype Frame = Line(bytes: seq<byte>) | Oversized

  /** The messages of an input, as a function of its bytes alone. */
  function Frames(data: seq<byte>, max: nat): seq<Frame>
    decreases |data|
  {
    if data == [] then []
    else
      var line := NextLine(data);
      [if |line| > max then Oversized else Line(line)] + Frames(data[|line|..], max)
  }

  lemma FramesStep(data: seq<byte>, max: nat)
    ensures data == [] ==> NextLine(data) == [] && Expected(data, max) == Eof && Frames(data, max) == []
    ensures data != [] ==>
      && 0 < |NextLine(data)| <= |data| && Expected(data, max) != Eof
      && var frame := if Expected(data, max) == TooLarge then Oversized else Line(NextLine(data));
         Frames(data, max) == [frame] + Frames(data[|NextLine(data)|..], max)
  {
  }

  method ReadAll(reader: Reader, max: nat) returns (frames: seq<Frame>)
    requires reader.Valid()
    modifies reader
    ensures frames == Frames(old(reader.Remaining()), max)
    ensures reader.Remaining() == []
  {
    hide *;
    frames := [];
    ghost var data := reader.Remaining();
    while true
      invariant reader.Valid()
      invariant frames + Frames(reader.Remaining(), max) == Frames(data, max)
      decreases |reader.Remaining()|
    {
      ghost var rest := reader.Remaining();
      FramesStep(rest, max);
      var outcome, line, peak := ReadProtocolLine(reader, max);
      match outcome {
        case Eof =>
          return;
        case Complete =>
          frames := frames + [Line(line)];
        case TooLarge =>
          frames := frames + [Oversized];
      }
    }
  }

  /** Two chunkings of the same bytes are indistinguishable. */
  method ChunkingIsInvisible(first: seq<seq<byte>>, second: seq<seq<byte>>, max: nat)
    returns (a: seq<Frame>, b: seq<Frame>)
    requires forall i | 0 <= i < |first| :: first[i] != []
    requires forall i | 0 <= i < |second| :: second[i] != []
    requires Flatten(first) == Flatten(second)
    ensures a == b == Frames(Flatten(first), max)
  {
    var left := new Reader(first);
    var right := new Reader(second);
    a := ReadAll(left, max);
    b := ReadAll(right, max);
  }

  /** Terminated lines come out one frame each, in order. */
  lemma {:induction false} FramesOfLines(body: seq<byte>, rest: seq<byte>, max: nat)
    requires NEWLINE !in body
    ensures Frames(body + [NEWLINE] + rest, max)
         == [if |body| + 1 > max then Oversized else Line(body + [NEWLINE])] + Frames(rest, max)
  {
    var data := body + [NEWLINE] + rest;
    assert data[|body|] == NEWLINE;
    assert forall i | 0 <= i < |body| :: data[i] == body[i] && body[i] in body;
    assert Position(data, NEWLINE) == |body|;
    assert data[..|body| + 1] == body + [NEWLINE];
    assert data[|body| + 1..] == rest;
  }
}
