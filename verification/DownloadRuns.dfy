/** What a download achieves: when the checked body is installed, and what undisturbed downloads end with. */
module DownloadRuns {
  import opened Objects
  import opened Scanning
  import opened Download
  import opened DownloadLaws

  // ----- The length check -----

  /** The length the service declared, if it declared one. */
  function DeclaredIn(events: seq<Event>): Option<nat>
  {
    if events == [] then None
    else
      var last := events[|events| - 1];
      if last.Fetched? then last.length else DeclaredIn(events[..|events| - 1])
  }

  lemma {:induction false} DeclaredIsRecorded(c: Config, events: seq<Event>)
    requires After(c, events).Some?
    ensures After(c, events).value.declared == DeclaredIn(events)
  {
    hide Apply, Enabled;
    if events != [] {
      var before, e := events[..|events| - 1], events[|events| - 1];
      DeclaredIsRecorded(c, before);
      OnlyFetchDeclares(c, After(c, before).value, e);
    }
  }

  lemma OnlyFetchDeclares(c: Config, s: State, e: Event)
    requires Enabled(s, e)
    ensures Apply(c, s, e).declared == if e.Fetched? then e.length else s.declared
  {
  }

  /**
   * Once everything is written, the download goes on to put the object in place
   * if and only if no length was declared or exactly that many bytes were
   * delivered; otherwise it fails.
   */
  lemma SettleDecides(c: Config, events: seq<Event>)
    requires After(c, events).Some? && After(c, events).value.control == Awaiting(Settle)
    ensures var next := Apply(c, After(c, events).value, Succeeds);
            var accepted := DeclaredIn(events).None? || DeclaredIn(events).value == |Delivered(events)|;
            && (accepted ==> next.control == Awaiting(if c.overwrite then Rename else Link)
                             && next.whole == Some(Delivered(events)))
            && (!accepted ==> next.control == Cleaning(Failed))
            && next.destination == After(c, events).value.destination
  {
    hide After, Delivered, DeclaredIn;
    Reachable(c, events);
    DeliveredIsReceived(c, events);
    DeclaredIsRecorded(c, events);
  }

  /** Whatever fails or is abandoned ends the download and leaves the destination as it is at that moment. */
  lemma FailureEnds(c: Config, s: State, e: Event)
    requires s.control.Awaiting? && (e.Fails? || e == Abandon)
    ensures var next := Apply(c, s, e);
            var outcome := if e.Fails? then Failed else Abandoned;
            && next.control == (if s.control == Awaiting(Inspect) then Finished(outcome) else Cleaning(outcome))
            && next.destination == s.destination
            && (e == Abandon ==> next.orphan == Some(s.control.op))
  {
  }

  /**
   * Nothing keeps other programs from writing the destination, an operation from
   * failing or being abandoned, or an abandoned one from taking effect late.
   */
  lemma AnythingMayHappen(c: Config, s: State, content: Option<Bytes>, written: nat, ok: bool)
    ensures Enabled(s, OthersWrite(content))
    ensures Apply(c, s, OthersWrite(content)) == s.(destination := content, prior := content, owner := Others)
    ensures s.control.Awaiting? ==> Enabled(s, Fails(written)) && Enabled(s, Abandon)
    ensures s.control == Awaiting(Rename) ==> Enabled(s, Refused)
    ensures s.control.Cleaning? ==> Enabled(s, CleanUp(ok))
    ensures s.orphan.Some? ==> Enabled(s, OrphanRuns(ok))
  {
  }

  // ----- Undisturbed downloads -----

  lemma Goes(c: Config, events: seq<Event>, s: State, e: Event)
    requires After(c, events) == Some(s) && Enabled(s, e)
    ensures After(c, events + [e]) == Some(Apply(c, s, e))
  {
    assert (events + [e])[..|events|] == events;
  }

  /** Chunk after chunk arrives and is written. */
  function Streaming(chunks: seq<Bytes>): seq<Event>
  {
    if chunks == [] then []
    else Streaming(chunks[..|chunks| - 1]) + [Delivers(chunks[|chunks| - 1]), Succeeds]
  }

  /** Up to the end of the body and the last flush. */
  function Begun(c: Config, length: Option<nat>): seq<Event>
  {
    (if c.overwrite then [] else [Succeeds]) + [Fetched(length), Succeeds]
  }

  function Filled(c: Config, length: Option<nat>, body: Bytes): State
  {
    Init(c).(control := Awaiting(Read), declared := length, temporary := Some(body), received := body)
  }

  lemma Inspects(c: Config)
    requires c.overwrite || c.initial.None?
    ensures After(c, if c.overwrite then [] else [Succeeds]) == Some(Init(c).(control := Awaiting(Fetch)))
  {
    assert After(c, []) == Some(Init(c));
    if !c.overwrite {
      hide After;
      Goes(c, [], Init(c), Succeeds);
      assert [] + [Succeeds] == [Succeeds];
    }
  }

  lemma Begins(c: Config, length: Option<nat>)
    requires c.overwrite || c.initial.None?
    ensures After(c, Begun(c, length)) == Some(Filled(c, length, []))
  {
    hide After;
    Inspects(c);
    var start, ready := if c.overwrite then [] else [Succeeds], Init(c).(control := Awaiting(Fetch));
    Goes(c, start, ready, Fetched(length));
    Goes(c, start + [Fetched(length)], ready.(declared := length, control := Awaiting(Open)), Succeeds);
    assert Begun(c, length) == start + [Fetched(length)] + [Succeeds];
  }

  ghost predicate NoneEmpty(chunks: seq<Bytes>)
  {
    forall i | 0 <= i < |chunks| :: chunks[i] != []
  }

  lemma {:induction false} Streams(c: Config, length: Option<nat>, chunks: seq<Bytes>)
    requires (c.overwrite || c.initial.None?) && NoneEmpty(chunks)
    ensures After(c, Begun(c, length) + Streaming(chunks)) == Some(Filled(c, length, Flatten(chunks)))
    decreases |chunks|
  {
    hide After, Begun;
    if chunks == [] {
      Begins(c, length);
      assert Begun(c, length) + Streaming(chunks) == Begun(c, length);
    } else {
      var front, last := chunks[..|chunks| - 1], chunks[|chunks| - 1];
      Streams(c, length, front);
      FlattenLast(chunks);
      var before, s := Begun(c, length) + Streaming(front), Filled(c, length, Flatten(front));
      Goes(c, before, s, Delivers(last));
      Goes(c, before + [Delivers(last)], s.(control := Awaiting(Write(last))), Succeeds);
      assert Begun(c, length) + Streaming(chunks) == before + [Delivers(last)] + [Succeeds];
    }
  }

  /** The whole object is on disk and checked. */
  function Fetching(c: Config, length: Option<nat>, chunks: seq<Bytes>): seq<Event>
  {
    Begun(c, length) + Streaming(chunks) + [EndOfBody, Succeeds]
  }

  function Matches(length: Option<nat>, body: Bytes): bool
  {
    length.None? || length.value == |body|
  }

  lemma Fetches(c: Config, length: Option<nat>, chunks: seq<Bytes>)
    requires (c.overwrite || c.initial.None?) && NoneEmpty(chunks)
    ensures var body := Flatten(chunks);
            var s := Filled(c, length, body);
            After(c, Fetching(c, length, chunks)) == Some(
              if Matches(length, body)
              then s.(whole := Some(body), control := Awaiting(if c.overwrite then Rename else Link))
              else s.(control := Cleaning(Failed)))
  {
    hide After, Begun, Streaming;
    Streams(c, length, chunks);
    var before, s := Begun(c, length) + Streaming(chunks), Filled(c, length, Flatten(chunks));
    Goes(c, before, s, EndOfBody);
    Goes(c, before + [EndOfBody], s.(control := Awaiting(Settle)), Succeeds);
    assert Fetching(c, length, chunks) == before + [EndOfBody] + [Succeeds];
  }

  /** The object is put in place by one rename, or by a link and the removal of the other name. */
  function Installing(c: Config): seq<Event>
  {
    (if c.overwrite then [Succeeds] else [Succeeds, Succeeds]) + [CleanUp(true)]
  }

  /**
   * A download in which every operation succeeds and nobody else writes ends
   * with the destination holding exactly the body, for every body and both modes,
   * when the declared length, if any, is right.
   */
  lemma DownloadInstalls(c: Config, length: Option<nat>, chunks: seq<Bytes>)
    requires (c.overwrite || c.initial.None?) && NoneEmpty(chunks) && Matches(length, Flatten(chunks))
    ensures var r := After(c, Fetching(c, length, chunks) + Installing(c));
            && r.Some? && r.value.control == Finished(Installed(|Flatten(chunks)|))
            && r.value.destination == Some(Flatten(chunks)) && r.value.temporary.None? && r.value.orphan.None?
  {
    Fetches(c, length, chunks);
    var body, before := Flatten(chunks), Fetching(c, length, chunks);
    var s := Filled(c, length, body).(whole := Some(body), control := Awaiting(if c.overwrite then Rename else Link));
    hide After, Fetching, Flatten;
    Goes(c, before, s, Succeeds);
    var placed := before + [Succeeds];
    if c.overwrite {
      Goes(c, placed, Apply(c, s, Succeeds), CleanUp(true));
      assert before + Installing(c) == placed + [CleanUp(true)];
    } else {
      var linked := Apply(c, s, Succeeds);
      Goes(c, placed, linked, Succeeds);
      Goes(c, placed + [Succeeds], Apply(c, linked, Succeeds), CleanUp(true));
      assert before + Installing(c) == placed + [Succeeds] + [CleanUp(true)];
    }
  }

  /** With a wrong length the same download fails and the destination is as it was. */
  lemma WrongLengthFails(c: Config, length: Option<nat>, chunks: seq<Bytes>)
    requires (c.overwrite || c.initial.None?) && NoneEmpty(chunks) && !Matches(length, Flatten(chunks))
    ensures var r := After(c, Fetching(c, length, chunks) + [CleanUp(true)]);
            && r.Some? && r.value.control == Finished(Failed)
            && r.value.destination == c.initial && r.value.temporary.None?
  {
    Fetches(c, length, chunks);
    hide After, Fetching, Flatten;
    var failed := Filled(c, length, Flatten(chunks)).(control := Cleaning(Failed));
    Goes(c, Fetching(c, length, chunks), failed, CleanUp(true));
  }

  /** The checked object, refused its place. */
  function Rejected(c: Config, length: Option<nat>, body: Bytes): State
  {
    Filled(c, length, body).(whole := Some(body), control := Awaiting(Recheck))
  }

  lemma Rejects(c: Config, length: Option<nat>, chunks: seq<Bytes>)
    requires c.overwrite && NoneEmpty(chunks) && Matches(length, Flatten(chunks))
    ensures After(c, Fetching(c, length, chunks) + [Refused]) == Some(Rejected(c, length, Flatten(chunks)))
  {
    Fetches(c, length, chunks);
    var body := Flatten(chunks);
    hide After, Fetching, Flatten;
    Goes(c, Fetching(c, length, chunks), Filled(c, length, body).(whole := Some(body), control := Awaiting(Rename)),
      Refused);
  }

  /** A refused rename is made good by removing what is in the way and renaming again. */
  lemma RefusedRenameInstalls(c: Config, length: Option<nat>, chunks: seq<Bytes>)
    requires c.overwrite && c.initial.Some? && NoneEmpty(chunks) && Matches(length, Flatten(chunks))
    ensures var r := After(c, Fetching(c, length, chunks) + [Refused] + [Succeeds, Succeeds, Succeeds, CleanUp(true)]);
            && r.Some? && r.value.control == Finished(Installed(|Flatten(chunks)|))
            && r.value.destination == Some(Flatten(chunks)) && r.value.temporary.None?
  {
    Rejects(c, length, chunks);
    var before, s := Fetching(c, length, chunks) + [Refused], Rejected(c, length, Flatten(chunks));
    hide After, Fetching, Flatten;
    Goes(c, before, s, Succeeds);
    Goes(c, before + [Succeeds], s.(control := Awaiting(Remove)), Succeeds);
    var removed := s.(control := Awaiting(RenameAgain), destination := None, owner := Removal);
    RenamesAgain(c, before + [Succeeds] + [Succeeds], removed);
    assert before + [Succeeds, Succeeds, Succeeds, CleanUp(true)]
        == before + [Succeeds] + [Succeeds] + [Succeeds, CleanUp(true)];
  }

  lemma RenamesAgain(c: Config, events: seq<Event>, s: State)
    requires After(c, events) == Some(s) && s.control == Awaiting(RenameAgain) && s.temporary.Some?
    ensures After(c, events + [Succeeds, CleanUp(true)])
         == Some(s.(destination := s.temporary, temporary := None, owner := Install, cleaned := true,
                    control := Finished(Installed(|s.received|))))
  {
    hide After;
    Goes(c, events, s, Succeeds);
    Goes(c, events + [Succeeds], Apply(c, s, Succeeds), CleanUp(true));
    assert events + [Succeeds, CleanUp(true)] == events + [Succeeds] + [CleanUp(true)];
  }

  /** Refused although nothing is in the way, the rename fails for good. */
  lemma RefusedRenameFails(c: Config, length: Option<nat>, chunks: seq<Bytes>)
    requires c.overwrite && c.initial.None? && NoneEmpty(chunks) && Matches(length, Flatten(chunks))
    ensures var r := After(c, Fetching(c, length, chunks) + [Refused] + [Succeeds, CleanUp(true)]);
            r.Some? && r.value.control == Finished(Failed) && r.value.destination.None? && r.value.temporary.None?
  {
    Rejects(c, length, chunks);
    var before, s := Fetching(c, length, chunks) + [Refused], Rejected(c, length, Flatten(chunks));
    hide After, Fetching, Flatten;
    Goes(c, before, s, Succeeds);
    Goes(c, before + [Succeeds], s.(control := Cleaning(Failed)), CleanUp(true));
    assert before + [Succeeds, CleanUp(true)] == before + [Succeeds] + [CleanUp(true)];
  }

  /** Without overwrite an existing destination ends the download at once. */
  lemma ExistingDestinationRefuses(c: Config)
    requires !c.overwrite && c.initial.Some?
    ensures After(c, [Succeeds]) == Some(Init(c).(control := Finished(AlreadyExists)))
  {
    assert After(c, []) == Some(Init(c));
    Goes(c, [], Init(c), Succeeds);
    assert [] + [Succeeds] == [Succeeds];
  }

  /** From every reachable state the download can be brought to its end with no further help. */
  lemma {:induction false} AlwaysCanEnd(c: Config, events: seq<Event>) returns (rest: seq<Event>)
    requires After(c, events).Some?
    ensures After(c, events + rest).Some? && After(c, events + rest).value.control.Finished?
    ensures |rest| <= 2
  {
    var s := After(c, events).value;
    hide After;
    rest := [];
    assert events + rest == events;
    if s.control.Awaiting? {
      Goes(c, events, s, Abandon);
      rest := [Abandon];
    }
    var stopped := After(c, events + rest).value;
    if stopped.control.Cleaning? {
      Goes(c, events + rest, stopped, CleanUp(true));
      assert events + rest + [CleanUp(true)] == events + (rest + [CleanUp(true)]);
      rest := rest + [CleanUp(true)];
    }
  }
}
