/** What the destination holds, whatever is cancelled and whenever late operations take effect. */
module DownloadLaws {
  import opened Objects
  import opened Download

  // ----- Invariants -----

  /** The destination is exactly what its last owner made of it. */
  predicate OwnerOk(c: Config, s: State)
  {
    match s.owner
    case Others => s.destination == s.prior
    case Install => s.whole.Some? && s.destination == s.whole
    case Removal => s.destination.None? && s.prior.Some? && c.overwrite
  }

  /** Only a body that ended with the declared length counts as the object. */
  predicate WholeOk(s: State)
  {
    s.whole.Some? ==> s.whole == Some(s.received) && (s.declared.Some? ==> s.declared.value == |s.received|)
  }

  predicate Publishable(s: State)
  {
    s.whole.Some? && s.temporary == s.whole
  }

  predicate AwaitingOk(c: Config, s: State, op: Op)
  {
    match op
    case Inspect => !c.overwrite && s.temporary.None? && s.whole.None? && s.received == []
    case Fetch => s.temporary.None? && s.whole.None? && s.received == []
    case Open => s.temporary.None? && s.whole.None? && s.received == []
    case Read => s.temporary == Some(s.received) && s.whole.None?
    case Write(_) => s.temporary == Some(s.received) && s.whole.None?
    case Settle => s.temporary == Some(s.received) && s.whole.None?
    case Link => !c.overwrite && Publishable(s)
    case Unlink => !c.overwrite && Publishable(s) && s.owner != Removal
    case Rename => c.overwrite && Publishable(s) && s.owner == Others
    case Recheck => c.overwrite && Publishable(s) && s.owner == Others
    case Remove => c.overwrite && Publishable(s) && s.owner == Others
    case RenameAgain => c.overwrite && Publishable(s)
  }

  /** A late link or rename can only publish the whole object. */
  predicate OrphanOk(c: Config, s: State, op: Op)
  {
    match op
    case Link => !c.overwrite && s.whole.Some? && (s.temporary.Some? ==> s.temporary == s.whole)
    case Rename => c.overwrite && s.owner != Removal && s.whole.Some? && (s.temporary.Some? ==> s.temporary == s.whole)
    case RenameAgain => c.overwrite && s.whole.Some? && (s.temporary.Some? ==> s.temporary == s.whole)
    case Remove => c.overwrite && s.owner == Others
    case _ => true
  }

  predicate ControlOk(c: Config, s: State)
  {
    match s.control
    case Awaiting(op) =>
      && AwaitingOk(c, s, op) && s.orphan.None? && !s.cleaned && !s.stray
      && (s.owner != Others ==> op.Unlink? || op.RenameAgain?)
    case Cleaning(outcome) => !s.cleaned && !s.stray && OutcomeOk(s, outcome)
    case Finished(outcome) => OutcomeOk(s, outcome)
  }

  /** Success is reported only for a checked object that was put in place. */
  predicate OutcomeOk(s: State, outcome: Outcome)
  {
    && (outcome.Installed? ==>
          s.whole.Some? && outcome.bytes == |s.whole.value| && s.orphan.None? && s.owner != Removal)
    && (s.orphan.Some? ==> outcome.Abandoned?)
  }

  predicate TemporaryOk(s: State)
  {
    (s.stray ==> s.cleaned && s.orphan.None?) && (s.cleaned ==> (s.temporary.Some? <==> s.stray) && s.control.Finished?)
  }

  predicate Inv(c: Config, s: State)
  {
    && OwnerOk(c, s) && WholeOk(s) && ControlOk(c, s) && TemporaryOk(s)
    && (s.orphan.Some? ==> OrphanOk(c, s, s.orphan.value))
  }

  lemma Kept(c: Config, s: State, e: Event)
    requires Inv(c, s) && Enabled(s, e)
    ensures Inv(c, Apply(c, s, e))
  {
    match e {
      case Succeeds => SucceededKept(c, s);
      case OrphanRuns(ok) => OrphanKept(c, s, ok);
      case _ =>
    }
  }

  predicate Publishing(op: Op)
  {
    op.Link? || op.Unlink? || op.Rename? || op.Recheck? || op.Remove? || op.RenameAgain?
  }

  lemma StreamingKept(c: Config, s: State)
    requires Inv(c, s) && Enabled(s, Succeeds) && !Publishing(s.control.op)
    ensures Inv(c, Apply(c, s, Succeeds))
  {
  }

  lemma PublishingKept(c: Config, s: State)
    requires Inv(c, s) && Enabled(s, Succeeds) && Publishing(s.control.op)
    ensures Inv(c, Apply(c, s, Succeeds))
  {
  }

  lemma SucceededKept(c: Config, s: State)
    requires Inv(c, s) && Enabled(s, Succeeds)
    ensures Inv(c, Apply(c, s, Succeeds))
  {
    hide Inv, Apply, Publishing;
    if Publishing(s.control.op) {
      PublishingKept(c, s);
    } else {
      StreamingKept(c, s);
    }
  }

  lemma LateStreamingKept(c: Config, s: State, ok: bool)
    requires Inv(c, s) && Enabled(s, OrphanRuns(ok)) && !Publishing(s.orphan.value)
    ensures Inv(c, Apply(c, s, OrphanRuns(ok)))
  {
  }

  lemma LatePublishingKept(c: Config, s: State, ok: bool)
    requires Inv(c, s) && Enabled(s, OrphanRuns(ok)) && Publishing(s.orphan.value)
    ensures Inv(c, Apply(c, s, OrphanRuns(ok)))
  {
  }

  lemma OrphanKept(c: Config, s: State, ok: bool)
    requires Inv(c, s) && Enabled(s, OrphanRuns(ok))
    ensures Inv(c, Apply(c, s, OrphanRuns(ok)))
  {
    hide Inv, Apply, Publishing;
    if Publishing(s.orphan.value) {
      LatePublishingKept(c, s, ok);
    } else {
      LateStreamingKept(c, s, ok);
    }
  }

  lemma {:induction false} Reachable(c: Config, events: seq<Event>)
    requires After(c, events).Some?
    ensures Inv(c, After(c, events).value)
  {
    hide Apply, Enabled;
    if events != [] {
      var before := events[..|events| - 1];
      Reachable(c, before);
      Kept(c, After(c, before).value, events[|events| - 1]);
    }
  }

  // ----- The destination -----

  /** A removal takes effect, awaited or late. */
  predicate Removes(s: State, e: Event)
  {
    || (e == Succeeds && s.control == Awaiting(Remove))
    || (e == OrphanRuns(true) && s.orphan == Some(Remove) && s.destination.Some?)
  }

  /** Something is put in the destination's place: by the second rename, awaited or late, or by others. */
  predicate MakesGood(s: State, e: Event)
  {
    || e.OthersWrite?
    || (e == Succeeds && s.control == Awaiting(RenameAgain))
    || (e == OrphanRuns(true) && s.orphan == Some(RenameAgain) && s.temporary.Some?)
  }

  predicate Reached(c: Config, events: seq<Event>, i: nat)
  {
    i < |events| && After(c, events[..i]).Some?
  }

  /** Event `i` removed the destination and no later event has made that good. */
  predicate LostAt(c: Config, events: seq<Event>, i: nat)
  {
    && Reached(c, events, i) && Removes(After(c, events[..i]).value, events[i])
    && forall k: nat | i < k < |events| && Reached(c, events, k) :: !MakesGood(After(c, events[..k]).value, events[k])
  }

  lemma RemovalStep(c: Config, s: State, e: Event)
    requires Inv(c, s) && Enabled(s, e)
    ensures Apply(c, s, e).owner == Removal <==> Removes(s, e) || (s.owner == Removal && !MakesGood(s, e))
  {
  }

  lemma LostNow(c: Config, events: seq<Event>)
    requires events != [] && After(c, events[..|events| - 1]).Some?
    ensures var last := |events| - 1;
            && (LostAt(c, events, last) <==> Removes(After(c, events[..last]).value, events[last]))
            && forall i: nat | i < last :: LostAt(c, events, i) <==>
                 LostAt(c, events[..last], i) && !MakesGood(After(c, events[..last]).value, events[last])
  {
    hide After, Removes, MakesGood;
    var last := |events| - 1;
    var before := events[..last];
    assert forall k: nat | k < last :: before[..k] == events[..k] && before[k] == events[k];
    forall i: nat | i < last
      ensures LostAt(c, events, i) <==> LostAt(c, before, i) && !MakesGood(After(c, before).value, events[last])
    {
      assert Reached(c, events, last);
      assert forall k: nat | k < last :: Reached(c, events, k) <==> Reached(c, before, k);
    }
  }

  lemma {:induction false} RemovalHistory(c: Config, events: seq<Event>)
    requires After(c, events).Some?
    ensures After(c, events).value.owner == Removal <==> exists i: nat :: LostAt(c, events, i)
  {
    hide Apply, Enabled, Inv, LostAt, Removes, MakesGood;
    if events == [] {
      NothingLostYet(c);
    } else {
      var before, e := events[..|events| - 1], events[|events| - 1];
      Reachable(c, before);
      RemovalHistory(c, before);
      RemovalStep(c, After(c, before).value, e);
      LostNow(c, events);
      LostIsPast(c, events);
      LostIsPast(c, before);
    }
  }

  lemma LostIsPast(c: Config, events: seq<Event>)
    ensures forall i: nat | LostAt(c, events, i) :: i < |events|
  {
  }

  lemma NothingLostYet(c: Config)
    ensures Init(c).owner != Removal && forall i: nat :: !LostAt(c, [], i)
  {
  }

  /**
   * At every moment the destination holds what other programs left there, or
   * the whole object of the declared length, or nothing because a removal took
   * effect that has not been made good since.
   */
  lemma {:induction false} DestinationIsNeverPartial(c: Config, events: seq<Event>)
    requires After(c, events).Some?
    ensures var s := After(c, events).value;
            || s.destination == s.prior
            || (&& s.whole.Some? && s.destination == s.whole
                && (s.declared.Some? ==> |s.whole.value| == s.declared.value))
            || (s.destination.None? && c.overwrite && exists i: nat :: LostAt(c, events, i))
  {
    hide After, LostAt;
    Reachable(c, events);
    RemovalHistory(c, events);
  }

  /**
   * The destination is absent although others left something there exactly when
   * a removal took effect and neither the second rename nor anybody else has
   * put anything in its place since.
   */
  lemma {:induction false} AbsentExactlyWhenLost(c: Config, events: seq<Event>)
    requires After(c, events).Some?
    ensures var s := After(c, events).value;
            s.destination.None? && s.prior.Some? <==> exists i: nat :: LostAt(c, events, i)
  {
    hide After, LostAt;
    Reachable(c, events);
    RemovalHistory(c, events);
  }

  /** Once the download has ended and nothing is left running, only other programs can still change anything. */
  lemma EndedForGood(c: Config, s: State, e: Event)
    requires s.control.Finished? && s.orphan.None? && Enabled(s, e)
    ensures e.OthersWrite?
  {
  }

  /**
   * Without overwrite, or while no rename is refused, the destination is always
   * what others left or the whole object.
   */
  lemma {:induction false} NoRefusalNoLoss(c: Config, events: seq<Event>)
    requires After(c, events).Some? && (!c.overwrite || Refused !in events)
    ensures var s := After(c, events).value;
            && (s.destination == s.prior || (s.whole.Some? && s.destination == s.whole))
            && !InFallback(s)
  {
    hide Apply, Enabled, Inv, InFallback;
    Reachable(c, events);
    if events != [] {
      var before, e := events[..|events| - 1], events[|events| - 1];
      assert e in events;
      NoRefusalNoLoss(c, before);
      Reachable(c, before);
      FallbackNeedsRefusal(c, After(c, before).value, e);
    } else {
      NoFallbackYet(c);
    }
    OutsideFallback(c, After(c, events).value);
  }

  predicate InFallback(s: State)
  {
    || (s.control.Awaiting? && (s.control.op.Recheck? || s.control.op.Remove? || s.control.op.RenameAgain?))
    || (s.orphan.Some? && s.orphan.value.Remove?)
    || s.owner == Removal
  }

  lemma FallbackNeedsRefusal(c: Config, s: State, e: Event)
    requires Inv(c, s) && Enabled(s, e) && !InFallback(s) && (!c.overwrite || e != Refused)
    ensures !InFallback(Apply(c, s, e))
  {
  }

  lemma NoFallbackYet(c: Config)
    ensures !InFallback(Init(c))
  {
  }

  lemma OutsideFallback(c: Config, s: State)
    requires Inv(c, s) && !InFallback(s)
    ensures s.destination == s.prior || (s.whole.Some? && s.destination == s.whole)
  {
  }

  /** The only way to leave the destination absent is the removal inside the rename fallback. */
  lemma RemovalOnlyInFallback(c: Config, s: State, e: Event)
    requires Enabled(s, e) && !e.OthersWrite?
    requires s.destination.Some? && Apply(c, s, e).destination.None?
    requires Inv(c, s)
    ensures c.overwrite
    ensures (e.Succeeds? && s.control == Awaiting(Remove)) || (e.OrphanRuns? && s.orphan == Some(Remove))
  {
  }

  /** Without overwrite, no step of the download, awaited or late, alters an existing destination. */
  lemma NeverClobbers(c: Config, events: seq<Event>, e: Event)
    requires !c.overwrite && !e.OthersWrite?
    requires After(c, events).Some? && Enabled(After(c, events).value, e)
    requires After(c, events).value.destination.Some?
    ensures Apply(c, After(c, events).value, e).destination == After(c, events).value.destination
  {
    hide After;
    Reachable(c, events);
  }

  // ----- The object -----

  /** Every byte the body delivered, in order. */
  function Delivered(events: seq<Event>): Bytes
  {
    if events == [] then []
    else
      var last := events[|events| - 1];
      Delivered(events[..|events| - 1]) + if last.Delivers? then last.chunk else []
  }

  /** Of what was delivered, at most the chunk being written is not yet in the temporary file. */
  predicate InStep(delivered: Bytes, s: State)
  {
    && (s.control.Awaiting? && s.control.op.Write? ==> delivered == s.received + s.control.op.chunk)
    && (s.control.Awaiting? && !s.control.op.Write? ==> delivered == s.received)
    && (s.whole.Some? ==> delivered == s.received)
  }

  lemma InStepKept(c: Config, s: State, e: Event, delivered: Bytes)
    requires Inv(c, s) && Enabled(s, e) && InStep(delivered, s)
    ensures InStep(delivered + if e.Delivers? then e.chunk else [], Apply(c, s, e))
  {
    assert delivered + [] == delivered;
  }

  lemma {:induction false} DeliveredIsReceived(c: Config, events: seq<Event>)
    requires After(c, events).Some?
    ensures InStep(Delivered(events), After(c, events).value)
  {
    hide Apply, Enabled, InStep, Inv;
    if events == [] {
      NothingDelivered(c);
    } else {
      var before := events[..|events| - 1];
      Reachable(c, before);
      DeliveredIsReceived(c, before);
      InStepKept(c, After(c, before).value, events[|events| - 1], Delivered(before));
    }
  }

  lemma NothingDelivered(c: Config)
    ensures InStep([], Init(c))
  {
  }

  /** The object that may be published is everything the body delivered, of the declared length. */
  lemma WholeIsTheBody(c: Config, events: seq<Event>)
    requires After(c, events).Some? && After(c, events).value.whole.Some?
    ensures var s := After(c, events).value;
            s.whole.value == Delivered(events) && (s.declared.Some? ==> |Delivered(events)| == s.declared.value)
  {
    hide After, Delivered;
    Reachable(c, events);
    DeliveredIsReceived(c, events);
  }

  // ----- Success -----

  /** After the first `j` events the download had put this object in place. */
  predicate InstalledBy(c: Config, events: seq<Event>, j: nat, content: Bytes)
  {
    && j <= |events| && After(c, events[..j]).Some?
    && After(c, events[..j]).value.owner == Install && After(c, events[..j]).value.destination == Some(content)
  }

  /** Another program changed the destination at or after position `j`. */
  predicate ChangedSince(events: seq<Event>, j: nat)
  {
    exists k | j <= k < |events| :: events[k].OthersWrite?
  }

  /**
   * A reported success put exactly the delivered bytes in place at some moment,
   * and they are still there unless another program has changed the destination
   * since that moment.
   */
  lemma SuccessInstalls(c: Config, events: seq<Event>)
    requires After(c, events).Some?
    requires After(c, events).value.control.Finished? && After(c, events).value.control.outcome.Installed?
    ensures var s := After(c, events).value;
            && s.control.outcome.bytes == |Delivered(events)|
            && exists j: nat :: InstalledBy(c, events, j, Delivered(events))
                 && (s.destination == Some(Delivered(events)) || ChangedSince(events, j))
  {
    hide After, Delivered, InstalledBy, ChangedSince;
    Reachable(c, events);
    WholeIsTheBody(c, events);
    var j := InstalledOrChanged(c, events);
  }

  predicate PastInstall(s: State)
  {
    match s.control
    case Awaiting(op) => op == Unlink
    case Cleaning(outcome) => outcome.Installed?
    case Finished(outcome) => outcome.Installed?
  }

  /** Past the install, the object stays what it is, and in place until another program writes. */
  lemma PastInstallStep(c: Config, s: State, e: Event)
    requires Inv(c, s) && Enabled(s, e) && PastInstall(Apply(c, s, e))
    ensures s.whole.Some? && Apply(c, s, e).whole == s.whole
    ensures !PastInstall(s) ==> Apply(c, s, e).owner == Install && Apply(c, s, e).destination == s.whole
    ensures !e.OthersWrite? && s.owner == Install ==> Apply(c, s, e).owner == Install
  {
  }

  lemma InstalledLater(c: Config, events: seq<Event>, e: Event, j: nat, content: Bytes)
    requires InstalledBy(c, events, j, content)
    ensures InstalledBy(c, events + [e], j, content)
    ensures ChangedSince(events, j) || e.OthersWrite? ==> ChangedSince(events + [e], j)
  {
    assert (events + [e])[..j] == events[..j];
    if e.OthersWrite? {
      assert (events + [e])[|events|].OthersWrite?;
    }
    if ChangedSince(events, j) {
      var k :| j <= k < |events| && events[k].OthersWrite?;
      assert (events + [e])[k].OthersWrite?;
    }
  }

  lemma {:induction false} InstalledOrChanged(c: Config, events: seq<Event>) returns (j: nat)
    requires After(c, events).Some? && PastInstall(After(c, events).value)
    ensures After(c, events).value.whole.Some?
    ensures InstalledBy(c, events, j, After(c, events).value.whole.value)
    ensures After(c, events).value.owner == Install || ChangedSince(events, j)
  {
    hide Apply, Enabled, Inv, PastInstall, InstalledBy, ChangedSince;
    if events == [] {
      NotInstalledYet(c);
      assert false;
    } else {
      var before, e := events[..|events| - 1], events[|events| - 1];
      assert events == before + [e];
      Reachable(c, before);
      var s := After(c, before).value;
      PastInstallStep(c, s, e);
      if PastInstall(s) {
        j := InstalledOrChanged(c, before);
        InstalledLater(c, before, e, j, s.whole.value);
      } else {
        j := |events|;
        assert events[..j] == events;
        InstalledHere(c, events);
      }
    }
  }

  lemma InstalledHere(c: Config, events: seq<Event>)
    requires After(c, events).Some?
    requires var s := After(c, events).value; s.owner == Install && s.whole.Some? && s.destination == s.whole
    ensures InstalledBy(c, events, |events|, After(c, events).value.whole.value)
  {
    assert events[..|events|] == events;
  }

  lemma NotInstalledYet(c: Config)
    ensures !PastInstall(Init(c))
  {
  }

  // ----- The temporary file -----

  /**
   * After a clean-up that succeeded there is a temporary file in exactly one
   * case: opening it was abandoned and took effect afterwards.
   */
  lemma TemporaryIsRemoved(c: Config, events: seq<Event>)
    requires After(c, events).Some? && After(c, events).value.cleaned
    ensures After(c, events).value.temporary.Some? <==> exists i | 0 <= i < |events| :: LateOpen(c, events, i)
  {
    hide After, LateOpen;
    Reachable(c, events);
    if After(c, events).value.stray {
      StrayNeedsOrphan(c, events);
    }
    forall i | 0 <= i < |events| && LateOpen(c, events, i)
      ensures After(c, events).value.stray
    {
      LateOpenIsStray(c, events, i);
    }
  }

  /** Event `i` is an abandoned open taking effect after the clean-up. */
  predicate LateOpen(c: Config, events: seq<Event>, i: nat)
    requires i < |events|
  {
    && events[i] == OrphanRuns(true)
    && After(c, events[..i]).Some?
    && After(c, events[..i]).value.cleaned && After(c, events[..i]).value.orphan == Some(Open)
  }

  lemma {:induction false} StrayNeedsOrphan(c: Config, events: seq<Event>)
    requires After(c, events).Some? && After(c, events).value.stray
    ensures exists i | 0 <= i < |events| :: LateOpen(c, events, i)
  {
    var before, e := events[..|events| - 1], events[|events| - 1];
    var s := After(c, before).value;
    if s.stray {
      StrayNeedsOrphan(c, before);
      var i :| 0 <= i < |before| && LateOpen(c, before, i);
      assert events[..i] == before[..i];
      assert LateOpen(c, events, i);
    } else {
      StrayStep(c, s, e);
      assert LateOpen(c, events, |events| - 1);
    }
  }

  lemma {:induction false} LateOpenIsStray(c: Config, events: seq<Event>, i: nat)
    requires After(c, events).Some? && i < |events| && LateOpen(c, events, i)
    ensures After(c, events).value.stray
  {
    hide Apply, Enabled, Inv;
    var before, e := events[..|events| - 1], events[|events| - 1];
    Reachable(c, before);
    if i < |before| {
      assert events[..i] == before[..i];
      LateOpenIsStray(c, before, i);
    }
    StrayStays(c, After(c, before).value, e);
  }

  lemma StrayStays(c: Config, s: State, e: Event)
    requires Inv(c, s) && Enabled(s, e)
    requires s.stray || (e == OrphanRuns(true) && s.cleaned && s.orphan == Some(Open))
    ensures Apply(c, s, e).stray
  {
  }

  lemma StrayStep(c: Config, s: State, e: Event)
    requires Enabled(s, e) && !s.stray && Apply(c, s, e).stray
    ensures e == OrphanRuns(true) && s.cleaned && s.orphan == Some(Open)
  {
  }

  // ----- Schedules on which the guarantees end -----

  lemma OneMore(c: Config, events: seq<Event>, k: nat)
    requires k < |events| && After(c, events[..k]).Some? && Enabled(After(c, events[..k]).value, events[k])
    ensures After(c, events[..k + 1]) == Some(Apply(c, After(c, events[..k]).value, events[k]))
  {
    assert events[..k + 1][..k] == events[..k];
  }

  lemma Beginning(c: Config, events: seq<Event>)
    ensures After(c, events[..0]) == Some(Init(c))
  {
  }

  /** Cancelled while opening, cleaned up, and then the open creates the file. */
  lemma CancelledOpenLeavesTemporary(c: Config)
    requires c.overwrite
    ensures var s := After(c, [Fetched(None), Abandon, CleanUp(true), OrphanRuns(true)]);
            s.Some? && s.value.control == Finished(Abandoned) && s.value.cleaned && s.value.temporary == Some([])
  {
    hide After;
    var e := [Fetched(None), Abandon, CleanUp(true), OrphanRuns(true)];
    Beginning(c, e);
    OneMore(c, e, 0);
    OneMore(c, e, 1);
    OneMore(c, e, 2);
    OneMore(c, e, 3);
    assert e[..4] == e;
  }

  /**
   * The rename is refused, the existing file is removed, and the second rename
   * fails: the download ends, and the file that was there is gone.
   */
  lemma FailedReplacementLosesFile(c: Config)
    requires c.overwrite && c.initial.Some?
    ensures var s := After(c, [Fetched(None), Succeeds, EndOfBody, Succeeds, Refused, Succeeds, Succeeds, Fails(0),
                               CleanUp(true)]);
            && s.Some? && s.value.control == Finished(Failed) && s.value.orphan.None?
            && s.value.prior == c.initial && s.value.destination.None? && s.value.temporary.None?
  {
    hide After;
    var e := [Fetched(None), Succeeds, EndOfBody, Succeeds, Refused, Succeeds, Succeeds, Fails(0), CleanUp(true)];
    var refusing := Init(c).(temporary := Some([]), whole := Some([]), control := Awaiting(Rename));
    assert After(c, e[..4]) == Some(refusing) by {
      Beginning(c, e);
      OneMore(c, e, 0);
      OneMore(c, e, 1);
      OneMore(c, e, 2);
      OneMore(c, e, 3);
    }
    var removed := refusing.(destination := None, owner := Removal, control := Awaiting(RenameAgain));
    assert After(c, e[..7]) == Some(removed) by {
      OneMore(c, e, 4);
      OneMore(c, e, 5);
      OneMore(c, e, 6);
    }
    assert After(c, e[..9]) == Some(removed.(temporary := None, control := Finished(Failed), cleaned := true)) by {
      OneMore(c, e, 7);
      OneMore(c, e, 8);
    }
    assert e[..9] == e;
  }
}
