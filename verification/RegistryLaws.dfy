/** What every interleaving of starts and stops keeps of the watcher registry. */
module RegistryLaws {
  import opened Registry

  // ----- Invariants -----

  predicate Registered(t: Tables, session: nat)
  {
    session in t.sessions && t.sessions[session].id in t.watchers && t.watchers[t.sessions[session].id] == session
  }

  /** The map is bounded and every entry is keyed by its own session's id. */
  predicate Keyed(t: Tables)
  {
    && |t.watchers| <= MAX_CONCURRENT_WATCHERS
    && forall id | id in t.watchers :: t.watchers[id] in t.sessions && t.sessions[t.watchers[id]].id == id
  }

  /** A session is off the registry only with a cancelled token. */
  predicate NoneAstray(t: Tables)
  {
    forall session | session in t.sessions :: Registered(t, session) || t.sessions[session].cancelled
  }

  /** A join handle is stored only once the loop was spawned. */
  predicate HandlesOk(t: Tables)
  {
    forall session | session in t.sessions && t.sessions[session].handle :: t.sessions[session].loop != NotSpawned
  }

  predicate TablesOk(t: Tables)
  {
    Keyed(t) && NoneAstray(t) && HandlesOk(t)
  }

  predicate Spawned(t: Tables, session: nat)
  {
    session in t.sessions && t.sessions[session].loop != NotSpawned
  }

  predicate Own(t: Tables, session: nat, id: string)
  {
    session in t.sessions && t.sessions[session].id == id
  }

  predicate OwnCancelled(t: Tables, session: nat, id: string)
  {
    Own(t, session, id) && t.sessions[session].cancelled
  }

  /** Cancelled and gone for good. */
  predicate Retired(t: Tables, session: nat, id: string)
  {
    OwnCancelled(t, session, id) && !Registered(t, session)
  }

  /** What a suspended or finished call knows about the session it works on. */
  predicate CallOk(t: Tables, call: nat, id: string, step: Step)
  {
    match step
    case Checking => call !in t.sessions
    case Creating => call !in t.sessions
    case Inserting => call !in t.sessions
    case Spawning => Own(t, call, id) && t.sessions[call].loop == NotSpawned
    case Publishing => Own(t, call, id) && Spawned(t, call)
    case OwnTaking => OwnCancelled(t, call, id)
    case OwnJoining => OwnCancelled(t, call, id) && Spawned(t, call)
    case OwnRemoving => OwnCancelled(t, call, id)
    case Notifying => Own(t, call, id)
    case Started => Own(t, call, id)
    case Failed => call !in t.sessions || Retired(t, call, id)
    case Looking => call !in t.sessions
    case Taking(session) => OwnCancelled(t, session, id)
    case Joining(session) => OwnCancelled(t, session, id) && Spawned(t, session)
    case Reporting(session, joined) => OwnCancelled(t, session, id) && (joined ==> LoopEnded(t, session))
    case Removing(session, joined) => OwnCancelled(t, session, id) && (joined ==> LoopEnded(t, session))
    case Stopped(session, joined) => Retired(t, session, id) && (joined ==> LoopEnded(t, session))
    case NotFound => true
    case Dropped => true
  }

  predicate CallsOk(s: State)
  {
    forall call | call in s.calls :: CallOk(s.tables, call, s.calls[call].id, s.calls[call].step)
  }

  /** Every session belongs to a call that has begun. */
  predicate Owned(s: State)
  {
    forall session | session in s.tables.sessions :: session in s.calls
  }

  predicate Inv(s: State)
  {
    TablesOk(s.tables) && CallsOk(s) && Owned(s)
  }

  // ----- Sessions only move forward -----

  /** Ids are fixed; cancellation, ending and removal are final; only `subject` may appear or be spawned. */
  predicate Forward(t: Tables, next: Tables, subject: nat)
  {
    && (forall x | x in t.sessions ::
          && x in next.sessions && next.sessions[x].id == t.sessions[x].id
          && (t.sessions[x].cancelled ==> next.sessions[x].cancelled)
          && (t.sessions[x].loop == Ended ==> next.sessions[x].loop == Ended)
          && (t.sessions[x].loop != NotSpawned ==> next.sessions[x].loop != NotSpawned)
          && (x != subject && t.sessions[x].loop == NotSpawned ==> next.sessions[x].loop == NotSpawned)
          && (!Registered(t, x) ==> !Registered(next, x)))
    && (forall x | x in next.sessions :: x in t.sessions || x == subject)
  }

  lemma CallStays(t: Tables, next: Tables, subject: nat, call: nat, id: string, step: Step)
    requires Forward(t, next, subject) && call != subject && CallOk(t, call, id, step)
    ensures CallOk(next, call, id, step)
  {
  }

  lemma CancelGoesForward(t: Tables, session: nat, subject: nat)
    requires TablesOk(t)
    ensures TablesOk(Cancel(t, session)) && Forward(t, Cancel(t, session), subject)
  {
  }

  lemma HandleGoesForward(t: Tables, session: nat, handle: bool, subject: nat)
    requires TablesOk(t) && (handle ==> Spawned(t, session))
    ensures TablesOk(SetHandle(t, session, handle)) && Forward(t, SetHandle(t, session, handle), subject)
  {
  }

  lemma LoopGoesForward(t: Tables, session: nat, loop: Loop)
    requires TablesOk(t) && session in t.sessions
    requires t.sessions[session].loop == NotSpawned || loop == Ended
    requires loop != NotSpawned
    ensures TablesOk(SetLoop(t, session, loop)) && Forward(t, SetLoop(t, session, loop), session)
    ensures Spawned(SetLoop(t, session, loop), session)
  {
  }

  lemma UnregisterGoesForward(t: Tables, id: string, session: nat, subject: nat)
    requires TablesOk(t) && OwnCancelled(t, session, id)
    ensures TablesOk(Unregister(t, id, session)) && Forward(t, Unregister(t, id, session), subject)
    ensures Retired(Unregister(t, id, session), session, id)
  {
    assert id in t.watchers ==> (t.watchers - {id}).Keys == t.watchers.Keys - {id};
  }

  lemma InsertKeepsOthers(t: Tables, id: string, session: nat, x: nat)
    requires TablesOk(t) && id !in t.watchers && session !in t.sessions && x in t.sessions
    ensures Registered(Insert(t, id, session), x) <==> Registered(t, x)
  {
  }

  lemma InsertStaysKeyed(t: Tables, id: string, session: nat)
    requires Keyed(t) && id !in t.watchers && !Full(t) && session !in t.sessions
    ensures Keyed(Insert(t, id, session)) && Registered(Insert(t, id, session), session)
  {
    assert t.watchers[id := session].Keys == t.watchers.Keys + {id};
  }

  lemma InsertGoesForward(t: Tables, id: string, session: nat)
    requires TablesOk(t) && id !in t.watchers && !Full(t) && session !in t.sessions
    ensures TablesOk(Insert(t, id, session)) && Forward(t, Insert(t, id, session), session)
  {
    hide Keyed, Registered;
    InsertStaysKeyed(t, id, session);
    forall x | x in t.sessions
      ensures Registered(Insert(t, id, session), x) <==> Registered(t, x)
    {
      InsertKeepsOthers(t, id, session, x);
    }
  }

  lemma StaysForward(t: Tables, subject: nat)
    ensures Forward(t, t, subject)
  {
  }

  // ----- Every step -----

  lemma StartStep(t: Tables, call: nat, id: string, step: Step, ok: bool)
    requires TablesOk(t) && CallOk(t, call, id, step) && !IsStop(step) && !Over(step)
    ensures var (next, after) := ResumeStart(t, call, id, step, ok);
            TablesOk(next) && Forward(t, next, call) && CallOk(next, call, id, after)
  {
    hide TablesOk, Forward, Registered, Cancel, SetHandle, SetLoop, Insert, Unregister, Full, HasHandle, Spawned;
    StaysForward(t, call);
    match step {
      case Inserting =>
        if !(id in t.watchers || Full(t)) {
          InsertGoesForward(t, id, call);
          InsertIsOwn(t, id, call);
        }
      case Spawning =>
        LoopGoesForward(t, call, Polling);
        ForwardKeeps(t, SetLoop(t, call, Polling), call, call, id);
      case Publishing =>
        PublishStep(t, call, id);
      case OwnTaking =>
        HandleGoesForward(t, call, false, call);
        ForwardKeeps(t, SetHandle(t, call, false), call, call, id);
        if HasHandle(t, call) {
          HandleWasSpawned(t, call);
        }
      case OwnRemoving =>
        UnregisterGoesForward(t, id, call, call);
      case _ =>
    }
  }

  lemma HandleWasSpawned(t: Tables, session: nat)
    requires TablesOk(t) && HasHandle(t, session)
    ensures Spawned(SetHandle(t, session, false), session)
  {
    hide Keyed, NoneAstray;
  }

  lemma InsertIsOwn(t: Tables, id: string, call: nat)
    ensures Own(Insert(t, id, call), call, id) && Insert(t, id, call).sessions[call].loop == NotSpawned
  {
  }

  lemma ForwardKeeps(t: Tables, next: Tables, subject: nat, session: nat, id: string)
    requires Forward(t, next, subject) && Own(t, session, id)
    ensures Own(next, session, id)
    ensures OwnCancelled(t, session, id) ==> OwnCancelled(next, session, id)
    ensures LoopEnded(t, session) ==> LoopEnded(next, session)
  {
  }

  lemma ForwardTwice(t: Tables, mid: Tables, next: Tables, subject: nat)
    requires Forward(t, mid, subject) && Forward(mid, next, subject)
    ensures Forward(t, next, subject)
  {
    hide Registered;
  }

  lemma PublishStep(t: Tables, call: nat, id: string)
    requires TablesOk(t) && Own(t, call, id) && Spawned(t, call)
    ensures var published := SetHandle(t, call, true);
            var withdrawn := Cancel(published, call);
            && TablesOk(published) && Forward(t, published, call) && Own(published, call, id)
            && TablesOk(withdrawn) && Forward(t, withdrawn, call) && OwnCancelled(withdrawn, call, id)
  {
    hide TablesOk, Forward, Registered, SetHandle;
    var published := SetHandle(t, call, true);
    HandleGoesForward(t, call, true, call);
    ForwardKeeps(t, published, call, call, id);
    CancelGoesForward(published, call, call);
    ForwardTwice(t, published, Cancel(published, call), call);
  }

  lemma StopStep(t: Tables, call: nat, id: string, step: Step)
    requires TablesOk(t) && CallOk(t, call, id, step) && IsStop(step)
    requires step.Joining? ==> LoopEnded(t, step.session)
    ensures var (next, after) := ResumeStop(t, id, step);
            TablesOk(next) && Forward(t, next, call) && CallOk(next, call, id, after)
  {
    hide TablesOk, Forward, Registered, Cancel, SetHandle, Unregister, HasHandle, LoopEnded, Own, Spawned;
    StaysForward(t, call);
    match step {
      case Looking =>
        if id in t.watchers {
          LookStep(t, id, call);
        }
      case Taking(session) =>
        HandleGoesForward(t, session, false, call);
        ForwardKeeps(t, SetHandle(t, session, false), call, session, id);
        if HasHandle(t, session) {
          HandleWasSpawned(t, session);
        }
      case Removing(session, joined) =>
        UnregisterGoesForward(t, id, session, call);
        ForwardKeeps(t, Unregister(t, id, session), call, session, id);
      case _ =>
    }
  }

  lemma LookStep(t: Tables, id: string, call: nat)
    requires TablesOk(t) && id in t.watchers
    ensures var next := Cancel(t, t.watchers[id]);
            TablesOk(next) && Forward(t, next, call) && OwnCancelled(next, t.watchers[id], id)
  {
  }

  lemma ResumeStep(s: State, call: nat, ok: bool)
    requires Inv(s) && Enabled(s, Resume(call, ok))
    ensures var (next, after) := Resumed(s, call, ok);
            && TablesOk(next) && Forward(s.tables, next, call)
            && CallOk(next, call, s.calls[call].id, after)
  {
    hide TablesOk, Forward, CallOk, ResumeStart, ResumeStop, LoopEnded;
    var Call(id, step) := s.calls[call];
    assert CallOk(s.tables, call, id, step);
    if IsStop(step) {
      StopStep(s.tables, call, id, step);
    } else {
      StartStep(s.tables, call, id, step, ok);
    }
  }

  function Subject(e: Event): nat
  {
    match e
    case BeginStart(call, _, _) => call
    case BeginStop(call, _) => call
    case Resume(call, _) => call
    case Drop(call) => call
    case LoopEnds(session) => session
  }

  lemma TablesStep(s: State, e: Event)
    requires Inv(s) && Enabled(s, e)
    ensures TablesOk(Apply(s, e).tables) && Forward(s.tables, Apply(s, e).tables, Subject(e))
  {
    hide TablesOk, Forward, CallOk, Resumed;
    StaysForward(s.tables, Subject(e));
    match e {
      case Resume(call, ok) => ResumeStep(s, call, ok);
      case LoopEnds(session) => LoopGoesForward(s.tables, session, Ended);
      case _ =>
    }
  }

  lemma SubjectStep(s: State, e: Event)
    requires Inv(s) && Enabled(s, e)
    ensures var next := Apply(s, e);
            Subject(e) in next.calls ==>
              CallOk(next.tables, Subject(e), next.calls[Subject(e)].id, next.calls[Subject(e)].step)
  {
    hide TablesOk, Resumed, Registered;
    match e {
      case Resume(call, ok) => ResumeStep(s, call, ok);
      case LoopEnds(session) => EndedLoopStep(s, session);
      case _ =>
    }
  }

  lemma EndedLoopStep(s: State, session: nat)
    requires Inv(s) && Enabled(s, LoopEnds(session)) && session in s.calls
    ensures CallOk(SetLoop(s.tables, session, Ended), session, s.calls[session].id, s.calls[session].step)
  {
  }

  lemma OwnedStep(s: State, e: Event)
    requires Inv(s) && Enabled(s, e)
    ensures Owned(Apply(s, e))
  {
    hide TablesOk, CallOk, Resumed, Registered;
    TablesStep(s, e);
  }

  lemma Kept(s: State, e: Event)
    requires Inv(s) && Enabled(s, e)
    ensures Inv(Apply(s, e))
  {
    hide TablesOk, Forward, CallOk, Resumed, Owned;
    TablesStep(s, e);
    SubjectStep(s, e);
    OwnedStep(s, e);
    var next := Apply(s, e);
    forall call | call in next.calls
      ensures CallOk(next.tables, call, next.calls[call].id, next.calls[call].step)
    {
      if call != Subject(e) {
        assert call in s.calls && next.calls[call] == s.calls[call];
        CallStays(s.tables, next.tables, Subject(e), call, s.calls[call].id, s.calls[call].step);
      }
    }
  }

  lemma {:induction false} Reachable(events: seq<Event>)
    requires After(events).Some?
    ensures Inv(After(events).value)
  {
    hide Apply, Enabled;
    if events != [] {
      var before := events[..|events| - 1];
      Reachable(before);
      Kept(After(before).value, events[|events| - 1]);
    }
  }

  // ----- What every interleaving guarantees -----

  /** Never more than the limit, every entry under its own session's id. */
  lemma RegistryIsBounded(events: seq<Event>, id: string)
    requires After(events).Some?
    ensures var t := After(events).value.tables;
            && |t.watchers| <= MAX_CONCURRENT_WATCHERS
            && (id in t.watchers ==> t.watchers[id] in t.sessions && t.sessions[t.watchers[id]].id == id)
  {
    hide After;
    Reachable(events);
  }

  /** A poll loop that is not on the registry is already cancelled, so it will end. */
  lemma NoLoopIsLost(events: seq<Event>, session: nat)
    requires After(events).Some? && session in After(events).value.tables.sessions
    requires !Registered(After(events).value.tables, session)
    ensures var s := After(events).value;
            && s.tables.sessions[session].cancelled
            && (s.tables.sessions[session].loop == Polling ==> Enabled(s, LoopEnds(session)))
  {
    hide After, Registered;
    Reachable(events);
  }

  function Uncancelled(t: Tables): set<nat>
  {
    set x | x in t.sessions && !t.sessions[x].cancelled
  }

  lemma {:induction false} ImageIsSmaller(watchers: map<string, nat>, image: set<nat>, ids: set<string>)
    requires forall x | x in image :: exists id | id in ids :: id in watchers && watchers[id] == x
    ensures |image| <= |ids|
    decreases |ids|
  {
    if ids != {} {
      var id :| id in ids;
      var rest := if id in watchers then image - {watchers[id]} else image;
      forall x | x in rest
        ensures exists other | other in ids - {id} :: other in watchers && watchers[other] == x
      {
        var other :| other in ids && other in watchers && watchers[other] == x;
        assert other in ids - {id};
      }
      ImageIsSmaller(watchers, rest, ids - {id});
    } else {
      assert image == {};
    }
  }

  /** At most the limit of sessions can be running uncancelled, registered or not. */
  lemma RunningWatchersAreBounded(events: seq<Event>)
    requires After(events).Some?
    ensures |Uncancelled(After(events).value.tables)| <= MAX_CONCURRENT_WATCHERS
  {
    hide After;
    Reachable(events);
    var t := After(events).value.tables;
    forall x | x in Uncancelled(t)
      ensures exists id | id in t.watchers.Keys :: id in t.watchers && t.watchers[id] == x
    {
      assert t.sessions[x].id in t.watchers.Keys;
    }
    ImageIsSmaller(t.watchers, Uncancelled(t), t.watchers.Keys);
  }

  /** An entry disappears or changes only when the call removing it works on that very, cancelled, session. */
  lemma RemovalIsOwn(events: seq<Event>, e: Event, id: string)
    requires After(events).Some? && Enabled(After(events).value, e)
    requires var s := After(events).value;
             id in s.tables.watchers
             && !(id in Apply(s, e).tables.watchers && Apply(s, e).tables.watchers[id] == s.tables.watchers[id])
    ensures var s := After(events).value;
            var session := s.tables.watchers[id];
            && session in s.tables.sessions && s.tables.sessions[session].cancelled
            && id !in Apply(s, e).tables.watchers
            && e.Resume? && s.calls[e.call].id == id
            && (|| (s.calls[e.call].step.OwnRemoving? && e.call == session)
                || (s.calls[e.call].step.Removing? && s.calls[e.call].step.session == session))
  {
    hide After;
    Reachable(events);
    var s := After(events).value;
    assert e.Resume? ==> CallOk(s.tables, e.call, s.calls[e.call].id, s.calls[e.call].step);
  }

  /** A session that has left the registry never comes back, under any later events. */
  lemma {:induction false} RetiredForGood(events: seq<Event>, more: seq<Event>, session: nat, id: string)
    requires After(events).Some? && After(events + more).Some?
    requires Retired(After(events).value.tables, session, id)
    ensures Retired(After(events + more).value.tables, session, id)
    decreases |more|
  {
    hide Enabled, Apply, Inv;
    if more == [] {
      assert events + [] == events;
    } else {
      var fewer, e := more[..|more| - 1], more[|more| - 1];
      assert (events + more)[..|events + more| - 1] == events + fewer;
      RetiredForGood(events, fewer, session, id);
      Reachable(events + fewer);
      TablesStep(After(events + fewer).value, e);
    }
  }

  /**
   * When a stop has returned, the session it found under the id is cancelled
   * and off the registry; when the stop took the join handle, its loop has ended.
   */
  lemma StopIsEffective(events: seq<Event>, call: nat)
    requires After(events).Some? && call in After(events).value.calls
    requires After(events).value.calls[call].step.Stopped?
    ensures var s := After(events).value;
            var Stopped(session, joined) := s.calls[call].step;
            Retired(s.tables, session, s.calls[call].id) && (joined ==> LoopEnded(s.tables, session))
  {
    hide After, Registered, TablesOk;
    Reachable(events);
    var s := After(events).value;
    assert CallOk(s.tables, call, s.calls[call].id, s.calls[call].step);
  }

  /** A start that failed leaves no session, or one that is cancelled and off the registry. */
  lemma FailedStartLeavesNothing(events: seq<Event>, call: nat)
    requires After(events).Some? && call in After(events).value.calls
    requires After(events).value.calls[call].step.Failed?
    ensures var s := After(events).value;
            call !in s.tables.sessions || Retired(s.tables, call, s.calls[call].id)
  {
    hide After, Registered, TablesOk;
    Reachable(events);
    var s := After(events).value;
    assert CallOk(s.tables, call, s.calls[call].id, s.calls[call].step);
  }

  /** A start that succeeded has its session on the registry unless that session was cancelled since. */
  lemma StartedIsRegistered(events: seq<Event>, call: nat)
    requires After(events).Some? && call in After(events).value.calls
    requires After(events).value.calls[call].step.Started?
    ensures var s := After(events).value;
            && Own(s.tables, call, s.calls[call].id)
            && (s.tables.sessions[call].cancelled || Registered(s.tables, call))
  {
    hide After, Registered;
    Reachable(events);
    var s := After(events).value;
    assert CallOk(s.tables, call, s.calls[call].id, s.calls[call].step);
  }
}
