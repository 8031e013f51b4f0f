/** What starts and stops achieve: when they are refused, and that otherwise they come to their end. */
module RegistryProgress {
  import opened Objects
  import opened Registry
  import opened RegistryLaws

  lemma AfterOne(events: seq<Event>, e: Event)
    requires After(events).Some? && Enabled(After(events).value, e)
    ensures After(events + [e]) == Some(Apply(After(events).value, e))
  {
    assert (events + [e])[..|events|] == events;
  }

  /**
   * New calls may begin at any time; an unfinished call may be dropped wherever
   * it is suspended, which a start is not between its insertion and its loop, and
   * leaves the tables as they are; a polling loop may end once it is cancelled.
   */
  lemma AnythingMayHappen(s: State, call: nat, id: string, ok: bool)
    ensures call !in s.calls ==> Enabled(s, BeginStart(call, id, ok)) && Enabled(s, BeginStop(call, id))
    ensures call in s.calls && !Over(s.calls[call].step) && s.calls[call].step != Spawning ==>
      Enabled(s, Drop(call)) && Apply(s, Drop(call)).tables == s.tables
    ensures call in s.tables.sessions ==>
      (Enabled(s, LoopEnds(call)) <==>
         s.tables.sessions[call].cancelled && s.tables.sessions[call].loop == Polling)
  {
  }

  // ----- Stopping -----

  /** The call is a stop that has found this session. */
  predicate WorksOn(step: Step, session: nat)
  {
    match step
    case Taking(found) => found == session
    case Joining(found) => found == session
    case Reporting(found, _) => found == session
    case Removing(found, _) => found == session
    case _ => false
  }

  /**
   * A stop answers that there is no such watcher if and only if the id is not
   * registered at that moment; otherwise it cancels the registered session at
   * once, works on that very session and touches nothing else.
   */
  lemma StopFindsExactly(events: seq<Event>, call: nat, ok: bool)
    requires After(events).Some?
    requires call in After(events).value.calls && After(events).value.calls[call].step == Looking
    ensures var s := After(events).value;
            var id := s.calls[call].id;
            && Enabled(s, Resume(call, ok))
            && var next := Apply(s, Resume(call, ok));
            && next.calls == s.calls[call := Call(id, next.calls[call].step)]
            && (next.calls[call].step == NotFound <==> id !in s.tables.watchers)
            && (id !in s.tables.watchers ==> next.tables == s.tables)
            && (id in s.tables.watchers ==>
                  var session := s.tables.watchers[id];
                  && session in s.tables.sessions && s.tables.sessions[session].id == id
                  && next.calls[call].step == Taking(session)
                  && next.tables.watchers == s.tables.watchers
                  && next.tables.sessions
                     == s.tables.sessions[session := s.tables.sessions[session].(cancelled := true)])
  {
    hide After;
    Reachable(events);
  }

  /** Only this session's record and its entry under the id may differ. */
  predicate OnlyThis(t: Tables, next: Tables, id: string, session: nat)
  {
    && next.sessions.Keys == t.sessions.Keys
    && (forall x | x in t.sessions && x != session :: next.sessions[x] == t.sessions[x])
    && next.watchers.Keys - {id} == t.watchers.Keys - {id}
    && (forall other | other in next.watchers :: other in t.watchers && next.watchers[other] == t.watchers[other])
    && (id in t.watchers && id !in next.watchers ==> t.watchers[id] == session)
  }

  lemma OnlyThisTwice(t: Tables, mid: Tables, next: Tables, id: string, session: nat)
    requires OnlyThis(t, mid, id, session) && OnlyThis(mid, next, id, session)
    ensures OnlyThis(t, next, id, session)
  {
  }

  /** Whether the stop is going to wait for the loop of its session: when it finds the join handle. */
  predicate Joins(t: Tables, step: Step)
  {
    match step
    case Taking(session) => session in t.sessions && t.sessions[session].handle
    case Joining(_) => true
    case Reporting(_, joined) => joined
    case Removing(_, joined) => joined
    case Stopped(_, joined) => joined
    case _ => false
  }

  function StopRank(s: State, call: nat, session: nat): nat
  {
    if call !in s.calls then 0
    else
      (match s.calls[call].step
       case Taking(_) => 5
       case Joining(_) => 4
       case Reporting(_, _) => 2
       case Removing(_, _) => 1
       case _ => 0)
      - if s.calls[call].step.Joining? && LoopEnded(s.tables, session) then 1 else 0
  }

  /** One more step of a stop that has found its session: its own, or the end of the cancelled loop it waits for. */
  lemma StopMovesOn(s: State, call: nat, session: nat) returns (e: Event)
    requires Inv(s) && call in s.calls && WorksOn(s.calls[call].step, session)
    ensures Enabled(s, e) && (e == Resume(call, true) || e == LoopEnds(session))
    ensures var next := Apply(s, e);
            && call in next.calls && next.calls[call].id == s.calls[call].id
            && next.calls.Keys == s.calls.Keys && (forall c | c in s.calls && c != call :: next.calls[c] == s.calls[c])
            && OnlyThis(s.tables, next.tables, s.calls[call].id, session)
            && StopRank(next, call, session) < StopRank(s, call, session)
            && (Joins(next.tables, next.calls[call].step) <==> Joins(s.tables, s.calls[call].step))
            && (WorksOn(next.calls[call].step, session)
                || (next.calls[call].step.Stopped? && next.calls[call].step.session == session))
  {
    hide Registered, Keyed, NoneAstray, Owned;
    var step := s.calls[call].step;
    assert CallOk(s.tables, call, s.calls[call].id, step);
    e := if step.Joining? && !LoopEnded(s.tables, session) then LoopEnds(session) else Resume(call, true);
  }

  /**
   * From every reachable state in which a stop has found its session, the
   * steps of that stop, with the end of the loop it cancelled, bring it to its
   * end: the session is off the registry, its loop has ended if the stop took the
   * join handle, and no other session or entry changed.
   */
  lemma {:induction false} StopCompletes(events: seq<Event>, call: nat, session: nat) returns (rest: seq<Event>)
    requires After(events).Some? && call in After(events).value.calls
    requires WorksOn(After(events).value.calls[call].step, session)
    ensures forall i | 0 <= i < |rest| :: rest[i] == Resume(call, true) || rest[i] == LoopEnds(session)
    ensures After(events + rest).Some? && call in After(events + rest).value.calls
    ensures var s, last := After(events).value, After(events + rest).value;
            && last.calls[call].id == s.calls[call].id
            && last.calls[call].step.Stopped? && last.calls[call].step.session == session
            && Retired(last.tables, session, s.calls[call].id)
            && (last.calls[call].step.joined <==> Joins(s.tables, s.calls[call].step))
            && (last.calls[call].step.joined ==> LoopEnded(last.tables, session))
            && OnlyThis(s.tables, last.tables, s.calls[call].id, session)
    decreases StopRank(After(events).value, call, session)
  {
    hide Inv, Enabled, Apply, OnlyThis, StopRank, Retired, After, LoopEnded;
    Reachable(events);
    var s := After(events).value;
    var e := StopMovesOn(s, call, session);
    AfterOne(events, e);
    var next := After(events + [e]).value;
    if next.calls[call].step.Stopped? {
      rest := [e];
      StopIsEffective(events + [e], call);
    } else {
      var more := StopCompletes(events + [e], call, session);
      rest := [e] + more;
      assert events + rest == events + [e] + more;
      OnlyThisTwice(s.tables, next.tables, After(events + rest).value.tables, s.calls[call].id, session);
    }
  }

  /**
   * A stop that begins while its id is registered can always be brought to its
   * end, whatever else is going on: the session it found is cancelled and gone,
   * its loop has ended if its join handle was there, the id is free, and every
   * other session and entry is as before.
   */
  lemma StopStopsItsWatcher(events: seq<Event>, call: nat) returns (rest: seq<Event>)
    requires After(events).Some?
    requires call in After(events).value.calls && After(events).value.calls[call].step == Looking
    requires After(events).value.calls[call].id in After(events).value.tables.watchers
    ensures After(events + rest).Some? && call in After(events + rest).value.calls
    ensures var s, last := After(events).value, After(events + rest).value;
            var id := s.calls[call].id;
            var session := s.tables.watchers[id];
            && session in s.tables.sessions
            && last.calls[call].step.Stopped? && last.calls[call].step.session == session
            && Retired(last.tables, session, id)
            && (last.calls[call].step.joined <==> s.tables.sessions[session].handle)
            && (s.tables.sessions[session].handle ==> LoopEnded(last.tables, session))
            && last.tables.watchers == s.tables.watchers - {id}
            && OnlyThis(s.tables, last.tables, id, session)
  {
    hide Inv, Enabled, Apply, After;
    var s := After(events).value;
    var session := s.tables.watchers[s.calls[call].id];
    StopFindsExactly(events, call, true);
    AfterOne(events, Resume(call, true));
    var more := StopCompletes(events + [Resume(call, true)], call, session);
    rest := [Resume(call, true)] + more;
    assert events + rest == events + [Resume(call, true)] + more;
  }

  // ----- Starting -----

  /**
   * A start is refused at its first check if and only if its id is registered,
   * the limit is reached or what it was given is unusable, and at the second if
   * and only if one of the first two holds by then. Otherwise the second check
   * registers a fresh, uncancelled session of its own and changes nothing else.
   */
  lemma StartRefusedExactly(events: seq<Event>, call: nat, ok: bool)
    requires After(events).Some? && call in After(events).value.calls
    requires After(events).value.calls[call].step in {Checking, Inserting}
    ensures var s := After(events).value;
            var id, step := s.calls[call].id, s.calls[call].step;
            var taken := id in s.tables.watchers || |s.tables.watchers| >= 32;
            && Enabled(s, Resume(call, ok))
            && var next := Apply(s, Resume(call, ok));
            && (next.calls[call].step == Failed <==> taken || (step == Checking && !ok))
            && (step == Checking || taken ==> next.tables == s.tables)
            && (step == Inserting && !taken ==>
                  && call !in s.tables.sessions && next.calls[call].step == Spawning
                  && next.tables == Tables(s.tables.watchers[id := call],
                                           s.tables.sessions[call := Session(id, false, NotSpawned, false)]))
  {
    hide After;
    Reachable(events);
    var s := After(events).value;
    assert CallOk(s.tables, call, s.calls[call].id, s.calls[call].step);
  }

  /** The tables `t` with this session registered under the id. */
  function With(t: Tables, id: string, call: nat, cancelled: bool, loop: Loop, handle: bool): Tables
  {
    Tables(t.watchers[id := call], t.sessions[call := Session(id, cancelled, loop, handle)])
  }

  /** How far a start that nothing disturbs has come since the tables were `t`. */
  predicate Underway(t: Tables, now: Tables, call: nat, id: string, step: Step, withdrawn: bool)
  {
    match step
    case Checking => now == t
    case Creating => now == t
    case Inserting => now == t
    case Spawning => now == With(t, id, call, false, NotSpawned, false)
    case Publishing => now == With(t, id, call, false, Polling, false)
    case Notifying => !withdrawn && now == With(t, id, call, false, Polling, true)
    case Started => !withdrawn && now == With(t, id, call, false, Polling, true)
    case OwnTaking => withdrawn && now == With(t, id, call, true, Polling, true)
    case OwnJoining =>
      withdrawn && (now == With(t, id, call, true, Polling, false) || now == With(t, id, call, true, Ended, false))
    case OwnRemoving => withdrawn && now == With(t, id, call, true, Ended, false)
    case Failed => withdrawn && now == Tables(t.watchers, t.sessions[call := Session(id, true, Ended, false)])
    case _ => false
  }

  function StartRank(s: State, call: nat): nat
  {
    if call !in s.calls then 0
    else
      match s.calls[call].step
      case Checking => 9
      case Creating => 8
      case Inserting => 7
      case Spawning => 6
      case Publishing => 5
      case OwnTaking => 4
      case OwnJoining => if LoopEnded(s.tables, call) then 2 else 3
      case OwnRemoving => 1
      case Notifying => 1
      case _ => 0
  }

  lemma Overwrite(t: Tables, id: string, call: nat, cancelled: bool, loop: Loop, handle: bool, value: Session)
    ensures var now := With(t, id, call, cancelled, loop, handle);
            && now.sessions[call] == Session(id, cancelled, loop, handle)
            && Update(now, call, value) == Tables(t.watchers[id := call], t.sessions[call := value])
  {
    assert t.sessions[call := Session(id, cancelled, loop, handle)][call := value] == t.sessions[call := value];
  }

  lemma WithLoop(t: Tables, id: string, call: nat, cancelled: bool, handle: bool, loop: Loop, next: Loop)
    ensures SetLoop(With(t, id, call, cancelled, loop, handle), call, next)
         == With(t, id, call, cancelled, next, handle)
  {
    Overwrite(t, id, call, cancelled, loop, handle, Session(id, cancelled, next, handle));
    hide Update;
  }

  lemma WithHandle(t: Tables, id: string, call: nat, cancelled: bool, loop: Loop, handle: bool, next: bool)
    ensures var now := With(t, id, call, cancelled, loop, handle);
            && SetHandle(now, call, next) == With(t, id, call, cancelled, loop, next)
            && (HasHandle(now, call) <==> handle)
  {
    Overwrite(t, id, call, cancelled, loop, handle, Session(id, cancelled, loop, next));
    hide Update;
  }

  lemma WithCancel(t: Tables, id: string, call: nat, loop: Loop, handle: bool)
    ensures Cancel(With(t, id, call, false, loop, handle), call) == With(t, id, call, true, loop, handle)
  {
    Overwrite(t, id, call, false, loop, handle, Session(id, true, loop, handle));
    hide Update;
  }

  lemma WithRemoved(t: Tables, id: string, call: nat)
    requires id !in t.watchers
    ensures Unregister(With(t, id, call, true, Ended, false), id, call)
         == Tables(t.watchers, t.sessions[call := Session(id, true, Ended, false)])
  {
    assert t.watchers[id := call] - {id} == t.watchers;
  }

  lemma StartResumes(t: Tables, now: Tables, call: nat, id: string, step: Step, withdrawn: bool)
    requires call !in t.sessions && id !in t.watchers && |t.watchers| < 32 && !Over(step)
    requires Underway(t, now, call, id, step, withdrawn) && (step.OwnJoining? ==> LoopEnded(now, call))
    ensures var (next, after) := ResumeStart(now, call, id, step, !(step.Publishing? && withdrawn));
            Underway(t, next, call, id, after, withdrawn)
  {
    assert step.Inserting? ==> Insert(t, id, call) == With(t, id, call, false, NotSpawned, false);
    assert step.OwnJoining? ==> now == With(t, id, call, true, Ended, false);
    hide With, SetLoop, SetHandle, Cancel, HasHandle, Insert, Unregister, LoopEnded;
    match step {
      case Spawning => WithLoop(t, id, call, false, false, NotSpawned, Polling);
      case Publishing =>
        WithHandle(t, id, call, false, Polling, false, true);
        WithCancel(t, id, call, Polling, true);
      case OwnTaking => WithHandle(t, id, call, true, Polling, true, false);
      case OwnRemoving => WithRemoved(t, id, call);
      case _ =>
    }
  }

  lemma LoopOfStartEnds(t: Tables, now: Tables, call: nat, id: string)
    requires Underway(t, now, call, id, OwnJoining, true) && !LoopEnded(now, call)
    ensures call in now.sessions && now.sessions[call].loop == Polling && now.sessions[call].cancelled
    ensures var next := SetLoop(now, call, Ended);
            Underway(t, next, call, id, OwnJoining, true) && LoopEnded(next, call)
  {
    WithLoop(t, id, call, true, false, Polling, Ended);
    assert now == With(t, id, call, true, Polling, false);
  }

  /** One more step of such a start: its own, or the end of the loop it cancelled. */
  lemma StartMovesOn(t: Tables, s: State, call: nat, withdrawn: bool) returns (e: Event)
    requires call in s.calls && !Over(s.calls[call].step) && call !in t.sessions
    requires s.calls[call].id !in t.watchers && |t.watchers| < 32
    requires Underway(t, s.tables, call, s.calls[call].id, s.calls[call].step, withdrawn)
    ensures Enabled(s, e) && (e.Resume? ==> e.call == call) && (e.Resume? || e == LoopEnds(call))
    ensures var next := Apply(s, e);
            && call in next.calls && next.calls[call].id == s.calls[call].id
            && Underway(t, next.tables, call, s.calls[call].id, next.calls[call].step, withdrawn)
            && StartRank(next, call) < StartRank(s, call)
  {
    var id, step := s.calls[call].id, s.calls[call].step;
    if step.OwnJoining? && !LoopEnded(s.tables, call) {
      e := LoopEnds(call);
      LoopOfStartEnds(t, s.tables, call, id);
      hide Underway, SetLoop, With;
    } else {
      e := Resume(call, !(step.Publishing? && withdrawn));
      StartResumes(t, s.tables, call, id, step, withdrawn);
      hide Underway, SetLoop, SetHandle, Cancel, HasHandle, Insert, Unregister;
    }
  }

  lemma {:induction false} StartGoesOn(t: Tables, events: seq<Event>, call: nat, withdrawn: bool)
    returns (rest: seq<Event>)
    requires After(events).Some? && call in After(events).value.calls && call !in t.sessions
    requires var s := After(events).value;
             && s.calls[call].id !in t.watchers && |t.watchers| < 32
             && Underway(t, s.tables, call, s.calls[call].id, s.calls[call].step, withdrawn)
    ensures After(events + rest).Some? && call in After(events + rest).value.calls
    ensures var last := After(events + rest).value;
            && last.calls[call].id == After(events).value.calls[call].id && Over(last.calls[call].step)
            && Underway(t, last.tables, call, last.calls[call].id, last.calls[call].step, withdrawn)
    decreases StartRank(After(events).value, call)
  {
    hide Enabled, Apply, StartRank, After, Underway;
    var s := After(events).value;
    if Over(s.calls[call].step) {
      rest := [];
      assert events + [] == events;
    } else {
      var e := StartMovesOn(t, s, call, withdrawn);
      AfterOne(events, e);
      var more := StartGoesOn(t, events + [e], call, withdrawn);
      rest := [e] + more;
      assert events + rest == events + [e] + more;
    }
  }

  /**
   * A start that begins while its id is free and the limit is not reached can be
   * brought to its end. If nothing speaks against it, its session is then
   * registered, polling and uncancelled; if it is cancelled while it publishes
   * the session, it fails and its session is cancelled, ended and gone. Nothing
   * else has changed.
   */
  lemma StartComesToItsEnd(events: seq<Event>, call: nat, id: string, withdrawn: bool) returns (rest: seq<Event>)
    requires After(events).Some? && call !in After(events).value.calls
    requires var t := After(events).value.tables; id !in t.watchers && |t.watchers| < 32
    ensures After(events + [BeginStart(call, id, true)] + rest).Some?
    ensures var t, last := After(events).value.tables, After(events + [BeginStart(call, id, true)] + rest).value;
            && call in last.calls && last.calls[call] == Call(id, if withdrawn then Failed else Started)
            && last.tables.watchers == (if withdrawn then t.watchers else t.watchers[id := call])
            && last.tables.sessions
               == t.sessions[call := if withdrawn then Session(id, true, Ended, false)
                                     else Session(id, false, Polling, true)]
  {
    var t, begun := After(events).value.tables, events + [BeginStart(call, id, true)];
    NoSessionYet(events, call);
    AfterOne(events, BeginStart(call, id, true));
    hide After;
    rest := StartGoesOn(t, begun, call, withdrawn);
    StartIsOver(t, After(begun + rest).value.tables, call, id, After(begun + rest).value.calls[call].step, withdrawn);
    hide Underway;
  }

  lemma NoSessionYet(events: seq<Event>, call: nat)
    requires After(events).Some? && call !in After(events).value.calls
    ensures call !in After(events).value.tables.sessions
  {
    hide After;
    Reachable(events);
  }

  lemma StartIsOver(t: Tables, now: Tables, call: nat, id: string, step: Step, withdrawn: bool)
    requires Underway(t, now, call, id, step, withdrawn) && Over(step)
    ensures step == if withdrawn then Failed else Started
    ensures now.watchers == if withdrawn then t.watchers else t.watchers[id := call]
    ensures now.sessions == t.sessions[call := if withdrawn then Session(id, true, Ended, false)
                                               else Session(id, false, Polling, true)]
  {
  }
}
