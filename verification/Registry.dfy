/**
 * The watcher registry under concurrent starts, stops, dropped calls and
 * ending poll loops. A step is the code of one call between two of its
 * suspension points; any interleaving of enabled steps can happen.
 */
module Registry {
  import opened Objects

  const MAX_CONCURRENT_WATCHERS: nat := 32

  datatype Loop = NotSpawned | Polling | Ended

  /** `handle` tells whether the join handle is stored in the session. */
  datatype Session = Session(id: string, cancelled: bool, loop: Loop, handle: bool)

  /** Where a call is suspended. A start's own session carries the number of the call. */
  datatype Step =
    | Checking
    | Creating
    | Inserting
    | Spawning
    | Publishing
    | OwnTaking
    | OwnJoining
    | OwnRemoving
    | Notifying
    | Started
    | Failed
    | Looking
    | Taking(session: nat)
    | Joining(session: nat)
    | Reporting(session: nat, joined: bool)
    | Removing(session: nat, joined: bool)
    | Stopped(session: nat, joined: bool)
    | NotFound
    | Dropped

  datatype Call = Call(id: string, step: Step)

  datatype Tables = Tables(watchers: map<string, nat>, sessions: map<nat, Session>)

  datatype State = State(tables: Tables, calls: map<nat, Call>)

  /** `ok` resolves what the model leaves open: parsing, the store, the request's own cancellation. */
  datatype Event =
    | BeginStart(call: nat, id: string, ok: bool)
    | BeginStop(call: nat, id: string)
    | Resume(call: nat, ok: bool)
    | Drop(call: nat)
    | LoopEnds(session: nat)

  function Init(): State
  {
    State(Tables(map[], map[]), map[])
  }

  predicate Over(step: Step)
  {
    step.Started? || step.Failed? || step.Stopped? || step.NotFound? || step.Dropped?
  }

  predicate LoopEnded(t: Tables, session: nat)
  {
    session in t.sessions && t.sessions[session].loop == Ended
  }

  predicate Enabled(s: State, e: Event)
  {
    match e
    case BeginStart(call, _, _) => call !in s.calls
    case BeginStop(call, _) => call !in s.calls
    case Resume(call, _) =>
      && call in s.calls && !Over(s.calls[call].step)
      && (s.calls[call].step.OwnJoining? ==> LoopEnded(s.tables, call))
      && (s.calls[call].step.Joining? ==> LoopEnded(s.tables, s.calls[call].step.session))
    case Drop(call) => call in s.calls && !Over(s.calls[call].step) && !s.calls[call].step.Spawning?
    case LoopEnds(session) =>
      && session in s.tables.sessions
      && s.tables.sessions[session].loop == Polling && s.tables.sessions[session].cancelled
  }

  // ----- Changes of the tables -----

  function Update(t: Tables, session: nat, value: Session): Tables
  {
    t.(sessions := t.sessions[session := value])
  }

  function Cancel(t: Tables, session: nat): Tables
  {
    if session in t.sessions then Update(t, session, t.sessions[session].(cancelled := true)) else t
  }

  function SetHandle(t: Tables, session: nat, handle: bool): Tables
  {
    if session in t.sessions then Update(t, session, t.sessions[session].(handle := handle)) else t
  }

  function SetLoop(t: Tables, session: nat, loop: Loop): Tables
  {
    if session in t.sessions then Update(t, session, t.sessions[session].(loop := loop)) else t
  }

  function Insert(t: Tables, id: string, session: nat): Tables
  {
    Update(t, session, Session(id, false, NotSpawned, false)).(watchers := t.watchers[id := session])
  }

  /** Removes the entry only while it still is this session. */
  function Unregister(t: Tables, id: string, session: nat): Tables
  {
    if id in t.watchers && t.watchers[id] == session then t.(watchers := t.watchers - {id}) else t
  }

  predicate Full(t: Tables)
  {
    |t.watchers| >= MAX_CONCURRENT_WATCHERS
  }

  predicate HasHandle(t: Tables, session: nat)
  {
    session in t.sessions && t.sessions[session].handle
  }

  // ----- The two calls -----

  /** `watch_start` from one suspension to the next: the tables it leaves and where it suspends. */
  function ResumeStart(t: Tables, call: nat, id: string, step: Step, ok: bool): (Tables, Step)
  {
    match step
    case Checking => (t, if id in t.watchers || Full(t) || !ok then Failed else Creating)
    case Creating => (t, if ok then Inserting else Failed)
    case Inserting => if id in t.watchers || Full(t) then (t, Failed) else (Insert(t, id, call), Spawning)
    case Spawning => (SetLoop(t, call, Polling), Publishing)
    case Publishing =>
      var published := SetHandle(t, call, true);
      if ok then (published, Notifying) else (Cancel(published, call), OwnTaking)
    case OwnTaking => if HasHandle(t, call) then (SetHandle(t, call, false), OwnJoining) else (t, OwnRemoving)
    case OwnJoining => (t, OwnRemoving)
    case OwnRemoving => (Unregister(t, id, call), Failed)
    case Notifying => (t, Started)
    case _ => (t, step)
  }

  /** `watch_stop` likewise. */
  function ResumeStop(t: Tables, id: string, step: Step): (Tables, Step)
  {
    match step
    case Looking => if id in t.watchers then (Cancel(t, t.watchers[id]), Taking(t.watchers[id])) else (t, NotFound)
    case Taking(session) =>
      if HasHandle(t, session) then (SetHandle(t, session, false), Joining(session)) else (t, Reporting(session, false))
    case Joining(session) => (t, Reporting(session, true))
    case Reporting(session, joined) => (t, Removing(session, joined))
    case Removing(session, joined) => (Unregister(t, id, session), Stopped(session, joined))
    case _ => (t, step)
  }

  predicate IsStop(step: Step)
  {
    step.Looking? || step.Taking? || step.Joining? || step.Reporting? || step.Removing?
  }

  function Resumed(s: State, call: nat, ok: bool): (Tables, Step)
    requires call in s.calls
  {
    var Call(id, step) := s.calls[call];
    if IsStop(step) then ResumeStop(s.tables, id, step) else ResumeStart(s.tables, call, id, step, ok)
  }

  function Apply(s: State, e: Event): State
    requires Enabled(s, e)
  {
    match e
    case BeginStart(call, id, ok) => s.(calls := s.calls[call := Call(id, if ok then Checking else Failed)])
    case BeginStop(call, id) => s.(calls := s.calls[call := Call(id, Looking)])
    case Resume(call, ok) =>
      var (tables, step) := Resumed(s, call, ok);
      State(tables, s.calls[call := Call(s.calls[call].id, step)])
    case Drop(call) => s.(calls := s.calls[call := Call(s.calls[call].id, Dropped)])
    case LoopEnds(session) => s.(tables := SetLoop(s.tables, session, Ended))
  }

  function After(events: seq<Event>): Option<State>
  {
    if events == [] then Some(Init())
    else
      match After(events[..|events| - 1])
      case None => None
      case Some(s) =>
        var e := events[|events| - 1];
        if Enabled(s, e) then Some(Apply(s, e)) else None
  }
}
