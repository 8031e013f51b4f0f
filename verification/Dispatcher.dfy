/**
 * The server's dispatch loop and its request tasks, as one state machine.
 * Every step is the code between two suspension points of the reader or of
 * one task; any interleaving of enabled steps is a possible execution.
 */
module Dispatcher {
  import opened Objects

  datatype Id = Number(n: int) | Text(s: string) | Null

  /** A request that deserialized; `target` is the id a cancellation's parameters name, if they name one. */
  datatype Request = Request(version: string, operation: string, id: Option<Id>, target: Option<Id>)

  datatype Line = Oversized | Unparseable | WrongShape | Parsed(request: Request)

  const PARSE_ERROR := -32700
  const INVALID_REQUEST := -32600
  const SERVER_BUSY := -32000
  const REQUEST_CANCELLED := -32800

  predicate WellFormed(request: Request)
  {
    request.version == "2.0" && request.operation != ""
  }

  predicate IsCancel(request: Request)
  {
    request.operation == "$/cancelRequest"
  }

  function IdOrNull(id: Option<Id>): Id
  {
    if id.Some? then id.value else Null
  }

  /** A line that asks for a handler to run. */
  predicate IsCall(line: Line)
  {
    line.Parsed? && WellFormed(line.request) && !IsCancel(line.request)
  }

  datatype Reply = Success | Failure(code: int)

  /** One response written to the client, with the number of the line it answers. */
  datatype Response = Response(line: nat, id: Id, reply: Reply)

  /** A running task is `stopping` once its select has taken the cancellation branch and waits out the grace. */
  datatype Phase = Running(stopping: bool) | Answering(reply: Reply) | Leaving

  datatype Task = Task(id: Option<Id>, phase: Phase)

  datatype Control =
    | Reading
    | Replying(line: nat, id: Id, code: int, holding: bool)
    | Admitting(line: nat, id: Id)
    | Cancelling(target: Id)
    | Draining
    | Joining
    | Returned

  /** `cancelled` holds the lines whose token was cancelled by a request; `shutdown` cancels every token. */
  datatype State = State(
    cursor: nat,
    control: Control,
    inFlight: map<Id, nat>,
    tasks: map<nat, Task>,
    permits: nat,
    sent: seq<Response>,
    cancelled: set<nat>,
    shutdown: bool)

  datatype Config = Config(lines: seq<Line>, maxConcurrentRequests: nat) {
    function Limit(): nat
    {
      if maxConcurrentRequests > 1 then maxConcurrentRequests else 1
    }
  }

  datatype Event =
    | Read
    | Eof
    | Reply
    | Admit
    | Cancel
    | GraceEnds
    | Return
    | Complete(task: nat, reply: Reply)
    | Notice(task: nat)
    | Expire(task: nat)
    | Write(task: nat)
    | Leave(task: nat)

  function Init(c: Config): State
  {
    State(0, Reading, map[], map[], c.Limit(), [], {}, false)
  }

  /** The token of a task is a child of the connection's token. */
  predicate TokenCancelled(s: State, task: nat)
  {
    s.shutdown || task in s.cancelled
  }

  predicate InPhase(s: State, task: nat, phase: Phase)
  {
    task in s.tasks && s.tasks[task].phase == phase
  }

  predicate Enabled(c: Config, s: State, e: Event)
  {
    match e
    case Read => s.control.Reading? && s.cursor < |c.lines|
    case Eof => s.control.Reading? && s.cursor >= |c.lines|
    case Reply => s.control.Replying?
    case Admit => s.control.Admitting?
    case Cancel => s.control.Cancelling?
    case GraceEnds => s.control.Draining?
    case Return => s.control.Joining? && s.tasks == map[]
    case Complete(task, _) => task in s.tasks && s.tasks[task].phase.Running?
    case Notice(task) => InPhase(s, task, Running(false)) && TokenCancelled(s, task)
    case Expire(task) => InPhase(s, task, Running(true))
    case Write(task) => task in s.tasks && s.tasks[task].phase.Answering?
    case Leave(task) => InPhase(s, task, Leaving)
  }

  // ----- The reader's steps -----

  function Refuse(s: State, id: Id, code: int): State
  {
    s.(cursor := s.cursor + 1, control := Replying(s.cursor, id, code, false))
  }

  function ReadCall(s: State, id: Option<Id>): State
  {
    if s.permits == 0 then
      match id
      case Some(i) => Refuse(s, i, SERVER_BUSY)
      case None => s.(cursor := s.cursor + 1)
    else
      match id
      case Some(i) => s.(cursor := s.cursor + 1, permits := s.permits - 1, control := Admitting(s.cursor, i))
      case None =>
        s.(cursor := s.cursor + 1, permits := s.permits - 1, tasks := s.tasks[s.cursor := Task(None, Running(false))])
  }

  function ReadLine(s: State, line: Line): State
  {
    match line
    case Oversized => Refuse(s, Null, INVALID_REQUEST)
    case Unparseable => Refuse(s, Null, PARSE_ERROR)
    case WrongShape => Refuse(s, Null, INVALID_REQUEST)
    case Parsed(request) =>
      if !WellFormed(request) then Refuse(s, IdOrNull(request.id), INVALID_REQUEST)
      else if IsCancel(request) then
        match request.target
        case Some(id) => s.(cursor := s.cursor + 1, control := Cancelling(id))
        case None => s.(cursor := s.cursor + 1)
      else ReadCall(s, request.id)
  }

  /** The error is written; a permit held for a duplicate is released afterwards. */
  function Replied(s: State): State
    requires s.control.Replying?
  {
    s.(
      control := Reading,
      permits := if s.control.holding then s.permits + 1 else s.permits,
      sent := s.sent + [Response(s.control.line, s.control.id, Failure(s.control.code))])
  }

  function Admitted(s: State): State
    requires s.control.Admitting?
  {
    var (line, id) := (s.control.line, s.control.id);
    if id in s.inFlight then s.(control := Replying(line, id, INVALID_REQUEST, true))
    else
      s.(control := Reading,
         inFlight := s.inFlight[id := line],
         tasks := s.tasks[line := Task(Some(id), Running(false))])
  }

  function Cancelled(s: State): State
    requires s.control.Cancelling?
  {
    if s.control.target in s.inFlight
    then s.(control := Reading, cancelled := s.cancelled + {s.inFlight[s.control.target]})
    else s.(control := Reading)
  }

  // ----- A task's steps -----

  /** After the cancellation was noticed only a success still counts; any error becomes the cancellation error. */
  function ResultOf(stopping: bool, reply: Reply): Reply
  {
    if stopping && reply.Failure? then Failure(REQUEST_CANCELLED) else reply
  }

  /** The handler's result is known and its permit is released. */
  function Finished(s: State, task: nat, reply: Reply): State
    requires task in s.tasks
  {
    match s.tasks[task].id
    case None => s.(permits := s.permits + 1, tasks := s.tasks - {task})
    case Some(id) => s.(permits := s.permits + 1, tasks := s.tasks[task := Task(Some(id), Answering(reply))])
  }

  function Written(s: State, task: nat): State
    requires task in s.tasks && s.tasks[task].phase.Answering?
  {
    match s.tasks[task].id
    case None => s
    case Some(id) =>
      s.(sent := s.sent + [Response(task, id, s.tasks[task].phase.reply)],
         tasks := s.tasks[task := Task(Some(id), Leaving)])
  }

  function Left(s: State, task: nat): State
    requires task in s.tasks
  {
    match s.tasks[task].id
    case None => s
    case Some(id) => s.(inFlight := s.inFlight - {id}, tasks := s.tasks - {task})
  }

  function Apply(c: Config, s: State, e: Event): State
    requires Enabled(c, s, e)
  {
    match e
    case Read => ReadLine(s, c.lines[s.cursor])
    case Eof => s.(control := Draining)
    case Reply => Replied(s)
    case Admit => Admitted(s)
    case Cancel => Cancelled(s)
    case GraceEnds => s.(control := Joining, shutdown := true)
    case Return => s.(control := Returned)
    case Complete(task, reply) => Finished(s, task, ResultOf(s.tasks[task].phase.stopping, reply))
    case Notice(task) => s.(tasks := s.tasks[task := Task(s.tasks[task].id, Running(true))])
    case Expire(task) => Finished(s, task, Failure(REQUEST_CANCELLED))
    case Write(task) => Written(s, task)
    case Leave(task) => Left(s, task)
  }

  /** The state after a schedule, when every event of it is enabled in turn. */
  function After(c: Config, events: seq<Event>): Option<State>
  {
    if events == [] then Some(Init(c))
    else
      match After(c, events[..|events| - 1])
      case None => None
      case Some(s) =>
        var e := events[|events| - 1];
        if Enabled(c, s, e) then Some(Apply(c, s, e)) else None
  }
}
