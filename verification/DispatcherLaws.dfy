/** What every schedule of the dispatcher keeps: permits, in-flight ids, and one answer per request. */
module DispatcherLaws {
  import opened Objects
  import opened Dispatcher

  // ----- Invariants -----

  /** The id a line must be answered with, when it must be answered at all. */
  function Owed(line: Line): Option<Id>
  {
    match line
    case Oversized => Some(Null)
    case Unparseable => Some(Null)
    case WrongShape => Some(Null)
    case Parsed(request) =>
      if !WellFormed(request) then Some(IdOrNull(request.id))
      else if IsCancel(request) then None
      else request.id
  }

  /** Lines that reach no handler have a fixed error. */
  predicate Proper(line: Line, reply: Reply)
  {
    match line
    case Oversized => reply == Failure(INVALID_REQUEST)
    case Unparseable => reply == Failure(PARSE_ERROR)
    case WrongShape => reply == Failure(INVALID_REQUEST)
    case Parsed(request) => !WellFormed(request) ==> reply == Failure(INVALID_REQUEST)
  }

  function RunningTasks(tasks: map<nat, Task>): set<nat>
  {
    set t | t in tasks && tasks[t].phase.Running?
  }

  function UnansweredTasks(tasks: map<nat, Task>): set<nat>
  {
    set t | t in tasks && tasks[t].phase != Leaving
  }

  /** The reader itself holds a permit between acquiring it and spawning or refusing. */
  function Held(control: Control): nat
  {
    if control.Admitting? || (control.Replying? && control.holding) then 1 else 0
  }

  predicate TasksOk(c: Config, s: State)
  {
    forall t | t in s.tasks ::
      && t < s.cursor && t < |c.lines| && IsCall(c.lines[t]) && c.lines[t].request.id == s.tasks[t].id
      && (s.tasks[t].id.None? ==> s.tasks[t].phase.Running?)
      && (s.tasks[t].phase == Running(true) ==> TokenCancelled(s, t))
  }

  /** The line just read is the cancellation of `target`. */
  predicate CancelLine(line: Line, target: Id)
  {
    line.Parsed? && WellFormed(line.request) && IsCancel(line.request) && line.request.target == Some(target)
  }

  predicate ControlOk(c: Config, s: State)
  {
    && s.cursor <= |c.lines|
    && (s.shutdown <==> s.control.Joining? || s.control.Returned?)
    && match s.control
       case Reading => true
       case Replying(line, id, code, holding) =>
         && line + 1 == s.cursor && line !in s.tasks
         && Owed(c.lines[line]) == Some(id) && Proper(c.lines[line], Failure(code))
       case Admitting(line, id) =>
         line + 1 == s.cursor && line !in s.tasks && IsCall(c.lines[line]) && c.lines[line].request.id == Some(id)
       case Cancelling(target) => s.cursor > 0 && CancelLine(c.lines[s.cursor - 1], target)
       case Draining => s.cursor == |c.lines|
       case Joining => s.cursor == |c.lines|
       case Returned => s.cursor == |c.lines| && s.tasks == map[]
  }

  /** Every permit is free, with a running handler, or with the reader. */
  predicate PermitsOk(c: Config, s: State)
  {
    s.permits + |RunningTasks(s.tasks)| + Held(s.control) == c.Limit()
  }

  /** The in-flight table and the live tasks that carry an id are in one-to-one correspondence. */
  predicate Matched(inFlight: map<Id, nat>, tasks: map<nat, Task>)
  {
    && (forall id | id in inFlight :: inFlight[id] in tasks && tasks[inFlight[id]].id == Some(id))
    && (forall t | t in tasks && tasks[t].id.Some? ::
          tasks[t].id.value in inFlight && inFlight[tasks[t].id.value] == t)
  }

  function Answers(sent: seq<Response>, line: nat): nat
  {
    if sent == [] then 0
    else Answers(sent[..|sent| - 1], line) + if sent[|sent| - 1].line == line then 1 else 0
  }

  /** Somebody is still going to answer this line. */
  function Pending(s: State, line: nat): nat
  {
    if (s.control.Replying? || s.control.Admitting?) && s.control.line == line then 1
    else if line in s.tasks && s.tasks[line].id.Some? && s.tasks[line].phase != Leaving then 1
    else 0
  }

  function Due(c: Config, s: State, line: nat): nat
  {
    if line < s.cursor && line < |c.lines| && Owed(c.lines[line]).Some? then 1 else 0
  }

  ghost predicate Accounted(c: Config, s: State)
  {
    forall line: nat :: Answers(s.sent, line) + Pending(s, line) == Due(c, s, line)
  }

  predicate RightlyAnswered(c: Config, s: State, r: Response)
  {
    && r.line < s.cursor && r.line < |c.lines|
    && Owed(c.lines[r.line]) == Some(r.id) && Proper(c.lines[r.line], r.reply)
  }

  predicate AnswersOk(c: Config, s: State)
  {
    forall i | 0 <= i < |s.sent| :: RightlyAnswered(c, s, s.sent[i])
  }

  /** Line `j` is a cancellation, read after line `t`, that names the id of the call on line `t`. */
  predicate Names(c: Config, j: nat, t: nat)
  {
    && t < j < |c.lines| && IsCall(c.lines[t]) && c.lines[t].request.id.Some?
    && CancelLine(c.lines[j], c.lines[t].request.id.value)
  }

  ghost predicate CancelOk(c: Config, s: State)
  {
    forall t | t in s.cancelled :: exists j: nat | j < s.cursor :: Names(c, j, t)
  }

  ghost predicate Inv(c: Config, s: State)
  {
    && TasksOk(c, s) && ControlOk(c, s) && PermitsOk(c, s) && Matched(s.inFlight, s.tasks)
    && Accounted(c, s) && AnswersOk(c, s) && CancelOk(c, s)
  }

  // ----- Tables under one change -----

  lemma SpawnAnonymous(inFlight: map<Id, nat>, tasks: map<nat, Task>, t: nat)
    requires Matched(inFlight, tasks) && t !in tasks
    ensures Matched(inFlight, tasks[t := Task(None, Running(false))])
    ensures |RunningTasks(tasks[t := Task(None, Running(false))])| == |RunningTasks(tasks)| + 1
  {
    assert RunningTasks(tasks[t := Task(None, Running(false))]) == RunningTasks(tasks) + {t};
  }

  lemma SpawnIdentified(inFlight: map<Id, nat>, tasks: map<nat, Task>, t: nat, id: Id)
    requires Matched(inFlight, tasks) && t !in tasks && id !in inFlight
    ensures Matched(inFlight[id := t], tasks[t := Task(Some(id), Running(false))])
    ensures |RunningTasks(tasks[t := Task(Some(id), Running(false))])| == |RunningTasks(tasks)| + 1
  {
    assert RunningTasks(tasks[t := Task(Some(id), Running(false))]) == RunningTasks(tasks) + {t};
  }

  lemma EndAnonymous(inFlight: map<Id, nat>, tasks: map<nat, Task>, t: nat)
    requires Matched(inFlight, tasks) && t in tasks && tasks[t].id.None? && tasks[t].phase.Running?
    ensures Matched(inFlight, tasks - {t})
    ensures |RunningTasks(tasks - {t})| == |RunningTasks(tasks)| - 1
  {
    assert RunningTasks(tasks - {t}) == RunningTasks(tasks) - {t};
  }

  lemma ChangePhase(inFlight: map<Id, nat>, tasks: map<nat, Task>, t: nat, phase: Phase)
    requires Matched(inFlight, tasks) && t in tasks && !phase.Running?
    ensures Matched(inFlight, tasks[t := Task(tasks[t].id, phase)])
    ensures |RunningTasks(tasks[t := Task(tasks[t].id, phase)])|
         == |RunningTasks(tasks)| - if tasks[t].phase.Running? then 1 else 0
  {
    assert RunningTasks(tasks[t := Task(tasks[t].id, phase)]) == RunningTasks(tasks) - {t};
  }

  lemma StartStopping(inFlight: map<Id, nat>, tasks: map<nat, Task>, t: nat)
    requires Matched(inFlight, tasks) && t in tasks && tasks[t].phase.Running?
    ensures Matched(inFlight, tasks[t := Task(tasks[t].id, Running(true))])
    ensures RunningTasks(tasks[t := Task(tasks[t].id, Running(true))]) == RunningTasks(tasks)
  {
  }

  lemma LeaveTable(inFlight: map<Id, nat>, tasks: map<nat, Task>, t: nat, id: Id)
    requires Matched(inFlight, tasks) && t in tasks && tasks[t] == Task(Some(id), Leaving)
    ensures Matched(inFlight - {id}, tasks - {t})
    ensures RunningTasks(tasks - {t}) == RunningTasks(tasks)
  {
  }

  // ----- Every step keeps them -----

  lemma TasksKeptByRead(c: Config, s: State)
    requires TasksOk(c, s) && ControlOk(c, s) && Enabled(c, s, Read)
    ensures TasksOk(c, Apply(c, s, Read))
  {
    hide WellFormed, IsCancel;
  }

  lemma TasksKept(c: Config, s: State, e: Event)
    requires TasksOk(c, s) && ControlOk(c, s) && Enabled(c, s, e)
    ensures TasksOk(c, Apply(c, s, e))
  {
    hide WellFormed, IsCancel, ReadLine, IsCall;
    if e == Read {
      TasksKeptByRead(c, s);
    }
  }

  lemma ControlKeptByRead(c: Config, s: State)
    requires TasksOk(c, s) && ControlOk(c, s) && Enabled(c, s, Read)
    ensures ControlOk(c, Apply(c, s, Read))
  {
    hide WellFormed, IsCancel;
  }

  lemma ControlKept(c: Config, s: State, e: Event)
    requires TasksOk(c, s) && ControlOk(c, s) && Enabled(c, s, e)
    ensures ControlOk(c, Apply(c, s, e))
  {
    hide WellFormed, IsCancel, ReadLine;
    if e == Read {
      ControlKeptByRead(c, s);
    }
  }

  lemma TablesKept(c: Config, s: State, e: Event)
    requires TasksOk(c, s) && ControlOk(c, s) && Enabled(c, s, e)
    requires Matched(s.inFlight, s.tasks) && PermitsOk(c, s)
    ensures var next := Apply(c, s, e); Matched(next.inFlight, next.tasks) && PermitsOk(c, next)
  {
    hide WellFormed, IsCancel, Matched, RunningTasks, IsCall, Owed, Proper, Config.Limit;
    match e {
      case Read =>
        if s.cursor !in s.tasks {
          SpawnAnonymous(s.inFlight, s.tasks, s.cursor);
        }
      case Admit =>
        if s.control.id !in s.inFlight {
          SpawnIdentified(s.inFlight, s.tasks, s.control.line, s.control.id);
        }
      case Complete(t, reply) => FinishTables(s, t, ResultOf(s.tasks[t].phase.stopping, reply));
      case Notice(t) => StartStopping(s.inFlight, s.tasks, t);
      case Expire(t) => FinishTables(s, t, Failure(REQUEST_CANCELLED));
      case Write(t) => ChangePhase(s.inFlight, s.tasks, t, Leaving);
      case Leave(t) => LeaveTable(s.inFlight, s.tasks, t, s.tasks[t].id.value);
      case _ =>
    }
  }

  lemma FinishTables(s: State, t: nat, reply: Reply)
    requires Matched(s.inFlight, s.tasks) && t in s.tasks && s.tasks[t].phase.Running?
    ensures var next := Finished(s, t, reply);
            && Matched(next.inFlight, next.tasks)
            && |RunningTasks(next.tasks)| == |RunningTasks(s.tasks)| - 1 && next.permits == s.permits + 1
            && next.control == s.control
  {
    hide Matched, RunningTasks;
    match s.tasks[t].id {
      case None => EndAnonymous(s.inFlight, s.tasks, t);
      case Some(id) => ChangePhase(s.inFlight, s.tasks, t, Answering(reply));
    }
  }

  lemma CancelKept(c: Config, s: State, e: Event)
    requires TasksOk(c, s) && ControlOk(c, s) && Matched(s.inFlight, s.tasks) && CancelOk(c, s) && Enabled(c, s, e)
    ensures CancelOk(c, Apply(c, s, e))
  {
    var next := Apply(c, s, e);
    CursorGrows(c, s, e);
    forall t | t in next.cancelled
      ensures exists j: nat | j < next.cursor :: Names(c, j, t)
    {
      if t in s.cancelled {
        var j: nat :| j < s.cursor && Names(c, j, t);
        assert j < next.cursor && Names(c, j, t);
      } else {
        NewlyCancelled(c, s, e, t);
      }
    }
  }

  lemma CursorGrows(c: Config, s: State, e: Event)
    requires Enabled(c, s, e)
    ensures s.cursor <= Apply(c, s, e).cursor
  {
    hide ReadLine;
    if e == Read {
      CursorMovesOn(s, c.lines[s.cursor]);
    }
  }

  lemma CursorMovesOn(s: State, line: Line)
    ensures ReadLine(s, line).cursor == s.cursor + 1
    ensures ReadLine(s, line).cancelled == s.cancelled && ReadLine(s, line).sent == s.sent
  {
    hide WellFormed, IsCancel;
  }

  /** Only a cancellation line cancels a single token, and only that of the call it names. */
  lemma NewlyCancelled(c: Config, s: State, e: Event, t: nat)
    requires TasksOk(c, s) && ControlOk(c, s) && Matched(s.inFlight, s.tasks) && Enabled(c, s, e)
    requires t !in s.cancelled && t in Apply(c, s, e).cancelled
    ensures e == Cancel && s.cursor > 0 && Names(c, s.cursor - 1, t)
  {
    hide WellFormed, IsCancel, Owed, Proper, ReadLine;
    if e == Read {
      CursorMovesOn(s, c.lines[s.cursor]);
    }
  }

  lemma AnswersKept(c: Config, s: State, e: Event)
    requires TasksOk(c, s) && ControlOk(c, s) && AnswersOk(c, s) && Enabled(c, s, e)
    ensures AnswersOk(c, Apply(c, s, e))
  {
    hide WellFormed, IsCancel, ReadLine;
    if e == Read {
      CursorMovesOn(s, c.lines[s.cursor]);
    }
  }

  lemma AccountKept(c: Config, s: State, e: Event)
    requires TasksOk(c, s) && ControlOk(c, s) && Accounted(c, s) && Enabled(c, s, e)
    ensures Accounted(c, Apply(c, s, e))
  {
    forall line: nat
      ensures Answers(Apply(c, s, e).sent, line) + Pending(Apply(c, s, e), line) == Due(c, Apply(c, s, e), line)
    {
      assert Answers(s.sent, line) + Pending(s, line) == Due(c, s, line);
      if e == Read {
        ReadAccount(c, s, line);
      } else {
        StepAccount(c, s, e, line);
      }
    }
  }

  /** Reading a line makes it due exactly when somebody becomes responsible for answering it. */
  lemma ReadAccount(c: Config, s: State, line: nat)
    requires TasksOk(c, s) && ControlOk(c, s) && Enabled(c, s, Read)
    ensures var next := Apply(c, s, Read);
            && next.sent == s.sent
            && Pending(next, line) - Pending(s, line) == Due(c, next, line) - Due(c, s, line)
  {
    hide WellFormed, IsCancel;
  }

  /** Any other step only passes the responsibility on, or discharges it by one response. */
  lemma StepAccount(c: Config, s: State, e: Event, line: nat)
    requires TasksOk(c, s) && ControlOk(c, s) && Enabled(c, s, e) && e != Read
    ensures var next := Apply(c, s, e);
            && next.cursor == s.cursor
            && Answers(next.sent, line) + Pending(next, line) == Answers(s.sent, line) + Pending(s, line)
  {
    hide WellFormed, IsCancel, ReadLine, Owed, Proper, TasksOk, ControlOk, Answers, Pending,
      Finished, Written, Left, Admitted, Replied, IsCall;
    match e {
      case Reply => ReplyAccount(c, s, line);
      case Admit => AdmitAccount(c, s, line);
      case Complete(t, reply) => FinishAccount(c, s, t, ResultOf(s.tasks[t].phase.stopping, reply), line);
      case Notice(t) => NoticeAccount(c, s, t, line);
      case Expire(t) => FinishAccount(c, s, t, Failure(REQUEST_CANCELLED), line);
      case Write(t) => WriteAccount(c, s, t, line);
      case Leave(t) => LeaveAccount(c, s, t, line);
      case _ => ControlAccount(c, s, e, line);
    }
  }

  function Account(s: State, line: nat): nat
  {
    Answers(s.sent, line) + Pending(s, line)
  }

  lemma AnswersAppend(sent: seq<Response>, r: Response, line: nat)
    ensures Answers(sent + [r], line) == Answers(sent, line) + if r.line == line then 1 else 0
  {
    assert (sent + [r])[..|sent|] == sent;
  }

  lemma ReplyAccount(c: Config, s: State, line: nat)
    requires ControlOk(c, s) && s.control.Replying?
    ensures Account(Replied(s), line) == Account(s, line) && Replied(s).cursor == s.cursor
  {
    hide WellFormed, IsCancel, Owed, Proper, Answers;
    AnswersAppend(s.sent, Response(s.control.line, s.control.id, Failure(s.control.code)), line);
  }

  lemma AdmitAccount(c: Config, s: State, line: nat)
    requires ControlOk(c, s) && s.control.Admitting?
    ensures Account(Admitted(s), line) == Account(s, line) && Admitted(s).cursor == s.cursor
  {
    hide WellFormed, IsCancel, Owed, Proper, Answers;
  }

  lemma FinishAccount(c: Config, s: State, t: nat, reply: Reply, line: nat)
    requires ControlOk(c, s) && t in s.tasks && s.tasks[t].phase.Running?
    ensures Account(Finished(s, t, reply), line) == Account(s, line) && Finished(s, t, reply).cursor == s.cursor
  {
    hide WellFormed, IsCancel, Owed, Proper, Answers;
  }

  lemma NoticeAccount(c: Config, s: State, t: nat, line: nat)
    requires Enabled(c, s, Notice(t))
    ensures Account(Apply(c, s, Notice(t)), line) == Account(s, line)
  {
    hide WellFormed, IsCancel, Answers;
  }

  lemma WriteAccount(c: Config, s: State, t: nat, line: nat)
    requires TasksOk(c, s) && ControlOk(c, s) && t in s.tasks && s.tasks[t].phase.Answering?
    ensures Account(Written(s, t), line) == Account(s, line) && Written(s, t).cursor == s.cursor
  {
    hide WellFormed, IsCancel, Owed, Proper, Answers;
    if s.tasks[t].id.Some? {
      AnswersAppend(s.sent, Response(t, s.tasks[t].id.value, s.tasks[t].phase.reply), line);
    }
  }

  lemma LeaveAccount(c: Config, s: State, t: nat, line: nat)
    requires TasksOk(c, s) && ControlOk(c, s) && InPhase(s, t, Leaving)
    ensures Account(Left(s, t), line) == Account(s, line) && Left(s, t).cursor == s.cursor
  {
    hide WellFormed, IsCancel, Owed, Proper, Answers;
  }

  lemma ControlAccount(c: Config, s: State, e: Event, line: nat)
    requires Enabled(c, s, e) && (e == Eof || e == Cancel || e == GraceEnds || e == Return)
    ensures Account(Apply(c, s, e), line) == Account(s, line) && Apply(c, s, e).cursor == s.cursor
  {
    hide WellFormed, IsCancel, Answers;
  }

  lemma Kept(c: Config, s: State, e: Event)
    requires Inv(c, s) && Enabled(c, s, e)
    ensures Inv(c, Apply(c, s, e))
  {
    hide TasksOk, ControlOk, PermitsOk, Matched, Accounted, AnswersOk, CancelOk, Apply, Enabled;
    TasksKept(c, s, e);
    ControlKept(c, s, e);
    TablesKept(c, s, e);
    AccountKept(c, s, e);
    AnswersKept(c, s, e);
    CancelKept(c, s, e);
  }

  lemma Starts(c: Config)
    ensures Inv(c, Init(c))
  {
    assert RunningTasks(map[]) == {};
  }

  lemma {:induction false} Reachable(c: Config, events: seq<Event>)
    requires After(c, events).Some?
    ensures Inv(c, After(c, events).value)
  {
    if events == [] {
      Starts(c);
    } else {
      var before := events[..|events| - 1];
      Reachable(c, before);
      Kept(c, After(c, before).value, events[|events| - 1]);
    }
  }

  // ----- What every schedule guarantees -----

  /** How many handlers may run: as many as configured, and one even if none is. */
  function Capacity(c: Config): nat
  {
    if c.maxConcurrentRequests == 0 then 1 else c.maxConcurrentRequests
  }

  /** At most one answer at any time, and exactly the one owed once the server has returned. */
  lemma OneAnswerEach(c: Config, events: seq<Event>, line: nat)
    requires After(c, events).Some?
    ensures var s := After(c, events).value;
            var due := if line < |c.lines| && Owed(c.lines[line]).Some? then 1 else 0;
            && Answers(s.sent, line) <= due
            && (s.control.Returned? ==> Answers(s.sent, line) == due)
  {
    hide After, Owed, Answers, TasksOk, PermitsOk, Matched, AnswersOk, CancelOk;
    Reachable(c, events);
    var s := After(c, events).value;
    assert Answers(s.sent, line) + Pending(s, line) == Due(c, s, line);
  }

  /** Every response carries the id its line asks for, and the fixed error when no handler may answer. */
  lemma AnswersMatchRequests(c: Config, events: seq<Event>, i: nat)
    requires After(c, events).Some? && i < |After(c, events).value.sent|
    ensures var r := After(c, events).value.sent[i];
            r.line < |c.lines| && Owed(c.lines[r.line]) == Some(r.id) && Proper(c.lines[r.line], r.reply)
  {
    hide After, Owed, Proper;
    Reachable(c, events);
    var s := After(c, events).value;
    assert RightlyAnswered(c, s, s.sent[i]);
  }

  /** The handlers never outnumber the limit, and in-flight ids belong to distinct live tasks. */
  lemma {:induction false} HandlersAreBounded(c: Config, events: seq<Event>)
    requires After(c, events).Some?
    ensures var s := After(c, events).value;
            && |RunningTasks(s.tasks)| <= Capacity(c)
            && (forall id | id in s.inFlight :: s.inFlight[id] in s.tasks && s.tasks[s.inFlight[id]].id == Some(id))
            && (forall t, u | t in s.tasks && u in s.tasks && s.tasks[t].id.Some? && s.tasks[t].id == s.tasks[u].id ::
                  t == u)
  {
    hide After, RunningTasks;
    Reachable(c, events);
  }

  /** Returning leaves nothing behind: no task, no in-flight id, no permit taken, no line unread. */
  lemma ReturnsAfterAllTasks(c: Config, events: seq<Event>)
    requires After(c, events).Some? && After(c, events).value.control.Returned?
    ensures var s := After(c, events).value;
            s.tasks == map[] && s.inFlight == map[] && s.permits == Capacity(c) && s.cursor == |c.lines|
  {
    hide After;
    Reachable(c, events);
    assert RunningTasks(map[]) == {};
  }

  /** Before shutdown, a token is cancelled only by a later line that names the id of its request. */
  lemma CancelledOnlyByName(c: Config, events: seq<Event>, t: nat)
    requires After(c, events).Some? && !After(c, events).value.shutdown
    requires TokenCancelled(After(c, events).value, t)
    ensures exists j: nat | j < After(c, events).value.cursor :: Names(c, j, t)
  {
    hide After, Names;
    Reachable(c, events);
  }

  /** A cancellation reaches exactly the live task that owns the id, and no other token. */
  lemma CancelReachesItsTask(c: Config, events: seq<Event>, t: nat)
    requires After(c, events).Some? && After(c, events).value.control.Cancelling?
    ensures var s := After(c, events).value;
            var next := Apply(c, s, Cancel);
            t in next.cancelled <==> t in s.cancelled || (t in s.tasks && s.tasks[t].id == Some(s.control.target))
  {
    hide After;
    Reachable(c, events);
  }

  /** A call is refused as busy exactly when every permit is with a running handler. */
  lemma BusyExactlyWhenFull(c: Config, events: seq<Event>)
    requires After(c, events).Some? && Enabled(c, After(c, events).value, Read)
    requires var s := After(c, events).value; IsCall(c.lines[s.cursor]) && c.lines[s.cursor].request.id.Some?
    ensures var s := After(c, events).value;
            var id := c.lines[s.cursor].request.id.value;
            && (|RunningTasks(s.tasks)| == Capacity(c) ==>
                  Apply(c, s, Read) ==
                  s.(cursor := s.cursor + 1, control := Replying(s.cursor, id, SERVER_BUSY, false)))
            && (|RunningTasks(s.tasks)| < Capacity(c) ==>
                  && Apply(c, s, Read).control == Admitting(s.cursor, id)
                  && Apply(c, s, Read).permits == s.permits - 1)
  {
    hide After, RunningTasks, WellFormed, IsCancel, TasksOk, Matched, Accounted, AnswersOk, CancelOk;
    Reachable(c, events);
  }

  /** An admitted request is refused exactly when a live task already owns its id; otherwise its handler starts. */
  lemma {:induction false} DuplicateExactlyWhenLive(c: Config, events: seq<Event>)
    requires After(c, events).Some? && After(c, events).value.control.Admitting?
    ensures var s := After(c, events).value;
            var next := Apply(c, s, Admit);
            var (line, id) := (s.control.line, s.control.id);
            if exists t | t in s.tasks :: s.tasks[t].id == Some(id)
            then next.tasks == s.tasks && next.control == Replying(line, id, INVALID_REQUEST, true)
            else next.tasks == s.tasks[line := Task(Some(id), Running(false))] && next.control == Reading
  {
    hide After, RunningTasks, WellFormed, IsCancel;
    Reachable(c, events);
  }

  // ----- Where replies come from -----

  /** What a handler's result counts for: once its cancellation was noticed, only a success counts. */
  function Counted(stopping: bool, reply: Reply): Reply
  {
    match reply
    case Success => Success
    case Failure(code) => Failure(if stopping then -32800 else code)
  }

  /**
   * Event `k` gave the task this reply: its handler's own result, which after
   * the cancellation was noticed counts only when it is a success, or the
   * cancellation error when the grace ran out.
   */
  predicate ProducedAt(c: Config, events: seq<Event>, k: nat, t: nat, reply: Reply)
    requires k < |events|
  {
    && After(c, events[..k]).Some?
    && var s := After(c, events[..k]).value;
    && t in s.tasks && s.tasks[t].phase.Running?
    && (s.tasks[t].phase.stopping ==> TokenCancelled(s, t))
    && (|| (events[k].Complete? && events[k].task == t && reply == Counted(s.tasks[t].phase.stopping, events[k].reply))
        || (events[k] == Expire(t) && s.tasks[t].phase.stopping && reply == Failure(REQUEST_CANCELLED)))
  }

  predicate Produced(c: Config, events: seq<Event>, t: nat, reply: Reply)
  {
    exists k | 0 <= k < |events| :: ProducedAt(c, events, k, t, reply)
  }

  /** An earlier call has the id of the call on this line. */
  predicate RepeatsId(c: Config, line: nat)
    requires line < |c.lines| && IsCall(c.lines[line])
  {
    exists u | 0 <= u < line :: IsCall(c.lines[u]) && c.lines[u].request.id == c.lines[line].request.id
  }

  /** A call is refused when the server is busy, or as invalid, which takes an earlier call with its id. */
  predicate Refusal(c: Config, line: nat, reply: Reply)
    requires line < |c.lines| && IsCall(c.lines[line])
  {
    reply == Failure(SERVER_BUSY) || (reply == Failure(INVALID_REQUEST) && RepeatsId(c, line))
  }

  predicate Justified(c: Config, events: seq<Event>, line: nat, reply: Reply)
  {
    line < |c.lines| && IsCall(c.lines[line]) ==> Produced(c, events, line, reply) || Refusal(c, line, reply)
  }

  predicate RepliesJustified(c: Config, events: seq<Event>, s: State)
  {
    && (forall t | t in s.tasks && s.tasks[t].phase.Answering? :: Produced(c, events, t, s.tasks[t].phase.reply))
    && (forall i | 0 <= i < |s.sent| :: Justified(c, events, s.sent[i].line, s.sent[i].reply))
    && (s.control.Replying? ==> Justified(c, events, s.control.line, Failure(s.control.code)))
  }

  lemma ProducedLater(c: Config, events: seq<Event>, e: Event, t: nat, reply: Reply)
    requires Produced(c, events, t, reply)
    ensures Produced(c, events + [e], t, reply)
  {
    hide After;
    var k :| 0 <= k < |events| && ProducedAt(c, events, k, t, reply);
    assert (events + [e])[..k] == events[..k];
    assert ProducedAt(c, events + [e], k, t, reply);
  }

  lemma JustifiedLater(c: Config, events: seq<Event>, s: State, e: Event)
    requires RepliesJustified(c, events, s)
    ensures RepliesJustified(c, events + [e], s)
  {
    hide Produced, IsCall;
    forall t, reply | Produced(c, events, t, reply)
      ensures Produced(c, events + [e], t, reply)
    {
      ProducedLater(c, events, e, t, reply);
    }
  }

  lemma ProducedNow(c: Config, events: seq<Event>, e: Event)
    requires After(c, events).Some? && Enabled(c, After(c, events).value, e) && TasksOk(c, After(c, events).value)
    ensures e.Complete? ==>
      Produced(c, events + [e], e.task, ResultOf(After(c, events).value.tasks[e.task].phase.stopping, e.reply))
    ensures e.Expire? ==> Produced(c, events + [e], e.task, Failure(REQUEST_CANCELLED))
  {
    hide After, IsCall;
    assert (events + [e])[..|events|] == events;
    if e.Complete? {
      assert ProducedAt(c, events + [e], |events|, e.task,
                        ResultOf(After(c, events).value.tasks[e.task].phase.stopping, e.reply));
    } else if e.Expire? {
      assert ProducedAt(c, events + [e], |events|, e.task, Failure(REQUEST_CANCELLED));
    }
  }

  lemma JustifiedStep(c: Config, events: seq<Event>, s: State, e: Event)
    requires After(c, events) == Some(s)
    requires TasksOk(c, s) && ControlOk(c, s) && Matched(s.inFlight, s.tasks)
    requires RepliesJustified(c, events, s) && Enabled(c, s, e)
    ensures RepliesJustified(c, events + [e], Apply(c, s, e))
  {
    hide After, Produced, ReadLine, WellFormed, IsCancel, IsCall, Owed, Proper, Justified, Matched;
    JustifiedLater(c, events, s, e);
    ProducedNow(c, events, e);
    if e == Read {
      ReadJustified(c, events + [e], s);
    } else if e == Admit {
      DuplicateJustified(c, events + [e], s);
    } else if e.Write? {
      ResultJustified(c, events + [e], e.task, s.tasks[e.task].phase.reply);
    }
  }

  /** An id in flight at admission is that of an earlier call. */
  lemma DuplicateJustified(c: Config, events: seq<Event>, s: State)
    requires TasksOk(c, s) && ControlOk(c, s) && Matched(s.inFlight, s.tasks) && s.control.Admitting?
    ensures s.control.id in s.inFlight ==> Justified(c, events, s.control.line, Failure(INVALID_REQUEST))
  {
    hide Produced, WellFormed, IsCancel;
    if s.control.id in s.inFlight {
      var u := s.inFlight[s.control.id];
      assert u < s.control.line && IsCall(c.lines[u]) && c.lines[u].request.id == c.lines[s.control.line].request.id;
    }
  }

  lemma ResultJustified(c: Config, events: seq<Event>, line: nat, reply: Reply)
    requires Produced(c, events, line, reply)
    ensures Justified(c, events, line, reply)
  {
  }

  lemma ReadJustified(c: Config, events: seq<Event>, s: State)
    requires Enabled(c, s, Read) && RepliesJustified(c, events, s)
    ensures RepliesJustified(c, events, ReadLine(s, c.lines[s.cursor]))
  {
    hide Produced, WellFormed, IsCancel;
  }

  /**
   * A call is answered with what its own handler produced, with the
   * cancellation error in place of an error or of no result once its
   * cancellation was noticed, or with a refusal, as invalid only after an earlier
   * call with its id; nothing else is written for it.
   */
  lemma {:induction false} RepliesAreTheHandlers(c: Config, events: seq<Event>)
    requires After(c, events).Some?
    ensures RepliesJustified(c, events, After(c, events).value)
  {
    hide Apply, Enabled, RepliesJustified;
    if events == [] {
      NothingSaid(c);
    } else {
      var before, e := events[..|events| - 1], events[|events| - 1];
      assert events == before + [e];
      Reachable(c, before);
      RepliesAreTheHandlers(c, before);
      JustifiedStep(c, before, After(c, before).value, e);
    }
  }

  lemma NothingSaid(c: Config)
    ensures RepliesJustified(c, [], Init(c))
  {
  }

  // ----- Errors after a cancellation -----

  predicate Quelled(reply: Reply)
  {
    reply == Success || reply == Failure(REQUEST_CANCELLED)
  }

  /** The task of a noticed cancellation is past spawning and can no longer answer with an error of its own. */
  predicate QuelledTask(s: State, t: nat)
  {
    && t < s.cursor
    && (s.control.Replying? || s.control.Admitting? ==> s.control.line != t)
    && (t in s.tasks ==>
          match s.tasks[t].phase
          case Running(stopping) => stopping
          case Answering(reply) => Quelled(reply)
          case Leaving => true)
    && forall i | 0 <= i < |s.sent| && s.sent[i].line == t :: Quelled(s.sent[i].reply)
  }

  lemma QuelledStays(c: Config, s: State, e: Event, t: nat)
    requires TasksOk(c, s) && ControlOk(c, s) && Enabled(c, s, e) && QuelledTask(s, t) && e != Read
    ensures QuelledTask(Apply(c, s, e), t)
  {
    hide WellFormed, IsCancel, IsCall, Owed, Proper, ReadLine;
  }

  lemma QuelledByRead(c: Config, s: State, t: nat)
    requires Enabled(c, s, Read) && QuelledTask(s, t)
    ensures QuelledTask(Apply(c, s, Read), t)
  {
    hide WellFormed, IsCancel;
  }

  lemma QuelledFromNotice(c: Config, s: State, t: nat)
    requires TasksOk(c, s) && ControlOk(c, s) && Accounted(c, s) && Enabled(c, s, Notice(t))
    ensures QuelledTask(Apply(c, s, Notice(t)), t)
  {
    hide WellFormed, IsCancel, IsCall, Owed, Proper;
    assert s.tasks[t].id.Some? ==> Pending(s, t) == 1;
    assert Answers(s.sent, t) + Pending(s, t) == Due(c, s, t);
    NoAnswerYet(c, s, t);
    forall i | 0 <= i < |s.sent| && s.sent[i].line == t
      ensures false
    {
      AnswersCount(s.sent, t, i);
    }
  }

  lemma NoAnswerYet(c: Config, s: State, t: nat)
    requires TasksOk(c, s) && Accounted(c, s) && t in s.tasks && s.tasks[t].phase.Running?
    ensures Answers(s.sent, t) == 0
  {
    hide WellFormed, Answers;
    assert Answers(s.sent, t) + Pending(s, t) == Due(c, s, t);
  }

  lemma {:induction false} AnswersCount(sent: seq<Response>, line: nat, i: nat)
    requires i < |sent| && sent[i].line == line
    ensures Answers(sent, line) > 0
  {
    if i < |sent| - 1 {
      AnswersCount(sent[..|sent| - 1], line, i);
    }
  }

  /**
   * Once the cancellation of a call was noticed, it is answered with a success or
   * the cancellation error, never with another.
   */
  lemma {:induction false} CancellationReplacesErrors(c: Config, events: seq<Event>, t: nat)
    requires After(c, events).Some? && Notice(t) in events
    ensures QuelledTask(After(c, events).value, t)
  {
    hide Apply, Enabled, QuelledTask, TasksOk, ControlOk, PermitsOk, Matched, Accounted, AnswersOk, CancelOk;
    var before, e := events[..|events| - 1], events[|events| - 1];
    Reachable(c, before);
    assert events == before + [e];
    var s := After(c, before).value;
    if e == Notice(t) {
      QuelledFromNotice(c, s, t);
    } else {
      CancellationReplacesErrors(c, before, t);
      if e == Read {
        QuelledByRead(c, s, t);
      } else {
        QuelledStays(c, s, e, t);
      }
    }
  }

  // ----- Termination -----

  function Weight(control: Control): nat
  {
    match control
    case Reading => 3
    case Replying(_, _, _, _) => 4
    case Admitting(_, _) => 8
    case Cancelling(_) => 4
    case Draining => 2
    case Joining => 1
    case Returned => 0
  }

  function FreshTasks(tasks: map<nat, Task>): set<nat>
  {
    set t | t in tasks && tasks[t].phase == Running(false)
  }

  /** Steps the live tasks can still take. */
  function Load(tasks: map<nat, Task>): nat
  {
    |tasks.Keys| + |UnansweredTasks(tasks)| + |RunningTasks(tasks)| + |FreshTasks(tasks)|
  }

  /** A bound on the number of steps that can still happen. */
  function Remaining(c: Config, s: State): int
  {
    6 * (|c.lines| - s.cursor) + Weight(s.control) + Load(s.tasks)
  }

  lemma SetsOfSpawn(tasks: map<nat, Task>, t: nat, id: Option<Id>)
    requires t !in tasks
    ensures t !in RunningTasks(tasks) && t !in UnansweredTasks(tasks) && t !in FreshTasks(tasks)
    ensures FreshTasks(tasks[t := Task(id, Running(false))]) == FreshTasks(tasks) + {t}
    ensures RunningTasks(tasks[t := Task(id, Running(false))]) == RunningTasks(tasks) + {t}
    ensures UnansweredTasks(tasks[t := Task(id, Running(false))]) == UnansweredTasks(tasks) + {t}
  {
  }

  lemma LoadOfSpawn(tasks: map<nat, Task>, t: nat, id: Option<Id>)
    requires t !in tasks
    ensures Load(tasks[t := Task(id, Running(false))]) == Load(tasks) + 4
  {
    hide RunningTasks, UnansweredTasks, FreshTasks;
    var next := tasks[t := Task(id, Running(false))];
    SetsOfSpawn(tasks, t, id);
    assert next.Keys == tasks.Keys + {t};
  }

  lemma LoadOfPhase(tasks: map<nat, Task>, t: nat, phase: Phase)
    requires t in tasks && tasks[t].phase != Leaving
    requires tasks[t].phase == Running(false) ==> phase == Running(true) || phase.Answering?
    requires tasks[t].phase == Running(true) ==> phase.Answering?
    requires tasks[t].phase.Answering? ==> phase == Leaving
    ensures Load(tasks[t := Task(tasks[t].id, phase)]) < Load(tasks)
  {
    hide RunningTasks, UnansweredTasks, FreshTasks;
    var next := tasks[t := Task(tasks[t].id, phase)];
    assert next.Keys == tasks.Keys;
    SetsOfPhase(tasks, t, phase);
    SizeBut(RunningTasks(next), RunningTasks(tasks), t);
    SizeBut(UnansweredTasks(next), UnansweredTasks(tasks), t);
    SizeBut(FreshTasks(next), FreshTasks(tasks), t);
  }

  lemma SizeBut(a: set<nat>, b: set<nat>, t: nat)
    requires a - {t} == b - {t}
    ensures |a| - (if t in a then 1 else 0) == |b| - (if t in b then 1 else 0)
  {
    assert |a - {t}| == |a| - if t in a then 1 else 0;
    assert |b - {t}| == |b| - if t in b then 1 else 0;
  }

  lemma SetsOfPhase(tasks: map<nat, Task>, t: nat, phase: Phase)
    requires t in tasks
    ensures var next := tasks[t := Task(tasks[t].id, phase)];
            && RunningTasks(next) - {t} == RunningTasks(tasks) - {t}
            && UnansweredTasks(next) - {t} == UnansweredTasks(tasks) - {t}
            && FreshTasks(next) - {t} == FreshTasks(tasks) - {t}
            && (t in RunningTasks(next) <==> phase.Running?) && (t in RunningTasks(tasks) <==> tasks[t].phase.Running?)
            && (t in UnansweredTasks(next) <==> phase != Leaving)
            && (t in UnansweredTasks(tasks) <==> tasks[t].phase != Leaving)
            && (t in FreshTasks(next) <==> phase == Running(false))
            && (t in FreshTasks(tasks) <==> tasks[t].phase == Running(false))
  {
  }

  lemma LoadOfRemoval(tasks: map<nat, Task>, t: nat)
    requires t in tasks
    ensures Load(tasks - {t}) < Load(tasks)
  {
    var next := tasks - {t};
    assert next.Keys == tasks.Keys - {t};
    assert RunningTasks(next) == RunningTasks(tasks) - {t};
    assert UnansweredTasks(next) == UnansweredTasks(tasks) - {t};
    assert FreshTasks(next) == FreshTasks(tasks) - {t};
  }

  lemma FinishLightens(s: State, t: nat, reply: Reply)
    requires t in s.tasks && s.tasks[t].phase.Running?
    ensures var next := Finished(s, t, reply);
            Load(next.tasks) < Load(s.tasks) && next.cursor == s.cursor && next.control == s.control
  {
    hide Load;
    match s.tasks[t].id {
      case None => LoadOfRemoval(s.tasks, t);
      case Some(id) => LoadOfPhase(s.tasks, t, Answering(reply));
    }
  }

  lemma StepsDecrease(c: Config, s: State, e: Event)
    requires TasksOk(c, s) && ControlOk(c, s) && Enabled(c, s, e)
    ensures 0 <= Remaining(c, Apply(c, s, e)) < Remaining(c, s)
  {
    hide Load, WellFormed, IsCancel, IsCall, Owed, Proper;
    ControlKept(c, s, e);
    match e {
      case Read => LoadOfSpawn(s.tasks, s.cursor, None);
      case Admit => LoadOfSpawn(s.tasks, s.control.line, Some(s.control.id));
      case Complete(t, reply) => FinishLightens(s, t, ResultOf(s.tasks[t].phase.stopping, reply));
      case Notice(t) => LoadOfPhase(s.tasks, t, Running(true));
      case Expire(t) => FinishLightens(s, t, Failure(REQUEST_CANCELLED));
      case Write(t) => LoadOfPhase(s.tasks, t, Leaving);
      case Leave(t) => LoadOfRemoval(s.tasks, t);
      case _ =>
    }
  }

  /** Every schedule ends: no more than six steps per line, and three to shut down. */
  lemma {:induction false} SchedulesAreBounded(c: Config, events: seq<Event>)
    requires After(c, events).Some?
    ensures 0 <= Remaining(c, After(c, events).value) <= 6 * |c.lines| + 3 - |events|
  {
    hide Remaining, Apply, Enabled;
    if events == [] {
      EmptyLoad(c);
    } else {
      var before := events[..|events| - 1];
      Reachable(c, before);
      SchedulesAreBounded(c, before);
      StepsDecrease(c, After(c, before).value, events[|events| - 1]);
    }
  }

  lemma EmptyLoad(c: Config)
    ensures Remaining(c, Init(c)) == 6 * |c.lines| + 3
  {
    assert RunningTasks(map[]) == {} && UnansweredTasks(map[]) == {} && FreshTasks(map[]) == {};
  }

  /** Until it has returned, the server can step even when no handler ever completes by itself. */
  lemma NeverStuck(c: Config, s: State) returns (e: Event)
    requires TasksOk(c, s) && ControlOk(c, s) && !s.control.Returned?
    ensures Enabled(c, s, e) && !e.Complete?
  {
    match s.control {
      case Reading => e := if s.cursor < |c.lines| then Read else Eof;
      case Replying(_, _, _, _) => e := Reply;
      case Admitting(_, _) => e := Admit;
      case Cancelling(_) => e := Cancel;
      case Draining => e := GraceEnds;
      case Joining =>
        if s.tasks == map[] {
          e := Return;
        } else {
          var t :| t in s.tasks;
          e := match s.tasks[t].phase
            case Running(stopping) => if stopping then Expire(t) else Notice(t)
            case Answering(_) => Write(t)
            case Leaving => Leave(t);
        }
    }
  }

  /** From every reachable state the server returns without waiting for any handler to complete. */
  lemma {:induction false} AlwaysCanReturn(c: Config, events: seq<Event>) returns (rest: seq<Event>)
    requires After(c, events).Some?
    ensures After(c, events + rest).Some? && After(c, events + rest).value.control.Returned?
    ensures forall i | 0 <= i < |rest| :: !rest[i].Complete?
    decreases Remaining(c, After(c, events).value)
  {
    hide TasksOk, ControlOk, Remaining, Apply, Enabled, PermitsOk, Matched, Accounted, AnswersOk, CancelOk;
    Reachable(c, events);
    var s := After(c, events).value;
    if s.control.Returned? {
      rest := [];
      assert events + [] == events;
    } else {
      var e := NeverStuck(c, s);
      assert (events + [e])[..|events|] == events;
      StepsDecrease(c, s, e);
      var more := AlwaysCanReturn(c, events + [e]);
      rest := [e] + more;
      assert events + rest == events + [e] + more;
    }
  }
}
