/** What the server does with each line, stated on the line itself, and that calls are served. */
module DispatcherServes {
  import opened Objects
  import opened Dispatcher
  import opened DispatcherLaws

  // ----- What each line asks for -----

  /** The error a line is refused with before anything is looked up, and the id it is answered under. */
  predicate Unusable(line: Line, id: Id, code: int)
  {
    match line
    case Oversized => id == Null && code == -32600
    case Unparseable => id == Null && code == -32700
    case WrongShape => id == Null && code == -32600
    case Parsed(r) =>
      && (r.version != "2.0" || r.operation == "") && code == -32600
      && id == (if r.id.Some? then r.id.value else Null)
  }

  predicate Cancels(line: Line)
  {
    line.Parsed? && line.request.version == "2.0" && line.request.operation == "$/cancelRequest"
  }

  predicate Calls(line: Line)
  {
    && line.Parsed? && line.request.version == "2.0"
    && line.request.operation != "" && line.request.operation != "$/cancelRequest"
  }

  /** Every line is exactly one of the three. */
  lemma LinesAreOfThreeSorts(line: Line)
    ensures Calls(line) <==> IsCall(line)
    ensures (exists id, code :: Unusable(line, id, code)) <==> !Calls(line) && !Cancels(line)
    ensures !(Calls(line) && Cancels(line))
  {
    if !Calls(line) && !Cancels(line) {
      var code := if line == Unparseable then -32700 else -32600;
      assert Unusable(line, if line.Parsed? then IdOrNull(line.request.id) else Null, code);
    }
  }

  // ----- Reading one line -----

  /** A cancellation is looked up next when it names an id, and is over otherwise. */
  lemma ReadsCancel(c: Config, s: State)
    requires Enabled(c, s, Read) && Cancels(c.lines[s.cursor])
    ensures var target := c.lines[s.cursor].request.target;
            Apply(c, s, Read) ==
            s.(cursor := s.cursor + 1, control := if target.Some? then Cancelling(target.value) else Reading)
  {
  }

  /** A call without an id is dropped when no permit is free, and otherwise runs under none. */
  lemma ReadsNotification(c: Config, s: State)
    requires Enabled(c, s, Read) && Calls(c.lines[s.cursor]) && c.lines[s.cursor].request.id.None?
    ensures Apply(c, s, Read) ==
      if s.permits == 0 then s.(cursor := s.cursor + 1)
      else
        s.(cursor := s.cursor + 1, permits := s.permits - 1,
           tasks := s.tasks[s.cursor := Task(None, Running(false))])
  {
  }

  // ----- Which lines are answered, and how -----

  lemma {:induction false} AnswerExists(sent: seq<Response>, line: nat) returns (i: nat)
    requires Answers(sent, line) > 0
    ensures i < |sent| && sent[i].line == line
  {
    if sent[|sent| - 1].line == line {
      i := |sent| - 1;
    } else {
      i := AnswerExists(sent[..|sent| - 1], line);
    }
  }

  /** By the time the server returns every unusable line has been answered, under its id and with its error. */
  lemma UnusableLinesAreRefused(c: Config, events: seq<Event>, line: nat, id: Id, code: int) returns (i: nat)
    requires After(c, events).Some? && After(c, events).value.control.Returned?
    requires line < |c.lines| && Unusable(c.lines[line], id, code)
    ensures i < |After(c, events).value.sent|
    ensures After(c, events).value.sent[i] == Response(line, id, Failure(code))
  {
    hide After;
    OneAnswerEach(c, events, line);
    i := AnswerExists(After(c, events).value.sent, line);
    AnswersMatchRequests(c, events, i);
  }

  /** Cancellations and calls without an id are never answered; calls with an id are, once the server returns. */
  lemma AnsweredExactlyCallsWithId(c: Config, events: seq<Event>, line: nat)
    requires After(c, events).Some? && line < |c.lines|
    ensures var s := After(c, events).value;
            && (Cancels(c.lines[line]) ==> Answers(s.sent, line) == 0)
            && (Calls(c.lines[line]) && c.lines[line].request.id.None? ==> Answers(s.sent, line) == 0)
            && (Calls(c.lines[line]) && c.lines[line].request.id.Some? && s.control.Returned? ==>
                  Answers(s.sent, line) == 1)
  {
    hide After, Answers;
    OneAnswerEach(c, events, line);
  }

  // ----- Serving a call -----

  lemma Goes(c: Config, events: seq<Event>, s: State, e: Event)
    requires After(c, events) == Some(s) && Enabled(c, s, e)
    ensures After(c, events + [e]) == Some(Apply(c, s, e))
  {
    assert (events + [e])[..|events|] == events;
  }

  /**
   * A running handler may complete at any time; its result, as far as it
   * counts, is then written under the id of its request, and nothing of it is left.
   */
  lemma CompletionIsAnswered(c: Config, events: seq<Event>, s: State, t: nat, id: Id, reply: Reply)
    requires After(c, events) == Some(s) && t in s.tasks
    requires s.tasks[t].id == Some(id) && s.tasks[t].phase.Running?
    ensures After(c, events + [Complete(t, reply), Write(t), Leave(t)])
         == Some(s.(permits := s.permits + 1, inFlight := s.inFlight - {id}, tasks := s.tasks - {t},
                    sent := s.sent + [Response(t, id, Counted(s.tasks[t].phase.stopping, reply))]))
  {
    hide After;
    var result := Counted(s.tasks[t].phase.stopping, reply);
    Goes(c, events, s, Complete(t, reply));
    var answering := s.(permits := s.permits + 1, tasks := s.tasks[t := Task(Some(id), Answering(result))]);
    Goes(c, events + [Complete(t, reply)], answering, Write(t));
    var leaving := Apply(c, answering, Write(t));
    Goes(c, events + [Complete(t, reply)] + [Write(t)], leaving, Leave(t));
    assert events + [Complete(t, reply), Write(t), Leave(t)]
        == events + [Complete(t, reply)] + [Write(t)] + [Leave(t)];
    assert leaving.tasks - {t} == s.tasks - {t};
  }

  /** The line under the cursor runs as a call with this id. */
  function Started(s: State, id: Id): State
    requires s.permits > 0
  {
    s.(cursor := s.cursor + 1, permits := s.permits - 1, inFlight := s.inFlight[id := s.cursor],
       tasks := s.tasks[s.cursor := Task(Some(id), Running(false))])
  }

  /** A call with an id that no live task has, read while a permit is free, starts to run. */
  lemma CallIsStarted(c: Config, events: seq<Event>, s: State, id: Id)
    requires After(c, events) == Some(s) && Enabled(c, s, Read)
    requires Calls(c.lines[s.cursor]) && c.lines[s.cursor].request.id == Some(id)
    requires s.permits > 0 && id !in s.inFlight
    ensures After(c, events + [Read, Admit]) == Some(Started(s, id))
  {
    hide After;
    Goes(c, events, s, Read);
    var admitting := s.(cursor := s.cursor + 1, permits := s.permits - 1, control := Admitting(s.cursor, id));
    Goes(c, events + [Read], admitting, Admit);
    assert events + [Read, Admit] == events + [Read] + [Admit];
  }

  /**
   * Such a call can be served whatever the rest of the server does: the answer
   * is exactly its handler's result, and afterwards the server is as it was but
   * for that answer.
   */
  lemma CallIsServed(c: Config, events: seq<Event>, s: State, id: Id, reply: Reply)
    requires After(c, events) == Some(s) && Enabled(c, s, Read)
    requires Calls(c.lines[s.cursor]) && c.lines[s.cursor].request.id == Some(id)
    requires s.permits > 0 && id !in s.inFlight
    ensures var served := [Complete(s.cursor, reply), Write(s.cursor), Leave(s.cursor)];
            After(c, events + [Read, Admit] + served) ==
            Some(s.(cursor := s.cursor + 1, sent := s.sent + [Response(s.cursor, id, reply)]))
  {
    hide *;
    FreshLine(c, events);
    CallIsStarted(c, events, s, id);
    var started := Started(s, id);
    StartedTask(s, id, reply);
    CompletionIsAnswered(c, events + [Read, Admit], started, s.cursor, id, reply);
  }

  lemma StartedTask(s: State, id: Id, reply: Reply)
    requires s.permits > 0 && s.cursor !in s.tasks && id !in s.inFlight
    ensures var t, started := s.cursor, Started(s, id);
            && t in started.tasks && started.tasks[t].id == Some(id) && started.tasks[t].phase.Running?
            && started.(permits := started.permits + 1, inFlight := started.inFlight - {id},
                        tasks := started.tasks - {t},
                        sent := started.sent + [Response(t, id, Counted(started.tasks[t].phase.stopping, reply))])
               == s.(cursor := s.cursor + 1, sent := s.sent + [Response(t, id, reply)])
  {
    RemovedAgain(s.tasks, s.cursor, Task(Some(id), Running(false)));
    RemovedAgain(s.inFlight, id, s.cursor);
  }

  lemma RemovedAgain<K, V>(m: map<K, V>, k: K, v: V)
    requires k !in m
    ensures m[k := v] - {k} == m
  {
  }

  lemma FreshLine(c: Config, events: seq<Event>)
    requires After(c, events).Some?
    ensures After(c, events).value.cursor !in After(c, events).value.tasks
  {
    hide After;
    Reachable(c, events);
  }

  /** A handler run for a call without an id leaves nothing behind and answers nothing. */
  lemma NotificationIsServed(c: Config, s: State, t: nat, reply: Reply)
    requires t in s.tasks && s.tasks[t].id.None? && s.tasks[t].phase.Running?
    ensures Enabled(c, s, Complete(t, reply))
    ensures Apply(c, s, Complete(t, reply)) == s.(permits := s.permits + 1, tasks := s.tasks - {t})
  {
  }

  // ----- Cancelling a call -----

  /** A cancellation that names a running call reaches it, and it can be told at once. */
  lemma CancellationIsNoticed(c: Config, events: seq<Event>, s: State, t: nat, id: Id)
    requires After(c, events) == Some(s) && Enabled(c, s, Read)
    requires Cancels(c.lines[s.cursor]) && c.lines[s.cursor].request.target == Some(id)
    requires t in s.tasks && s.tasks[t] == Task(Some(id), Running(false))
    ensures After(c, events + [Read, Cancel, Notice(t)])
         == Some(s.(cursor := s.cursor + 1, cancelled := s.cancelled + {t},
                    tasks := s.tasks[t := Task(Some(id), Running(true))]))
  {
    OwnerInFlight(c, events, t, id);
    TokenIsCancelled(c, events, s, t, id);
    var cancelled := s.(cursor := s.cursor + 1, cancelled := s.cancelled + {t});
    hide After, Cancels;
    Goes(c, events + [Read, Cancel], cancelled, Notice(t));
    assert events + [Read, Cancel, Notice(t)] == events + [Read, Cancel] + [Notice(t)];
  }

  lemma TokenIsCancelled(c: Config, events: seq<Event>, s: State, t: nat, id: Id)
    requires After(c, events) == Some(s) && Enabled(c, s, Read)
    requires Cancels(c.lines[s.cursor]) && c.lines[s.cursor].request.target == Some(id)
    requires id in s.inFlight && s.inFlight[id] == t
    ensures After(c, events + [Read, Cancel]) == Some(s.(cursor := s.cursor + 1, cancelled := s.cancelled + {t}))
  {
    ReadsCancel(c, s);
    hide After, Cancels, ReadLine;
    Goes(c, events, s, Read);
    Goes(c, events + [Read], s.(cursor := s.cursor + 1, control := Cancelling(id)), Cancel);
    assert events + [Read, Cancel] == events + [Read] + [Cancel];
  }

  lemma OwnerInFlight(c: Config, events: seq<Event>, t: nat, id: Id)
    requires After(c, events).Some?
    requires t in After(c, events).value.tasks && After(c, events).value.tasks[t].id == Some(id)
    ensures id in After(c, events).value.inFlight && After(c, events).value.inFlight[id] == t
  {
    hide After;
    Reachable(c, events);
  }

  /** If it does not end within the grace it is answered with the cancellation error. */
  lemma ExpiryIsAnswered(c: Config, events: seq<Event>, s: State, t: nat, id: Id)
    requires After(c, events) == Some(s) && t in s.tasks && s.tasks[t] == Task(Some(id), Running(true))
    ensures After(c, events + [Expire(t), Write(t), Leave(t)])
         == Some(s.(permits := s.permits + 1, inFlight := s.inFlight - {id}, tasks := s.tasks - {t},
                    sent := s.sent + [Response(t, id, Failure(-32800))]))
  {
    hide After;
    Goes(c, events, s, Expire(t));
    var answering := s.(permits := s.permits + 1, tasks := s.tasks[t := Task(Some(id), Answering(Failure(-32800)))]);
    Goes(c, events + [Expire(t)], answering, Write(t));
    var leaving := Apply(c, answering, Write(t));
    Goes(c, events + [Expire(t)] + [Write(t)], leaving, Leave(t));
    assert events + [Expire(t), Write(t), Leave(t)] == events + [Expire(t)] + [Write(t)] + [Leave(t)];
    assert leaving.tasks - {t} == s.tasks - {t};
  }
}
