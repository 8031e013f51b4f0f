/**
 * The extension's client and the backend's dispatcher together: the server has
 * read a prefix of what the client wrote, and every response the client accepts
 * is one the server wrote.
 */
module EndToEnd {
  import opened Objects
  import D = Dispatcher
  import DL = DispatcherLaws
  import R = RpcClient
  import RL = RpcClientLaws

  // ----- The two directions of the pipe -----

  /** How the server sees a line of the client. */
  predicate Carries(line: D.Line, wire: R.Wire)
  {
    match wire
    case RequestLine(id) => D.IsCall(line) && line.request.id == Some(D.Number(id))
    case CancelLine(id) =>
      && line.Parsed? && D.WellFormed(line.request) && D.IsCancel(line.request)
      && line.request.target == Some(D.Number(id))
  }

  predicate Transmitted(lines: seq<D.Line>, sent: seq<R.Wire>)
  {
    && |lines| <= |sent|
    && forall i | 0 <= i < |lines| :: Carries(lines[i], sent[i])
  }

  predicate SameOutcome(reply: D.Reply, outcome: R.Outcome)
  {
    match reply
    case Success => outcome.Resolved?
    case Failure(code) => outcome == R.RemoteError(code)
  }

  /** How the client sees a response of the server. */
  predicate Delivers(r: D.Response, message: R.Message)
  {
    && message.Response? && SameOutcome(r.reply, message.outcome)
    && match r.id
       case Number(n) => message.id == Some(n)
       case _ => message.id == None
  }

  predicate DeliveredFrom(written: seq<D.Response>, message: R.Message)
  {
    exists r | 0 <= r < |written| :: Delivers(written[r], message)
  }

  predicate FromServer(outcome: R.Outcome)
  {
    outcome.Resolved? || outcome.RemoteError?
  }

  /** Responses come from the server only; timeouts, cancellations and failed writes settle with errors of their own. */
  predicate Faithful(events: seq<R.Event>, written: seq<D.Response>)
  {
    && (forall j | 0 <= j < |events| && events[j].Accept? && events[j].message.Response? ::
          DeliveredFrom(written, events[j].message))
    && (forall j | 0 <= j < |events| && events[j].Reject? :: !FromServer(events[j].outcome))
  }

  // ----- Each request has its own line -----

  /** What the client had written before event `i`: the number of the line that an issue there writes. */
  function LineOf(events: seq<R.Event>, i: nat): nat
    requires i <= |events|
  {
    if R.After(events[..i]).Some? then |R.After(events[..i]).value.sent| else 0
  }

  /** Later request lines carry larger ids, none larger than the number of requests issued. */
  predicate Increasing(sent: seq<R.Wire>, bound: nat)
  {
    && (forall p | 0 <= p < |sent| && sent[p].RequestLine? :: sent[p].id <= bound)
    && (forall p, q | 0 <= p < q < |sent| && sent[p].RequestLine? && sent[q].RequestLine? :: sent[p].id < sent[q].id)
  }

  lemma IssueExtends(s: R.Session, e: R.Event, bound: nat)
    requires R.Enabled(s, e) && Increasing(s.sent, bound) && (e.Issue? ==> e.id == bound + 1)
    ensures Increasing(R.Apply(s, e).sent, if e.Issue? then bound + 1 else bound)
  {
  }

  lemma NoLines()
    ensures Increasing([], 0)
  {
  }

  lemma {:induction false} RequestIdsIncrease(events: seq<R.Event>)
    requires R.After(events).Some? && RL.Issued(events) <= R.MAX_SAFE_INTEGER
    ensures Increasing(R.After(events).value.sent, RL.Issued(events))
  {
    hide R.Apply, R.Enabled, Increasing;
    if events == [] {
      NoLines();
    } else {
      var before, e := events[..|events| - 1], events[|events| - 1];
      RequestIdsIncrease(before);
      RL.IdsCountUp(events);
      IssueExtends(R.After(before).value, e, RL.Issued(before));
    }
  }

  lemma {:induction false} SentGrows(events: seq<R.Event>, i: nat)
    requires R.After(events).Some? && i <= |events|
    ensures R.After(events[..i]).Some? && R.After(events[..i]).value.sent <= R.After(events).value.sent
  {
    hide R.Apply, R.Enabled;
    if i == |events| {
      assert events[..i] == events;
    } else {
      var before, e := events[..|events| - 1], events[|events| - 1];
      assert before[..i] == events[..i];
      SentGrows(before, i);
      RL.OneLineSent(R.After(before).value, e);
    }
  }

  lemma IssueWrites(events: seq<R.Event>, i: nat)
    requires R.After(events).Some? && i < |events| && events[i].Issue?
    ensures LineOf(events, i) < |R.After(events).value.sent|
    ensures R.After(events).value.sent[LineOf(events, i)] == R.RequestLine(events[i].id)
  {
    hide R.After, R.Enabled;
    RL.PrefixRuns(events, i);
    SentGrows(events, i + 1);
  }

  lemma UniqueLine(sent: seq<R.Wire>, bound: nat, p: nat, q: nat)
    requires Increasing(sent, bound) && p < |sent| && q < |sent|
    requires sent[p].RequestLine? && sent[p] == sent[q]
    ensures p == q
  {
  }

  // ----- No request is refused as a duplicate -----

  lemma NoRepeatedId(c: D.Config, events: seq<R.Event>, line: nat)
    requires R.After(events).Some? && RL.Issued(events) <= R.MAX_SAFE_INTEGER
    requires Transmitted(c.lines, R.After(events).value.sent) && line < |c.lines| && D.IsCall(c.lines[line])
    ensures !DL.RepeatsId(c, line)
  {
    hide R.After, Increasing, D.WellFormed;
    var sent := R.After(events).value.sent;
    RequestIdsIncrease(events);
    assert Carries(c.lines[line], sent[line]);
    forall u | 0 <= u < line && D.IsCall(c.lines[u])
      ensures c.lines[u].request.id != c.lines[line].request.id
    {
      assert Carries(c.lines[u], sent[u]);
      if c.lines[u].request.id == c.lines[line].request.id {
        UniqueLine(sent, RL.Issued(events), u, line);
      }
    }
  }

  /**
   * The server never takes a request of this client for a duplicate: every
   * response to a call is what its own handler produced, or that the server is busy.
   */
  lemma NeverRefusedAsDuplicate(c: D.Config, server: seq<D.Event>, client: seq<R.Event>, r: nat)
    requires D.After(c, server).Some? && R.After(client).Some? && RL.Issued(client) <= R.MAX_SAFE_INTEGER
    requires Transmitted(c.lines, R.After(client).value.sent) && r < |D.After(c, server).value.sent|
    ensures var response := D.After(c, server).value.sent[r];
            && response.line < |c.lines| && D.IsCall(c.lines[response.line])
            && R.After(client).value.sent[response.line].RequestLine?
            && response.id == D.Number(R.After(client).value.sent[response.line].id)
            && (DL.Produced(c, server, response.line, response.reply) || response.reply == D.Failure(D.SERVER_BUSY))
  {
    hide D.After, R.After, DL.Produced, D.WellFormed;
    var s := D.After(c, server).value;
    var response := s.sent[r];
    DL.AnswersMatchRequests(c, server, r);
    assert Carries(c.lines[response.line], R.After(client).value.sent[response.line]);
    DL.RepliesAreTheHandlers(c, server);
    assert DL.Justified(c, server, s.sent[r].line, s.sent[r].reply);
    NoRepeatedId(c, client, response.line);
  }

  // ----- A request is settled by its own handler's reply -----

  lemma SettledByEvent(events: seq<R.Event>, t: nat) returns (i: nat, j: nat)
    requires R.After(events).Some? && t < |R.After(events).value.ledger|
    requires var entry := R.After(events).value.ledger[t]; entry.id.Some? && entry.outcomes != []
    ensures var entry := R.After(events).value.ledger[t];
            && i < j < |events| && RL.IssuedAt(events, i, t, entry.id.value)
            && RL.SettledAt(events, j, t, entry.id.value, entry.outcomes[0])
  {
    hide R.After, RL.IssuedAt, RL.SettledAt;
    RL.OutcomesAreEarned(events);
    var entry := R.After(events).value.ledger[t];
    assert RL.Earned(events, t, entry);
    i :| 0 <= i < |events| && RL.EarnedFrom(events, i, t, entry);
    j :| i < j < |events| && RL.SettledAt(events, j, t, entry.id.value, entry.outcomes[0]);
  }

  lemma OwnResponse(c: D.Config, server: seq<D.Event>, client: seq<R.Event>, i: nat, r: nat, message: R.Message)
    requires D.After(c, server).Some? && R.After(client).Some? && RL.Issued(client) <= R.MAX_SAFE_INTEGER
    requires Transmitted(c.lines, R.After(client).value.sent) && r < |D.After(c, server).value.sent|
    requires i < |client| && client[i].Issue?
    requires Delivers(D.After(c, server).value.sent[r], message) && message.id == Some(client[i].id)
    ensures D.After(c, server).value.sent[r].line == LineOf(client, i)
  {
    hide D.After, R.After, DL.Produced, Increasing, LineOf, D.IsCall;
    var sent, line := R.After(client).value.sent, D.After(c, server).value.sent[r].line;
    NeverRefusedAsDuplicate(c, server, client, r);
    RequestIdsIncrease(client);
    IssueWrites(client, i);
    UniqueLine(sent, RL.Issued(client), line, LineOf(client, i));
  }

  /**
   * A result or remote error that settles a request is the reply to the very
   * line that request wrote: what its own handler produced, or that the server
   * was busy. `i` issued the request; `r` is the server's response.
   */
  lemma SettledByOwnHandler(c: D.Config, server: seq<D.Event>, client: seq<R.Event>, t: nat) returns (i: nat, r: nat)
    requires D.After(c, server).Some? && R.After(client).Some? && RL.Issued(client) <= R.MAX_SAFE_INTEGER
    requires Transmitted(c.lines, R.After(client).value.sent) && Faithful(client, D.After(c, server).value.sent)
    requires t < |R.After(client).value.ledger|
    requires var entry := R.After(client).value.ledger[t];
             entry.id.Some? && entry.outcomes != [] && FromServer(entry.outcomes[0])
    ensures var entry := R.After(client).value.ledger[t];
            i < |client| && RL.IssuedAt(client, i, t, entry.id.value)
    ensures r < |D.After(c, server).value.sent|
    ensures var response := D.After(c, server).value.sent[r];
            && response.line == LineOf(client, i)
            && SameOutcome(response.reply, R.After(client).value.ledger[t].outcomes[0])
            && (DL.Produced(c, server, response.line, response.reply) || response.reply == D.Failure(D.SERVER_BUSY))
  {
    hide D.After, R.After, DL.Produced, LineOf;
    var j;
    i, j := SettledByEvent(client, t);
    var message := client[j].message;
    assert DeliveredFrom(D.After(c, server).value.sent, message);
    r :| 0 <= r < |D.After(c, server).value.sent| && Delivers(D.After(c, server).value.sent[r], message);
    NeverRefusedAsDuplicate(c, server, client, r);
    OwnResponse(c, server, client, i, r, message);
  }

  // ----- Every request gets settled -----

  /** Everything the server wrote reached the client, after the request it answers had been written. */
  predicate AllDelivered(events: seq<R.Event>, written: seq<D.Response>)
  {
    forall r | 0 <= r < |written| :: exists j | 0 <= j < |events| :: DeliveredAt(events, written[r], j)
  }

  predicate DeliveredAt(events: seq<R.Event>, response: D.Response, j: nat)
    requires j < |events|
  {
    events[j].Accept? && Delivers(response, events[j].message) && LineOf(events, j) > response.line
  }

  lemma {:induction false} NotPendingStays(events: seq<R.Event>, j: nat, id: nat)
    requires R.After(events).Some? && j <= |events|
    requires R.After(events[..j]).Some? && id !in R.After(events[..j]).value.pending
    requires forall k | j <= k < |events| && events[k].Issue? :: events[k].id != id
    ensures id !in R.After(events).value.pending
  {
    if j == |events| {
      assert events[..j] == events;
    } else {
      var before := events[..|events| - 1];
      assert before[..j] == events[..j];
      NotPendingStays(before, j, id);
    }
  }

  lemma TakenForGood(events: seq<R.Event>, i: nat, j: nat)
    requires R.After(events).Some? && RL.Issued(events) <= R.MAX_SAFE_INTEGER
    requires i < j < |events| && events[i].Issue? && events[j].Accept?
    requires events[j].message.Response? && events[j].message.id == Some(events[i].id)
    ensures events[i].id !in R.After(events).value.pending
  {
    hide R.After, R.Enabled;
    RL.PrefixRuns(events, j);
    forall k | j + 1 <= k < |events| && events[k].Issue?
      ensures events[k].id != events[i].id
    {
      RL.IdsAreNotReused(events, i, k);
    }
    RL.PrefixRuns(events, j + 1);
    NotPendingStays(events, j + 1, events[i].id);
  }

  lemma LineOfMonotone(events: seq<R.Event>, j: nat, i: nat)
    requires R.After(events).Some? && j <= i <= |events|
    ensures LineOf(events, j) <= LineOf(events, i)
  {
    hide R.After;
    SentGrows(events, i);
    SentGrows(events[..i], j);
    assert events[..i][..j] == events[..j];
  }

  lemma {:induction false} SomeAnswer(sent: seq<D.Response>, line: nat) returns (r: nat)
    requires DL.Answers(sent, line) > 0
    ensures r < |sent| && sent[r].line == line
  {
    if sent[|sent| - 1].line == line {
      r := |sent| - 1;
    } else {
      r := SomeAnswer(sent[..|sent| - 1], line);
    }
  }

  /** The server has answered every request that it read. */
  lemma AnswerToIssue(c: D.Config, server: seq<D.Event>, client: seq<R.Event>, i: nat) returns (r: nat)
    requires D.After(c, server).Some? && D.After(c, server).value.control.Returned?
    requires R.After(client).Some? && i < |client| && client[i].Issue?
    requires Transmitted(c.lines, R.After(client).value.sent) && |c.lines| == |R.After(client).value.sent|
    ensures r < |D.After(c, server).value.sent|
    ensures var response := D.After(c, server).value.sent[r];
            response.line == LineOf(client, i) && response.id == D.Number(client[i].id)
  {
    hide D.After, R.After, LineOf;
    IssueWrites(client, i);
    var line := LineOf(client, i);
    assert Carries(c.lines[line], R.After(client).value.sent[line]);
    DL.OneAnswerEach(c, server, line);
    r := SomeAnswer(D.After(c, server).value.sent, line);
    DL.AnswersMatchRequests(c, server, r);
  }

  /**
   * Once the server has read everything and returned, and the client has taken
   * every response in, every request the client ever made is settled, exactly once.
   */
  lemma EverythingIsSettled(c: D.Config, server: seq<D.Event>, client: seq<R.Event>, t: nat)
    requires D.After(c, server).Some? && D.After(c, server).value.control.Returned?
    requires R.After(client).Some? && RL.Issued(client) <= R.MAX_SAFE_INTEGER
    requires Transmitted(c.lines, R.After(client).value.sent) && |c.lines| == |R.After(client).value.sent|
    requires AllDelivered(client, D.After(c, server).value.sent)
    requires t < |R.After(client).value.ledger|
    ensures |R.After(client).value.ledger[t].outcomes| == 1 && !R.Awaited(R.After(client).value.pending, t)
  {
    hide D.After, R.After, RL.IssuedAt, Transmitted;
    var s := R.After(client).value;
    RL.SettledAtMostOnce(client, t);
    RL.Reachable(client);
    if R.Awaited(s.pending, t) {
      var id :| id in s.pending && s.pending[id] == t;
      var i := IssueOf(client, t, id);
      var r := AnswerToIssue(c, server, client, i);
      var j :| 0 <= j < |client| && DeliveredAt(client, D.After(c, server).value.sent[r], j);
      if j <= i {
        LineOfMonotone(client, j, i);
      }
      TakenForGood(client, i, j);
    }
  }

  lemma IssueOf(events: seq<R.Event>, t: nat, id: nat) returns (i: nat)
    requires R.After(events).Some? && id in R.After(events).value.pending && R.After(events).value.pending[id] == t
    ensures i < |events| && events[i] == R.Issue(id)
  {
    hide R.After;
    RL.Reachable(events);
    RL.OutcomesAreEarned(events);
    var entry := R.After(events).value.ledger[t];
    assert RL.Earned(events, t, entry);
    i :| 0 <= i < |events| && RL.EarnedFrom(events, i, t, entry);
  }
}
