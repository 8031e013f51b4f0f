/** What every run of the client keeps: one settlement per request, and no identifier mistaken for another. */
module RpcClientLaws {
  import opened Objects
  import opened RpcClient

  /** A request is unsettled exactly while it is on the table, and settled once afterwards. */
  predicate LedgerOk(s: Session)
  {
    forall t | 0 <= t < |s.ledger| :: |s.ledger[t].outcomes| == if Awaited(s.pending, t) then 0 else 1
  }

  lemma TableKept(s: Session, e: Event)
    requires TableOk(s) && Enabled(s, e)
    ensures TableOk(Apply(s, e))
  {
  }

  lemma TakeSettles(s: Session, id: int, outcome: Outcome)
    requires TableOk(s) && LedgerOk(s)
    ensures LedgerOk(Take(s, id, outcome))
  {
    if id in s.pending {
      var rest := s.pending - {id};
      forall t: nat | t < |s.ledger|
        ensures Awaited(s.pending, t) <==> Awaited(rest, t) || t == s.pending[id]
        ensures !Awaited(rest, s.pending[id])
      {
        if Awaited(s.pending, t) && t != s.pending[id] {
          var other :| other in s.pending && s.pending[other] == t;
          assert other in rest && rest[other] == t;
        }
      }
    }
  }

  lemma IssueAwaits(s: Session, id: nat)
    requires TableOk(s) && LedgerOk(s) && Enabled(s, Issue(id))
    ensures LedgerOk(Apply(s, Issue(id)))
  {
    var next := Apply(s, Issue(id));
    assert next.pending[id] == |s.ledger|;
    forall t: nat | t < |s.ledger|
      ensures Awaited(next.pending, t) <==> Awaited(s.pending, t)
    {
      if Awaited(s.pending, t) {
        var other :| other in s.pending && s.pending[other] == t;
        assert next.pending[other] == t;
      }
    }
  }

  lemma LedgerKept(s: Session, e: Event)
    requires TableOk(s) && LedgerOk(s) && Enabled(s, e)
    ensures LedgerOk(Apply(s, e))
  {
    hide Take, Settle;
    match e {
      case Issue(id) => IssueAwaits(s, id);
      case Refuse(_) =>
        assert !Awaited(s.pending, |s.ledger|);
      case Accept(Response(Some(id), outcome)) => TakeSettles(s, id, outcome);
      case Accept(_) =>
      case Reject(id, outcome, _, _) => TakeSettles(s, id, outcome);
      case Close =>
        assert forall t: nat :: !Awaited(map[], t);
    }
  }

  lemma {:induction false} Reachable(events: seq<Event>)
    requires After(events).Some?
    ensures TableOk(After(events).value) && LedgerOk(After(events).value)
  {
    hide Apply, Enabled, TableOk, LedgerOk;
    if events == [] {
      Fresh();
    } else {
      var before, e := events[..|events| - 1], events[|events| - 1];
      Reachable(before);
      TableKept(After(before).value, e);
      LedgerKept(After(before).value, e);
    }
  }

  lemma Fresh()
    ensures TableOk(Start()) && LedgerOk(Start())
  {
  }

  // ----- Settlement -----

  /** Over any run no promise is settled twice, and the unsettled ones are exactly those still pending. */
  lemma SettledAtMostOnce(events: seq<Event>, t: nat)
    requires After(events).Some? && t < |After(events).value.ledger|
    ensures var s := After(events).value;
            && |s.ledger[t].outcomes| <= 1
            && (s.ledger[t].outcomes == [] <==> Awaited(s.pending, t))
  {
    hide After;
    Reachable(events);
  }

  lemma {:induction false} ClosedForGood(events: seq<Event>, i: nat)
    requires After(events).Some? && i < |events| && events[i] == Close
    ensures After(events).value.closed
  {
    var before := events[..|events| - 1];
    if i < |before| {
      ClosedForGood(before, i);
    }
  }

  /** Once a run has closed the client, whatever follows, every request ever made has been settled exactly once. */
  lemma ClosedSettlesAll(events: seq<Event>, i: nat, t: nat)
    requires After(events).Some? && i < |events| && events[i] == Close
    requires t < |After(events).value.ledger|
    ensures After(events).value.closed && After(events).value.pending == map[]
    ensures |After(events).value.ledger[t].outcomes| == 1
  {
    hide After;
    ClosedForGood(events, i);
    Reachable(events);
  }

  /** A response for an id that is no longer pending changes nothing. */
  lemma LateResponse(events: seq<Event>, id: int, outcome: Outcome)
    requires After(events).Some? && id !in After(events).value.pending
    ensures After(events + [Accept(Response(Some(id), outcome))]) == After(events)
  {
    assert (events + [Accept(Response(Some(id), outcome))])[..|events|] == events;
  }

  /** A settlement is final: no later event alters it. */
  lemma {:induction false} SettlementIsFinal(events: seq<Event>, more: seq<Event>, t: nat)
    requires After(events).Some? && After(events + more).Some?
    requires t < |After(events).value.ledger| && After(events).value.ledger[t].outcomes != []
    ensures t < |After(events + more).value.ledger|
    ensures After(events + more).value.ledger[t] == After(events).value.ledger[t]
    decreases |more|
  {
    hide Enabled, Apply;
    if more == [] {
      assert events + [] == events;
    } else {
      var fewer, e := more[..|more| - 1], more[|more| - 1];
      assert (events + more)[..|events + more| - 1] == events + fewer;
      SettlementIsFinal(events, fewer, t);
      Reachable(events + fewer);
      SettledStays(After(events + fewer).value, e, t);
    }
  }

  lemma SettledStays(s: Session, e: Event, t: nat)
    requires TableOk(s) && LedgerOk(s) && Enabled(s, e)
    requires t < |s.ledger| && s.ledger[t].outcomes != []
    ensures t < |Apply(s, e).ledger| && Apply(s, e).ledger[t] == s.ledger[t]
  {
    assert !Awaited(s.pending, t);
  }

  // ----- Whose outcome it is -----

  /** The event settles the request that waits under this id, with this outcome. */
  predicate Addresses(e: Event, id: int, outcome: Outcome)
  {
    || e == Accept(Response(Some(id), outcome))
    || (e.Reject? && e.id == id && e.outcome == outcome)
    || (e == Close && outcome == ConnectionClosed)
  }

  /** Event `i` issued the request at ledger position `t` under this id. */
  predicate IssuedAt(events: seq<Event>, i: nat, t: nat, id: nat)
    requires i < |events|
  {
    events[i] == Issue(id) && After(events[..i]).Some? && |After(events[..i]).value.ledger| == t
  }

  /** Event `j` addressed the id while this very request was waiting under it. */
  predicate SettledAt(events: seq<Event>, j: nat, t: nat, id: nat, outcome: Outcome)
    requires j < |events|
  {
    && After(events[..j]).Some? && Addresses(events[j], id, outcome)
    && id in After(events[..j]).value.pending && After(events[..j]).value.pending[id] == t
  }

  predicate SettledAfter(events: seq<Event>, i: nat, t: nat, id: nat, outcome: Outcome)
  {
    exists j | i < j < |events| :: SettledAt(events, j, t, id, outcome)
  }

  /** A request with an id was issued, and settled, if at all, by a later event that addressed it. */
  predicate Earned(events: seq<Event>, t: nat, entry: Entry)
  {
    entry.id.Some? ==> exists i | 0 <= i < |events| :: EarnedFrom(events, i, t, entry)
  }

  predicate EarnedFrom(events: seq<Event>, i: nat, t: nat, entry: Entry)
    requires i < |events| && entry.id.Some?
  {
    && IssuedAt(events, i, t, entry.id.value)
    && (entry.outcomes != [] ==> SettledAfter(events, i, t, entry.id.value, entry.outcomes[0]))
  }

  predicate AllEarned(events: seq<Event>, ledger: seq<Entry>)
  {
    forall t | 0 <= t < |ledger| :: Earned(events, t, ledger[t])
  }

  lemma IssuedLater(events: seq<Event>, e: Event, i: nat, t: nat, id: nat)
    requires i < |events|
    ensures IssuedAt(events + [e], i, t, id) <==> IssuedAt(events, i, t, id)
  {
    assert (events + [e])[..i] == events[..i];
  }

  lemma SettledLater(events: seq<Event>, e: Event, j: nat, t: nat, id: nat, outcome: Outcome)
    requires j < |events|
    ensures SettledAt(events + [e], j, t, id, outcome) <==> SettledAt(events, j, t, id, outcome)
  {
    assert (events + [e])[..j] == events[..j];
  }

  lemma EarnedLater(events: seq<Event>, e: Event, t: nat, entry: Entry)
    requires Earned(events, t, entry)
    ensures Earned(events + [e], t, entry)
  {
    hide IssuedAt, SettledAt;
    if entry.id.Some? {
      var id: nat := entry.id.value;
      var i :| 0 <= i < |events| && EarnedFrom(events, i, t, entry);
      IssuedLater(events, e, i, t, id);
      if entry.outcomes != [] {
        var j :| i < j < |events| && SettledAt(events, j, t, id, entry.outcomes[0]);
        SettledLater(events, e, j, t, id, entry.outcomes[0]);
        assert SettledAt(events + [e], j, t, id, entry.outcomes[0]);
      }
      assert EarnedFrom(events + [e], i, t, entry);
    }
  }

  /** What a step does to one ledger position: nothing, or one settlement the event addresses to its waiting id. */
  lemma OneEntry(s: Session, e: Event, t: nat)
    requires TableOk(s) && Enabled(s, e) && t < |s.ledger|
    ensures t < |Apply(s, e).ledger|
    ensures var next := Apply(s, e).ledger[t];
            || next == s.ledger[t]
            || (&& next.id.Some? && |next.outcomes| == 1 && s.ledger[t] == Entry(next.id, [])
                && next.id.value in s.pending && s.pending[next.id.value] == t
                && Addresses(e, next.id.value, next.outcomes[0]))
  {
  }

  lemma EarnedNow(before: seq<Event>, e: Event, t: nat, id: nat, outcome: Outcome)
    requires Earned(before, t, Entry(Some(id), []))
    requires After(before).Some? && Addresses(e, id, outcome)
    requires id in After(before).value.pending && After(before).value.pending[id] == t
    ensures Earned(before + [e], t, Entry(Some(id), [outcome]))
  {
    hide IssuedAt, After;
    var i :| 0 <= i < |before| && EarnedFrom(before, i, t, Entry(Some(id), []));
    IssuedLater(before, e, i, t, id);
    assert (before + [e])[..|before|] == before;
    assert SettledAt(before + [e], |before|, t, id, outcome);
    assert EarnedFrom(before + [e], i, t, Entry(Some(id), [outcome]));
  }

  /**
   * Each request is settled only after it was issued, while it waits under its
   * id: by a response with that id, by its own timeout, cancellation or write
   * failure, or by the close.
   */
  lemma {:induction false} OutcomesAreEarned(events: seq<Event>)
    requires After(events).Some?
    ensures AllEarned(events, After(events).value.ledger)
  {
    hide Enabled, Apply, Earned, Addresses, TableOk, LedgerOk;
    if events != [] {
      var before, e := events[..|events| - 1], events[|events| - 1];
      assert events == before + [e];
      OutcomesAreEarned(before);
      Reachable(before);
      EarnedStep(before, e);
    }
  }

  lemma EarnedStep(before: seq<Event>, e: Event)
    requires After(before).Some?
    requires var s := After(before).value; TableOk(s) && Enabled(s, e) && AllEarned(before, s.ledger)
    ensures AllEarned(before + [e], Apply(After(before).value, e).ledger)
  {
    hide TableOk, Earned, Addresses, After, Enabled, Apply;
    var s := After(before).value;
    var ledger := Apply(s, e).ledger;
    forall t | 0 <= t < |ledger|
      ensures Earned(before + [e], t, ledger[t])
    {
      if t < |s.ledger| {
        OneEntry(s, e, t);
        if ledger[t] == s.ledger[t] {
          EarnedLater(before, e, t, ledger[t]);
        } else {
          assert ledger[t] == Entry(Some(ledger[t].id.value), [ledger[t].outcomes[0]]);
          EarnedNow(before, e, t, ledger[t].id.value, ledger[t].outcomes[0]);
        }
      } else {
        NewEntry(before, e);
      }
    }
  }

  lemma NewEntry(before: seq<Event>, e: Event)
    requires After(before).Some? && |Apply(After(before).value, e).ledger| > |After(before).value.ledger|
    ensures var s := After(before).value;
            && |Apply(s, e).ledger| == |s.ledger| + 1
            && Earned(before + [e], |s.ledger|, Apply(s, e).ledger[|s.ledger|])
  {
    hide After;
    assert (before + [e])[..|before|] == before;
    if e.Issue? {
      assert EarnedFrom(before + [e], |before|, |After(before).value.ledger|, Entry(Some(e.id), []));
    }
  }

  // ----- Identifiers over a run -----

  function Issued(events: seq<Event>): nat
  {
    if events == [] then 0
    else Issued(events[..|events| - 1]) + if events[|events| - 1].Issue? then 1 else 0
  }

  /** Until the range is exhausted, ids are handed out consecutively from 1. */
  lemma {:induction false} IdsCountUp(events: seq<Event>)
    requires After(events).Some? && Issued(events) <= MAX_SAFE_INTEGER
    ensures var s := After(events).value;
            && s.nextId == (if Issued(events) == MAX_SAFE_INTEGER then 1 else Issued(events) + 1)
            && forall id | id in s.pending :: id <= Issued(events)
    ensures forall i | 0 <= i < |events| && events[i].Issue? :: events[i].id == Issued(events[..i]) + 1
  {
    if events != [] {
      var before, e := events[..|events| - 1], events[|events| - 1];
      IdsCountUp(before);
      var s := After(before).value;
      if e.Issue? {
        NextIsFree(s.pending.Keys, s.nextId, e.id);
      }
      forall i | 0 <= i < |events| && events[i].Issue?
        ensures events[i].id == Issued(events[..i]) + 1
      {
        if i < |before| {
          assert events[..i] == before[..i] && events[i] == before[i];
        }
      }
    }
  }

  lemma NextIsFree(used: set<int>, next: int, id: int)
    requires InRange(next) && next !in used && IsNextFree(used, next, id)
    ensures id == next
  {
    assert Advance(next, 0) == next;
    assert Distance(next, id) <= 0;
  }

  lemma {:induction false} IssuedGrows(events: seq<Event>, i: nat, j: nat)
    requires i <= j <= |events|
    ensures Issued(events[..i]) <= Issued(events[..j])
    decreases j - i
  {
    if i < j {
      IssuedGrows(events, i, j - 1);
      assert events[..j][..j - 1] == events[..j - 1];
    }
  }

  /** So a response that arrives late can never be taken for the answer to another request. */
  lemma IdsAreNotReused(events: seq<Event>, i: nat, j: nat)
    requires After(events).Some? && Issued(events) <= MAX_SAFE_INTEGER
    requires i < j < |events| && events[i].Issue? && events[j].Issue?
    ensures events[i].id < events[j].id
  {
    IdsCountUp(events);
    IssuedGrows(events, i + 1, j);
    assert events[..i + 1][..i] == events[..i];
  }

  // ----- What is sent -----

  function Count(sent: seq<Wire>, line: Wire): nat
  {
    if sent == [] then 0
    else Count(sent[..|sent| - 1], line) + if sent[|sent| - 1] == line then 1 else 0
  }

  lemma SentKept(s: Session, e: Event, id: int)
    requires Enabled(s, e)
    requires Count(s.sent, CancelLine(id)) + (if id in s.pending then 1 else 0) <= Count(s.sent, RequestLine(id))
    ensures var next := Apply(s, e);
            var waiting := if id in next.pending then 1 else 0;
            Count(next.sent, CancelLine(id)) + waiting <= Count(next.sent, RequestLine(id))
  {
  }

  /** An id is cancelled on the wire no more often than it was requested, a pending request not counting. */
  lemma {:induction false} CancelledAtMostOnce(events: seq<Event>, id: int)
    requires After(events).Some?
    ensures var s := After(events).value;
            Count(s.sent, CancelLine(id)) + (if id in s.pending then 1 else 0) <= Count(s.sent, RequestLine(id))
  {
    hide Enabled, Apply;
    if events != [] {
      var before, e := events[..|events| - 1], events[|events| - 1];
      CancelledAtMostOnce(before, id);
      SentKept(After(before).value, e, id);
    }
  }

  /**
   * The cancellation at position `p` of what was sent is that of event `i`,
   * which found the request at ledger position `t` waiting.
   */
  predicate CancelledAt(events: seq<Event>, p: nat, i: nat, t: nat)
    requires i < |events|
  {
    && After(events[..i]).Some? && |After(events[..i]).value.sent| == p
    && events[i].Reject? && events[i].cancelRemote
    && events[i].id in After(events[..i]).value.pending && After(events[..i]).value.pending[events[i].id] == t
  }

  lemma CancelledLater(events: seq<Event>, e: Event, p: nat, i: nat, t: nat)
    requires i < |events|
    ensures CancelledAt(events + [e], p, i, t) <==> CancelledAt(events, p, i, t)
  {
    assert (events + [e])[..i] == events[..i];
  }

  /** What a step appends to what was sent. */
  lemma OneLineSent(s: Session, e: Event)
    requires Enabled(s, e)
    ensures s.sent <= Apply(s, e).sent && |Apply(s, e).sent| <= |s.sent| + 1
    ensures |Apply(s, e).sent| > |s.sent| && Apply(s, e).sent[|s.sent|].CancelLine? ==>
      e.Reject? && e.cancelRemote && e.id in s.pending && Apply(s, e).sent[|s.sent|] == CancelLine(e.id)
  {
  }

  lemma {:induction false} CancellationHasEvent(events: seq<Event>, p: nat) returns (i: nat, t: nat)
    requires After(events).Some? && p < |After(events).value.sent| && After(events).value.sent[p].CancelLine?
    ensures i < |events| && CancelledAt(events, p, i, t) && After(events).value.sent[p] == CancelLine(events[i].id)
  {
    hide Enabled, Apply, CancelledAt;
    var before, e := events[..|events| - 1], events[|events| - 1];
    assert events == before + [e];
    var s := After(before).value;
    OneLineSent(s, e);
    if p < |s.sent| {
      i, t := CancellationHasEvent(before, p);
      CancelledLater(before, e, p, i, t);
    } else {
      i, t := |before|, s.pending[e.id];
      CancelNow(before, e);
    }
  }

  lemma CancelNow(before: seq<Event>, e: Event)
    requires After(before).Some? && e.Reject? && e.cancelRemote && e.id in After(before).value.pending
    ensures CancelledAt(before + [e], |After(before).value.sent|, |before|, After(before).value.pending[e.id])
  {
    assert (before + [e])[..|before|] == before;
  }

  lemma {:induction false} PrefixRuns(events: seq<Event>, i: nat)
    requires After(events).Some? && i <= |events|
    ensures After(events[..i]).Some?
    ensures i < |events| ==>
      && Enabled(After(events[..i]).value, events[i])
      && After(events[..i + 1]) == Some(Apply(After(events[..i]).value, events[i]))
  {
    hide Apply, Enabled;
    if i == |events| {
      assert events[..i] == events;
    } else {
      var before := events[..|events| - 1];
      assert before[..i] == events[..i];
      PrefixRuns(before, i);
      if i == |before| {
        assert events[..i + 1] == events && events[..i] == before;
      } else {
        assert before[..i + 1] == events[..i + 1];
      }
    }
  }

  lemma RejectSettles(s: Session, e: Event)
    requires TableOk(s) && e.Reject? && e.id in s.pending
    ensures var t := s.pending[e.id];
            t < |Apply(s, e).ledger| && Apply(s, e).ledger[t] == Entry(Some(e.id), [e.outcome])
  {
  }

  /**
   * A timeout or cancellation of a waiting request settles it with its own
   * error, takes it off the table and writes one cancellation for it exactly
   * when asked to and the server still reads; of a request no longer waiting it
   * does nothing.
   */
  lemma RejectionIsSent(events: seq<Event>, id: nat, outcome: Outcome, cancelRemote: bool, writable: bool)
    requires After(events).Some?
    ensures var s := After(events).value;
            var next := Apply(s, Reject(id, outcome, cancelRemote, writable));
            && Enabled(s, Reject(id, outcome, cancelRemote, writable)) && (id !in s.pending ==> next == s)
            && (id in s.pending ==>
                  && next.sent == s.sent + (if cancelRemote && writable then [CancelLine(id)] else [])
                  && next.pending == s.pending - {id} && s.pending[id] < |s.ledger|
                  && s.ledger[s.pending[id]] == Entry(Some(id), [])
                  && next.ledger == s.ledger[s.pending[id] := Entry(Some(id), [outcome])])
  {
    hide After;
    Reachable(events);
    assert [] + [outcome] == [outcome];
  }

  /** A response settles the request waiting under its id with its own outcome and nothing else. */
  lemma ResponseSettlesItsRequest(events: seq<Event>, id: int, outcome: Outcome)
    requires After(events).Some?
    ensures var s := After(events).value;
            var next := Apply(s, Accept(Response(Some(id), outcome)));
            && Enabled(s, Accept(Response(Some(id), outcome))) && (id !in s.pending ==> next == s)
            && (id in s.pending ==>
                  && next.sent == s.sent && next.pending == s.pending - {id} && s.pending[id] < |s.ledger|
                  && next.ledger == s.ledger[s.pending[id] := Entry(Some(id), [outcome])])
  {
    hide After;
    Reachable(events);
    assert [] + [outcome] == [outcome];
  }

  /**
   * Every cancellation on the wire belongs to a timeout or cancellation whose
   * own outcome settled that request for good: none is sent for a request that
   * was settled otherwise.
   */
  lemma CancellationsSettle(events: seq<Event>, p: nat) returns (i: nat, t: nat)
    requires After(events).Some? && p < |After(events).value.sent| && After(events).value.sent[p].CancelLine?
    ensures i < |events| && CancelledAt(events, p, i, t) && After(events).value.sent[p] == CancelLine(events[i].id)
    ensures t < |After(events).value.ledger|
    ensures After(events).value.ledger[t] == Entry(Some(events[i].id), [events[i].outcome])
  {
    hide Apply, Enabled, TableOk, LedgerOk, After;
    i, t := CancellationHasEvent(events, p);
    PrefixRuns(events, i);
    Reachable(events[..i]);
    RejectSettles(After(events[..i]).value, events[i]);
    assert events == events[..i + 1] + events[i + 1..];
    SettlementIsFinal(events[..i + 1], events[i + 1..], t);
  }

  /** And no request is cancelled twice. */
  lemma OneCancellationPerRequest(events: seq<Event>, p: nat, q: nat, i: nat, j: nat, t: nat)
    requires After(events).Some? && i < |events| && j < |events|
    requires CancelledAt(events, p, i, t) && CancelledAt(events, q, j, t)
    ensures i == j && p == q
  {
    if i < j {
      SettledOnceCancelled(events, p, q, i, j, t);
    } else if j < i {
      SettledOnceCancelled(events, q, p, j, i, t);
    }
  }

  lemma SettledOnceCancelled(events: seq<Event>, p: nat, q: nat, i: nat, j: nat, t: nat)
    requires After(events).Some? && i < j < |events| && CancelledAt(events, p, i, t)
    ensures !CancelledAt(events, q, j, t)
  {
    hide Apply, Enabled, LedgerOk, After;
    PrefixRuns(events, i);
    PrefixRuns(events, j);
    Reachable(events[..i]);
    Reachable(events[..j]);
    RejectSettles(After(events[..i]).value, events[i]);
    assert events[..j] == events[..i + 1] + events[i + 1..j];
    SettlementIsFinal(events[..i + 1], events[i + 1..j], t);
  }
}
