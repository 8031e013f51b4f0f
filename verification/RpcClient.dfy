/** The client's table of pending requests. */
module RpcClient {
  import opened Objects

  const MAX_SAFE_INTEGER: int := 9007199254740991

  datatype Outcome =
    | Resolved(result: string)
    | RemoteError(code: int)
    | TimedOut
    | Cancelled
    | WriteFailed
    | ConnectionClosed
    | NotRunning

  /** `id` is absent when a message's id is null. */
  datatype Message =
    | Response(id: Option<int>, outcome: Outcome)
    | Notification
    | Unrecognized

  /** What the client writes to the server. */
  datatype Wire = RequestLine(id: int) | CancelLine(id: int)

  /** One request ever made: the id it was given, if any, and every time its promise was settled. */
  datatype Entry = Entry(id: Option<nat>, outcomes: seq<Outcome>)

  /** `pending` maps an id to the ledger position of the request waiting for it. */
  datatype Session = Session(
    pending: map<nat, nat>,
    nextId: int,
    closed: bool,
    ledger: seq<Entry>,
    sent: seq<Wire>)

  // ----- Identifiers -----

  function Successor(id: int): int
  {
    if id >= MAX_SAFE_INTEGER then 1 else id + 1
  }

  predicate InRange(id: int)
  {
    1 <= id <= MAX_SAFE_INTEGER
  }

  /** The id reached after `k` steps from `id`, around the end of the range. */
  function Advance(id: int, k: nat): int
  {
    if id + k <= MAX_SAFE_INTEGER then id + k else id + k - MAX_SAFE_INTEGER
  }

  function Distance(from: int, to: int): int
  {
    if to >= from then to - from else to + MAX_SAFE_INTEGER - from
  }

  /** The first id at or after `next`, cyclically, that is not in use. */
  predicate IsNextFree(used: set<int>, next: int, id: int)
  {
    && InRange(id) && id !in used
    && forall k: nat | k < Distance(next, id) :: Advance(next, k) in used
  }

  lemma {:induction false} SomeIdIsFree(used: set<int>, n: nat) returns (free: int)
    requires |used| < n
    ensures 1 <= free <= n && free !in used
  {
    if n in used {
      free := SomeIdIsFree(used - {n}, n - 1);
    } else {
      free := n;
    }
  }

  /** The allocation is determined by what is in use. */
  lemma NextFreeIsUnique(used: set<int>, next: int, a: int, b: int)
    requires InRange(next) && IsNextFree(used, next, a) && IsNextFree(used, next, b)
    ensures a == b
  {
    assert Advance(next, Distance(next, a)) == a;
    assert Advance(next, Distance(next, b)) == b;
    assert !(Distance(next, a) < Distance(next, b));
    assert !(Distance(next, b) < Distance(next, a));
  }

  // ----- Steps -----

  datatype Event =
    | Issue(id: nat)
    | Refuse(alreadyCancelled: bool)
    | Accept(message: Message)
    | Reject(id: nat, outcome: Outcome, cancelRemote: bool, writable: bool)
    | Close

  function Start(): Session
  {
    Session(map[], 1, false, [], [])
  }

  predicate Enabled(s: Session, e: Event)
  {
    e.Issue? ==> !s.closed && IsNextFree(s.pending.Keys, s.nextId, e.id)
  }

  function Settle(ledger: seq<Entry>, token: nat, outcome: Outcome): seq<Entry>
  {
    if token < |ledger|
    then ledger[token := Entry(ledger[token].id, ledger[token].outcomes + [outcome])]
    else ledger
  }

  /** Takes the id's request off the table and settles it; without one nothing changes. */
  function Take(s: Session, id: int, outcome: Outcome): Session
  {
    if id in s.pending
    then s.(pending := s.pending - {id}, ledger := Settle(s.ledger, s.pending[id], outcome))
    else s
  }

  predicate Awaited(pending: map<nat, nat>, token: nat)
  {
    exists id | id in pending :: pending[id] == token
  }

  /** Every pending request is settled by the closing error. */
  function SettleAll(ledger: seq<Entry>, pending: map<nat, nat>): seq<Entry>
  {
    seq(|ledger|, t requires 0 <= t < |ledger| =>
      if Awaited(pending, t) then Entry(ledger[t].id, ledger[t].outcomes + [ConnectionClosed]) else ledger[t])
  }

  function Apply(s: Session, e: Event): Session
  {
    match e
    case Issue(id) =>
      s.(pending := s.pending[id := |s.ledger|],
         nextId := Successor(id),
         ledger := s.ledger + [Entry(Some(id), [])],
         sent := s.sent + [RequestLine(id)])
    case Refuse(alreadyCancelled) =>
      s.(ledger := s.ledger + [Entry(None, [if alreadyCancelled then Cancelled else NotRunning])])
    case Accept(Response(Some(id), outcome)) => Take(s, id, outcome)
    case Accept(_) => s
    case Reject(id, outcome, cancelRemote, writable) =>
      var taken := Take(s, id, outcome);
      if id in s.pending && cancelRemote && !s.closed && writable
      then taken.(sent := s.sent + [CancelLine(id)])
      else taken
    case Close =>
      if s.closed then s
      else s.(closed := true, pending := map[], ledger := SettleAll(s.ledger, s.pending))
  }

  function After(events: seq<Event>): Option<Session>
  {
    if events == [] then Some(Start())
    else
      match After(events[..|events| - 1])
      case None => None
      case Some(s) =>
        var e := events[|events| - 1];
        if Enabled(s, e) then Some(Apply(s, e)) else None
  }

  // ----- The client -----

  /** Requests are known by distinct, still unsettled ledger positions. */
  predicate Waiting(pending: map<nat, nat>, ledger: seq<Entry>)
  {
    forall id | id in pending ::
      InRange(id) && pending[id] < |ledger| && ledger[pending[id]] == Entry(Some(id), [])
  }

  predicate TableOk(s: Session)
  {
    InRange(s.nextId) && Waiting(s.pending, s.ledger) && (s.closed ==> s.pending == map[])
  }

  /** Settling one pending request first does not change what settling all of them gives. */
  lemma SettleOneFirst(ledger: seq<Entry>, pending: map<nat, nat>, id: int)
    requires Waiting(pending, ledger) && id in pending
    ensures var next := Settle(ledger, pending[id], ConnectionClosed);
            && Waiting(pending - {id}, next)
            && SettleAll(next, pending - {id}) == SettleAll(ledger, pending)
  {
  }

  class Client {
    var pending: map<nat, nat>
    var nextId: int
    var closed: bool
    var ledger: seq<Entry>
    var sent: seq<Wire>

    ghost function Now(): Session
      reads this
    {
      Session(pending, nextId, closed, ledger, sent)
    }

    constructor ()
      ensures Now() == Start()
    {
      pending, nextId, closed := map[], 1, false;
      ledger, sent := [], [];
    }

    method AllocateId() returns (id: nat)
      requires TableOk(Now()) && |pending| < MAX_SAFE_INTEGER
      modifies this`nextId
      ensures IsNextFree(pending.Keys, old(nextId), id) && nextId == Successor(id)
    {
      ghost var free := SomeIdIsFree(pending.Keys, MAX_SAFE_INTEGER);
      ghost var first, d: nat := nextId, 0;
      while true
        invariant InRange(nextId) && d <= Distance(first, free) && nextId == Advance(first, d)
        invariant forall k: nat | k < d :: Advance(first, k) in pending
        decreases Distance(first, free) - d
      {
        var candidate := nextId;
        nextId := if nextId >= MAX_SAFE_INTEGER then 1 else nextId + 1;
        if candidate !in pending {
          assert Distance(first, candidate) == d;
          return candidate;
        }
        d := d + 1;
      }
    }

    /** `token` is the ledger position of the request that was waiting for this id. */
    method TakePending(id: int) returns (token: Option<nat>)
      modifies this`pending
      ensures token == if id in old(pending) then Some(old(pending)[id]) else None
      ensures pending == old(pending) - {id}
    {
      if id in pending {
        token := Some(pending[id]);
        pending := pending - {id};
      } else {
        token := None;
      }
    }

    method Request(writable: bool, alreadyCancelled: bool) returns (issued: Option<nat>)
      requires TableOk(Now()) && |pending| < MAX_SAFE_INTEGER
      modifies this
      ensures issued.None? <==> old(closed) || !writable || alreadyCancelled
      ensures issued.None? ==> pending == old(pending) && sent == old(sent)
      ensures issued.None? ==>
        ledger == old(ledger) + [Entry(None, [if old(closed) || !writable then NotRunning else Cancelled])]
      ensures issued.Some? ==>
        && issued.value !in old(pending) && pending == old(pending)[issued.value := |old(ledger)|]
        && ledger == old(ledger) + [Entry(issued, [])] && sent == old(sent) + [RequestLine(issued.value)]
      ensures var event := if issued.Some? then Issue(issued.value) else Refuse(!old(closed) && writable);
              Enabled(old(Now()), event) && Now() == Apply(old(Now()), event)
    {
      if closed || !writable {
        ledger := ledger + [Entry(None, [NotRunning])];
        return None;
      }
      if alreadyCancelled {
        ledger := ledger + [Entry(None, [Cancelled])];
        return None;
      }
      var id := AllocateId();
      pending := pending[id := |ledger|];
      ledger := ledger + [Entry(Some(id), [])];
      sent := sent + [RequestLine(id)];
      issued := Some(id);
    }

    method AcceptMessage(message: Message)
      requires TableOk(Now())
      modifies this
      ensures Now() == Apply(old(Now()), Accept(message))
    {
      match message {
        case Response(Some(id), outcome) =>
          var token := TakePending(id);
          if token.Some? {
            ledger := Settle(ledger, token.value, outcome);
          }
        case Response(None, _) =>
        case Notification =>
        case Unrecognized =>
      }
      NothingTaken(old(Now()), message);
    }

    /** The callbacks of a request's timeout, cancellation token and failed write. */
    method RejectRequest(id: nat, outcome: Outcome, cancelRemote: bool, writable: bool)
      requires TableOk(Now())
      modifies this
      ensures Now() == Apply(old(Now()), Reject(id, outcome, cancelRemote, writable))
    {
      NothingTaken(Now(), Response(Some(id), outcome));
      var token := TakePending(id);
      if token.Some? {
        if cancelRemote {
          Notify(CancelLine(id), writable);
        }
        ledger := Settle(ledger, token.value, outcome);
      }
    }

    method Notify(line: Wire, writable: bool)
      modifies this`sent
      ensures sent == if old(closed) || !writable then old(sent) else old(sent) + [line]
    {
      if closed || !writable {
        return;
      }
      sent := sent + [line];
    }

    method CloseAll()
      requires TableOk(Now())
      modifies this
      ensures Now() == Apply(old(Now()), Close)
    {
      hide SettleAll, Settle, Waiting;
      if closed {
        return;
      }
      closed := true;
      assert Waiting(pending, ledger) by {
        assert TableOk(old(Now()));
      }
      while pending != map[]
        invariant closed && nextId == old(nextId) && sent == old(sent)
        invariant Waiting(pending, ledger)
        invariant SettleAll(ledger, pending) == SettleAll(old(ledger), old(pending))
        decreases |pending|
      {
        var id :| id in pending;
        SettleOneFirst(ledger, pending, id);
        var token := TakePending(id);
        ledger := Settle(ledger, token.value, ConnectionClosed);
      }
      NoneLeft(ledger);
    }
  }

  lemma NothingTaken(s: Session, message: Message)
    ensures forall id | id !in s.pending :: s.pending - {id} == s.pending
  {
  }

  lemma NoneLeft(ledger: seq<Entry>)
    ensures SettleAll(ledger, map[]) == ledger
  {
    assert forall t: nat :: !Awaited(map[], t);
  }
}
