/**
 * Downloading to a temporary file and publishing it, against a file system
 * that other programs use too. An operation in flight when the download is
 * cancelled or dropped may still take effect later, as an orphan.
 */
module Download {
  import opened Objects

  type Bytes = seq<bv8>

  /** What the download is suspended on. */
  datatype Op =
    | Inspect
    | Fetch
    | Open
    | Read
    | Write(chunk: Bytes)
    | Settle
    | Link
    | Unlink
    | Rename
    | Recheck
    | Remove
    | RenameAgain

  datatype Outcome = Installed(bytes: nat) | AlreadyExists | Failed | Abandoned

  datatype Control = Awaiting(op: Op) | Cleaning(outcome: Outcome) | Finished(outcome: Outcome)

  /** Who last changed the destination: another program, the install, or the removal before a second rename. */
  datatype Owner = Others | Install | Removal

  /**
   * `received` is what was written to the temporary file; `whole` is the
   * object once its end and length were checked; `prior` is what other
   * programs last left at the destination.
   */
  datatype State = State(
    destination: Option<Bytes>,
    temporary: Option<Bytes>,
    control: Control,
    orphan: Option<Op>,
    received: Bytes,
    declared: Option<nat>,
    whole: Option<Bytes>,
    prior: Option<Bytes>,
    owner: Owner,
    cleaned: bool,
    stray: bool)

  datatype Config = Config(overwrite: bool, initial: Option<Bytes>)

  datatype Event =
    | OthersWrite(content: Option<Bytes>)
    | Fetched(length: Option<nat>)
    | Delivers(chunk: Bytes)
    | EndOfBody
    | Succeeds
    | Refused
    | Fails(written: nat)
    | Abandon
    | CleanUp(ok: bool)
    | OrphanRuns(ok: bool)

  function Init(c: Config): State
  {
    State(c.initial, None, Awaiting(if c.overwrite then Fetch else Inspect), None, [], None, None, c.initial, Others,
          false, false)
  }

  /** What the file system allows to succeed. A hard link never replaces its target. */
  predicate CanSucceed(s: State, op: Op)
  {
    match op
    case Inspect => true
    case Fetch => false
    case Open => s.temporary.None?
    case Read => false
    case Write(_) => s.temporary.Some?
    case Settle => true
    case Link => s.temporary.Some? && s.destination.None?
    case Unlink => s.temporary.Some?
    case Rename => s.temporary.Some?
    case Recheck => true
    case Remove => s.destination.Some?
    case RenameAgain => s.temporary.Some?
  }

  predicate Enabled(s: State, e: Event)
  {
    match e
    case OthersWrite(_) => true
    case Fetched(_) => s.control == Awaiting(Fetch)
    case Delivers(chunk) => s.control == Awaiting(Read) && chunk != []
    case EndOfBody => s.control == Awaiting(Read)
    case Succeeds => s.control.Awaiting? && CanSucceed(s, s.control.op)
    case Refused => s.control == Awaiting(Rename)
    case Fails(_) => s.control.Awaiting?
    case Abandon => s.control.Awaiting?
    case CleanUp(_) => s.control.Cleaning?
    case OrphanRuns(_) => s.orphan.Some?
  }

  /** Leaves the body of the download; the guard of the temporary file exists after the first inspection. */
  function Stop(s: State, outcome: Outcome): State
  {
    s.(control := if s.control == Awaiting(Inspect) then Finished(outcome) else Cleaning(outcome))
  }

  function Publish(s: State): State
  {
    s.(destination := s.temporary, owner := Install)
  }

  /** The length check after the last byte is on disk. */
  function Checked(c: Config, s: State): State
  {
    if s.declared.Some? && s.declared.value != |s.received| then Stop(s, Failed)
    else s.(whole := Some(s.received), control := Awaiting(if c.overwrite then Rename else Link))
  }

  function Succeeded(c: Config, s: State): State
    requires s.control.Awaiting? && CanSucceed(s, s.control.op)
  {
    match s.control.op
    case Inspect => if s.destination.Some? then Stop(s, AlreadyExists) else s.(control := Awaiting(Fetch))
    case Open => s.(temporary := Some([]), control := Awaiting(Read))
    case Write(chunk) =>
      s.(temporary := Some(s.temporary.value + chunk), received := s.received + chunk, control := Awaiting(Read))
    case Settle => Checked(c, s)
    case Link => Publish(s).(control := Awaiting(Unlink))
    case Unlink => Stop(s.(temporary := None), Installed(|s.received|))
    case Rename => Stop(Publish(s).(temporary := None), Installed(|s.received|))
    case Recheck => if s.destination.Some? then s.(control := Awaiting(Remove)) else Stop(s, Failed)
    case Remove => s.(destination := None, owner := Removal, control := Awaiting(RenameAgain))
    case RenameAgain => Stop(Publish(s).(temporary := None), Installed(|s.received|))
  }

  /** A failed write may have written part of its chunk. */
  function HasFailed(s: State, written: nat): State
    requires s.control.Awaiting?
  {
    match s.control.op
    case Write(chunk) =>
      var part := if written < |chunk| then chunk[..written] else chunk;
      Stop(if s.temporary.Some? then s.(temporary := Some(s.temporary.value + part)) else s, Failed)
    case _ => Stop(s, Failed)
  }

  /** The late effect of an operation nobody waits for any more. */
  function Orphaned(s: State, op: Op): State
    requires CanSucceed(s, op)
  {
    match op
    case Open => s.(temporary := Some([]), stray := s.cleaned)
    case Write(chunk) => s.(temporary := Some(s.temporary.value + chunk))
    case Link => Publish(s)
    case Unlink => s.(temporary := None)
    case Rename => Publish(s).(temporary := None)
    case Remove => s.(destination := None, owner := Removal)
    case RenameAgain => Publish(s).(temporary := None)
    case _ => s
  }

  function Apply(c: Config, s: State, e: Event): State
    requires Enabled(s, e)
  {
    match e
    case OthersWrite(content) => s.(destination := content, prior := content, owner := Others)
    case Fetched(length) => s.(declared := length, control := Awaiting(Open))
    case Delivers(chunk) => s.(control := Awaiting(Write(chunk)))
    case EndOfBody => s.(control := Awaiting(Settle))
    case Succeeds => Succeeded(c, s)
    case Refused => s.(control := Awaiting(Recheck))
    case Fails(written) => HasFailed(s, written)
    case Abandon => Stop(s, Abandoned).(orphan := Some(s.control.op))
    case CleanUp(ok) =>
      s.(control := Finished(s.control.outcome), temporary := if ok then None else s.temporary, cleaned := ok)
    case OrphanRuns(ok) =>
      (if ok && CanSucceed(s, s.orphan.value) then Orphaned(s, s.orphan.value) else s).(orphan := None)
  }

  function After(c: Config, events: seq<Event>): Option<State>
  {
    if events == [] then Some(Init(c))
    else
      match After(c, events[..|events| - 1])
      case None => None
      case Some(s) =>
        var e := events[|events| - 1];
        if Enabled(s, e) then Some(Apply(c, s, e)) else None
  }
}
