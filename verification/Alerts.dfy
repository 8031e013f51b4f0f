/** Which feed observations raise an alert: the engine and the guarantees it gives over whole runs. */
module Alerts {
  import opened Objects
  import Statistics
  import SizeVerdict

  datatype WatchState = Running | Starting | Stopped | Error | Unknown

  datatype Severity = NoSeverity | Fine | Warning | Critical

  datatype Health = Health(
    status: Statistics.Status,
    lateSince: Option<int>,
    sizeStatus: SizeVerdict.SizeStatus,
    currentGapSeconds: Option<real>,
    severity: Severity)

  datatype Snapshot = Snapshot(
    watcherId: string,
    state: WatchState,
    health: Option<Health>,
    error: Option<string>,
    retryable: bool)

  datatype Policy = Policy(
    confirmObservations: int,
    cooldownMs: int,
    alertOnLate: bool,
    alertOnSizeAnomaly: bool,
    alertOnError: bool,
    alertOnRecovery: bool)

  datatype Kind = LateKind | SizeKind | ErrorKind | RecoveredKind

  datatype Alert = Alert(watcherId: string, kind: Kind, severity: Severity)

  /** Identity of one continuous problem. */
  datatype Episode =
    | ErrorEpisode(text: string)
    | LateEpisode(since: Option<int>)
    | SizeEpisode(size: SizeVerdict.SizeStatus, gap: real)

  datatype Memory = Memory(
    notifiedEpisode: Option<Episode>,
    lastAlertAt: Option<int>,
    consecutive: nat,
    pendingEpisode: Option<Episode>,
    everAlerted: bool,
    severity: Severity)

  const BLANK := Memory(None, None, 0, None, false, NoSeverity)

  predicate Anomalous(size: SizeVerdict.SizeStatus)
  {
    size.Empty? || size.Small? || size.Large?
  }

  function EpisodeOf(s: Snapshot): Option<Episode>
  {
    if s.state == Error then Some(ErrorEpisode(if s.error.Some? then s.error.value else "unknown"))
    else
      match s.health
      case None => None
      case Some(health) =>
        if health.status == Statistics.Late then Some(LateEpisode(health.lateSince))
        else if Anomalous(health.sizeStatus) then
          var gap := if health.currentGapSeconds.Some? then health.currentGapSeconds.value else 0.0;
          Some(SizeEpisode(health.sizeStatus, gap))
        else None
  }

  function KindOf(s: Snapshot): Option<Kind>
  {
    if s.state == Error then Some(ErrorKind)
    else
      match s.health
      case None => None
      case Some(health) =>
        if health.status == Statistics.Late then Some(LateKind)
        else if health.sizeStatus.Normal? || health.sizeStatus.Unknown? then None
        else Some(SizeKind)
  }

  predicate Enabled(policy: Policy, kind: Kind)
  {
    match kind
    case LateKind => policy.alertOnLate
    case SizeKind => policy.alertOnSizeAnomaly
    case ErrorKind => policy.alertOnError
    case RecoveredKind => policy.alertOnRecovery
  }

  function SeverityOf(s: Snapshot): Severity
  {
    if s.state == Error then if s.retryable then Warning else Critical
    else if s.health.Some? then s.health.value.severity
    else NoSeverity
  }

  function Confirmations(policy: Policy): int
  {
    if policy.confirmObservations > 1 then policy.confirmObservations else 1
  }

  // ----- One observation -----

  /** No problem is seen: the episode is over. */
  function Quiet(policy: Policy, m: Memory, s: Snapshot): (Memory, Option<Alert>)
  {
    var recovered := m.everAlerted && m.notifiedEpisode.Some?;
    var rested := m.(consecutive := 0, pendingEpisode := None, notifiedEpisode := None, severity := SeverityOf(s));
    if recovered && policy.alertOnRecovery
    then (rested.(everAlerted := false), Some(Alert(s.watcherId, RecoveredKind, Fine)))
    else (rested, None)
  }

  function Problem(policy: Policy, m: Memory, s: Snapshot, kind: Kind, episode: Episode, at: int)
    : (Memory, Option<Alert>)
  {
    var counted := m.(
      consecutive := if m.pendingEpisode == Some(episode) then m.consecutive + 1 else 1,
      pendingEpisode := Some(episode),
      severity := SeverityOf(s));
    var alreadyNotified := m.notifiedEpisode == Some(episode);
    var confirmed := counted.consecutive >= Confirmations(policy);
    var cooledDown := m.lastAlertAt.None? || at - m.lastAlertAt.value >= policy.cooldownMs;
    if alreadyNotified || !confirmed || !cooledDown then (counted, None)
    else
      (counted.(notifiedEpisode := Some(episode), lastAlertAt := Some(at), everAlerted := true),
       Some(Alert(s.watcherId, kind, SeverityOf(s))))
  }

  function Step(policy: Policy, m: Memory, s: Snapshot, at: int): (Memory, Option<Alert>)
  {
    var kind, episode := KindOf(s), EpisodeOf(s);
    if kind.None? || episode.None? then Quiet(policy, m, s)
    else if !Enabled(policy, kind.value) then (m.(severity := SeverityOf(s)), None)
    else Problem(policy, m, s, kind.value, episode.value, at)
  }

  class AlertEngine {
    var policy: Policy
    var memory: map<string, Memory>

    constructor (policy: Policy)
      ensures this.policy == policy && memory == map[]
    {
      this.policy := policy;
      memory := map[];
    }

    function MemoryOf(watcherId: string): Memory
      reads this
    {
      if watcherId in memory then memory[watcherId] else BLANK
    }

    method SetPolicy(policy: Policy)
      modifies this`policy
      ensures this.policy == policy
    {
      this.policy := policy;
    }

    method Forget(watcherId: string)
      modifies this`memory
      ensures memory == old(memory) - {watcherId}
      ensures MemoryOf(watcherId) == BLANK
    {
      memory := memory - {watcherId};
    }

    /** Feeds one observation in; only its own feed's memory changes. */
    method Observe(snapshot: Snapshot, at: int) returns (alert: Option<Alert>)
      modifies this`memory
      ensures var (after, raised) := Step(policy, old(MemoryOf(snapshot.watcherId)), snapshot, at);
              memory == old(memory)[snapshot.watcherId := after] && alert == raised
    {
      var id := snapshot.watcherId;
      var entry := if id in memory then memory[id] else BLANK;
      var kind, episode := KindOf(snapshot), EpisodeOf(snapshot);
      entry := entry.(severity := SeverityOf(snapshot));

      if kind.None? || episode.None? {
        var recovered := entry.everAlerted && entry.notifiedEpisode.Some?;
        entry := entry.(consecutive := 0, pendingEpisode := None, notifiedEpisode := None);
        alert := None;
        if recovered && policy.alertOnRecovery {
          entry := entry.(everAlerted := false);
          alert := Some(Alert(id, RecoveredKind, Fine));
        }
        memory := memory[id := entry];
        return;
      }

      if !Enabled(policy, kind.value) {
        memory := memory[id := entry];
        return None;
      }

      var consecutive := if entry.pendingEpisode == episode then entry.consecutive + 1 else 1;
      entry := entry.(consecutive := consecutive, pendingEpisode := episode);
      var alreadyNotified := entry.notifiedEpisode == episode;
      var confirmed := entry.consecutive >= Confirmations(policy);
      var cooledDown := entry.lastAlertAt.None? || at - entry.lastAlertAt.value >= policy.cooldownMs;
      if alreadyNotified || !confirmed || !cooledDown {
        memory := memory[id := entry];
        return None;
      }

      entry := entry.(notifiedEpisode := episode, lastAlertAt := Some(at), everAlerted := true);
      memory := memory[id := entry];
      alert := Some(Alert(id, kind.value, entry.severity));
    }
  }

  /** An observation has a kind exactly when it has an episode, and of the same sort. */
  lemma KindMatchesEpisode(s: Snapshot)
    ensures KindOf(s).Some? <==> EpisodeOf(s).Some?
    ensures KindOf(s) == Some(ErrorKind) <==> EpisodeOf(s).Some? && EpisodeOf(s).value.ErrorEpisode?
    ensures KindOf(s) == Some(LateKind) <==> EpisodeOf(s).Some? && EpisodeOf(s).value.LateEpisode?
    ensures KindOf(s) == Some(SizeKind) <==> EpisodeOf(s).Some? && EpisodeOf(s).value.SizeEpisode?
  {
  }
}
