/** What the alert engine guarantees over every run of observations of one feed under one policy. */
module AlertLaws {
  import opened Objects
  import opened Alerts
  import Statistics
  import SizeVerdict

  datatype Observation = Observation(snapshot: Snapshot, at: int)

  function MemoryAfter(policy: Policy, run: seq<Observation>): Memory
  {
    if run == [] then BLANK
    else
      var last := run[|run| - 1];
      Step(policy, MemoryAfter(policy, run[..|run| - 1]), last.snapshot, last.at).0
  }

  /** The alert raised by observation `i` of a run. */
  function AlertAt(policy: Policy, run: seq<Observation>, i: nat): Option<Alert>
    requires i < |run|
  {
    Step(policy, MemoryAfter(policy, run[..i]), run[i].snapshot, run[i].at).1
  }

  predicate ProblemAlert(policy: Policy, run: seq<Observation>, i: nat)
    requires i < |run|
  {
    AlertAt(policy, run, i).Some? && !AlertAt(policy, run, i).value.kind.RecoveredKind?
  }

  predicate RecoveryAlert(policy: Policy, run: seq<Observation>, i: nat)
    requires i < |run|
  {
    AlertAt(policy, run, i).Some? && AlertAt(policy, run, i).value.kind.RecoveredKind?
  }

  predicate NoProblem(o: Observation)
  {
    EpisodeOf(o.snapshot).None?
  }

  /** The policy asks for alerts of this kind. */
  predicate Asked(policy: Policy, kind: Kind)
  {
    || (kind == ErrorKind && policy.alertOnError) || (kind == LateKind && policy.alertOnLate)
    || (kind == SizeKind && policy.alertOnSizeAnomaly) || (kind == RecoveredKind && policy.alertOnRecovery)
  }

  predicate Skipped(policy: Policy, o: Observation)
  {
    KindOf(o.snapshot).Some? && !Asked(policy, KindOf(o.snapshot).value)
  }

  /** How many of the latest observations are of this episode, passing over disabled kinds. */
  function Streak(policy: Policy, run: seq<Observation>, episode: Episode): nat
  {
    if run == [] then 0
    else
      var front, last := run[..|run| - 1], run[|run| - 1];
      if NoProblem(last) then 0
      else if Skipped(policy, last) then Streak(policy, front, episode)
      else if EpisodeOf(last.snapshot) == Some(episode) then Streak(policy, front, episode) + 1
      else 0
  }

  // ----- What the memory records -----

  /** A problem alert is what a problem step raises, and it is fully recorded. */
  lemma StepCases(policy: Policy, m: Memory, s: Snapshot, at: int)
    ensures var (next, alert) := Step(policy, m, s, at);
            var problem := alert.Some? && !alert.value.kind.RecoveredKind?;
            && (problem ==>
                  && EpisodeOf(s).Some? && KindOf(s) == Some(alert.value.kind) && Enabled(policy, alert.value.kind)
                  && next.notifiedEpisode == EpisodeOf(s) && m.notifiedEpisode != EpisodeOf(s)
                  && next.pendingEpisode == EpisodeOf(s) && next.consecutive >= Confirmations(policy)
                  && next.lastAlertAt == Some(at) && next.everAlerted
                  && (m.lastAlertAt.Some? ==> at - m.lastAlertAt.value >= policy.cooldownMs))
            && (!problem ==>
                  && next.lastAlertAt == m.lastAlertAt
                  && (EpisodeOf(s).Some? ==>
                        next.notifiedEpisode == m.notifiedEpisode && next.everAlerted == m.everAlerted))
            && (alert.Some? && alert.value.kind.RecoveredKind? ==>
                  EpisodeOf(s).None? && m.everAlerted && !next.everAlerted)
            && (EpisodeOf(s).None? && alert.None? ==> next.everAlerted == m.everAlerted)
  {
    KindMatchesEpisode(s);
  }

  lemma NextMemory(policy: Policy, run: seq<Observation>, n: nat)
    requires n < |run|
    ensures MemoryAfter(policy, run[..n + 1])
         == Step(policy, MemoryAfter(policy, run[..n]), run[n].snapshot, run[n].at).0
  {
    assert run[..n + 1][..n] == run[..n];
  }

  // ----- Cooldown -----

  lemma {:induction false} AlertsAreRemembered(policy: Policy, run: seq<Observation>, n: nat, i: nat)
    requires i < n <= |run| && ProblemAlert(policy, run, i) && policy.cooldownMs >= 0
    ensures var m := MemoryAfter(policy, run[..n]);
            m.lastAlertAt.Some? && run[i].at <= m.lastAlertAt.value
    decreases n
  {
    hide Step;
    NextMemory(policy, run, n - 1);
    StepCases(policy, MemoryAfter(policy, run[..n - 1]), run[n - 1].snapshot, run[n - 1].at);
    if i < n - 1 {
      AlertsAreRemembered(policy, run, n - 1, i);
    }
  }

  /** Problem alerts of a feed are at least the cooldown apart, whatever the clock does in between. */
  lemma CooldownHolds(policy: Policy, run: seq<Observation>, i: nat, j: nat)
    requires i < j < |run| && policy.cooldownMs >= 0
    requires ProblemAlert(policy, run, i) && ProblemAlert(policy, run, j)
    ensures run[j].at - run[i].at >= policy.cooldownMs
  {
    hide Step, MemoryAfter;
    AlertsAreRemembered(policy, run, j, i);
    StepCases(policy, MemoryAfter(policy, run[..j]), run[j].snapshot, run[j].at);
  }

  // ----- One alert per episode -----

  /** Between two positions the episode is interrupted: no problem is seen, or another episode is alerted on. */
  ghost predicate Interrupted(policy: Policy, run: seq<Observation>, i: nat, j: nat, episode: Option<Episode>)
    requires j <= |run|
  {
    exists k: nat | i < k < j ::
      NoProblem(run[k]) || (ProblemAlert(policy, run, k) && EpisodeOf(run[k].snapshot) != episode)
  }

  lemma {:induction false} NotifiedOrInterrupted(policy: Policy, run: seq<Observation>, i: nat, n: nat)
    requires i < n <= |run| && ProblemAlert(policy, run, i)
    ensures var episode := EpisodeOf(run[i].snapshot);
            MemoryAfter(policy, run[..n]).notifiedEpisode == episode || Interrupted(policy, run, i, n, episode)
    decreases n
  {
    hide Step, MemoryAfter;
    var episode := EpisodeOf(run[i].snapshot);
    NextMemory(policy, run, n - 1);
    StepCases(policy, MemoryAfter(policy, run[..n - 1]), run[n - 1].snapshot, run[n - 1].at);
    if i < n - 1 {
      NotifiedOrInterrupted(policy, run, i, n - 1);
      if Interrupted(policy, run, i, n - 1, episode) {
        var k: nat :| i < k < n - 1
          && (NoProblem(run[k]) || (ProblemAlert(policy, run, k) && EpisodeOf(run[k].snapshot) != episode));
        assert i < k < n;
      }
    }
  }

  /** Two alerts for the same episode have an interruption between them. */
  lemma OneAlertPerEpisode(policy: Policy, run: seq<Observation>, i: nat, j: nat)
    requires i < j < |run| && ProblemAlert(policy, run, i) && ProblemAlert(policy, run, j)
    requires EpisodeOf(run[i].snapshot) == EpisodeOf(run[j].snapshot)
    ensures Interrupted(policy, run, i, j, EpisodeOf(run[i].snapshot))
  {
    hide Step, MemoryAfter, Interrupted;
    NotifiedOrInterrupted(policy, run, i, j);
    StepCases(policy, MemoryAfter(policy, run[..j]), run[j].snapshot, run[j].at);
  }

  // ----- Confirmation -----

  /** The counter is the length of the current streak. */
  lemma {:induction false} CounterIsStreak(policy: Policy, run: seq<Observation>, episode: Episode)
    ensures var m := MemoryAfter(policy, run);
            Streak(policy, run, episode) == if m.pendingEpisode == Some(episode) then m.consecutive else 0
  {
    if run != [] {
      var front, last := run[..|run| - 1], run[|run| - 1];
      CounterIsStreak(policy, front, episode);
      KindMatchesEpisode(last.snapshot);
    }
  }

  /** Every problem alert ends a streak of at least the required confirmations of its own episode. */
  lemma AlertsAreConfirmed(policy: Policy, run: seq<Observation>, i: nat)
    requires i < |run| && ProblemAlert(policy, run, i)
    ensures EpisodeOf(run[i].snapshot).Some?
    ensures Streak(policy, run[..i + 1], EpisodeOf(run[i].snapshot).value) >= 1
    ensures Streak(policy, run[..i + 1], EpisodeOf(run[i].snapshot).value) >= policy.confirmObservations
  {
    hide Step, MemoryAfter;
    StepCases(policy, MemoryAfter(policy, run[..i]), run[i].snapshot, run[i].at);
    NextMemory(policy, run, i);
    CounterIsStreak(policy, run[..i + 1], EpisodeOf(run[i].snapshot).value);
  }

  lemma {:induction false} StreakHasMember(policy: Policy, run: seq<Observation>, episode: Episode) returns (k: nat)
    requires Streak(policy, run, episode) >= 1
    ensures k < |run| && EpisodeOf(run[k].snapshot) == Some(episode) && !Skipped(policy, run[k])
  {
    var front, last := run[..|run| - 1], run[|run| - 1];
    if Skipped(policy, last) {
      k := StreakHasMember(policy, front, episode);
    } else {
      k := |run| - 1;
    }
  }

  /**
   * A size episode is told apart by the current gap as well. So with two or
   * more confirmations a size anomaly is alerted on only if an earlier
   * observation had the very same gap; one that persists while the gap grows
   * from poll to poll is never alerted on.
   */
  lemma SizeAlertNeedsRepeatedGap(policy: Policy, run: seq<Observation>, i: nat) returns (k: nat)
    requires i < |run| && ProblemAlert(policy, run, i) && AlertAt(policy, run, i).value.kind == SizeKind
    requires policy.confirmObservations >= 2
    ensures k < i && EpisodeOf(run[k].snapshot) == EpisodeOf(run[i].snapshot)
    ensures EpisodeOf(run[i].snapshot).Some? && EpisodeOf(run[i].snapshot).value.SizeEpisode?
  {
    hide Step, MemoryAfter;
    AlertsAreConfirmed(policy, run, i);
    StepCases(policy, MemoryAfter(policy, run[..i]), run[i].snapshot, run[i].at);
    KindMatchesEpisode(run[i].snapshot);
    assert run[..i + 1][..i] == run[..i];
    k := StreakHasMember(policy, run[..i], EpisodeOf(run[i].snapshot).value);
  }

  // ----- Exactly when an alert is raised -----

  /** `k` is the latest problem alert before position `n`. */
  ghost predicate LatestAlert(policy: Policy, run: seq<Observation>, k: nat, n: nat)
    requires n <= |run|
  {
    k < n && ProblemAlert(policy, run, k) && forall l: nat | k < l < n :: !ProblemAlert(policy, run, l)
  }

  lemma {:induction false} LatestAlertRecorded(policy: Policy, run: seq<Observation>, n: nat)
    requires n <= |run|
    ensures var at := MemoryAfter(policy, run[..n]).lastAlertAt;
            && (at.None? ==> forall k: nat | k < n :: !ProblemAlert(policy, run, k))
            && (at.Some? ==> exists k: nat :: LatestAlert(policy, run, k, n) && run[k].at == at.value)
    decreases n
  {
    hide Step, MemoryAfter;
    if n == 0 {
      NothingRemembered(policy, run);
    } else {
      NextMemory(policy, run, n - 1);
      StepCases(policy, MemoryAfter(policy, run[..n - 1]), run[n - 1].snapshot, run[n - 1].at);
      LatestAlertRecorded(policy, run, n - 1);
      if ProblemAlert(policy, run, n - 1) {
        assert LatestAlert(policy, run, n - 1, n);
      } else if MemoryAfter(policy, run[..n]).lastAlertAt.Some? {
        var k: nat :| LatestAlert(policy, run, k, n - 1)
          && run[k].at == MemoryAfter(policy, run[..n - 1]).lastAlertAt.value;
        assert LatestAlert(policy, run, k, n);
      }
    }
  }

  lemma NothingRemembered(policy: Policy, run: seq<Observation>)
    ensures MemoryAfter(policy, run[..0]) == BLANK
  {
  }

  /** Position `k` alerted on this episode and nothing has interrupted it before `n`. */
  ghost predicate StillNotified(policy: Policy, run: seq<Observation>, k: nat, n: nat, episode: Option<Episode>)
    requires n <= |run|
  {
    && k < n && ProblemAlert(policy, run, k) && EpisodeOf(run[k].snapshot) == episode
    && !Interrupted(policy, run, k, n, episode)
  }

  lemma {:induction false} NotifiedRecorded(policy: Policy, run: seq<Observation>, n: nat)
    requires n <= |run|
    ensures var episode := MemoryAfter(policy, run[..n]).notifiedEpisode;
            episode.Some? ==> exists k: nat :: StillNotified(policy, run, k, n, episode)
    decreases n
  {
    hide Step, MemoryAfter;
    if n == 0 {
      NothingRemembered(policy, run);
    } else {
      NextMemory(policy, run, n - 1);
      StepCases(policy, MemoryAfter(policy, run[..n - 1]), run[n - 1].snapshot, run[n - 1].at);
      QuietForgets(policy, MemoryAfter(policy, run[..n - 1]), run[n - 1].snapshot, run[n - 1].at);
      NotifiedRecorded(policy, run, n - 1);
      var episode := MemoryAfter(policy, run[..n]).notifiedEpisode;
      if ProblemAlert(policy, run, n - 1) {
        assert StillNotified(policy, run, n - 1, n, episode);
      } else if episode.Some? {
        var k: nat :| StillNotified(policy, run, k, n - 1, episode);
        assert StillNotified(policy, run, k, n, episode);
      }
    }
  }

  lemma QuietForgets(policy: Policy, m: Memory, s: Snapshot, at: int)
    ensures EpisodeOf(s).None? ==> Step(policy, m, s, at).0.notifiedEpisode.None?
  {
  }

  /** The three conditions of the policy, as facts about the run so far. */
  ghost predicate Warranted(policy: Policy, run: seq<Observation>, i: nat, episode: Episode)
    requires i < |run|
  {
    && !Skipped(policy, run[i])
    && Streak(policy, run[..i + 1], episode) >= 1
    && Streak(policy, run[..i + 1], episode) >= policy.confirmObservations
    && (forall k: nat | LatestAlert(policy, run, k, i) :: run[i].at - run[k].at >= policy.cooldownMs)
    && !exists k: nat :: StillNotified(policy, run, k, i, Some(episode))
  }

  lemma ProblemStep(policy: Policy, m: Memory, s: Snapshot, at: int)
    requires EpisodeOf(s).Some?
    ensures KindOf(s).Some?
    ensures var (next, alert) := Step(policy, m, s, at);
            alert.Some? && !alert.value.kind.RecoveredKind?
            <==> Enabled(policy, KindOf(s).value) && m.notifiedEpisode != EpisodeOf(s)
                 && next.pendingEpisode == EpisodeOf(s) && next.consecutive >= Confirmations(policy)
                 && (m.lastAlertAt.None? || at - m.lastAlertAt.value >= policy.cooldownMs)
  {
    KindMatchesEpisode(s);
  }

  /**
   * A problem alert is raised exactly when a problem of an enabled kind is
   * confirmed, the latest alert is at least the cooldown away, and no alert
   * for the same uninterrupted episode was raised before.
   */
  lemma AlertsExactlyWhenWarranted(policy: Policy, run: seq<Observation>, i: nat)
    requires i < |run|
    ensures ProblemAlert(policy, run, i)
       <==> EpisodeOf(run[i].snapshot).Some? && Warranted(policy, run, i, EpisodeOf(run[i].snapshot).value)
  {
    hide Step, MemoryAfter, Streak, StillNotified, LatestAlert;
    var m := MemoryAfter(policy, run[..i]);
    StepCases(policy, m, run[i].snapshot, run[i].at);
    if EpisodeOf(run[i].snapshot).Some? {
      var episode := EpisodeOf(run[i].snapshot).value;
      NextMemory(policy, run, i);
      ProblemStep(policy, m, run[i].snapshot, run[i].at);
      CounterIsStreak(policy, run[..i + 1], episode);
      LatestIsUnique(policy, run, i);
      NotifiedExactly(policy, run, i, episode);
    }
  }

  lemma LatestIsUnique(policy: Policy, run: seq<Observation>, i: nat)
    requires i < |run|
    ensures var at := MemoryAfter(policy, run[..i]).lastAlertAt;
            (forall k: nat | LatestAlert(policy, run, k, i) :: run[i].at - run[k].at >= policy.cooldownMs)
            <==> at.None? || run[i].at - at.value >= policy.cooldownMs
  {
    hide Step, MemoryAfter;
    LatestAlertRecorded(policy, run, i);
  }

  lemma NotifiedExactly(policy: Policy, run: seq<Observation>, i: nat, episode: Episode)
    requires i <= |run|
    ensures MemoryAfter(policy, run[..i]).notifiedEpisode == Some(episode)
       <==> exists k: nat :: StillNotified(policy, run, k, i, Some(episode))
  {
    hide Step, MemoryAfter, Interrupted;
    NotifiedRecorded(policy, run, i);
    forall k: nat | StillNotified(policy, run, k, i, Some(episode))
      ensures MemoryAfter(policy, run[..i]).notifiedEpisode == Some(episode)
    {
      NotifiedOrInterrupted(policy, run, k, i);
    }
  }

  // ----- Recoveries, exactly -----

  /** A problem was alerted on before position `n`, and none has been absent since. */
  ghost predicate StillOpen(policy: Policy, run: seq<Observation>, n: nat)
    requires n <= |run|
  {
    exists k: nat :: AlertedSince(policy, run, k, n)
  }

  ghost predicate AlertedSince(policy: Policy, run: seq<Observation>, k: nat, n: nat)
    requires n <= |run|
  {
    k < n && ProblemAlert(policy, run, k) && forall j: nat | k < j < n :: !NoProblem(run[j])
  }

  lemma StillOpenStep(policy: Policy, run: seq<Observation>, n: nat)
    requires n < |run|
    ensures StillOpen(policy, run, n + 1)
       <==> ProblemAlert(policy, run, n) || (StillOpen(policy, run, n) && !NoProblem(run[n]))
  {
    hide ProblemAlert, NoProblem;
    if ProblemAlert(policy, run, n) {
      assert AlertedSince(policy, run, n, n + 1);
    }
    if StillOpen(policy, run, n) && !NoProblem(run[n]) {
      var k: nat :| AlertedSince(policy, run, k, n);
      assert AlertedSince(policy, run, k, n + 1);
    }
    if StillOpen(policy, run, n + 1) && !ProblemAlert(policy, run, n) {
      var k: nat :| AlertedSince(policy, run, k, n + 1);
      assert AlertedSince(policy, run, k, n);
    }
  }

  lemma {:induction false} OpenIsRecorded(policy: Policy, run: seq<Observation>, n: nat)
    requires n <= |run|
    ensures var m := MemoryAfter(policy, run[..n]);
            (m.notifiedEpisode.Some? <==> StillOpen(policy, run, n)) && (m.notifiedEpisode.Some? ==> m.everAlerted)
    decreases n
  {
    hide Step, MemoryAfter, StillOpen;
    if n == 0 {
      NothingRemembered(policy, run);
      NothingOpen(policy, run);
    } else {
      var m, o := MemoryAfter(policy, run[..n - 1]), run[n - 1];
      NextMemory(policy, run, n - 1);
      StepCases(policy, m, o.snapshot, o.at);
      QuietForgets(policy, m, o.snapshot, o.at);
      OpenIsRecorded(policy, run, n - 1);
      StillOpenStep(policy, run, n - 1);
    }
  }

  lemma NothingOpen(policy: Policy, run: seq<Observation>)
    ensures !StillOpen(policy, run, 0)
  {
  }

  lemma RecoveryStep(policy: Policy, m: Memory, s: Snapshot, at: int)
    ensures var alert := Step(policy, m, s, at).1;
            && (alert.Some? && alert.value.kind.RecoveredKind?
                <==> EpisodeOf(s).None? && m.everAlerted && m.notifiedEpisode.Some? && policy.alertOnRecovery)
            && (alert.Some? && alert.value.kind.RecoveredKind? ==>
                  alert.value == Alert(s.watcherId, RecoveredKind, Fine))
  {
    KindMatchesEpisode(s);
  }

  /**
   * A recovery is alerted on exactly when the policy asks for it, the problem is
   * gone, and a problem was alerted on before with none absent in between.
   */
  lemma RecoversExactlyWhenOpen(policy: Policy, run: seq<Observation>, i: nat)
    requires i < |run|
    ensures RecoveryAlert(policy, run, i)
       <==> policy.alertOnRecovery && NoProblem(run[i]) && StillOpen(policy, run, i)
    ensures RecoveryAlert(policy, run, i) ==>
      AlertAt(policy, run, i) == Some(Alert(run[i].snapshot.watcherId, RecoveredKind, Fine))
  {
    hide Step, MemoryAfter, StillOpen;
    OpenIsRecorded(policy, run, i);
    RecoveryStep(policy, MemoryAfter(policy, run[..i]), run[i].snapshot, run[i].at);
  }

  // ----- What an alert says -----

  /** A problem of this kind, as the fields of the observation show it: an error first, then lateness, then size. */
  predicate Shows(s: Snapshot, kind: Kind)
  {
    match kind
    case ErrorKind => s.state == Error
    case LateKind => s.state != Error && s.health.Some? && s.health.value.status == Statistics.Late
    case SizeKind =>
      && s.state != Error && s.health.Some? && s.health.value.status != Statistics.Late
      && s.health.value.sizeStatus !in {SizeVerdict.Unknown, SizeVerdict.Normal}
    case RecoveredKind => false
  }

  /**
   * Every alert names its own feed, is of a kind the policy asks for, and shows
   * what was observed: an error is a warning while it may be retried and
   * critical otherwise, late and size problems keep the severity they came with.
   */
  lemma AlertsSayWhatIsSeen(policy: Policy, run: seq<Observation>, i: nat)
    requires i < |run| && AlertAt(policy, run, i).Some?
    ensures var alert, s := AlertAt(policy, run, i).value, run[i].snapshot;
            && alert.watcherId == s.watcherId && Asked(policy, alert.kind)
            && (!alert.kind.RecoveredKind? ==> Shows(s, alert.kind))
            && (alert.kind.RecoveredKind? ==> alert.severity == Fine && forall kind :: !Shows(s, kind))
            && (alert.kind.ErrorKind? ==> alert.severity == if s.retryable then Warning else Critical)
            && (alert.kind.LateKind? || alert.kind.SizeKind? ==> alert.severity == s.health.value.severity)
  {
    hide MemoryAfter;
  }

  /** The severity remembered of a feed is that of its latest observation, whether alerted on or not. */
  lemma SeverityIsLatest(policy: Policy, run: seq<Observation>)
    requires run != []
    ensures var s := run[|run| - 1].snapshot;
            MemoryAfter(policy, run).severity ==
            if s.state == Error then if s.retryable then Warning else Critical
            else if s.health.Some? then s.health.value.severity
            else NoSeverity
  {
    hide MemoryAfter;
    var n := |run| - 1;
    NextMemory(policy, run, n);
    assert run[..n + 1] == run;
  }

  /** Observations show one kind of problem at most, and one exactly when they have an episode. */
  lemma ProblemsAreShown(s: Snapshot)
    ensures EpisodeOf(s).Some? <==> exists kind :: Shows(s, kind)
    ensures forall kind :: KindOf(s) == Some(kind) <==> Shows(s, kind)
    ensures EpisodeOf(s) == (
      if Shows(s, ErrorKind) then Some(ErrorEpisode(if s.error.Some? then s.error.value else "unknown"))
      else if Shows(s, LateKind) then Some(LateEpisode(s.health.value.lateSince))
      else if Shows(s, SizeKind) then
        var gap := s.health.value.currentGapSeconds;
        Some(SizeEpisode(s.health.value.sizeStatus, if gap.Some? then gap.value else 0.0))
      else None)
  {
    if KindOf(s).Some? {
      assert Shows(s, KindOf(s).value);
    }
  }

  // ----- Size anomalies that go on -----

  /** From `from` on every observation is a size anomaly, at a gap never seen before. */
  ghost predicate Drifting(run: seq<Observation>, from: nat)
  {
    forall i | from <= i < |run| ::
      && EpisodeOf(run[i].snapshot).Some? && EpisodeOf(run[i].snapshot).value.SizeEpisode?
      && forall k | 0 <= k < i :: EpisodeOf(run[k].snapshot) != EpisodeOf(run[i].snapshot)
  }

  /** The latest problem alert, if any, is at least the cooldown away. */
  ghost predicate CooledDown(policy: Policy, run: seq<Observation>, i: nat)
    requires i < |run|
  {
    forall k: nat | LatestAlert(policy, run, k, i) :: run[i].at - run[k].at >= policy.cooldownMs
  }

  /**
   * A size anomaly whose gap differs at every observation, as it does while no
   * new object arrives, is never alerted on with two or more confirmations, and
   * with one or fewer at every single observation outside the cooldown.
   */
  lemma DriftingSizeAlerts(policy: Policy, run: seq<Observation>, from: nat, i: nat)
    requires Drifting(run, from) && from <= i < |run|
    ensures policy.confirmObservations >= 2 ==> !ProblemAlert(policy, run, i)
    ensures policy.confirmObservations <= 1 && policy.alertOnSizeAnomaly ==>
      (ProblemAlert(policy, run, i) <==> CooledDown(policy, run, i))
  {
    hide Step, MemoryAfter, Streak, StillNotified, LatestAlert;
    var episode := EpisodeOf(run[i].snapshot).value;
    KindMatchesEpisode(run[i].snapshot);
    if policy.confirmObservations >= 2 {
      SizeAlertsAreOfTheirKind(policy, run, i);
      if ProblemAlert(policy, run, i) {
        var k := SizeAlertNeedsRepeatedGap(policy, run, i);
        assert false;
      }
    } else if policy.alertOnSizeAnomaly {
      AlertsExactlyWhenWarranted(policy, run, i);
      NewStreak(policy, run, i, episode);
      NeverNotified(policy, run, i, episode);
    }
  }

  lemma SizeAlertsAreOfTheirKind(policy: Policy, run: seq<Observation>, i: nat)
    requires i < |run| && KindOf(run[i].snapshot) == Some(SizeKind)
    ensures ProblemAlert(policy, run, i) ==> AlertAt(policy, run, i).value.kind == SizeKind
  {
    hide Step, MemoryAfter;
    StepCases(policy, MemoryAfter(policy, run[..i]), run[i].snapshot, run[i].at);
  }

  lemma NewStreak(policy: Policy, run: seq<Observation>, i: nat, episode: Episode)
    requires i < |run| && EpisodeOf(run[i].snapshot) == Some(episode) && !Skipped(policy, run[i])
    ensures Streak(policy, run[..i + 1], episode) >= 1
  {
  }

  lemma NeverNotified(policy: Policy, run: seq<Observation>, i: nat, episode: Episode)
    requires i < |run| && forall k | 0 <= k < i :: EpisodeOf(run[k].snapshot) != Some(episode)
    ensures !exists k: nat :: StillNotified(policy, run, k, i, Some(episode))
  {
  }

  /** One anomaly, seen twice fifteen minutes apart, is alerted on twice with a single confirmation. */
  lemma OneAnomalyAlertsTwice()
    ensures var policy := Policy(1, 900_000, true, true, true, false);
            var run := [SmallAt(10.0, 0), SmallAt(910.0, 900_000)];
            ProblemAlert(policy, run, 0) && ProblemAlert(policy, run, 1)
  {
    hide Step, MemoryAfter;
    var policy := Policy(1, 900_000, true, true, true, false);
    var run := [SmallAt(10.0, 0), SmallAt(910.0, 900_000)];
    DriftingSizeAlerts(policy, run, 0, 0);
    DriftingSizeAlerts(policy, run, 0, 1);
  }

  /** A feed whose newest object is too small and this many seconds old. */
  function SmallAt(gap: real, at: int): Observation
  {
    var health := Health(Statistics.Healthy, None, SizeVerdict.Small, Some(gap), Warning);
    Observation(Snapshot("feed", Running, Some(health), None, false), at)
  }

  // ----- Recovery -----

  ghost predicate AlertedBetween(policy: Policy, run: seq<Observation>, i: nat, j: nat)
    requires j <= |run|
  {
    exists k: nat | i < k < j :: ProblemAlert(policy, run, k)
  }

  lemma {:induction false} RecoveredOrAlerted(policy: Policy, run: seq<Observation>, i: nat, n: nat)
    requires i < n <= |run| && RecoveryAlert(policy, run, i)
    ensures MemoryAfter(policy, run[..n]).everAlerted ==> AlertedBetween(policy, run, i, n)
    decreases n
  {
    hide Step, MemoryAfter;
    NextMemory(policy, run, n - 1);
    StepCases(policy, MemoryAfter(policy, run[..n - 1]), run[n - 1].snapshot, run[n - 1].at);
    if i < n - 1 {
      RecoveredOrAlerted(policy, run, i, n - 1);
      if ProblemAlert(policy, run, n - 1) {
        assert AlertedBetween(policy, run, i, n);
      } else if AlertedBetween(policy, run, i, n - 1) {
        var k: nat :| i < k < n - 1 && ProblemAlert(policy, run, k);
        assert i < k < n;
      }
    }
  }

  /** Two recoveries always have a problem alert between them. */
  lemma RecoveriesAlternate(policy: Policy, run: seq<Observation>, i: nat, j: nat)
    requires i < j < |run| && RecoveryAlert(policy, run, i) && RecoveryAlert(policy, run, j)
    ensures AlertedBetween(policy, run, i, j)
  {
    hide Step, MemoryAfter, AlertedBetween;
    RecoveredOrAlerted(policy, run, i, j);
    StepCases(policy, MemoryAfter(policy, run[..j]), run[j].snapshot, run[j].at);
  }

  // ----- A feed that goes late -----

  /** The health a poll reports for a history that no longer changes. */
  function HealthAt(objects: seq<S3Object>, configured: Option<nat>, severity: Severity, asOf: int): Health
  {
    var timing := Statistics.Describe(objects, asOf, configured).timing;
    Health(timing.status, timing.lateSince, SizeVerdict.ClassifyNewestSize(objects), timing.currentGapSeconds, severity)
  }

  /** From position `from` on, every poll succeeds, finds nothing new, and the clock does not go back. */
  ghost predicate Silent(run: seq<Observation>, from: nat, objects: seq<S3Object>, configured: Option<nat>,
    asOf: seq<int>)
  {
    && |asOf| == |run|
    && (forall i | from <= i < |run| ::
          && run[i].snapshot.state != Error && run[i].snapshot.health.Some?
          && run[i].snapshot.health.value
             == HealthAt(objects, configured, run[i].snapshot.health.value.severity, asOf[i]))
    && (forall i, j | from <= i < j < |run| :: asOf[i] <= asOf[j])
  }

  lemma SilentLateness(run: seq<Observation>, from: nat, objects: seq<S3Object>, configured: Option<nat>,
    asOf: seq<int>, i: nat, j: nat)
    requires Silent(run, from, objects, configured, asOf) && from <= i <= j < |run|
    requires EpisodeOf(run[i].snapshot).Some? && EpisodeOf(run[i].snapshot).value.LateEpisode?
    ensures EpisodeOf(run[j].snapshot) == EpisodeOf(run[i].snapshot)
  {
    hide Statistics.Describe, SizeVerdict.ClassifyNewestSize;
    Statistics.LatePersists(objects, configured, asOf[i], asOf[j]);
  }

  /** However it got there, a feed that falls silent raises at most one late alert from then on. */
  lemma AtMostOneLateAlert(policy: Policy, run: seq<Observation>, from: nat, objects: seq<S3Object>,
    configured: Option<nat>, asOf: seq<int>, i: nat, j: nat)
    requires Silent(run, from, objects, configured, asOf) && from <= i < j < |run|
    requires AlertAt(policy, run, i).Some? && AlertAt(policy, run, i).value.kind == LateKind
    ensures !(AlertAt(policy, run, j).Some? && AlertAt(policy, run, j).value.kind == LateKind)
  {
    hide Step, MemoryAfter, Silent, Interrupted;
    var episode := EpisodeOf(run[i].snapshot);
    StepCases(policy, MemoryAfter(policy, run[..i]), run[i].snapshot, run[i].at);
    KindMatchesEpisode(run[i].snapshot);
    SilentLateness(run, from, objects, configured, asOf, i, j);
    if AlertAt(policy, run, j).Some? && AlertAt(policy, run, j).value.kind == LateKind {
      OneAlertPerEpisode(policy, run, i, j);
      StaysUninterrupted(policy, run, from, objects, configured, asOf, i, j);
      assert false;
    }
  }

  lemma StaysUninterrupted(policy: Policy, run: seq<Observation>, from: nat, objects: seq<S3Object>,
    configured: Option<nat>, asOf: seq<int>, i: nat, j: nat)
    requires Silent(run, from, objects, configured, asOf) && from <= i <= j <= |run| && i < |run|
    requires EpisodeOf(run[i].snapshot).Some? && EpisodeOf(run[i].snapshot).value.LateEpisode?
    ensures !Interrupted(policy, run, i, j, EpisodeOf(run[i].snapshot))
  {
    hide Step, MemoryAfter, Silent, EpisodeOf;
    forall k: nat | i < k < j
      ensures EpisodeOf(run[k].snapshot) == EpisodeOf(run[i].snapshot)
    {
      SilentLateness(run, from, objects, configured, asOf, i, k);
    }
  }

  // ----- Many feeds -----

  /** The observations of one feed, in order. */
  function Of(run: seq<Observation>, id: string): seq<Observation>
  {
    if run == [] then []
    else Of(run[..|run| - 1], id) + if run[|run| - 1].snapshot.watcherId == id then [run[|run| - 1]] else []
  }

  /** The engine's table after interleaved observations of many feeds. */
  function Table(policy: Policy, run: seq<Observation>): map<string, Memory>
  {
    if run == [] then map[]
    else
      var before, last := Table(policy, run[..|run| - 1]), run[|run| - 1];
      var id := last.snapshot.watcherId;
      before[id := Step(policy, if id in before then before[id] else BLANK, last.snapshot, last.at).0]
  }

  /** Feeds do not influence each other: each remembers what its own observations alone would leave. */
  lemma {:induction false} FeedsAreIndependent(policy: Policy, run: seq<Observation>, id: string)
    ensures id in Table(policy, run) ==> Table(policy, run)[id] == MemoryAfter(policy, Of(run, id))
    ensures id !in Table(policy, run) ==> Of(run, id) == []
  {
    hide Step;
    if run != [] {
      var front, last := run[..|run| - 1], run[|run| - 1];
      FeedsAreIndependent(policy, front, id);
      var mine := Of(front, id);
      assert (mine + [last])[..|mine|] == mine && mine + [] == mine;
    }
  }

  /** Where among its own feed's observations the i-th observation stands. */
  function PlaceOf(run: seq<Observation>, i: nat): nat
    requires i < |run|
  {
    |Of(run[..i], run[i].snapshot.watcherId)|
  }

  lemma {:induction false} OfPrefix(run: seq<Observation>, n: nat, id: string)
    requires n <= |run|
    ensures Of(run[..n], id) <= Of(run, id)
  {
    if n == |run| {
      assert run[..n] == run;
    } else {
      OfPrefix(run[..|run| - 1], n, id);
      assert run[..|run| - 1][..n] == run[..n];
    }
  }

  lemma OwnPlace(run: seq<Observation>, i: nat)
    requires i < |run|
    ensures var mine := Of(run, run[i].snapshot.watcherId);
            && PlaceOf(run, i) < |mine| && mine[PlaceOf(run, i)] == run[i]
            && mine[..PlaceOf(run, i)] == Of(run[..i], run[i].snapshot.watcherId)
  {
    var id := run[i].snapshot.watcherId;
    OfPrefix(run, i + 1, id);
    assert run[..i + 1][..i] == run[..i];
    assert Of(run[..i + 1], id) == Of(run[..i], id) + [run[i]];
  }

  /** The engine alerts on an observation as if it served only that observation's feed. */
  lemma AlertIsOwnFeeds(policy: Policy, run: seq<Observation>, i: nat)
    requires i < |run|
    ensures var id := run[i].snapshot.watcherId;
            var table := Table(policy, run[..i]);
            && PlaceOf(run, i) < |Of(run, id)|
            && Step(policy, if id in table then table[id] else BLANK, run[i].snapshot, run[i].at).1
               == AlertAt(policy, Of(run, id), PlaceOf(run, i))
  {
    hide Step, Table;
    OwnPlace(run, i);
    FeedsAreIndependent(policy, run[..i], run[i].snapshot.watcherId);
    assert MemoryAfter(policy, []) == BLANK;
  }

  /** Observes a run; the memory is the run's table and every alert is the one of its own feed's run alone. */
  method ObserveAll(engine: AlertEngine, run: seq<Observation>) returns (alerts: seq<Option<Alert>>)
    requires engine.memory == map[]
    modifies engine`memory
    ensures engine.memory == Table(engine.policy, run)
    ensures |alerts| == |run|
    ensures forall i: nat | i < |run| ::
      && PlaceOf(run, i) < |Of(run, run[i].snapshot.watcherId)|
      && alerts[i] == AlertAt(engine.policy, Of(run, run[i].snapshot.watcherId), PlaceOf(run, i))
  {
    hide Step, AlertAt, Of, PlaceOf;
    alerts := [];
    var i := 0;
    while i < |run|
      invariant 0 <= i <= |run| && engine.memory == Table(engine.policy, run[..i])
      invariant |alerts| == i
      invariant forall k: nat | k < i ::
        && PlaceOf(run, k) < |Of(run, run[k].snapshot.watcherId)|
        && alerts[k] == AlertAt(engine.policy, Of(run, run[k].snapshot.watcherId), PlaceOf(run, k))
    {
      AlertIsOwnFeeds(engine.policy, run, i);
      assert run[..i + 1][..i] == run[..i];
      var alert := engine.Observe(run[i].snapshot, run[i].at);
      alerts := alerts + [alert];
      i := i + 1;
    }
    assert run[..i] == run;
  }
}
