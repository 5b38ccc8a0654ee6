/**
 Runs of one output: the reconciler's passes (`src/infrastructure/bootstrap/egress.rs`) interleaved with the
 ends of its tasks (`src/infrastructure/bootstrap/egress_task.rs`). A stop unregisters the attempt at once; the
 cancelled task forgets the failures later, whatever has started since.
 */
module OutputRuns {
  import opened Prelude
  import opened OutputRetry

  /** What is remembered of the last failure. */
  datatype Failed = Failed(retries: nat, atMs: nat)

  /** The registered attempt, by how far its task is with ending on its own. */
  datatype Attempt =
    | Idle                           // none is registered
    | Running
    | Failing(hadProgress: bool)     // its token was read as not cancelled, and its progress
    | Recorded                       // its failure is recorded; it is about to unregister

  /**
   `cancelled` tasks were stopped while running and have yet to forget the failures; `late` ones were stopped
   after reading their token and have yet to record theirs. `starts` counts the starts since the output last made
   progress, was stopped while running, or was given up; `givenUp` is that count at each giving up.
   */
  datatype System = System(attempt: Attempt, cancelled: nat, late: seq<bool>, exhausted: bool,
                           failed: Option<Failed>, nowMs: nat, starts: nat, givenUp: seq<nat>)

  datatype Step =
    | Pass(wantsRunning: bool, hasIngest: bool, tracksReady: bool)
    | Fails(hadProgress: bool)
    | Records
    | Unregisters
    | TaskEnds
    | LateRecords(index: nat)
    | Elapses(ms: nat)
    | OperatorResets

  /** What stays fixed over a run: the starts allowed, and the backoff after each count of retries. */
  datatype Setting = Setting(maxRetries: nat, maxMs: nat, backoff: nat -> nat)

  ghost predicate IsSetting(setting: Setting) {
    setting.maxRetries <= U32_MAX && forall retries :: setting.backoff(retries) <= setting.maxMs
  }

  /** The setting of a policy and an output's jitter. */
  function SettingOf(policy: Policy, jitter: Jitter): Setting
    requires IsJitter(jitter)
  {
    Setting(policy.maxRetries, policy.maxMs, (retries: nat) => Backoff(policy, jitter, retries))
  }

  /** Every policy with every jitter is a setting, and decides what the setting decides. */
  lemma PoliciesAreSettings(policy: Policy, jitter: Jitter, s: System, step: Step)
    requires IsJitter(jitter) && policy.maxRetries <= U32_MAX && step.Pass?
    ensures IsSetting(SettingOf(policy, jitter))
    ensures Decision(s, step, SettingOf(policy, jitter)) ==
            DecideStart(SnapshotOf(s, step), FailureOf(s), policy, jitter)
  {
    forall retries ensures SettingOf(policy, jitter).backoff(retries) <= policy.maxMs {
      BackoffIsEqualJitter(policy, jitter, retries);
    }
  }

  /** How many starts without progress an output gets. */
  function Attempts(setting: Setting): nat {
    Max(1, setting.maxRetries)
  }

  function SnapshotOf(s: System, step: Step): Snapshot
    requires step.Pass?
  {
    Snapshot(step.wantsRunning, s.exhausted, !s.attempt.Idle?, step.hasIngest, step.tracksReady)
  }

  function FailureOf(s: System): Option<Failure> {
    if s.failed.None? then None else Some(Failure(s.failed.value.retries, SaturatingSub(s.nowMs, s.failed.value.atMs)))
  }

  function Decision(s: System, step: Step, setting: Setting): StartAction
    requires step.Pass?
  {
    DecideWith(SnapshotOf(s, step), FailureOf(s), setting.maxRetries, setting.backoff)
  }

  predicate Enabled(s: System, step: Step) {
    match step
    case Fails(_) => s.attempt.Running?
    case Records => s.attempt.Failing?
    case Unregisters => s.attempt.Recorded?
    case TaskEnds => s.cancelled > 0
    case LateRecords(index) => index < |s.late|
    case _ => true
  }

  function Counted(s: System, hadProgress: bool): Option<Failed> {
    var previous := if s.failed.None? then None else Some(s.failed.value.retries);
    Some(Failed(NextRetryCount(previous, hadProgress), s.nowMs))
  }

  function Passed(s: System, step: Step, setting: Setting): System
    requires step.Pass?
  {
    match Decision(s, step, setting)
    case StartNow => s.(attempt := Running, starts := s.starts + 1)
    case MarkFailed => s.(exhausted := true, failed := None, starts := 0, givenUp := s.givenUp + [s.starts])
    case NotApplicable => if DecideStop(SnapshotOf(s, step)).KeepRunning? then s else Stopped(s)
    case _ => s
  }

  /** The attempt is unregistered at once; what its task still does comes later. */
  function Stopped(s: System): System {
    match s.attempt
    case Running => s.(attempt := Idle, cancelled := s.cancelled + 1, starts := 0)
    case Failing(hadProgress) => s.(attempt := Idle, late := s.late + [hadProgress])
    case _ => s.(attempt := Idle)
  }

  function Next(s: System, step: Step, setting: Setting): System
    requires Enabled(s, step)
  {
    match step
    case Pass(_, _, _) => Passed(s, step, setting)
    case Fails(hadProgress) => s.(attempt := Failing(hadProgress), starts := if hadProgress then 1 else s.starts)
    case Records => s.(attempt := Recorded, failed := Counted(s, s.attempt.hadProgress))
    case Unregisters => s.(attempt := Idle)
    case TaskEnds => s.(cancelled := s.cancelled - 1, failed := None)
    case LateRecords(index) =>
      s.(late := s.late[..index] + s.late[index + 1..], failed := Counted(s, s.late[index]))
    case Elapses(ms) => s.(nowMs := s.nowMs + ms)
    case OperatorResets => s.(exhausted := false)
  }

  const START := System(Idle, 0, [], false, None, 0, 0, [])

  /** The system after a run of steps, if each was enabled. */
  function RunFrom(s: System, steps: seq<Step>, setting: Setting): Option<System>
    decreases |steps|
  {
    if steps == [] then Some(s)
    else if Enabled(s, steps[0]) then RunFrom(Next(s, steps[0], setting), steps[1..], setting)
    else None
  }

  // ---------- Starts that wait for earlier tasks ----------

  predicate Starts(s: System, step: Step, setting: Setting) {
    step.Pass? && Decision(s, step, setting) == StartNow
  }

  /** No earlier task has anything left to do to the failures. */
  predicate Settled(s: System) {
    s.cancelled == 0 && s.late == []
  }

  /** Every attempt of the run starts once the earlier tasks have ended. */
  ghost predicate IsPrompt(s: System, steps: seq<Step>, setting: Setting)
    decreases |steps|
  {
    steps != [] && Enabled(s, steps[0]) ==>
      && (Starts(s, steps[0], setting) ==> Settled(s))
      && IsPrompt(Next(s, steps[0], setting), steps[1..], setting)
  }

  /** The promise: never more starts than allowed, and never given up before they are used. */
  ghost predicate IsBounded(s: System, setting: Setting) {
    && s.starts <= Attempts(setting)
    && forall i :: 0 <= i < |s.givenUp| ==> s.givenUp[i] == Attempts(setting)
  }

  function Retries(s: System): nat {
    if s.failed.Some? then s.failed.value.retries else 0
  }

  /** The starts are the failures recorded and those to come. */
  ghost predicate StartsAreCounted(s: System) {
    if s.cancelled > 0 then s.starts == 0
    else if s.late != [] then s.starts == if s.late[0] then 1 else Retries(s) + 1
    else
      match s.attempt
      case Running => s.starts == Retries(s) + 1
      case Failing(hadProgress) => s.starts == if hadProgress then 1 else Retries(s) + 1
      case _ => s.starts == Retries(s)
  }

  ghost predicate Inv(s: System, setting: Setting) {
    && s.cancelled + |s.late| <= 1 && (!Settled(s) ==> s.attempt.Idle?)
    && StartsAreCounted(s)
    && (s.failed.Some? ==> 1 <= s.failed.value.retries <= Attempts(setting) && s.failed.value.atMs <= s.nowMs)
    && (s.attempt.Running? || s.attempt.Failing? || !Settled(s) ==>
          s.failed.Some? ==> s.failed.value.retries < setting.maxRetries)
    && (s.exhausted ==> s.attempt.Idle? && s.failed.None? && Settled(s))
    && (forall i :: 0 <= i < |s.givenUp| ==> s.givenUp[i] == Attempts(setting))
  }

  lemma PassKeepsInv(s: System, step: Step, setting: Setting)
    requires IsSetting(setting) && Inv(s, setting) && step.Pass? && (Starts(s, step, setting) ==> Settled(s))
    ensures Inv(Passed(s, step, setting), setting)
  {
    match Decision(s, step, setting) {
      case MarkFailed => assert s.starts == Attempts(setting);
      case _ =>
    }
  }

  lemma StepKeepsInv(s: System, step: Step, setting: Setting)
    requires IsSetting(setting) && Inv(s, setting) && Enabled(s, step) && (Starts(s, step, setting) ==> Settled(s))
    ensures Inv(Next(s, step, setting), setting)
  {
    if step.Pass? {
      PassKeepsInv(s, step, setting);
    }
  }

  lemma {:induction false} RunKeepsInv(s: System, steps: seq<Step>, setting: Setting)
    requires IsSetting(setting) && Inv(s, setting) && RunFrom(s, steps, setting).Some? && IsPrompt(s, steps, setting)
    ensures Inv(RunFrom(s, steps, setting).value, setting)
    decreases |steps|
  {
    if steps != [] {
      StepKeepsInv(s, steps[0], setting);
      RunKeepsInv(Next(s, steps[0], setting), steps[1..], setting);
    }
  }

  /** In every prompt run an output is given up after exactly its starts without progress, and never gets more. */
  lemma StartsAreBounded(steps: seq<Step>, setting: Setting)
    requires IsSetting(setting) && RunFrom(START, steps, setting).Some? && IsPrompt(START, steps, setting)
    ensures IsBounded(RunFrom(START, steps, setting).value, setting)
  {
    RunKeepsInv(START, steps, setting);
  }

  /**
   In every prompt run, a settled output that may start is given up by the next pass exactly when it has no start left.
   */
  lemma GivenUpExactly(steps: seq<Step>, setting: Setting)
    requires IsSetting(setting) && RunFrom(START, steps, setting).Some? && IsPrompt(START, steps, setting)
    requires var s := RunFrom(START, steps, setting).value; s.attempt.Idle? && !s.exhausted && Settled(s)
    ensures var s := RunFrom(START, steps, setting).value;
            Decision(s, Pass(true, true, true), setting) == MarkFailed <==> s.starts >= Attempts(setting)
  {
    RunKeepsInv(START, steps, setting);
  }

  // ---------- Runs put together ----------

  lemma {:induction false} RunConcat(s: System, a: seq<Step>, b: seq<Step>, setting: Setting)
    requires RunFrom(s, a, setting).Some?
    ensures RunFrom(s, a + b, setting) == RunFrom(RunFrom(s, a, setting).value, b, setting)
    ensures IsPrompt(s, a + b, setting)
       <==> IsPrompt(s, a, setting) && IsPrompt(RunFrom(s, a, setting).value, b, setting)
    decreases |a|
  {
    if a == [] {
      assert a + b == b;
    } else {
      assert (a + b)[1..] == a[1..] + b;
      RunConcat(Next(s, a[0], setting), a[1..], b, setting);
    }
  }

  ghost predicate Runs(s: System, steps: seq<Step>, t: System, setting: Setting) {
    RunFrom(s, steps, setting) == Some(t)
  }

  ghost predicate RunsPromptly(s: System, steps: seq<Step>, t: System, setting: Setting) {
    Runs(s, steps, t, setting) && IsPrompt(s, steps, setting)
  }

  lemma OneStep(s: System, step: Step, setting: Setting)
    requires Enabled(s, step)
    ensures Runs(s, [step], Next(s, step, setting), setting)
    ensures (Starts(s, step, setting) ==> Settled(s)) ==> IsPrompt(s, [step], setting)
  {
    assert [step][1..] == [];
  }

  lemma ThenRuns(s: System, a: seq<Step>, t: System, b: seq<Step>, u: System, setting: Setting)
    requires Runs(s, a, t, setting) && Runs(t, b, u, setting)
    ensures Runs(s, a + b, u, setting)
    ensures RunsPromptly(s, a, t, setting) && RunsPromptly(t, b, u, setting) ==> RunsPromptly(s, a + b, u, setting)
  {
    RunConcat(s, a, b, setting);
  }

  // ---------- An output that keeps failing ----------

  /** The attempt under way fails without progress. */
  function FailedAttempt(): seq<Step> {
    [Fails(false)] + [Records] + [Unregisters]
  }

  function AfterFailure(s: System): System {
    s.(attempt := Idle, failed := Counted(s, false))
  }

  lemma FailureRuns(s: System, setting: Setting)
    requires s.attempt.Running?
    ensures RunsPromptly(s, FailedAttempt(), AfterFailure(s), setting)
  {
    var s1 := Next(s, Fails(false), setting);
    var s2 := Next(s1, Records, setting);
    OneStep(s, Fails(false), setting);
    OneStep(s1, Records, setting);
    OneStep(s2, Unregisters, setting);
    ThenRuns(s, [Fails(false)], s1, [Records], s2, setting);
    ThenRuns(s, [Fails(false)] + [Records], s2, [Unregisters], AfterFailure(s), setting);
  }

  /** A start, its failure, and the longest backoff. */
  function OneAttempt(setting: Setting): seq<Step> {
    [Pass(true, true, true)] + FailedAttempt() + [Elapses(setting.maxMs)]
  }

  /** Nothing stands in the way of a start: no attempt, no earlier task, and no backoff left. */
  ghost predicate IsReady(s: System, setting: Setting) {
    && s.attempt.Idle? && Settled(s) && !s.exhausted
    && (s.failed.Some? ==> s.failed.value.retries > 0 && s.failed.value.atMs + setting.maxMs <= s.nowMs)
  }

  function Started(s: System): System {
    s.(attempt := Running, starts := s.starts + 1)
  }

  function AfterAttempt(s: System, setting: Setting): System {
    s.(failed := Counted(s, false), nowMs := s.nowMs + setting.maxMs, starts := s.starts + 1)
  }

  lemma ReadyRuns(s: System, setting: Setting)
    requires IsSetting(setting) && IsReady(s, setting) && (s.failed.Some? ==> Retries(s) < setting.maxRetries)
    ensures RunsPromptly(s, [Pass(true, true, true)], Started(s), setting)
  {
    if s.failed.Some? {
      assert setting.backoff(Retries(s)) <= setting.maxMs;
    }
    OneStep(s, Pass(true, true, true), setting);
  }

  lemma WaitRuns(s: System, ms: nat, setting: Setting)
    ensures RunsPromptly(s, [Elapses(ms)], s.(nowMs := s.nowMs + ms), setting)
  {
    OneStep(s, Elapses(ms), setting);
  }

  lemma AttemptRuns(s: System, setting: Setting)
    requires IsSetting(setting) && IsReady(s, setting) && (s.failed.Some? ==> Retries(s) < setting.maxRetries)
    ensures RunsPromptly(s, OneAttempt(setting), AfterAttempt(s, setting), setting)
  {
    var failed := AfterFailure(Started(s));
    ReadyRuns(s, setting);
    FailureRuns(Started(s), setting);
    WaitRuns(failed, setting.maxMs, setting);
    ThenRuns(s, [Pass(true, true, true)], Started(s), FailedAttempt(), failed, setting);
    ThenRuns(s, [Pass(true, true, true)] + FailedAttempt(), failed, [Elapses(setting.maxMs)],
             AfterAttempt(s, setting), setting);
  }

  function ManyAttempts(n: nat, setting: Setting): seq<Step> {
    if n == 0 then [] else OneAttempt(setting) + ManyAttempts(n - 1, setting)
  }

  function AfterAttempts(s: System, n: nat, setting: Setting): System
    decreases n
  {
    if n == 0 then s else AfterAttempts(AfterAttempt(s, setting), n - 1, setting)
  }

  lemma {:induction false} ManyAttemptsRun(s: System, n: nat, setting: Setting)
    requires IsSetting(setting) && IsReady(s, setting) && Retries(s) + n <= Attempts(setting)
    ensures RunsPromptly(s, ManyAttempts(n, setting), AfterAttempts(s, n, setting), setting)
    decreases n
  {
    if n > 0 {
      AttemptRuns(s, setting);
      ManyAttemptsRun(AfterAttempt(s, setting), n - 1, setting);
      ThenRuns(s, OneAttempt(setting), AfterAttempt(s, setting), ManyAttempts(n - 1, setting),
               AfterAttempts(s, n, setting), setting);
    }
  }

  lemma {:induction false} AttemptsAddUp(s: System, n: nat, setting: Setting)
    requires IsSetting(setting) && IsReady(s, setting) && Retries(s) + n <= Attempts(setting)
    ensures var end := AfterAttempts(s, n, setting);
            && IsReady(end, setting) && end.starts == s.starts + n && Retries(end) == Retries(s) + n
            && end.givenUp == s.givenUp
    decreases n
  {
    if n > 0 {
      AttemptsAddUp(AfterAttempt(s, setting), n - 1, setting);
    }
  }

  /** From any ready state an output that keeps failing gets every start its recorded failures leave it. */
  lemma AttemptsAreUsed(s: System, n: nat, setting: Setting)
    requires IsSetting(setting) && IsReady(s, setting) && Retries(s) + n <= Attempts(setting)
    ensures var end := RunFrom(s, ManyAttempts(n, setting), setting);
            && end.Some? && IsPrompt(s, ManyAttempts(n, setting), setting) && IsReady(end.value, setting)
            && end.value.starts == s.starts + n && Retries(end.value) == Retries(s) + n
            && end.value.givenUp == s.givenUp
  {
    ManyAttemptsRun(s, n, setting);
    AttemptsAddUp(s, n, setting);
  }

  // ---------- Exactly when a start is safe ----------

  /** A prompt continuation after which the promise is broken. */
  ghost predicate Breaks(s: System, later: seq<Step>, setting: Setting) {
    RunFrom(s, later, setting).Some? && IsPrompt(s, later, setting) &&
        !IsBounded(RunFrom(s, later, setting).value, setting)
  }

  lemma AttemptsExceed(s: System, before: seq<Step>, ready: System, n: nat, setting: Setting)
    requires IsSetting(setting) && RunsPromptly(s, before, ready, setting)
    requires IsReady(ready, setting) && Retries(ready) + n <= Attempts(setting) < ready.starts + n
    ensures Breaks(s, before + ManyAttempts(n, setting), setting)
  {
    ManyAttemptsRun(ready, n, setting);
    AttemptsAddUp(ready, n, setting);
    ThenRuns(s, before, ready, ManyAttempts(n, setting), AfterAttempts(ready, n, setting), setting);
  }

  /**
   Started beside a cancelled task: the failure is recorded, that task forgets it, and a full set of starts follows.
   */
  lemma CancelledTaskBreaks(s: System, setting: Setting) returns (later: seq<Step>)
    requires IsSetting(setting) && s.attempt.Running? && s.cancelled == 1 && s.late == [] && s.starts == 1 &&
             !s.exhausted
    ensures Breaks(s, later, setting)
  {
    var failed := AfterFailure(s);
    var ready := Next(failed, TaskEnds, setting);
    FailureRuns(s, setting);
    OneStep(failed, TaskEnds, setting);
    ThenRuns(s, FailedAttempt(), failed, [TaskEnds], ready, setting);
    AttemptsExceed(s, FailedAttempt() + [TaskEnds], ready, Attempts(setting), setting);
    later := FailedAttempt() + [TaskEnds] + ManyAttempts(Attempts(setting), setting);
  }

  /** A late record, and the longest backoff after it. */
  lemma LateRecordRuns(s: System, setting: Setting)
    requires |s.late| == 1
    ensures RunsPromptly(s, [LateRecords(0)] + [Elapses(setting.maxMs)],
                         s.(late := [], failed := Counted(s, s.late[0]), nowMs := s.nowMs + setting.maxMs), setting)
  {
    var recorded := s.(late := [], failed := Counted(s, s.late[0]));
    assert s.late[..0] + s.late[1..] == [];
    OneStep(s, LateRecords(0), setting);
    WaitRuns(recorded, setting.maxMs, setting);
    ThenRuns(s, [LateRecords(0)], recorded, [Elapses(setting.maxMs)],
             recorded.(nowMs := s.nowMs + setting.maxMs), setting);
  }

  /** Started beside a task that records its progress late: that resets the count under the newer failure. */
  lemma LateProgressBreaks(s: System, setting: Setting) returns (later: seq<Step>)
    requires IsSetting(setting) && s.attempt.Running? && s.cancelled == 0 && s.late == [true] && s.starts == 2 &&
             !s.exhausted
    ensures Breaks(s, later, setting)
  {
    var failed := AfterFailure(s);
    var ready := failed.(late := [], failed := Counted(failed, true), nowMs := s.nowMs + setting.maxMs);
    var tail := [LateRecords(0)] + [Elapses(setting.maxMs)];
    FailureRuns(s, setting);
    LateRecordRuns(failed, setting);
    ThenRuns(s, FailedAttempt(), failed, tail, ready, setting);
    AttemptsExceed(s, FailedAttempt() + tail, ready, Attempts(setting) - 1, setting);
    later := FailedAttempt() + tail + ManyAttempts(Attempts(setting) - 1, setting);
  }

  /** Started beside a task that records its failure late, and stopped again: the failure outlives the stop. */
  lemma LateFailureBreaks(s: System, setting: Setting) returns (later: seq<Step>)
    requires IsSetting(setting) && s.attempt.Running? && s.cancelled == 0 && s.late == [false] && !s.exhausted
    requires Attempts(setting) > 1
    ensures Breaks(s, later, setting)
  {
    var stop := Pass(false, false, false);
    var stopped := s.(attempt := Idle, cancelled := 1, starts := 0);
    var ended := stopped.(cancelled := 0, failed := None);
    var ready := ended.(late := [], failed := Some(Failed(1, s.nowMs)), nowMs := s.nowMs + setting.maxMs);
    var tail, n := [LateRecords(0)] + [Elapses(setting.maxMs)], Attempts(setting) - 1;
    OneStep(s, stop, setting);
    OneStep(stopped, TaskEnds, setting);
    LateRecordRuns(ended, setting);
    ThenRuns(s, [stop], stopped, [TaskEnds], ended, setting);
    ThenRuns(s, [stop] + [TaskEnds], ended, tail, ready, setting);
    ManyAttemptsRun(ready, n, setting);
    AttemptsAddUp(ready, n, setting);
    var used := AfterAttempts(ready, n, setting);
    ThenRuns(s, [stop] + [TaskEnds] + tail, ready, ManyAttempts(n, setting), used, setting);
    later := [stop] + [TaskEnds] + tail + ManyAttempts(n, setting) + [Pass(true, true, true)];
    GivingUpEarlyBreaks(s, [stop] + [TaskEnds] + tail + ManyAttempts(n, setting), used, setting);
  }

  lemma GivingUpEarlyBreaks(s: System, before: seq<Step>, used: System, setting: Setting)
    requires RunsPromptly(s, before, used, setting)
    requires IsReady(used, setting) && used.failed.Some? && Retries(used) == Attempts(setting) > used.starts
    ensures Breaks(s, before + [Pass(true, true, true)], setting)
  {
    var pass := Pass(true, true, true);
    assert Decision(used, pass, setting) == MarkFailed;
    var end := Next(used, pass, setting);
    OneStep(used, pass, setting);
    ThenRuns(s, before, used, [pass], end, setting);
    assert end.givenUp[|used.givenUp|] != Attempts(setting);
  }

  /**
   Exactly when a start is safe: from every state a prompt run reaches, every prompt continuation keeps the promise
   if and only if no earlier task has yet to forget or record failures.
   */
  lemma StartIsSafeIff(s: System, step: Step, setting: Setting)
    requires IsSetting(setting) && Inv(s, setting) && Starts(s, step, setting)
    ensures (forall later :: !Breaks(Next(s, step, setting), later, setting)) <==> Settled(s)
  {
    var started := Next(s, step, setting);
    if Settled(s) {
      StepKeepsInv(s, step, setting);
      forall later ensures !Breaks(started, later, setting) {
        if RunFrom(started, later, setting).Some? && IsPrompt(started, later, setting) {
          RunKeepsInv(started, later, setting);
        }
      }
    } else {
      var later := [];
      if s.cancelled > 0 {
        later := CancelledTaskBreaks(started, setting);
      } else if s.late[0] {
        assert s.late == [true];
        later := LateProgressBreaks(started, setting);
      } else if s.starts < Attempts(setting) {
        assert s.late == [false];
        later := LateFailureBreaks(started, setting);
      }
      assert Breaks(started, later, setting);
    }
  }

  // ---------- Two such runs ----------

  /** With one start allowed, an output gets two: its ingest goes and comes back before the cancelled task has ended. */
  lemma ReturningIngestStartsTwice(setting: Setting)
    requires IsSetting(setting) && setting.maxRetries == 1
    ensures var pass, lost := Pass(true, true, true), Pass(true, false, true);
            var end := RunFrom(START, [pass] + [lost] + [pass] + FailedAttempt() + [TaskEnds] + [pass], setting);
            end.Some? && end.value.starts == 2 > Attempts(setting) && end.value.givenUp == []
  {
    var pass, lost := Pass(true, true, true), Pass(true, false, true);
    var stopped := START.(cancelled := 1);
    var failed := AfterFailure(Started(stopped));
    var forgotten := failed.(cancelled := 0, failed := None);
    OneStep(START, pass, setting);
    OneStep(Started(START), lost, setting);
    OneStep(stopped, pass, setting);
    FailureRuns(Started(stopped), setting);
    OneStep(failed, TaskEnds, setting);
    OneStep(forgotten, pass, setting);
    ThenRuns(START, [pass], Started(START), [lost], stopped, setting);
    ThenRuns(START, [pass] + [lost], stopped, [pass], Started(stopped), setting);
    ThenRuns(START, [pass] + [lost] + [pass], Started(stopped), FailedAttempt(), failed, setting);
    ThenRuns(START, [pass] + [lost] + [pass] + FailedAttempt(), failed, [TaskEnds], forgotten, setting);
    ThenRuns(START, [pass] + [lost] + [pass] + FailedAttempt() + [TaskEnds], forgotten, [pass], Started(forgotten),
             setting);
  }

  /** With two allowed, it is given up after one: the failure before a stop still counts against the start after it. */
  lemma StaleFailureGivesUpEarly(setting: Setting)
    requires IsSetting(setting) && setting.maxRetries == 2
    ensures var pass, lost := Pass(true, true, true), Pass(true, false, true);
            var end := RunFrom(START, OneAttempt(setting) + [pass] + [lost] + [pass] + FailedAttempt() + [pass],
                               setting);
            end.Some? && end.value.givenUp == [1] && Attempts(setting) == 2
  {
    var pass, lost := Pass(true, true, true), Pass(true, false, true);
    var one := AfterAttempt(START, setting);
    var stopped := one.(cancelled := 1, starts := 0);
    var failed := AfterFailure(Started(stopped));
    AttemptRuns(START, setting);
    ReadyRuns(one, setting);
    OneStep(Started(one), lost, setting);
    assert setting.backoff(1) <= setting.maxMs;
    OneStep(stopped, pass, setting);
    FailureRuns(Started(stopped), setting);
    OneStep(failed, pass, setting);
    ThenRuns(START, OneAttempt(setting), one, [pass], Started(one), setting);
    ThenRuns(START, OneAttempt(setting) + [pass], Started(one), [lost], stopped, setting);
    ThenRuns(START, OneAttempt(setting) + [pass] + [lost], stopped, [pass], Started(stopped), setting);
    ThenRuns(START, OneAttempt(setting) + [pass] + [lost] + [pass], Started(stopped), FailedAttempt(), failed, setting);
    ThenRuns(START, OneAttempt(setting) + [pass] + [lost] + [pass] + FailedAttempt(), failed, [pass],
             Next(failed, pass, setting), setting);
  }

  // ---------- Stopping, giving up and resetting ----------

  /** A pass stops an attempt exactly when it is not wanted or its ingest is gone, and leaves it alone otherwise. */
  lemma PassStops(s: System, step: Step, setting: Setting)
    requires step.Pass? && !s.attempt.Idle?
    ensures Next(s, step, setting).attempt.Idle? <==> !step.wantsRunning || !step.hasIngest
    ensures step.wantsRunning && step.hasIngest ==> Next(s, step, setting) == s
  {
  }

  /** A stopped task that was running will forget the failures; one that was failing will record its own. */
  lemma StopLeavesItsTask(s: System, setting: Setting)
    requires !s.attempt.Idle?
    ensures var stopped := Next(s, Pass(false, false, false), setting);
            && (s.attempt.Running? ==> Enabled(stopped, TaskEnds) && Next(stopped, TaskEnds, setting).failed.None?)
            && (s.attempt.Failing? ==>
                  && Enabled(stopped, LateRecords(|s.late|))
                  && Next(stopped, LateRecords(|s.late|), setting)
                     == s.(attempt := Idle, failed := Counted(s, s.attempt.hadProgress)))
            && (s.attempt.Recorded? ==> stopped == s.(attempt := Idle))
  {
    if s.attempt.Failing? {
      var late := s.late + [s.attempt.hadProgress];
      assert late[..|s.late|] + late[|s.late| + 1..] == s.late;
    }
  }

  /** An output given up never starts again until the operator resets it. */
  lemma {:induction false} GivenUpStays(s: System, steps: seq<Step>, setting: Setting)
    requires s.exhausted && s.attempt.Idle? && RunFrom(s, steps, setting).Some? && OperatorResets !in steps
    ensures var end := RunFrom(s, steps, setting).value;
            end.exhausted && end.attempt.Idle? && end.starts == s.starts && end.givenUp == s.givenUp
    decreases |steps|
  {
    if steps != [] {
      GivenUpStays(Next(s, steps[0], setting), steps[1..], setting);
    }
  }

  /** Giving up is what a pass does to an output that has no start left: from then on the above holds of it. */
  lemma PassGivesUp(s: System, step: Step, steps: seq<Step>, setting: Setting)
    requires step.Pass? && Decision(s, step, setting) == MarkFailed && OperatorResets !in steps
    requires RunFrom(Next(s, step, setting), steps, setting).Some?
    ensures var end := RunFrom(Next(s, step, setting), steps, setting).value;
            end.exhausted && end.attempt.Idle? && end.givenUp == s.givenUp + [s.starts]
  {
    GivenUpStays(Next(s, step, setting), steps, setting);
  }

  /** Once the operator resets it, the next pass that finds its ingest ready starts it. */
  lemma ResetStarts(s: System, setting: Setting)
    requires s.exhausted && s.attempt.Idle? && s.failed.None?
    ensures var reset := Next(s, OperatorResets, setting);
            Next(reset, Pass(true, true, true), setting) == s.(exhausted := false, attempt := Running,
                                                               starts := s.starts + 1)
  {
  }
}
