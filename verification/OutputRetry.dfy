/**
 Starting, stopping and retrying an output: the decisions of `src/application/reconcile.rs`, and the wait that
 the reconciler's pass over all outputs returns (`src/infrastructure/bootstrap/egress.rs`).
 */
module OutputRetry {
  import opened Prelude

  const U32_MAX: nat := 0xFFFF_FFFF

  const SHIFT_LIMIT: nat := 16

  datatype Policy = Policy(maxRetries: nat, baseMs: nat, maxMs: nat)

  /** The fraction hashed from an output's id and the shift. */
  type Jitter = nat -> real

  ghost predicate IsJitter(jitter: Jitter) {
    forall shift :: 0.0 <= jitter(shift) <= 1.0
  }

  datatype Failure = Failure(retries: nat, elapsedMs: nat)

  /** What a pass knows of an output. */
  datatype Snapshot = Snapshot(wantsRunning: bool, exhausted: bool, active: bool, hasIngest: bool, tracksReady: bool)

  datatype StartAction =
    | NotApplicable
    | SkipNoIngest
    | SkipProbePending
    | StartNow
    | MarkFailed
    | WaitRetry(retries: nat, backoffMs: nat, remainingMs: nat)

  datatype StopAction = KeepRunning | StopBecauseIngestLost | StopRequested

  // ---------- Backoff ----------

  function PowerOfTwo(n: nat): nat {
    if n == 0 then 1 else 2 * PowerOfTwo(n - 1)
  }

  function SaturatingMul(a: nat, b: nat): nat {
    Min(a * b, U64_MAX)
  }

  function Capped(policy: Policy, retries: nat): nat {
    Min(SaturatingMul(policy.baseMs, PowerOfTwo(Min(retries, SHIFT_LIMIT))), policy.maxMs)
  }

  /** The fraction of `half` that jitter adds, as the cast truncates it. */
  function JitterOf(fraction: real, half: nat): (ms: nat)
    requires 0.0 <= fraction <= 1.0
    ensures ms <= half
  {
    assert 0.0 <= fraction * half as real <= half as real;
    (fraction * half as real).Floor
  }

  function Backoff(policy: Policy, jitter: Jitter, retries: nat): nat
    requires IsJitter(jitter)
  {
    var half := Capped(policy, retries) / 2;
    half + JitterOf(jitter(Min(retries, SHIFT_LIMIT)), half)
  }

  lemma {:induction false} PowersGrow(m: nat, n: nat)
    requires m <= n
    ensures PowerOfTwo(m) <= PowerOfTwo(n)
  {
    if m < n {
      PowersGrow(m, n - 1);
    }
  }

  lemma ProductsGrow(a: nat, b: nat, c: nat)
    requires b <= c
    ensures a * b <= a * c
  {
  }

  /** More retries never shorten the cap, which never exceeds the policy's. */
  lemma CappedGrows(policy: Policy, retries: nat, more: nat)
    requires retries <= more
    ensures Capped(policy, retries) <= Capped(policy, more) <= policy.maxMs
  {
    var m, n := PowerOfTwo(Min(retries, SHIFT_LIMIT)), PowerOfTwo(Min(more, SHIFT_LIMIT));
    PowersGrow(Min(retries, SHIFT_LIMIT), Min(more, SHIFT_LIMIT));
    ProductsGrow(policy.baseMs, m, n);
  }

  lemma DoubledProduct(base: nat, n: nat)
    ensures base * PowerOfTwo(n + 1) == 2 * (base * PowerOfTwo(n))
  {
    var power := PowerOfTwo(n);
    assert base * (2 * power) == 2 * (base * power);
  }

  /**
   The capped delay starts at the base and doubles with each retry, up to the policy's maximum and the shift limit.
   */
  lemma CappedDoubles(policy: Policy, retries: nat)
    requires policy.maxMs <= U64_MAX
    ensures Capped(policy, 0) == Min(policy.baseMs, policy.maxMs)
    ensures Capped(policy, retries + 1)
         == if retries < 16 then Min(2 * Capped(policy, retries), policy.maxMs) else Capped(policy, retries)
  {
    if retries < SHIFT_LIMIT {
      DoubledProduct(policy.baseMs, retries);
    }
  }

  /** Jitter spreads the other half: none of it at 0, all of it at 1, and more for a larger fraction. */
  lemma JitterSpreadsTheHalf(policy: Policy, a: Jitter, b: Jitter, retries: nat)
    requires IsJitter(a) && IsJitter(b) && a(Min(retries, SHIFT_LIMIT)) <= b(Min(retries, SHIFT_LIMIT))
    ensures Backoff(policy, a, retries) <= Backoff(policy, b, retries)
    ensures a(Min(retries, SHIFT_LIMIT)) == 0.0 ==> Backoff(policy, a, retries) == Capped(policy, retries) / 2
    ensures a(Min(retries, SHIFT_LIMIT)) == 1.0 ==> Backoff(policy, a, retries) == Capped(policy, retries) / 2 * 2
  {
    JitterGrows(a(Min(retries, SHIFT_LIMIT)), b(Min(retries, SHIFT_LIMIT)), Capped(policy, retries) / 2);
  }

  lemma JitterGrows(f: real, g: real, half: nat)
    requires 0.0 <= f <= g <= 1.0
    ensures JitterOf(f, half) <= JitterOf(g, half)
    ensures f == 0.0 ==> JitterOf(f, half) == 0
    ensures f == 1.0 ==> JitterOf(f, half) == half
  {
    ScaledGrows(f, g, half as real);
  }

  lemma ScaledGrows(f: real, g: real, x: real)
    requires f <= g && x >= 0.0
    ensures f * x <= g * x
  {
  }

  /** Jitter keeps at least half the delay and never exceeds it; past the shift limit nothing changes. */
  lemma BackoffIsEqualJitter(policy: Policy, jitter: Jitter, retries: nat)
    requires IsJitter(jitter)
    ensures Capped(policy, retries) / 2 <= Backoff(policy, jitter, retries) <= Capped(policy, retries) <= policy.maxMs
    ensures retries >= SHIFT_LIMIT ==> Backoff(policy, jitter, retries) == Backoff(policy, jitter, SHIFT_LIMIT)
  {
  }

  // ---------- Decisions ----------

  /** The decision, given how long to back off after each count of retries. */
  function DecideWith(s: Snapshot, failure: Option<Failure>, maxRetries: nat, backoff: nat -> nat): StartAction {
    if !s.wantsRunning || s.exhausted || s.active then NotApplicable
    else if !s.hasIngest then SkipNoIngest
    else if !s.tracksReady then SkipProbePending
    else if failure.None? then StartNow
    else if failure.value.retries >= maxRetries then MarkFailed
    else
      var backoffMs := backoff(failure.value.retries);
      if failure.value.elapsedMs < backoffMs
      then WaitRetry(failure.value.retries, backoffMs, SaturatingSub(backoffMs, failure.value.elapsedMs))
      else StartNow
  }

  function DecideStart(s: Snapshot, failure: Option<Failure>, policy: Policy, jitter: Jitter): StartAction
    requires IsJitter(jitter)
  {
    DecideWith(s, failure, policy.maxRetries, (retries: nat) => Backoff(policy, jitter, retries))
  }

  function DecideStop(s: Snapshot): StopAction {
    if s.wantsRunning && s.active && !s.hasIngest then StopBecauseIngestLost
    else if !s.wantsRunning && s.active then StopRequested
    else KeepRunning
  }

  function NextRetryCount(previous: Option<nat>, hadProgress: bool): nat {
    if hadProgress then 1
    else Max(Min((if previous.Some? then previous.value else 0) + 1, U32_MAX), 1)
  }

  /**
   An output starts exactly when it is wanted, neither given up nor running, its ingest is there with its tracks known,
   and its last failure, if any, leaves it a retry and lies a whole backoff back.
   */
  lemma StartsExactly(s: Snapshot, failure: Option<Failure>, policy: Policy, jitter: Jitter)
    requires IsJitter(jitter)
    ensures DecideStart(s, failure, policy, jitter) == StartNow
       <==> && s.wantsRunning && !s.exhausted && !s.active && s.hasIngest && s.tracksReady
            && (failure.Some? ==> failure.value.retries < policy.maxRetries
                                  && failure.value.elapsedMs >= Backoff(policy, jitter, failure.value.retries))
    ensures DecideStart(s, failure, policy, jitter) == SkipProbePending
       <==> s.wantsRunning && !s.exhausted && !s.active && s.hasIngest && !s.tracksReady
    ensures DecideStart(s, failure, policy, jitter) == MarkFailed
       <==> && s.wantsRunning && !s.exhausted && !s.active && s.hasIngest && s.tracksReady
            && failure.Some? && failure.value.retries >= policy.maxRetries
  {
  }

  /** A wait ends exactly `remainingMs` later: no earlier moment starts the output, and every later one does. */
  lemma WaitEndsExactly(s: Snapshot, failure: Failure, policy: Policy, jitter: Jitter, laterMs: nat)
    requires IsJitter(jitter) && DecideStart(s, Some(failure), policy, jitter).WaitRetry?
    ensures DecideStart(s, Some(failure.(elapsedMs := failure.elapsedMs + laterMs)), policy, jitter) == StartNow
       <==> laterMs >= DecideStart(s, Some(failure), policy, jitter).remainingMs
    ensures var wait := DecideStart(s, Some(failure), policy, jitter);
            && wait.retries == failure.retries && wait.remainingMs > 0
            && wait.backoffMs == failure.elapsedMs + wait.remainingMs
  {
    assert failure.elapsedMs < Backoff(policy, jitter, failure.retries);
  }

  /**
   Starting and stopping do not chase each other: what starts an output keeps it, and what stops it does not start it.
   */
  lemma DecisionsDoNotFlap(s: Snapshot, failure: Option<Failure>, policy: Policy, jitter: Jitter)
    requires IsJitter(jitter)
    ensures DecideStart(s, failure, policy, jitter) == StartNow ==>
            DecideStop(s) == DecideStop(s.(active := true)) == KeepRunning
    ensures DecideStop(s) == StopRequested ==>
              DecideStart(s.(active := false), failure, policy, jitter) == NotApplicable
    ensures DecideStop(s) == StopBecauseIngestLost && !s.exhausted ==>
              DecideStart(s.(active := false), failure, policy, jitter) == SkipNoIngest
    ensures s.active && (!s.wantsRunning || !s.hasIngest) <==> DecideStop(s) != KeepRunning
  {
  }

  // ---------- The pass over all outputs ----------

  datatype Output = Output(snapshot: Snapshot, failure: Option<Failure>, jitter: Jitter)

  /** How long this output asks the reconciler to wait for it. */
  function WaitOf(output: Output, policy: Policy, intervalMs: nat): Option<nat>
    requires IsJitter(output.jitter)
  {
    match DecideStart(output.snapshot, output.failure, policy, output.jitter)
    case SkipProbePending => Some(intervalMs)
    case WaitRetry(_, _, remainingMs) => Some(remainingMs)
    case _ => None
  }

  /** An output in backoff asks for exactly the time until it starts; one whose probe is pending, for an interval. */
  lemma WaitIsUntilTheStart(output: Output, policy: Policy, intervalMs: nat, laterMs: nat)
    requires IsJitter(output.jitter)
    ensures var decision := DecideStart(output.snapshot, output.failure, policy, output.jitter);
            && (WaitOf(output, policy, intervalMs).Some? <==> decision.WaitRetry? || decision.SkipProbePending?)
            && (decision.SkipProbePending? ==> WaitOf(output, policy, intervalMs) == Some(intervalMs))
            && (decision.WaitRetry? ==>
                  var failure := output.failure.value.(elapsedMs := output.failure.value.elapsedMs + laterMs);
                  DecideStart(output.snapshot, Some(failure), policy, output.jitter) == StartNow
                  <==> laterMs >= WaitOf(output, policy, intervalMs).value)
  {
    if DecideStart(output.snapshot, output.failure, policy, output.jitter).WaitRetry? {
      WaitEndsExactly(output.snapshot, output.failure.value, policy, output.jitter, laterMs);
    }
  }

  /** The earliest wait of a pass: some output asks for it, none for less, and it is absent only when none waits. */
  method EarliestWait(outputs: seq<Output>, policy: Policy, intervalMs: nat) returns (next: Option<nat>)
    requires forall i :: 0 <= i < |outputs| ==> IsJitter(outputs[i].jitter)
    ensures next.Some? ==> exists i :: 0 <= i < |outputs| && WaitOf(outputs[i], policy, intervalMs) == next
    ensures forall i :: 0 <= i < |outputs| && WaitOf(outputs[i], policy, intervalMs).Some? ==>
                          next.Some? && next.value <= WaitOf(outputs[i], policy, intervalMs).value
  {
    next := None;
    for k := 0 to |outputs|
      invariant next.Some? ==> exists i :: 0 <= i < k && WaitOf(outputs[i], policy, intervalMs) == next
      invariant forall i :: 0 <= i < k && WaitOf(outputs[i], policy, intervalMs).Some? ==>
                              next.Some? && next.value <= WaitOf(outputs[i], policy, intervalMs).value
    {
      match DecideStart(outputs[k].snapshot, outputs[k].failure, policy, outputs[k].jitter) {
        case SkipProbePending =>
          assert WaitOf(outputs[k], policy, intervalMs) == Some(intervalMs);
          next := Some(if next.Some? then Min(next.value, intervalMs) else intervalMs);
        case WaitRetry(_, _, remainingMs) =>
          assert WaitOf(outputs[k], policy, intervalMs) == Some(remainingMs);
          next := Some(if next.Some? then Min(next.value, remainingMs) else remainingMs);
        case _ =>
      }
    }
  }
}
