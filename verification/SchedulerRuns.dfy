/**
 Runs of one schedule: the scheduler's list, record, act and record again, interleaved with edits that read
 and save in two steps (`update` in `src/application/schedules.rs`, `run_occurrence` and `run_scheduler` in
 `src/api/schedules.rs`). Every other schedule has a row of its own.
 */
module SchedulerRuns {
  import opened Prelude
  import opened Schedules

  /**
   An edit that has read the row at `current` and not yet saved; `actedAtRead` counts the runs begun before it read.
   */
  datatype Edit = Edit(draft: Draft, nowMs: int, current: Schedule, actedAtRead: nat)

  datatype Scheduler =
    | Idle
    | Listed(snapshot: Schedule, nowMs: int)
    | Acting(occurrenceMs: int)

  /**
   An action begun: for which occurrence, what the tick's clock said, and when it began. A tick reads the clock once and
   then waits for the actions of the schedules it lists earlier.
   */
  datatype Begun = Begun(occurrenceMs: int, nowMs: int, beginsMs: int)

  datatype System = System(created: bool, row: Option<Schedule>, edits: seq<Edit>, scheduler: Scheduler,
                           acted: seq<Begun>)

  datatype Step =
    | Create(draft: Draft, nowMs: int)
    | ReadForEdit(draft: Draft, nowMs: int)
    | SaveEdit(index: nat)
    | Delete
    | List(nowMs: int)
    | Handle(beginsMs: int)
    | Finish

  /** `UPDATE … SET last_run` on the row, when there is one. */
  function Recorded(row: Option<Schedule>, occurrenceMs: int): Option<Schedule> {
    if row.Some? then Some(row.value.(lastRunMs := Some(occurrenceMs))) else None
  }

  /** Ids are not reused: a row is created once. */
  predicate Enabled(s: System, step: Step) {
    match step
    case Create(_, _) => !s.created
    case ReadForEdit(_, _) => s.row.Some?
    case SaveEdit(index) => index < |s.edits|
    case Delete => s.row.Some?
    case List(_) => s.scheduler.Idle? && s.row.Some?
    case Handle(_) => s.scheduler.Listed?
    case Finish => s.scheduler.Acting?
  }

  function HandleListed(s: System, beginsMs: int): System
    requires s.scheduler.Listed?
  {
    match DueAt(s.scheduler.snapshot, s.scheduler.nowMs)
    case Nothing => s.(scheduler := Idle)
    case Run(t) => s.(row := Recorded(s.row, t), acted := s.acted + [Begun(t, s.scheduler.nowMs, beginsMs)],
                      scheduler := Acting(t))
    case Skip(t) => s.(row := Recorded(s.row, t), scheduler := Idle)
  }

  function Next(s: System, step: Step): System
    requires Enabled(s, step)
  {
    match step
    case Create(draft, nowMs) => s.(created := true, row := Some(Created(draft, nowMs)))
    case ReadForEdit(draft, nowMs) => s.(edits := s.edits + [Edit(draft, nowMs, s.row.value, |s.acted|)])
    case SaveEdit(index) =>
      var edit := s.edits[index];
      s.(row := Some(Updated(edit.current, edit.draft, edit.nowMs)), edits := s.edits[..index] + s.edits[index + 1..])
    case Delete => s.(row := None)
    case List(nowMs) => s.(scheduler := Listed(s.row.value, nowMs))
    case Handle(beginsMs) => HandleListed(s, beginsMs)
    case Finish => s.(row := Recorded(s.row, s.scheduler.occurrenceMs), scheduler := Idle)
  }

  function Start(): System {
    System(false, None, [], Idle, [])
  }

  function After(steps: seq<Step>): Option<System> {
    if steps == [] then Some(Start())
    else
      var s := After(steps[..|steps| - 1]);
      if s.Some? && Enabled(s.value, steps[|steps| - 1]) then Some(Next(s.value, steps[|steps| - 1])) else None
  }

  // ---------- At most once, in order, in time ----------

  /** `last` is at or after every run begun. */
  ghost predicate Covers(last: Option<int>, acted: seq<Begun>) {
    forall i :: 0 <= i < |acted| ==> AtLeast(last, acted[i].occurrenceMs)
  }

  ghost predicate StrictlyIncreasing(acted: seq<Begun>) {
    forall i, j :: 0 <= i < j < |acted| ==> acted[i].occurrenceMs < acted[j].occurrenceMs
  }

  /** Never seen before its time and never more than the grace after it. */
  ghost predicate SeenWithinGrace(acted: seq<Begun>) {
    forall i :: 0 <= i < |acted| ==> 0 <= acted[i].nowMs - acted[i].occurrenceMs <= RUN_GRACE_MS
  }

  ghost predicate Inv(s: System) {
    && (s.row.Some? ==> Covers(s.row.value.lastRunMs, s.acted))
    && (s.scheduler.Listed? ==> Covers(s.scheduler.snapshot.lastRunMs, s.acted))
    && (s.scheduler.Acting? ==> Covers(Some(s.scheduler.occurrenceMs), s.acted))
    && (forall i :: 0 <= i < |s.edits| ==> EditIsSound(s.edits[i], s.acted))
    && StrictlyIncreasing(s.acted) && SeenWithinGrace(s.acted)
    && (!s.created ==> s == Start())
  }

  /** The row an edit read covered the runs begun by then. */
  ghost predicate EditIsSound(edit: Edit, acted: seq<Begun>) {
    edit.actedAtRead <= |acted| && Covers(edit.current.lastRunMs, acted[..edit.actedAtRead])
  }

  /** A save that does not forget a run: the row it writes covers every run begun. */
  ghost predicate SaveForgetsNothing(s: System, step: Step)
    requires Enabled(s, step)
  {
    step.SaveEdit? ==>
      var edit := s.edits[step.index];
      Covers(Updated(edit.current, edit.draft, edit.nowMs).lastRunMs, s.acted)
  }

  /** No run begins between the edit's read and its save. */
  predicate Uninterrupted(s: System, step: Step)
    requires Enabled(s, step)
  {
    step.SaveEdit? ==> s.edits[step.index].actedAtRead == |s.acted|
  }

  /** An edit no run interrupts forgets nothing. */
  lemma UninterruptedForgetsNothing(s: System, step: Step)
    requires Inv(s) && Enabled(s, step) && Uninterrupted(s, step)
    ensures SaveForgetsNothing(s, step)
  {
    if step.SaveEdit? {
      assert EditIsSound(s.edits[step.index], s.acted);
      assert s.acted[..|s.acted|] == s.acted;
    }
  }

  /** An edit saved before anything else begins is such an edit. */
  lemma ImmediateSaveIsUninterrupted(s: System, draft: Draft, nowMs: int)
    requires s.row.Some?
    ensures Uninterrupted(Next(s, ReadForEdit(draft, nowMs)), SaveEdit(|s.edits|))
  {
  }

  lemma BeginKeepsInv(s: System, t: int, beginsMs: int)
    requires Inv(s) && s.scheduler.Listed? && DueAt(s.scheduler.snapshot, s.scheduler.nowMs) == Run(t)
    ensures Inv(HandleListed(s, beginsMs))
  {
    RunsExactly(s.scheduler.snapshot, s.scheduler.nowMs, t);
    var acted := s.acted + [Begun(t, s.scheduler.nowMs, beginsMs)];
    assert forall i :: 0 <= i < |s.acted| ==> s.acted[i].occurrenceMs < t;
    assert Covers(Some(t), acted);
    forall i | 0 <= i < |s.edits| ensures EditIsSound(s.edits[i], acted) {
      assert EditIsSound(s.edits[i], s.acted);
      assert acted[..s.edits[i].actedAtRead] == s.acted[..s.edits[i].actedAtRead];
    }
  }

  lemma SkipKeepsInv(s: System, t: int, beginsMs: int)
    requires Inv(s) && s.scheduler.Listed? && DueAt(s.scheduler.snapshot, s.scheduler.nowMs) == Skip(t)
    ensures Inv(HandleListed(s, beginsMs))
  {
    assert forall i :: 0 <= i < |s.acted| ==> s.acted[i].occurrenceMs < t;
    assert Covers(Some(t), s.acted);
  }

  lemma EditKeepsInv(s: System, step: Step)
    requires Inv(s) && Enabled(s, step) && (step.ReadForEdit? || step.SaveEdit?) && SaveForgetsNothing(s, step)
    ensures Inv(Next(s, step))
  {
    var n := Next(s, step);
    forall i | 0 <= i < |n.edits| ensures EditIsSound(n.edits[i], n.acted) {
      if step.SaveEdit? {
        assert n.edits[i] == s.edits[if i < step.index then i else i + 1];
      } else if i == |s.edits| {
        assert s.acted[..|s.acted|] == s.acted;
      }
    }
  }

  lemma StepKeepsInv(s: System, step: Step)
    requires Inv(s) && Enabled(s, step) && SaveForgetsNothing(s, step)
    ensures Inv(Next(s, step))
  {
    match step {
      case ReadForEdit(_, _) => EditKeepsInv(s, step);
      case SaveEdit(_) => EditKeepsInv(s, step);
      case Handle(beginsMs) =>
        match DueAt(s.scheduler.snapshot, s.scheduler.nowMs) {
          case Nothing =>
          case Run(t) => BeginKeepsInv(s, t, beginsMs);
          case Skip(t) => SkipKeepsInv(s, t, beginsMs);
        }
      case _ =>
    }
  }

  /** Every save of the run forgets nothing. */
  ghost predicate NothingForgotten(steps: seq<Step>)
    requires After(steps).Some?
  {
    steps == [] ||
    var init, last := steps[..|steps| - 1], steps[|steps| - 1];
    NothingForgotten(init) && SaveForgetsNothing(After(init).value, last)
  }

  lemma {:induction false} RunKeepsInv(steps: seq<Step>)
    requires After(steps).Some? && NothingForgotten(steps)
    ensures Inv(After(steps).value)
  {
    if steps != [] {
      var init := steps[..|steps| - 1];
      RunKeepsInv(init);
      StepKeepsInv(After(init).value, steps[|init|]);
    }
  }

  /** Whatever the clock does: occurrences are begun in order, each at most once, and seen within their grace. */
  lemma RunsAreInOrderAndInTime(steps: seq<Step>)
    requires After(steps).Some? && NothingForgotten(steps)
    ensures StrictlyIncreasing(After(steps).value.acted) && SeenWithinGrace(After(steps).value.acted)
  {
    RunKeepsInv(steps);
  }

  ghost predicate NoEditInterrupted(steps: seq<Step>)
    requires After(steps).Some?
  {
    steps == [] ||
    var init, last := steps[..|steps| - 1], steps[|steps| - 1];
    NoEditInterrupted(init) && Uninterrupted(After(init).value, last)
  }

  /** In particular when no run begins between an edit's read and its save. */
  lemma {:induction false} AtomicEditsForgetNothing(steps: seq<Step>)
    requires After(steps).Some? && NoEditInterrupted(steps)
    ensures NothingForgotten(steps)
  {
    if steps != [] {
      var init := steps[..|steps| - 1];
      AtomicEditsForgetNothing(init);
      RunKeepsInv(init);
      UninterruptedForgetsNothing(After(init).value, steps[|init|]);
    }
  }

  // ---------- How late an action begins ----------

  /** Every action of the run begins at most `waitMs` after its tick read the clock. */
  ghost predicate WaitsAtMost(steps: seq<Step>, waitMs: nat)
    requires After(steps).Some?
  {
    steps == [] ||
    var init, last := steps[..|steps| - 1], steps[|steps| - 1];
    WaitsAtMost(init, waitMs) && (last.Handle? ==> last.beginsMs - After(init).value.scheduler.nowMs <= waitMs)
  }

  /** Every action begins at most `lateMs` after its occurrence. */
  ghost predicate LateAtMost(acted: seq<Begun>, lateMs: int) {
    forall i :: 0 <= i < |acted| ==> acted[i].beginsMs - acted[i].occurrenceMs <= lateMs
  }

  /** The run, if it is one that waits at most `waitMs`, begins nothing later than `lateMs`. */
  ghost predicate IsLateAtMost(steps: seq<Step>, waitMs: nat, lateMs: int) {
    After(steps).Some? && WaitsAtMost(steps, waitMs) ==> LateAtMost(After(steps).value.acted, lateMs)
  }

  lemma {:induction false} WaitAddsToTheGrace(steps: seq<Step>, waitMs: nat)
    requires After(steps).Some? && WaitsAtMost(steps, waitMs)
    ensures LateAtMost(After(steps).value.acted, RUN_GRACE_MS + waitMs)
  {
    if steps != [] {
      WaitAddsToTheGrace(steps[..|steps| - 1], waitMs);
    }
  }

  /** A tick that sees its occurrence at the end of the grace, and waits. */
  function SeenLate(waitMs: nat): seq<Step> {
    [Create(Draft(0, Daily, true), -1)] + [List(RUN_GRACE_MS)] + [Handle(RUN_GRACE_MS + waitMs)]
  }

  lemma SeenLateBegins(waitMs: nat)
    ensures var end := After(SeenLate(waitMs));
            && end.Some? && WaitsAtMost(SeenLate(waitMs), waitMs)
            && end.value.acted == [Begun(0, RUN_GRACE_MS, RUN_GRACE_MS + waitMs)]
  {
    var create, list, handle := Create(Draft(0, Daily, true), -1), List(RUN_GRACE_MS), Handle(RUN_GRACE_MS + waitMs);
    var steps := [create];
    assert steps[..0] == [] && (steps + [list])[..1] == steps && SeenLate(waitMs)[..2] == steps + [list];
    AfterOneMore(steps, list);
    AfterOneMore(steps + [list], handle);
    assert WaitsAtMost(steps, waitMs);
    assert WaitsAtMost(steps + [list], waitMs);
    var begun := Begun(0, RUN_GRACE_MS, RUN_GRACE_MS + waitMs);
    assert [] + [begun] == [begun];
  }

  /**
   The grace bounds what a tick sees, not what it begins: with waits of at most `waitMs` behind the actions of other
   schedules, every run keeps to a lateness exactly if that is the grace and the wait together.
   */
  lemma LatenessIsGraceAndWaitIff(waitMs: nat, lateMs: int)
    ensures (forall steps :: IsLateAtMost(steps, waitMs, lateMs)) <==> lateMs >= 60_000 + waitMs
  {
    if lateMs >= RUN_GRACE_MS + waitMs {
      forall steps ensures IsLateAtMost(steps, waitMs, lateMs) {
        if After(steps).Some? && WaitsAtMost(steps, waitMs) {
          WaitAddsToTheGrace(steps, waitMs);
        }
      }
    } else {
      SeenLateBegins(waitMs);
      var acted := After(SeenLate(waitMs)).value.acted;
      assert acted[0].beginsMs - acted[0].occurrenceMs > lateMs;
      assert !IsLateAtMost(SeenLate(waitMs), waitMs, lateMs);
    }
  }

  // ---------- What a forgetful save leads to ----------

  /** A tick at `nowMs` that finds this row begins `t`. */
  ghost predicate Begins(schedule: Schedule, nowMs: int, t: int) {
    DueAt(schedule, nowMs) == Run(t)
  }

  /** On some clock a tick begins an occurrence up to `bound` exactly when the row has one it does not cover. */
  lemma SomeTickBeginsIff(schedule: Schedule, bound: int)
    ensures (exists nowMs, t :: Begins(schedule, nowMs, t) && t <= bound)
       <==> schedule.draft.enabled
            && exists t :: IsOccurrence(schedule.draft, t) && t <= bound && !AtLeast(schedule.lastRunMs, t)
  {
    if exists nowMs, t :: Begins(schedule, nowMs, t) && t <= bound {
      var nowMs, t :| Begins(schedule, nowMs, t) && t <= bound;
      RunsExactly(schedule, nowMs, t);
    }
    if schedule.draft.enabled
       && exists t :: IsOccurrence(schedule.draft, t) && t <= bound && !AtLeast(schedule.lastRunMs, t) {
      var t :| IsOccurrence(schedule.draft, t) && t <= bound && !AtLeast(schedule.lastRunMs, t);
      RunsExactly(schedule, t, t);
      assert Begins(schedule, t, t);
    }
  }

  /**
   A save lets an occurrence up to the run `begun` begin again exactly when its settings have one that neither its clock
   nor its read covers.
   */
  lemma SaveRepeatsRunIff(s: System, index: nat, begun: int)
    requires index < |s.edits|
    ensures var edit := s.edits[index];
            var row := Next(s, SaveEdit(index)).row.value;
            ((exists nowMs, t :: Begins(row, nowMs, t) && t <= begun)
             <==> edit.draft.enabled
                  && exists t :: IsOccurrence(edit.draft, t) && edit.nowMs < t <= begun
                                 && !AtLeast(edit.current.lastRunMs, t))
  {
    var edit := s.edits[index];
    var row := Next(s, SaveEdit(index)).row.value;
    SomeTickBeginsIff(row, begun);
    LatestIsGreatest(edit.draft, edit.nowMs);
    forall t | IsOccurrence(edit.draft, t)
      ensures AtLeast(row.lastRunMs, t) <==> t <= edit.nowMs || AtLeast(edit.current.lastRunMs, t) {
    }
  }

  lemma AfterOneMore(steps: seq<Step>, step: Step)
    requires After(steps).Some? && Enabled(After(steps).value, step)
    ensures After(steps + [step]) == Some(Next(After(steps).value, step))
  {
    assert (steps + [step])[..|steps|] == steps;
  }

  /** A schedule read for an edit, then run. */
  function ReadThenRun(atMs: int): seq<Step> {
    var draft := Draft(atMs, Daily, true);
    [Create(draft, atMs - 1)] + [ReadForEdit(draft, atMs - 1)] + [List(atMs)] + [Handle(atMs)] + [Finish]
  }

  lemma ReadThenRunState(atMs: int)
    ensures var draft := Draft(atMs, Daily, true);
            After(ReadThenRun(atMs)) == Some(System(true, Some(Schedule(draft, Some(atMs))),
                                                    [Edit(draft, atMs - 1, Schedule(draft, None), 0)],
                                                    Idle, [Begun(atMs, atMs, atMs)]))
  {
    var draft := Draft(atMs, Daily, true);
    var steps := [Create(draft, atMs - 1)];
    assert steps[..0] == [];
    assert [] + [Edit(draft, atMs - 1, Schedule(draft, None), 0)] == [Edit(draft, atMs - 1, Schedule(draft, None), 0)];
    assert [] + [Begun(atMs, atMs, atMs)] == [Begun(atMs, atMs, atMs)];
    AfterOneMore(steps, ReadForEdit(draft, atMs - 1));
    AfterOneMore(steps + [ReadForEdit(draft, atMs - 1)], List(atMs));
    AfterOneMore(steps + [ReadForEdit(draft, atMs - 1)] + [List(atMs)], Handle(atMs));
    AfterOneMore(steps + [ReadForEdit(draft, atMs - 1)] + [List(atMs)] + [Handle(atMs)], Finish);
  }

  /**
   An edit that keeps the settings, read before a run and saved after it: the next tick begins the same occurrence
   again.
   */
  lemma InterruptedEditRunsTwice(atMs: int)
    ensures var end := After(ReadThenRun(atMs) + [SaveEdit(0)] + [List(atMs + 1)] + [Handle(atMs + 1)]);
            end.Some? && end.value.acted == [Begun(atMs, atMs, atMs), Begun(atMs, atMs + 1, atMs + 1)]
  {
    ReadThenRunState(atMs);
    var steps := ReadThenRun(atMs);
    AfterOneMore(steps, SaveEdit(0));
    AfterOneMore(steps + [SaveEdit(0)], List(atMs + 1));
    AfterOneMore(steps + [SaveEdit(0)] + [List(atMs + 1)], Handle(atMs + 1));
  }

  // ---------- Never missed ----------

  /** An unedited schedule after ticks at `times`, and the occurrences run. */
  function Ticked(schedule: Schedule, times: seq<int>): (Schedule, seq<int>) {
    if times == [] then (schedule, [])
    else
      var (before, ran) := Ticked(schedule, times[..|times| - 1]);
      var nowMs := times[|times| - 1];
      (Handled(before, nowMs), if DueAt(before, nowMs).Run? then ran + [DueAt(before, nowMs).occurrenceMs] else ran)
  }

  ghost predicate Nondecreasing(times: seq<int>) {
    forall i, j :: 0 <= i < j < |times| ==> times[i] <= times[j]
  }

  /** Tick `k` is the first at or after `t`. */
  ghost predicate FirstSeenAt(times: seq<int>, k: nat, t: int) {
    k < |times| && times[k] >= t && forall i :: 0 <= i < k ==> times[i] < t
  }

  /** The first tick at or after `t` comes within the grace. */
  ghost predicate SeenInTime(times: seq<int>, t: int) {
    exists k: nat :: FirstSeenAt(times, k, t) && times[k] - t <= RUN_GRACE_MS
  }

  ghost predicate AllBefore(times: seq<int>, t: int) {
    forall k :: 0 <= k < |times| ==> times[k] < t
  }

  /** An occurrence is covered once it was covered before or a tick has come at or after it. */
  lemma {:induction false} TickedCovers(schedule: Schedule, times: seq<int>, t: int)
    requires schedule.draft.enabled && Nondecreasing(times) && IsOccurrence(schedule.draft, t)
    ensures var (after, ran) := Ticked(schedule, times);
            && after.draft == schedule.draft
            && (AtLeast(after.lastRunMs, t) <==> AtLeast(schedule.lastRunMs, t) || !AllBefore(times, t))
  {
    if times != [] {
      var init, nowMs := times[..|times| - 1], times[|times| - 1];
      TickedCovers(schedule, init, t);
      LatestIsGreatest(schedule.draft, nowMs);
      assert AllBefore(times, t) <==> AllBefore(init, t) && nowMs < t;
      assert !AllBefore(init, t) ==> nowMs >= t;
    }
  }

  lemma FirstSeenAfter(times: seq<int>, nowMs: int, k: nat, t: int)
    ensures FirstSeenAt(times + [nowMs], k, t)
       <==> FirstSeenAt(times, k, t) || (k == |times| && AllBefore(times, t) && nowMs >= t)
  {
    var grown := times + [nowMs];
    assert forall i :: 0 <= i < |times| ==> grown[i] == times[i];
  }

  lemma SeenInTimeAfter(times: seq<int>, nowMs: int, t: int)
    ensures SeenInTime(times + [nowMs], t)
       <==> SeenInTime(times, t) || (AllBefore(times, t) && 0 <= nowMs - t <= RUN_GRACE_MS)
  {
    var grown := times + [nowMs];
    if SeenInTime(grown, t) {
      var k: nat :| FirstSeenAt(grown, k, t) && grown[k] - t <= RUN_GRACE_MS;
      FirstSeenAfter(times, nowMs, k, t);
    }
    if SeenInTime(times, t) {
      var k: nat :| FirstSeenAt(times, k, t) && times[k] - t <= RUN_GRACE_MS;
      FirstSeenAfter(times, nowMs, k, t);
    } else if AllBefore(times, t) && 0 <= nowMs - t <= RUN_GRACE_MS {
      FirstSeenAfter(times, nowMs, |times|, t);
      assert grown[|times|] == nowMs;
    }
  }

  /** Two occurrences are further apart than the grace. */
  lemma OccurrencesAreApart(draft: Draft, t: int, u: int)
    requires IsOccurrence(draft, t) && IsOccurrence(draft, u) && t < u
    ensures u - t > RUN_GRACE_MS
  {
  }

  /** An occurrence not yet covered is run exactly when the first tick at or after it comes within the grace. */
  lemma {:induction false} RunIffSeenInTime(schedule: Schedule, times: seq<int>, t: int)
    requires schedule.draft.enabled && Nondecreasing(times)
    requires IsOccurrence(schedule.draft, t) && !AtLeast(schedule.lastRunMs, t)
    ensures t in Ticked(schedule, times).1 <==> SeenInTime(times, t)
  {
    if times != [] {
      var init, nowMs := times[..|times| - 1], times[|times| - 1];
      var (before, ran) := Ticked(schedule, init);
      RunIffSeenInTime(schedule, init, t);
      TickedCovers(schedule, init, t);
      assert times == init + [nowMs];
      SeenInTimeAfter(init, nowMs, t);
      RunsExactly(before, nowMs, t);
      assert Nondecreasing(init);
      if 0 <= nowMs - t <= RUN_GRACE_MS {
        forall u | IsOccurrence(schedule.draft, u) && u <= nowMs ensures u <= t {
          if t < u {
            OccurrencesAreApart(schedule.draft, t, u);
          }
        }
      }
    }
  }

  lemma CloseTicksSeeInTime(times: seq<int>, t: int, k: nat)
    requires Nondecreasing(times) && k < |times| && times != [] && times[0] < t <= times[k]
    requires forall i :: 0 < i < |times| ==> times[i] - times[i - 1] <= RUN_GRACE_MS + 1
    ensures SeenInTime(times, t)
    decreases k
  {
    if times[k - 1] >= t {
      CloseTicksSeeInTime(times, t, k - 1);
    } else {
      assert forall i :: 0 <= i < k ==> times[i] <= times[k - 1];
      assert FirstSeenAt(times, k, t);
    }
  }

  lemma {:induction false} RanOnce(schedule: Schedule, times: seq<int>)
    requires schedule.draft.enabled
    ensures var (after, ran) := Ticked(schedule, times);
            && after.draft == schedule.draft
            && (forall i :: 0 <= i < |ran| ==> AtLeast(after.lastRunMs, ran[i]))
            && forall i, j :: 0 <= i < j < |ran| ==> ran[i] < ran[j]
  {
    if times != [] {
      RanOnce(schedule, times[..|times| - 1]);
    }
  }

  /** Ticks no further apart than the grace run every occurrence after the first tick, exactly once. */
  lemma CloseTicksMissNothing(schedule: Schedule, times: seq<int>, t: int)
    requires schedule.draft.enabled && IsOccurrence(schedule.draft, t) && !AtLeast(schedule.lastRunMs, t)
    requires Nondecreasing(times) && times != [] && times[0] < t <= times[|times| - 1]
    requires forall i :: 0 < i < |times| ==> times[i] - times[i - 1] <= RUN_GRACE_MS + 1
    ensures var ran := Ticked(schedule, times).1;
            t in ran && forall i, j :: 0 <= i < j < |ran| ==> ran[i] < ran[j]
  {
    CloseTicksSeeInTime(times, t, |times| - 1);
    RunIffSeenInTime(schedule, times, t);
    RanOnce(schedule, times);
  }
}
