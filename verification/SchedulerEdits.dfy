/**
 What a schedule still begins after an edit or a delete, when the scheduler has listed it before or edits have yet to
 save: the documented promise that occurrences past at an edit are not run, and its exact limits.
 */
module SchedulerEdits {
  import opened Prelude
  import opened Schedules
  import opened SchedulerRuns

  /** The system after further steps, if each was enabled. */
  function RunOn(s: System, steps: seq<Step>): Option<System>
    decreases |steps|
  {
    if steps == [] then Some(s)
    else if Enabled(s, steps[0]) then RunOn(Next(s, steps[0]), steps[1..])
    else None
  }

  /** No edit is read any more, and those read before save only if `saves`. */
  predicate IsClosed(steps: seq<Step>, saves: bool) {
    forall k :: 0 <= k < |steps| ==> !steps[k].ReadForEdit? && (steps[k].SaveEdit? ==> saves)
  }

  /** These steps begin an occurrence up to `bound`. */
  ghost predicate Reaches(s: System, steps: seq<Step>, saves: bool, bound: int) {
    && IsClosed(steps, saves) && RunOn(s, steps).Some?
    && var acted := RunOn(s, steps).value.acted;
       exists i :: |s.acted| <= i < |acted| && acted[i].occurrenceMs <= bound
  }

  /** An enabled schedule has an occurrence up to `bound` that its last run does not cover. */
  ghost predicate HasUncovered(draft: Draft, last: Option<int>, bound: int) {
    draft.enabled && exists t :: IsOccurrence(draft, t) && t <= bound && !AtLeast(last, t)
  }

  /** What the scheduler has yet to record, from a list or an action that came before. */
  function ToRecord(scheduler: Scheduler): Option<int> {
    match scheduler
    case Idle => None
    case Listed(snapshot, nowMs) =>
      (match DueAt(snapshot, nowMs) case Nothing => None case Run(t) => Some(t) case Skip(t) => Some(t))
    case Acting(t) => Some(t)
  }

  /** The row's last run once the scheduler is done. */
  function Settled(scheduler: Scheduler, last: Option<int>): Option<int> {
    if ToRecord(scheduler).Some? then ToRecord(scheduler) else last
  }

  /** The scheduler is about to begin an occurrence up to `bound`. */
  predicate IsAboutToBegin(scheduler: Scheduler, bound: int) {
    && scheduler.Listed? && DueAt(scheduler.snapshot, scheduler.nowMs).Run?
    && DueAt(scheduler.snapshot, scheduler.nowMs).occurrenceMs <= bound
  }

  /** An edit whose row leaves something up to `bound` uncovered, as saved or once the scheduler's record is on it. */
  ghost predicate EditUncovers(edit: Edit, scheduler: Scheduler, bound: int) {
    var row := Updated(edit.current, edit.draft, edit.nowMs);
    HasUncovered(row.draft, row.lastRunMs, bound) || HasUncovered(row.draft, Settled(scheduler, row.lastRunMs), bound)
  }

  ghost predicate SomeEditUncovers(s: System, bound: int) {
    exists i :: 0 <= i < |s.edits| && EditUncovers(s.edits[i], s.scheduler, bound)
  }

  ghost predicate RowUncovers(s: System, bound: int) {
    s.row.Some? && HasUncovered(s.row.value.draft, Settled(s.scheduler, s.row.value.lastRunMs), bound)
  }

  ghost predicate CanBegin(s: System, saves: bool, bound: int) {
    IsAboutToBegin(s.scheduler, bound) || RowUncovers(s, bound) || (saves && SomeEditUncovers(s, bound))
  }

  // ---------- Nothing begins unless it can ----------

  lemma ListRecordsLater(row: Schedule, nowMs: int, bound: int)
    requires !HasUncovered(row.draft, row.lastRunMs, bound)
    ensures !IsAboutToBegin(Listed(row, nowMs), bound)
    ensures ToRecord(Listed(row, nowMs)).Some? ==> ToRecord(Listed(row, nowMs)).value > bound
  {
    LatestIsGreatest(row.draft, nowMs);
  }

  lemma ListStillCannot(s: System, nowMs: int, saves: bool, bound: int)
    requires Enabled(s, List(nowMs)) && !CanBegin(s, saves, bound)
    ensures !CanBegin(Next(s, List(nowMs)), saves, bound)
  {
    var n := Next(s, List(nowMs));
    ListRecordsLater(s.row.value, nowMs, bound);
    forall i | saves && 0 <= i < |n.edits| ensures !EditUncovers(n.edits[i], n.scheduler, bound) {
      assert !EditUncovers(s.edits[i], s.scheduler, bound);
    }
  }

  lemma SaveStillCannot(s: System, index: nat, bound: int)
    requires Enabled(s, SaveEdit(index)) && !CanBegin(s, true, bound)
    ensures !CanBegin(Next(s, SaveEdit(index)), true, bound)
  {
    var n := Next(s, SaveEdit(index));
    assert !EditUncovers(s.edits[index], s.scheduler, bound);
    forall i | 0 <= i < |n.edits| ensures !EditUncovers(n.edits[i], n.scheduler, bound) {
      assert n.edits[i] == s.edits[if i < index then i else i + 1];
    }
  }

  lemma SchedulerStillCannot(s: System, step: Step, saves: bool, bound: int)
    requires Enabled(s, step) && (step.Handle? || step.Finish?) && !CanBegin(s, saves, bound)
    ensures !CanBegin(Next(s, step), saves, bound)
  {
    var n := Next(s, step);
    forall i | saves && 0 <= i < |n.edits| ensures !EditUncovers(n.edits[i], n.scheduler, bound) {
      assert !EditUncovers(s.edits[i], s.scheduler, bound);
    }
  }

  lemma StepStillCannot(s: System, step: Step, saves: bool, bound: int)
    requires s.created && Enabled(s, step) && !step.ReadForEdit? && (step.SaveEdit? ==> saves)
    requires !CanBegin(s, saves, bound)
    ensures var n := Next(s, step);
            && n.created && !CanBegin(n, saves, bound)
            && (n.acted == s.acted || exists begun :: n.acted == s.acted + [begun] && begun.occurrenceMs > bound)
  {
    match step {
      case List(nowMs) => ListStillCannot(s, nowMs, saves, bound);
      case SaveEdit(index) => SaveStillCannot(s, index, bound);
      case Handle(_) => SchedulerStillCannot(s, step, saves, bound);
      case Finish => SchedulerStillCannot(s, step, saves, bound);
      case _ =>
    }
  }

  lemma {:induction false} CannotBegin(s: System, steps: seq<Step>, saves: bool, bound: int)
    requires s.created && IsClosed(steps, saves) && RunOn(s, steps).Some? && !CanBegin(s, saves, bound)
    ensures var acted := RunOn(s, steps).value.acted;
            s.acted <= acted && forall i :: |s.acted| <= i < |acted| ==> acted[i].occurrenceMs > bound
    decreases |steps|
  {
    if steps != [] {
      StepStillCannot(s, steps[0], saves, bound);
      CannotBegin(Next(s, steps[0]), steps[1..], saves, bound);
    }
  }

  // ---------- Whatever can begin does, in some continuation ----------

  lemma StepFirst(s: System, step: Step, rest: seq<Step>, saves: bool, bound: int)
    requires Enabled(s, step) && !step.ReadForEdit? && (step.SaveEdit? ==> saves)
    requires Reaches(Next(s, step), rest, saves, bound)
    ensures Reaches(s, [step] + rest, saves, bound)
  {
    assert ([step] + rest)[1..] == rest;
    var acted := RunOn(Next(s, step), rest).value.acted;
    var i :| |Next(s, step).acted| <= i < |acted| && acted[i].occurrenceMs <= bound;
    assert |s.acted| <= i;
  }

  lemma AboutToBeginDoes(s: System, saves: bool, bound: int)
    requires IsAboutToBegin(s.scheduler, bound)
    ensures Reaches(s, [Handle(0)], saves, bound)
  {
    assert [Handle(0)][1..] == [];
    var acted := RunOn(s, [Handle(0)]).value.acted;
    assert acted[|s.acted|].occurrenceMs <= bound;
  }

  lemma IdleBegins(s: System, saves: bool, bound: int) returns (steps: seq<Step>)
    requires s.scheduler.Idle? && RowUncovers(s, bound)
    ensures Reaches(s, steps, saves, bound)
  {
    var row := s.row.value;
    var t :| IsOccurrence(row.draft, t) && t <= bound && !AtLeast(row.lastRunMs, t);
    RunsExactly(row, t, t);
    AboutToBeginDoes(Next(s, List(t)), saves, bound);
    StepFirst(s, List(t), [Handle(0)], saves, bound);
    steps := [List(t)] + [Handle(0)];
  }

  lemma ActingBegins(s: System, saves: bool, bound: int) returns (steps: seq<Step>)
    requires s.scheduler.Acting? && RowUncovers(s, bound)
    ensures Reaches(s, steps, saves, bound)
  {
    var rest := IdleBegins(Next(s, Finish), saves, bound);
    StepFirst(s, Finish, rest, saves, bound);
    steps := [Finish] + rest;
  }

  lemma RowBegins(s: System, saves: bool, bound: int) returns (steps: seq<Step>)
    requires RowUncovers(s, bound)
    ensures Reaches(s, steps, saves, bound)
  {
    match s.scheduler {
      case Idle => steps := IdleBegins(s, saves, bound);
      case Acting(_) => steps := ActingBegins(s, saves, bound);
      case Listed(_, _) =>
        var n := Next(s, Handle(0));
        var rest;
        if n.scheduler.Idle? {
          rest := IdleBegins(n, saves, bound);
        } else {
          rest := ActingBegins(n, saves, bound);
        }
        StepFirst(s, Handle(0), rest, saves, bound);
        steps := [Handle(0)] + rest;
    }
  }

  /** An edit saved once the scheduler is done. */
  lemma SavedLastBegins(s: System, index: nat, bound: int) returns (steps: seq<Step>)
    requires index < |s.edits|
    requires var edit := s.edits[index];
             var row := Updated(edit.current, edit.draft, edit.nowMs);
             HasUncovered(row.draft, row.lastRunMs, bound)
    ensures Reaches(s, steps, true, bound)
    decreases match s.scheduler case Idle => 0 case Acting(_) => 1 case Listed(_, _) => 2
  {
    var step := match s.scheduler case Idle => SaveEdit(index) case Acting(_) => Finish case Listed(_, _) => Handle(0);
    var rest;
    if s.scheduler.Idle? {
      rest := RowBegins(Next(s, step), true, bound);
    } else {
      rest := SavedLastBegins(Next(s, step), index, bound);
    }
    StepFirst(s, step, rest, true, bound);
    steps := [step] + rest;
  }

  lemma EditBegins(s: System, index: nat, bound: int) returns (steps: seq<Step>)
    requires index < |s.edits| && EditUncovers(s.edits[index], s.scheduler, bound)
    ensures Reaches(s, steps, true, bound)
  {
    if RowUncovers(Next(s, SaveEdit(index)), bound) {
      var rest := RowBegins(Next(s, SaveEdit(index)), true, bound);
      StepFirst(s, SaveEdit(index), rest, true, bound);
      steps := [SaveEdit(index)] + rest;
    } else {
      steps := SavedLastBegins(s, index, bound);
    }
  }

  /**
   From every state, some continuation without new edits begins an occurrence up to `bound` exactly when the scheduler
   has one in hand, or the row leaves one uncovered once the scheduler has recorded, or a pending edit's row does.
   */
  lemma BeginsIff(s: System, saves: bool, bound: int)
    requires s.created
    ensures (exists steps :: Reaches(s, steps, saves, bound)) <==> CanBegin(s, saves, bound)
  {
    if CanBegin(s, saves, bound) {
      if IsAboutToBegin(s.scheduler, bound) {
        AboutToBeginDoes(s, saves, bound);
      } else if RowUncovers(s, bound) {
        var steps := RowBegins(s, saves, bound);
      } else {
        var i :| 0 <= i < |s.edits| && EditUncovers(s.edits[i], s.scheduler, bound);
        var steps := EditBegins(s, i, bound);
      }
    } else {
      forall steps ensures !Reaches(s, steps, saves, bound) {
        if IsClosed(steps, saves) && RunOn(s, steps).Some? {
          CannotBegin(s, steps, saves, bound);
        }
      }
    }
  }

  // ---------- Occurrences past at an edit ----------

  /** The settings have an occurrence after `t` and up to `bound`. */
  predicate HasBetween(draft: Draft, t: int, bound: int) {
    draft.enabled && NextOccurrence(draft, t).Some? && NextOccurrence(draft, t).value <= bound
  }

  lemma UncoveredIsBetween(draft: Draft, t: int, bound: int)
    ensures HasUncovered(draft, Some(t), bound) <==> HasBetween(draft, t, bound)
  {
    NextIsLeast(draft, t);
  }

  lemma LatestCovers(draft: Draft, last: Option<int>, nowMs: int)
    ensures !HasUncovered(draft, Later(LatestOccurrence(draft, nowMs), last), nowMs)
  {
    LatestIsGreatest(draft, nowMs);
  }

  /** A schedule just added begins nothing that is past, in any continuation. */
  lemma AddedPassesOverThePast(draft: Draft, nowMs: int, steps: seq<Step>, saves: bool)
    ensures !Reaches(Next(Start(), Create(draft, nowMs)), steps, saves, nowMs)
  {
    LatestCovers(draft, None, nowMs);
    BeginsIff(Next(Start(), Create(draft, nowMs)), saves, nowMs);
  }

  /** What the scheduler took in hand before an edit was saved, and how that brings back what the edit passed over. */
  predicate BringsBack(scheduler: Scheduler, draft: Draft, nowMs: int) {
    match scheduler
    case Idle => false
    case Acting(t) => HasBetween(draft, t, nowMs)
    case Listed(snapshot, listedMs) =>
      match DueAt(snapshot, listedMs)
      case Nothing => false
      case Run(t) => t <= nowMs
      case Skip(t) => HasBetween(draft, t, nowMs)
  }

  /**
   Once an edit is saved, and until another is, an occurrence past on the edit's own clock begins exactly when the
   scheduler had listed one to run, or had listed one to skip or begun one and the new settings have another after it.
   */
  lemma PastBeginsIff(s: System, edit: Edit)
    requires s.created && s.row == Some(Updated(edit.current, edit.draft, edit.nowMs))
    ensures (exists steps :: Reaches(s, steps, false, edit.nowMs)) <==> BringsBack(s.scheduler, edit.draft, edit.nowMs)
  {
    BeginsIff(s, false, edit.nowMs);
    LatestCovers(edit.draft, edit.current.lastRunMs, edit.nowMs);
    if ToRecord(s.scheduler).Some? {
      UncoveredIsBetween(edit.draft, ToRecord(s.scheduler).value, edit.nowMs);
      NextIsLeast(edit.draft, ToRecord(s.scheduler).value);
    }
  }

  /** An edit saved while the scheduler is idle passes over what is past, in every continuation. */
  lemma EditPassesOverThePast(s: System, edit: Edit, steps: seq<Step>)
    requires s.created && s.row == Some(Updated(edit.current, edit.draft, edit.nowMs)) && s.scheduler.Idle?
    ensures !Reaches(s, steps, false, edit.nowMs)
  {
    PastBeginsIff(s, edit);
  }

  /** A slow run, an edit that passes over an occurrence after it, and the run's second record. */
  function EditDuringRun(atMs: int): seq<Step> {
    [Create(Draft(atMs, Daily, true), atMs - 1)] + [List(atMs)] + [Handle(atMs)]
    + [ReadForEdit(Draft(atMs + 1000, Daily, true), atMs + 2000)] + [SaveEdit(0)] + [Finish]
  }

  lemma EditDuringRunState(atMs: int)
    ensures After(EditDuringRun(atMs))
         == Some(System(true, Some(Schedule(Draft(atMs + 1000, Daily, true), Some(atMs))), [], Idle,
                        [Begun(atMs, atMs, atMs)]))
  {
    var first, second := Draft(atMs, Daily, true), Draft(atMs + 1000, Daily, true);
    var steps := [Create(first, atMs - 1)];
    var read := ReadForEdit(second, atMs + 2000);
    assert steps[..0] == [] && [] + [Begun(atMs, atMs, atMs)] == [Begun(atMs, atMs, atMs)];
    AfterOneMore(steps, List(atMs));
    AfterOneMore(steps + [List(atMs)], Handle(atMs));
    AfterOneMore(steps + [List(atMs)] + [Handle(atMs)], read);
    AfterOneMore(steps + [List(atMs)] + [Handle(atMs)] + [read], SaveEdit(0));
    AfterOneMore(steps + [List(atMs)] + [Handle(atMs)] + [read] + [SaveEdit(0)], Finish);
  }

  /** An occurrence the edit had passed over, since it was past on the edit's own clock, begins after all. */
  lemma FinishRevivesThePast(atMs: int)
    ensures var end := After(EditDuringRun(atMs) + [List(atMs + 3000)] + [Handle(atMs + 3000)]);
            end.Some? && end.value.acted == [Begun(atMs, atMs, atMs), Begun(atMs + 1000, atMs + 3000, atMs + 3000)]
  {
    EditDuringRunState(atMs);
    var steps := EditDuringRun(atMs);
    AfterOneMore(steps, List(atMs + 3000));
    AfterOneMore(steps + [List(atMs + 3000)], Handle(atMs + 3000));
  }

  /** A list, an edit that passes over an occurrence after the one listed, and the record of the listed one. */
  function EditDuringSkip(atMs: int): seq<Step> {
    [Create(Draft(atMs, Daily, true), atMs - 1)] + [List(atMs + 61_000)]
    + [ReadForEdit(Draft(atMs + 65_000, Daily, true), atMs + 70_000)] + [SaveEdit(0)] + [Handle(atMs + 70_000)]
  }

  lemma EditDuringSkipState(atMs: int)
    ensures After(EditDuringSkip(atMs))
         == Some(System(true, Some(Schedule(Draft(atMs + 65_000, Daily, true), Some(atMs))), [], Idle, []))
  {
    var steps := [Create(Draft(atMs, Daily, true), atMs - 1)];
    var list, read := List(atMs + 61_000), ReadForEdit(Draft(atMs + 65_000, Daily, true), atMs + 70_000);
    assert steps[..0] == [];
    AfterOneMore(steps, list);
    AfterOneMore(steps + [list], read);
    AfterOneMore(steps + [list] + [read], SaveEdit(0));
    AfterOneMore(steps + [list] + [read] + [SaveEdit(0)], Handle(atMs + 70_000));
  }

  /** No slow action is needed: the record of a skip listed before the edit does the same. */
  lemma SkipRevivesThePast(atMs: int)
    ensures var end := After(EditDuringSkip(atMs) + [List(atMs + 71_000)] + [Handle(atMs + 71_000)]);
            end.Some? && end.value.acted == [Begun(atMs + 65_000, atMs + 71_000, atMs + 71_000)]
  {
    EditDuringSkipState(atMs);
    var steps := EditDuringSkip(atMs);
    AfterOneMore(steps, List(atMs + 71_000));
    AfterOneMore(steps + [List(atMs + 71_000)], Handle(atMs + 71_000));
    var begun := Begun(atMs + 65_000, atMs + 71_000, atMs + 71_000);
    assert [] + [begun] == [begun];
  }

  /** A run listed before the edit begins, although the saved schedule is disabled. */
  lemma ListedRunIgnoresTheEdit(atMs: int)
    ensures var steps := [Create(Draft(atMs, Daily, true), atMs - 1)] + [List(atMs)]
                         + [ReadForEdit(Draft(atMs, Daily, false), atMs + 2000)] + [SaveEdit(0)]
                         + [Handle(atMs + 2000)];
            && After(steps).Some? && After(steps).value.acted == [Begun(atMs, atMs, atMs + 2000)]
            && After(steps).value.row.Some? && !After(steps).value.row.value.draft.enabled
  {
    var steps := [Create(Draft(atMs, Daily, true), atMs - 1)];
    var read := ReadForEdit(Draft(atMs, Daily, false), atMs + 2000);
    assert steps[..0] == [] && [] + [Begun(atMs, atMs, atMs + 2000)] == [Begun(atMs, atMs, atMs + 2000)];
    AfterOneMore(steps, List(atMs));
    AfterOneMore(steps + [List(atMs)], read);
    AfterOneMore(steps + [List(atMs)] + [read], SaveEdit(0));
    AfterOneMore(steps + [List(atMs)] + [read] + [SaveEdit(0)], Handle(atMs + 2000));
  }

  // ---------- Deleted schedules ----------

  lemma {:induction false} UneditedStaysDeleted(s: System, steps: seq<Step>)
    requires s.created && s.row.None? && s.edits == [] && RunOn(s, steps).Some?
    ensures RunOn(s, steps).value.row.None?
    decreases |steps|
  {
    if steps != [] {
      UneditedStaysDeleted(Next(s, steps[0]), steps[1..]);
    }
  }

  /** The schedule has a row again after these steps. */
  ghost predicate ComesBack(s: System, steps: seq<Step>) {
    RunOn(s, steps).Some? && RunOn(s, steps).value.row.Some?
  }

  /**
   A save inserts the row when there is none: a deleted schedule can come back exactly while an edit has yet to save.
   */
  lemma DeletedComesBackIff(s: System)
    requires s.created && s.row.None?
    ensures (exists steps :: ComesBack(s, steps)) <==> s.edits != []
  {
    if s.edits == [] {
      forall steps ensures !ComesBack(s, steps) {
        if RunOn(s, steps).Some? {
          UneditedStaysDeleted(s, steps);
        }
      }
    } else {
      assert [SaveEdit(0)][1..] == [];
      assert ComesBack(s, [SaveEdit(0)]);
    }
  }

  /** The settings have an occurrence that the last run does not cover. */
  predicate HasMore(draft: Draft, last: Option<int>) {
    draft.enabled && (last.Some? ==> NextOccurrence(draft, last.value).Some?)
  }

  lemma HasMoreIff(draft: Draft, last: Option<int>)
    ensures HasMore(draft, last) <==> exists bound :: HasUncovered(draft, last, bound)
  {
    if HasMore(draft, last) {
      if last.Some? {
        NextIsLeast(draft, last.value);
        assert HasUncovered(draft, last, NextOccurrence(draft, last.value).value);
      } else {
        assert IsOccurrence(draft, draft.atMs);
        assert HasUncovered(draft, last, draft.atMs);
      }
    }
    if exists bound :: HasUncovered(draft, last, bound) && last.Some? {
      NextIsLeast(draft, last.value);
    }
  }

  /** These steps begin an action. */
  ghost predicate BeginsSome(s: System, steps: seq<Step>) {
    exists bound :: Reaches(s, steps, true, bound)
  }

  /** A pending edit whose settings have more to run, as saved or once the scheduler's record is on them. */
  predicate EditHasMore(edit: Edit, scheduler: Scheduler) {
    var row := Updated(edit.current, edit.draft, edit.nowMs);
    HasMore(row.draft, row.lastRunMs) || HasMore(row.draft, Settled(scheduler, row.lastRunMs))
  }

  lemma EditHasMoreIff(edit: Edit, scheduler: Scheduler)
    ensures EditHasMore(edit, scheduler) <==> exists bound :: EditUncovers(edit, scheduler, bound)
  {
    var row := Updated(edit.current, edit.draft, edit.nowMs);
    HasMoreIff(row.draft, row.lastRunMs);
    HasMoreIff(row.draft, Settled(scheduler, row.lastRunMs));
    forall bound | HasUncovered(row.draft, row.lastRunMs, bound) ensures EditUncovers(edit, scheduler, bound) {}
    forall bound | HasUncovered(row.draft, Settled(scheduler, row.lastRunMs), bound)
      ensures EditUncovers(edit, scheduler, bound) {
    }
  }

  /**
   A deleted schedule begins an action, with no edit but those pending, exactly when the scheduler had listed it to run
   or a pending edit has more to run.
   */
  lemma DeletedRunsIff(s: System)
    requires s.created && s.row.None?
    ensures (exists steps :: BeginsSome(s, steps))
       <==> || (s.scheduler.Listed? && DueAt(s.scheduler.snapshot, s.scheduler.nowMs).Run?)
            || exists i :: 0 <= i < |s.edits| && EditHasMore(s.edits[i], s.scheduler)
  {
    forall i | 0 <= i < |s.edits|
      ensures EditHasMore(s.edits[i], s.scheduler) <==> exists bound :: EditUncovers(s.edits[i], s.scheduler, bound) {
      EditHasMoreIff(s.edits[i], s.scheduler);
    }
    if steps, bound :| Reaches(s, steps, true, bound) {
      BeginsIff(s, true, bound);
      assert BeginsSome(s, steps);
      if !IsAboutToBegin(s.scheduler, bound) {
        var i :| 0 <= i < |s.edits| && EditUncovers(s.edits[i], s.scheduler, bound);
        assert EditHasMore(s.edits[i], s.scheduler);
      }
    } else if s.scheduler.Listed? && DueAt(s.scheduler.snapshot, s.scheduler.nowMs).Run? {
      BeginsIff(s, true, DueAt(s.scheduler.snapshot, s.scheduler.nowMs).occurrenceMs);
    } else if i :| 0 <= i < |s.edits| && EditHasMore(s.edits[i], s.scheduler) {
      var bound :| EditUncovers(s.edits[i], s.scheduler, bound);
      BeginsIff(s, true, bound);
    }
  }

  /** A schedule deleted between an edit's read and its save. */
  function DeletedDuringEdit(atMs: int): seq<Step> {
    var draft := Draft(atMs, Daily, true);
    [Create(draft, atMs - 1)] + [ReadForEdit(draft, atMs - 1)] + [Delete] + [SaveEdit(0)]
  }

  lemma DeletedDuringEditState(atMs: int)
    ensures After(DeletedDuringEdit(atMs))
         == Some(System(true, Some(Schedule(Draft(atMs, Daily, true), None)), [], Idle, []))
  {
    var draft := Draft(atMs, Daily, true);
    var steps, read := [Create(draft, atMs - 1)], ReadForEdit(draft, atMs - 1);
    var edit := Edit(draft, atMs - 1, Schedule(draft, None), 0);
    assert steps[..0] == [] && [] + [edit] == [edit] && [edit][..0] + [edit][1..] == [];
    AfterOneMore(steps, read);
    AfterOneMore(steps + [read], Delete);
    AfterOneMore(steps + [read] + [Delete], SaveEdit(0));
  }

  /** It is saved again, and runs. */
  lemma DeletedScheduleRuns(atMs: int)
    ensures var end := After(DeletedDuringEdit(atMs) + [List(atMs)] + [Handle(atMs)]);
            end.Some? && end.value.acted == [Begun(atMs, atMs, atMs)]
  {
    DeletedDuringEditState(atMs);
    var steps := DeletedDuringEdit(atMs);
    assert [] + [Begun(atMs, atMs, atMs)] == [Begun(atMs, atMs, atMs)];
    AfterOneMore(steps, List(atMs));
    AfterOneMore(steps + [List(atMs)], Handle(atMs));
  }

  /** A schedule deleted after the scheduler listed it runs, and no edit is involved. */
  lemma DeletedWhileListedRuns(atMs: int)
    ensures var steps := [Create(Draft(atMs, Daily, true), atMs - 1)] + [List(atMs)] + [Delete] + [Handle(atMs)];
            && After(steps).Some? && After(steps).value.row.None?
            && After(steps).value.acted == [Begun(atMs, atMs, atMs)]
  {
    var steps := [Create(Draft(atMs, Daily, true), atMs - 1)];
    assert steps[..0] == [] && [] + [Begun(atMs, atMs, atMs)] == [Begun(atMs, atMs, atMs)];
    AfterOneMore(steps, List(atMs));
    AfterOneMore(steps + [List(atMs)], Delete);
    AfterOneMore(steps + [List(atMs)] + [Delete], Handle(atMs));
  }
}
