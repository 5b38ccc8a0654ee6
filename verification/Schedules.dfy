/**
 When a scheduled event runs (`src/application/schedules.rs`), and the scheduler's tick over the stored
 schedules (`run_scheduler` in `src/api/schedules.rs`).
 */
module Schedules {
  import opened Prelude

  /** How late an occurrence may still run. */
  const RUN_GRACE_MS: int := 60_000

  const DAY_MS: int := 86_400_000

  datatype Repeat = Once | Daily | Weekly

  /** The settings that decide when a schedule runs. */
  datatype Draft = Draft(atMs: int, repeat: Repeat, enabled: bool)

  /** A stored schedule; `lastRunMs` is the occurrence last run, skipped or passed over. */
  datatype Schedule = Schedule(draft: Draft, lastRunMs: Option<int>)

  datatype Due = Nothing | Run(occurrenceMs: int) | Skip(occurrenceMs: int)

  function Period(repeat: Repeat): Option<int> {
    match repeat
    case Once => None
    case Daily => Some(DAY_MS)
    case Weekly => Some(7 * DAY_MS)
  }

  function LatestOccurrence(draft: Draft, nowMs: int): Option<int> {
    if nowMs < draft.atMs then None
    else
      match Period(draft.repeat)
      case None => Some(draft.atMs)
      case Some(period) => Some(draft.atMs + (nowMs - draft.atMs) / period * period)
  }

  function NextOccurrence(draft: Draft, nowMs: int): Option<int> {
    if nowMs < draft.atMs then Some(draft.atMs)
    else
      match Period(draft.repeat)
      case None => None
      case Some(period) => Some(draft.atMs + ((nowMs - draft.atMs) / period + 1) * period)
  }

  /** `Option` order, as `last >= occurrence` and `max` use it: no run is before every run. */
  predicate AtLeast(last: Option<int>, occurrence: int) {
    last.Some? && last.value >= occurrence
  }

  function Later(a: Option<int>, b: Option<int>): Option<int> {
    if a.None? then b else if AtLeast(b, a.value) then b else a
  }

  function DueAt(schedule: Schedule, nowMs: int): Due {
    if !schedule.draft.enabled then Nothing
    else
      var latest := LatestOccurrence(schedule.draft, nowMs);
      if latest.None? || AtLeast(schedule.lastRunMs, latest.value) then Nothing
      else if nowMs - latest.value <= RUN_GRACE_MS then Run(latest.value)
      else Skip(latest.value)
  }

  /** A new schedule: occurrences before now are not run. */
  function Created(draft: Draft, nowMs: int): Schedule {
    Schedule(draft, LatestOccurrence(draft, nowMs))
  }

  /** New settings for `current`, whose last run is kept when it is the later. */
  function Updated(current: Schedule, draft: Draft, nowMs: int): Schedule {
    Schedule(draft, Later(LatestOccurrence(draft, nowMs), current.lastRunMs))
  }

  // ---------- The grid of occurrences ----------

  /** `t` is the first occurrence, or a whole number of days or weeks after it. */
  ghost predicate IsOccurrence(draft: Draft, t: int) {
    match draft.repeat
    case Once => t == draft.atMs
    case Daily => t >= draft.atMs && (t - draft.atMs) % 86_400_000 == 0
    case Weekly => t >= draft.atMs && (t - draft.atMs) % 604_800_000 == 0
  }

  /** The latest occurrence is the greatest at or before now. */
  lemma LatestIsGreatest(draft: Draft, nowMs: int)
    ensures var latest := LatestOccurrence(draft, nowMs);
            && (latest.Some? ==> IsOccurrence(draft, latest.value) && latest.value <= nowMs)
            && forall t :: IsOccurrence(draft, t) && t <= nowMs ==> latest.Some? && t <= latest.value
  {
    forall t | IsOccurrence(draft, t) && t <= nowMs
      ensures LatestOccurrence(draft, nowMs).Some? && t <= LatestOccurrence(draft, nowMs).value {
    }
  }

  /** The next occurrence is the least after now, and absent only when there is none. */
  lemma NextIsLeast(draft: Draft, nowMs: int)
    ensures var next := NextOccurrence(draft, nowMs);
            && (next.Some? ==> IsOccurrence(draft, next.value) && next.value > nowMs)
            && forall t :: IsOccurrence(draft, t) && t > nowMs ==> next.Some? && t >= next.value
  {
    forall t | IsOccurrence(draft, t) && t > nowMs
      ensures NextOccurrence(draft, nowMs).Some? && t >= NextOccurrence(draft, nowMs).value {
    }
  }

  /**
   A schedule runs `t` now exactly when it is enabled, `t` is its latest occurrence, not yet run, and at most the grace
   ago.
   */
  lemma RunsExactly(schedule: Schedule, nowMs: int, t: int)
    ensures DueAt(schedule, nowMs) == Run(t)
       <==> && schedule.draft.enabled && !AtLeast(schedule.lastRunMs, t)
            && IsOccurrence(schedule.draft, t) && 0 <= nowMs - t <= RUN_GRACE_MS
            && forall u :: IsOccurrence(schedule.draft, u) && u <= nowMs ==> u <= t
  {
    LatestIsGreatest(schedule.draft, nowMs);
  }

  // ---------- The store and one tick over it ----------

  datatype ScheduleId = ScheduleId(name: string)

  /** What a tick acted on. */
  datatype Act = Act(id: ScheduleId, occurrenceMs: int)

  function Handled(schedule: Schedule, nowMs: int): Schedule {
    match DueAt(schedule, nowMs)
    case Nothing => schedule
    case Run(t) => schedule.(lastRunMs := Some(t))
    case Skip(t) => schedule.(lastRunMs := Some(t))
  }

  /** The schedules after a tick handled those listed. */
  function TickedAll(all: map<ScheduleId, Schedule>, ids: seq<ScheduleId>, nowMs: int): map<ScheduleId, Schedule> {
    map id | id in all :: if id in ids then Handled(all[id], nowMs) else all[id]
  }

  class Store {
    var schedules: map<ScheduleId, Schedule>

    constructor ()
      ensures schedules == map[]
    {
      schedules := map[];
    }

    method Create(id: ScheduleId, draft: Draft, nowMs: int)
      modifies this
      ensures schedules == old(schedules)[id := Created(draft, nowMs)]
    {
      schedules := schedules[id := Schedule(draft, LatestOccurrence(draft, nowMs))];
    }

    method Update(id: ScheduleId, draft: Draft, nowMs: int) returns (found: bool)
      modifies this
      ensures found <==> id in old(schedules)
      ensures schedules == if found then old(schedules)[id := Updated(old(schedules)[id], draft, nowMs)]
                           else old(schedules)
    {
      found := id in schedules;
      if found {
        var current := schedules[id];
        var lastRunMs := Later(LatestOccurrence(draft, nowMs), current.lastRunMs);
        schedules := schedules[id := Schedule(draft, lastRunMs)];
      }
    }

    method RecordRun(id: ScheduleId, occurrenceMs: int)
      modifies this
      ensures schedules == if id in old(schedules)
                           then old(schedules)[id := old(schedules)[id].(lastRunMs := Some(occurrenceMs))]
                           else old(schedules)
    {
      if id in schedules {
        schedules := schedules[id := schedules[id].(lastRunMs := Some(occurrenceMs))];
      }
    }

    /** One tick, in the listed order, with no other writer. */
    method Tick(ids: seq<ScheduleId>, nowMs: int) returns (acts: seq<Act>)
      requires forall i :: 0 <= i < |ids| ==> ids[i] in schedules
      requires forall i, j :: 0 <= i < j < |ids| ==> ids[i] != ids[j]
      modifies this
      ensures schedules.Keys == old(schedules).Keys
      ensures forall id :: id in old(schedules) && (id !in ids || DueAt(old(schedules)[id], nowMs).Nothing?) ==>
                schedules[id] == old(schedules)[id]
      ensures forall id :: id in ids && !DueAt(old(schedules)[id], nowMs).Nothing? ==>
                && schedules[id].draft == old(schedules)[id].draft
                && schedules[id].lastRunMs == Some(DueAt(old(schedules)[id], nowMs).occurrenceMs)
                && DueAt(schedules[id], nowMs).Nothing?
      ensures forall act :: act in acts <==>
                            act.id in ids && DueAt(old(schedules)[act.id], nowMs) == Run(act.occurrenceMs)
    {
      var all := schedules;
      acts := [];
      for k := 0 to |ids|
        invariant schedules == TickedAll(all, ids[..k], nowMs)
        invariant forall act :: act in acts <==>
                                act.id in ids[..k] && DueAt(all[act.id], nowMs) == Run(act.occurrenceMs)
      {
        var id := ids[k];
        assert id !in ids[..k];
        assert ids[..k + 1] == ids[..k] + [id];
        match DueAt(all[id], nowMs) {
          case Nothing =>
          case Run(t) =>
            RecordRun(id, t);
            acts := acts + [Act(id, t)];
            RecordRun(id, t);
          case Skip(t) =>
            RecordRun(id, t);
        }
      }
      assert ids[..|ids|] == ids;
    }
  }
}
