/**
 Confirmed alert changes (`AlertTransitions` in `src/application/notify.rs`): successive sets of
 open alerts become opened and resolved events, each after two evaluations in a row.
 */
module AlertTransitions {
  import opened Prelude

  const CONFIRM_TICKS: nat := 2

  /** An alert's id, compared only for equality. */
  datatype AlertId = AlertId(key: nat)

  /** What a notification says about one alert; `text` stands for its wording and severity. */
  datatype AlertBrief = AlertBrief(id: AlertId, text: string)

  datatype Seen = Seen(streak: nat, present: bool, announced: bool)

  datatype Entry = Entry(seen: Seen, brief: AlertBrief)

  datatype EventKind = Opened | Resolved

  datatype NotifyEvent = NotifyEvent(kind: EventKind, atMs: int, alert: AlertBrief)

  // ---------- One alert id through one evaluation ----------

  /** `u8::saturating_add(1)`. */
  function Longer(streak: nat): nat {
    Min(streak + 1, 255)
  }

  function PresentSeen(entry: Option<Entry>): Seen {
    if entry.None? then Seen(0, true, false)
    else if !entry.value.seen.present then Seen(0, true, entry.value.seen.announced)
    else entry.value.seen
  }

  /** The alert is listed once more: its entry, and whether that opens it. */
  function Listed(entry: Option<Entry>, alert: AlertBrief): (Entry, bool) {
    var seen := PresentSeen(entry);
    var streak := Longer(seen.streak);
    var opens := !seen.announced && streak >= CONFIRM_TICKS;
    (Entry(Seen(streak, true, seen.announced || opens), alert), opens)
  }

  function AbsentSeen(seen: Seen): Seen {
    var from := if seen.present then Seen(0, false, seen.announced) else seen;
    from.(streak := Longer(from.streak))
  }

  /** The alert is not listed: its entry, forgotten once the absence is confirmed, and whether that resolves it. */
  function Unlisted(entry: Entry): (Option<Entry>, bool) {
    var seen := AbsentSeen(entry.seen);
    if seen.streak >= CONFIRM_TICKS then (None, seen.announced) else (Some(entry.(seen := seen)), false)
  }

  /** The evaluation's alerts with this id, in order. */
  function Occurrences(current: seq<AlertBrief>, id: AlertId): seq<AlertBrief> {
    if current == [] then []
    else
      Occurrences(current[..|current| - 1], id)
      + if current[|current| - 1].id == id then [current[|current| - 1]] else []
  }

  function ListedAll(entry: Option<Entry>, alerts: seq<AlertBrief>): Option<Entry> {
    if alerts == [] then entry
    else Some(Listed(ListedAll(entry, alerts[..|alerts| - 1]), alerts[|alerts| - 1]).0)
  }

  function OpenedBy(entry: Option<Entry>, alerts: seq<AlertBrief>, atMs: int): seq<NotifyEvent> {
    if alerts == [] then []
    else
      var init, last := alerts[..|alerts| - 1], alerts[|alerts| - 1];
      OpenedBy(entry, init, atMs)
      + if Listed(ListedAll(entry, init), last).1 then [NotifyEvent(Opened, atMs, last)] else []
  }

  function EntryAfter(entry: Option<Entry>, alerts: seq<AlertBrief>): Option<Entry> {
    if alerts != [] then ListedAll(entry, alerts)
    else if entry.None? then None
    else Unlisted(entry.value).0
  }

  function EventsOf(entry: Option<Entry>, alerts: seq<AlertBrief>, atMs: int): seq<NotifyEvent> {
    if alerts != [] then OpenedBy(entry, alerts, atMs)
    else if entry.Some? && Unlisted(entry.value).1 then [NotifyEvent(Resolved, atMs, entry.value.brief)]
    else []
  }

  /** The first evaluation only learns what is open. */
  function SeedEntry(alerts: seq<AlertBrief>): Option<Entry> {
    if alerts == [] then None else Some(Entry(Seen(CONFIRM_TICKS, true, true), alerts[|alerts| - 1]))
  }

  function ForId(events: seq<NotifyEvent>, id: AlertId): seq<NotifyEvent> {
    if events == [] then []
    else ForId(events[..|events| - 1], id) + if events[|events| - 1].alert.id == id then [events[|events| - 1]] else []
  }

  // ---------- The object ----------

  datatype State = State(seen: map<AlertId, Entry>, seeded: bool)

  const UNSEEDED := State(map[], false)

  ghost predicate Valid(s: State) {
    && (forall id :: id in s.seen ==> s.seen[id].brief.id == id)
    && (!s.seeded ==> s.seen == map[])
  }

  /** One evaluation: every id takes its own step, and the events are the ids' events, in some order. */
  ghost predicate Observed(before: State, current: seq<AlertBrief>, atMs: int, after: State, events: seq<NotifyEvent>) {
    && after.seeded
    && (forall id :: Lookup(after.seen, id) ==
                     if before.seeded then EntryAfter(Lookup(before.seen, id), Occurrences(current, id))
                     else SeedEntry(Occurrences(current, id)))
    && (forall id :: ForId(events, id) ==
                     if before.seeded then EventsOf(Lookup(before.seen, id), Occurrences(current, id), atMs) else [])
  }

  class AlertTransitions {
    var seen: map<AlertId, Entry>
    var seeded: bool

    ghost function Value(): State
      reads this
    {
      State(seen, seeded)
    }

    constructor ()
      ensures Value() == UNSEEDED && Valid(Value())
    {
      seen, seeded := map[], false;
    }

    method Observe(current: seq<AlertBrief>, atMs: int) returns (events: seq<NotifyEvent>)
      requires Valid(Value())
      modifies this
      ensures Observed(old(Value()), current, atMs, Value(), events) && Valid(Value())
    {
      if !seeded {
        Seed(current);
        return [];
      }
      var openings := ListPresent(current, atMs);
      var ids := set i | 0 <= i < |current| :: current[i].id;
      var resolutions := ResolveAbsent(ids, atMs);
      events := openings + resolutions;
      forall id
        ensures id in ids <==> Occurrences(current, id) != []
        ensures ForId(events, id) == ForId(openings, id) + ForId(resolutions, id)
      {
        OccursWhenListed(current, id);
        ForIdConcat(openings, resolutions, id);
      }
    }

    method Seed(current: seq<AlertBrief>)
      requires Valid(Value()) && !seeded
      modifies this
      ensures seeded && Valid(Value())
      ensures forall id :: Lookup(seen, id) == SeedEntry(Occurrences(current, id))
    {
      seeded := true;
      for i := 0 to |current|
        invariant seeded && Valid(Value())
        invariant forall id :: Lookup(seen, id) == SeedEntry(Occurrences(current[..i], id))
      {
        assert current[..i + 1][..i] == current[..i];
        seen := seen[current[i].id := Entry(Seen(CONFIRM_TICKS, true, true), current[i])];
      }
      assert current[..|current|] == current;
    }

    method ListPresent(current: seq<AlertBrief>, atMs: int) returns (events: seq<NotifyEvent>)
      requires Valid(Value()) && seeded
      modifies this
      ensures seeded && Valid(Value())
      ensures forall id :: Lookup(seen, id) == ListedAll(Lookup(old(seen), id), Occurrences(current, id))
      ensures forall id :: ForId(events, id) == OpenedBy(Lookup(old(seen), id), Occurrences(current, id), atMs)
    {
      var entries;
      entries, events := Listings(seen, current, atMs);
      seen := entries;
    }

    method ResolveAbsent(ids: set<AlertId>, atMs: int) returns (events: seq<NotifyEvent>)
      requires Valid(Value()) && seeded
      modifies this
      ensures seeded && Valid(Value())
      ensures forall id :: Lookup(seen, id) == AfterAbsence(old(seen), id, id in ids)
      ensures forall id :: ForId(events, id) == Resolution(old(seen), id, id in ids, atMs)
    {
      var entries, forget;
      entries, forget, events := Absences(seen, ids, atMs);
      seen := entries - forget;
      assert forall id :: Lookup(seen, id) == if id in forget then None else Lookup(entries, id);
    }
  }

  /** The walk over the listed alerts: each takes its present step. */
  method Listings(seen: map<AlertId, Entry>, current: seq<AlertBrief>, atMs: int)
    returns (entries: map<AlertId, Entry>, events: seq<NotifyEvent>)
    requires forall id :: id in seen ==> seen[id].brief.id == id
    ensures ListedSoFar(seen, current, atMs, entries, events)
    ensures forall id :: id in entries ==> entries[id].brief.id == id
  {
    entries, events := seen, [];
    for i := 0 to |current|
      invariant ListedSoFar(seen, current[..i], atMs, entries, events)
      invariant forall id :: id in entries ==> entries[id].brief.id == id
    {
      assert current[..i + 1] == current[..i] + [current[i]];
      entries, events := ListOne(seen, current[..i], atMs, entries, events, current[i]);
    }
    assert current[..|current|] == current;
  }

  method ListOne(ghost start: map<AlertId, Entry>, ghost listed: seq<AlertBrief>, atMs: int,
                 seen: map<AlertId, Entry>, events: seq<NotifyEvent>, alert: AlertBrief)
    returns (entries: map<AlertId, Entry>, more: seq<NotifyEvent>)
    requires ListedSoFar(start, listed, atMs, seen, events)
    ensures ListedSoFar(start, listed + [alert], atMs, entries, more)
    ensures alert.id in entries && entries[alert.id].brief.id == alert.id
    ensures entries == seen[alert.id := entries[alert.id]]
  {
    ListStep(start, listed, atMs, seen, events, alert);
    var (entry, opens) := Listed(Lookup(seen, alert.id), alert);
    entries := seen[alert.id := entry];
    more := events + if opens then [NotifyEvent(Opened, atMs, alert)] else [];
  }

  /** The walk over the entries: absent ones step, and those confirmed absent are listed to be forgotten. */
  method Absences(seen: map<AlertId, Entry>, ids: set<AlertId>, atMs: int)
    returns (entries: map<AlertId, Entry>, forget: set<AlertId>, events: seq<NotifyEvent>)
    requires forall id :: id in seen ==> seen[id].brief.id == id
    ensures ResolvedSoFar(seen, ids, {}, atMs, entries, forget, events)
  {
    entries, forget, events := seen, {}, [];
    var rest := seen.Keys;
    while rest != {}
      invariant rest <= entries.Keys
      invariant ResolvedSoFar(seen, ids, rest, atMs, entries, forget, events)
      decreases |rest|
    {
      var id :| id in rest;
      if id in ids {
        rest := rest - {id};
        continue;
      }
      ResolveStep(seen, ids, rest, atMs, entries, forget, events, id);
      assert events + [] == events;
      rest := rest - {id};
      var entry := entries[id];
      var after := AbsentSeen(entry.seen);
      entries := entries[id := entry.(seen := after)];
      if after.streak >= CONFIRM_TICKS {
        if after.announced {
          events := events + [NotifyEvent(Resolved, atMs, entry.brief)];
        }
        forget := forget + {id};
      }
    }
  }

  ghost predicate ListedSoFar(start: map<AlertId, Entry>, current: seq<AlertBrief>, atMs: int,
                              seen: map<AlertId, Entry>, events: seq<NotifyEvent>) {
    && (forall id :: Lookup(seen, id) == ListedAll(Lookup(start, id), Occurrences(current, id)))
    && (forall id :: ForId(events, id) == OpenedBy(Lookup(start, id), Occurrences(current, id), atMs))
  }

  lemma ListStep(start: map<AlertId, Entry>, current: seq<AlertBrief>, atMs: int,
                 seen: map<AlertId, Entry>, events: seq<NotifyEvent>, alert: AlertBrief)
    requires ListedSoFar(start, current, atMs, seen, events)
    ensures var (entry, opens) := Listed(Lookup(seen, alert.id), alert);
            ListedSoFar(start, current + [alert], atMs, seen[alert.id := entry],
                        events + if opens then [NotifyEvent(Opened, atMs, alert)] else [])
  {
    var (entry, opens) := Listed(Lookup(seen, alert.id), alert);
    var more := if opens then [NotifyEvent(Opened, atMs, alert)] else [];
    forall id
      ensures Lookup(seen[alert.id := entry], id) == ListedAll(Lookup(start, id), Occurrences(current + [alert], id))
      ensures ForId(events + more, id) == OpenedBy(Lookup(start, id), Occurrences(current + [alert], id), atMs)
    {
      OccurrencesAppend(current, alert, id);
      ForIdConcat(events, more, id);
      if id == alert.id {
        ListOneMore(Lookup(start, id), Occurrences(current, id), alert, atMs);
        assert ForId(more, id) == more;
      } else {
        assert ForId(more, id) == [];
      }
    }
  }

  lemma OccurrencesAppend(current: seq<AlertBrief>, alert: AlertBrief, id: AlertId)
    ensures Occurrences(current + [alert], id) ==
            if alert.id == id then Occurrences(current, id) + [alert] else Occurrences(current, id)
  {
    assert (current + [alert])[..|current|] == current;
  }

  /** The ids neither listed nor in `rest` have taken their absent step; those in `forget` are yet to be removed. */
  ghost predicate ResolvedSoFar(start: map<AlertId, Entry>, ids: set<AlertId>, rest: set<AlertId>, atMs: int,
                                seen: map<AlertId, Entry>, forget: set<AlertId>, events: seq<NotifyEvent>) {
    && seen.Keys == start.Keys && forget !! ids && forget !! rest
    && (forall id :: id in seen ==> seen[id].brief == start[id].brief)
    && (forall id :: (if id in forget then None else Lookup(seen, id)) ==
                     AfterAbsence(start, id, id in ids || id in rest))
    && (forall id :: ForId(events, id) == Resolution(start, id, id in ids || id in rest, atMs))
  }

  lemma ResolveStep(start: map<AlertId, Entry>, ids: set<AlertId>, rest: set<AlertId>, atMs: int,
                    seen: map<AlertId, Entry>, forget: set<AlertId>, events: seq<NotifyEvent>, id: AlertId)
    requires id in seen && id !in ids && id in rest && ResolvedSoFar(start, ids, rest, atMs, seen, forget, events)
    requires forall other :: other in start ==> start[other].brief.id == other
    ensures var after := AbsentSeen(seen[id].seen);
            var confirmed := after.streak >= CONFIRM_TICKS;
            ResolvedSoFar(start, ids, rest - {id}, atMs, seen[id := seen[id].(seen := after)],
                          if confirmed then forget + {id} else forget,
                          events + if confirmed && after.announced
                                   then [NotifyEvent(Resolved, atMs, seen[id].brief)] else [])
  {
    assert Lookup(seen, id) == Lookup(start, id);
    var after := AbsentSeen(seen[id].seen);
    var more := if after.streak >= CONFIRM_TICKS && after.announced
                then [NotifyEvent(Resolved, atMs, seen[id].brief)] else [];
    forall other
      ensures ForId(events + more, other) == Resolution(start, other, other in ids || other in rest - {id}, atMs)
    {
      ForIdConcat(events, more, other);
    }
  }

  lemma ListOneMore(entry: Option<Entry>, alerts: seq<AlertBrief>, alert: AlertBrief, atMs: int)
    ensures ListedAll(entry, alerts + [alert]) == Some(Listed(ListedAll(entry, alerts), alert).0)
    ensures OpenedBy(entry, alerts + [alert], atMs) ==
            OpenedBy(entry, alerts, atMs)
            + if Listed(ListedAll(entry, alerts), alert).1 then [NotifyEvent(Opened, atMs, alert)] else []
  {
    assert (alerts + [alert])[..|alerts|] == alerts;
  }

  function AfterAbsence(seen: map<AlertId, Entry>, id: AlertId, present: bool): Option<Entry> {
    if present || id !in seen then Lookup(seen, id) else Unlisted(seen[id]).0
  }

  function Resolution(seen: map<AlertId, Entry>, id: AlertId, present: bool, atMs: int): seq<NotifyEvent> {
    if !present && id in seen && Unlisted(seen[id]).1 then [NotifyEvent(Resolved, atMs, seen[id].brief)] else []
  }

  lemma {:induction false} OccursWhenListed(current: seq<AlertBrief>, id: AlertId)
    ensures Occurrences(current, id) != [] <==> exists i :: 0 <= i < |current| && current[i].id == id
  {
    if current != [] {
      var init := current[..|current| - 1];
      OccursWhenListed(init, id);
      if i :| 0 <= i < |init| && init[i].id == id {
        assert current[i].id == id;
      }
    }
  }

  lemma {:induction false} ForIdConcat(a: seq<NotifyEvent>, b: seq<NotifyEvent>, id: AlertId)
    ensures ForId(a + b, id) == ForId(a, id) + ForId(b, id)
  {
    if b == [] {
      assert a + b == a;
    } else {
      assert (a + b)[..|a + b| - 1] == a + b[..|b| - 1];
      ForIdConcat(a, b[..|b| - 1], id);
    }
  }

  // ---------- Runs ----------

  /** A run: the state before and after each evaluation, and the events of each. */
  ghost predicate IsRun(evaluations: seq<seq<AlertBrief>>, times: seq<int>, states: seq<State>,
                        events: seq<seq<NotifyEvent>>) {
    && |times| == |evaluations| == |events| && |states| == |evaluations| + 1
    && states[0] == UNSEEDED
    && forall k :: 0 <= k < |evaluations| ==> Observed(states[k], evaluations[k], times[k], states[k + 1], events[k])
  }

  /** One id's entry after a run of evaluations. */
  function EntryOf(evaluations: seq<seq<AlertBrief>>, id: AlertId): Option<Entry> {
    if evaluations == [] then None
    else
      var alerts := Occurrences(evaluations[|evaluations| - 1], id);
      if |evaluations| == 1 then SeedEntry(alerts)
      else EntryAfter(EntryOf(evaluations[..|evaluations| - 1], id), alerts)
  }

  lemma {:induction false} StatesHoldEntries(evaluations: seq<seq<AlertBrief>>, times: seq<int>, states: seq<State>,
                                             events: seq<seq<NotifyEvent>>, k: nat, id: AlertId)
    requires IsRun(evaluations, times, states, events) && k <= |evaluations|
    ensures Lookup(states[k].seen, id) == EntryOf(evaluations[..k], id)
    ensures states[k].seeded <==> k > 0
  {
    if k > 0 {
      assert evaluations[..k][..k - 1] == evaluations[..k - 1];
      StatesHoldEntries(evaluations, times, states, events, k - 1, id);
      assert Observed(states[k - 1], evaluations[k - 1], times[k - 1], states[k], events[k - 1]);
    }
  }

  // ---------- The two-sample filter ----------

  predicate Present(evaluation: seq<AlertBrief>, id: AlertId) {
    Occurrences(evaluation, id) != []
  }

  /**
   The reference: an id's flag starts as its presence at the seed, follows two equal samples in
   a row, and holds otherwise.
   */
  predicate Flag(evaluations: seq<seq<AlertBrief>>, id: AlertId) {
    if evaluations == [] then false
    else
      var n := |evaluations|;
      if n == 1 || Present(evaluations[n - 1], id) == Present(evaluations[n - 2], id)
      then Present(evaluations[n - 1], id)
      else Flag(evaluations[..n - 1], id)
  }

  predicate Announced(entry: Option<Entry>) {
    entry.Some? && entry.value.seen.announced
  }

  /** Evaluation `k` lists an id twice that is not announced and was not listed the evaluation before. */
  predicate EarlyDuplicate(evaluations: seq<seq<AlertBrief>>, id: AlertId, k: nat)
    requires 0 < k < |evaluations|
  {
    |Occurrences(evaluations[k], id)| > 1 && !Present(evaluations[k - 1], id) && !Flag(evaluations[..k], id)
  }

  ghost predicate NoEarlyDuplicate(evaluations: seq<seq<AlertBrief>>, id: AlertId) {
    forall k :: 0 < k < |evaluations| ==> !EarlyDuplicate(evaluations, id, k)
  }

  lemma {:induction false} ListedAllShape(entry: Option<Entry>, alerts: seq<AlertBrief>)
    requires alerts != []
    ensures var after := ListedAll(entry, alerts);
            && after.value.seen.present && after.value.brief == alerts[|alerts| - 1]
            && after.value.seen.streak == Min(PresentSeen(entry).streak + |alerts|, 255)
            && after.value.seen.announced == (PresentSeen(entry).announced || after.value.seen.streak >= CONFIRM_TICKS)
  {
    if |alerts| > 1 {
      ListedAllShape(entry, alerts[..|alerts| - 1]);
    }
  }

  /** The entry says what the last two evaluations and the flag say, as long as no early duplicate came. */
  ghost predicate Tracks(evaluations: seq<seq<AlertBrief>>, id: AlertId)
    requires evaluations != []
  {
    var n, entry := |evaluations|, EntryOf(evaluations, id);
    && (entry.Some? <==> Present(evaluations[n - 1], id) || (n > 1 && Present(evaluations[n - 2], id)))
    && Announced(entry) == Flag(evaluations, id)
    && (entry.Some? ==>
          var seen := entry.value.seen;
          && seen.present == Present(evaluations[n - 1], id)
          && seen.streak >= 1
          && (!seen.present ==> seen.streak == 1))
  }

  lemma {:induction false} EntryTracksFlag(evaluations: seq<seq<AlertBrief>>, id: AlertId)
    requires evaluations != [] && NoEarlyDuplicate(evaluations, id)
    ensures Tracks(evaluations, id)
  {
    var n := |evaluations|;
    if n > 1 {
      var init := evaluations[..n - 1];
      assert forall k :: 0 < k < n - 1 ==> EarlyDuplicate(init, id, k) == EarlyDuplicate(evaluations, id, k) by {
        assert forall k :: 0 < k < n - 1 ==> init[..k] == evaluations[..k];
      }
      EntryTracksFlag(init, id);
      var alerts := Occurrences(evaluations[n - 1], id);
      assert !EarlyDuplicate(evaluations, id, n - 1);
      if alerts != [] {
        ListedAllShape(EntryOf(init, id), alerts);
      }
    }
  }

  lemma InitHasNoEarlyDuplicate(evaluations: seq<seq<AlertBrief>>, id: AlertId, n: nat)
    requires n <= |evaluations|
    ensures forall k :: 0 < k < n ==> EarlyDuplicate(evaluations[..n], id, k) == EarlyDuplicate(evaluations, id, k)
  {
    assert forall k :: 0 < k < n ==> evaluations[..n][..k] == evaluations[..k];
  }

  /** With every evaluation's ids distinct there is no early duplicate. */
  lemma DistinctIdsAreNoDuplicate(evaluations: seq<seq<AlertBrief>>, id: AlertId)
    requires forall k :: 0 <= k < |evaluations| ==> Distinct(evaluations[k])
    ensures NoEarlyDuplicate(evaluations, id)
  {
    forall k | 0 < k < |evaluations| ensures !EarlyDuplicate(evaluations, id, k) {
      DistinctOccurOnce(evaluations[k], id);
    }
  }

  ghost predicate Distinct(current: seq<AlertBrief>) {
    forall i, j :: 0 <= i < j < |current| ==> current[i].id != current[j].id
  }

  lemma {:induction false} DistinctOccurOnce(current: seq<AlertBrief>, id: AlertId)
    requires Distinct(current)
    ensures |Occurrences(current, id)| <= 1
  {
    if current != [] {
      DistinctOccurOnce(current[..|current| - 1], id);
      OccursWhenListed(current[..|current| - 1], id);
    }
  }

  /**
   Exactly when the announced flag is the two-sample filter's: throughout a run, unless some evaluation
   lists twice an id that is not announced and was not listed the evaluation before.
   */
  lemma {:induction false} FilterIsExact(evaluations: seq<seq<AlertBrief>>, id: AlertId)
    ensures (forall k :: 0 <= k <= |evaluations| ==>
                           Announced(EntryOf(evaluations[..k], id)) == Flag(evaluations[..k], id))
            <==> NoEarlyDuplicate(evaluations, id)
  {
    if NoEarlyDuplicate(evaluations, id) {
      forall k | 0 < k <= |evaluations| ensures Announced(EntryOf(evaluations[..k], id)) == Flag(evaluations[..k], id) {
        InitHasNoEarlyDuplicate(evaluations, id, k);
        EntryTracksFlag(evaluations[..k], id);
      }
    } else {
      var n := DisagreementPoint(evaluations, id);
    }
  }

  lemma {:induction false} DisagreementPoint(evaluations: seq<seq<AlertBrief>>, id: AlertId) returns (n: nat)
    requires !NoEarlyDuplicate(evaluations, id)
    ensures n <= |evaluations| && Announced(EntryOf(evaluations[..n], id)) != Flag(evaluations[..n], id)
  {
    var init := evaluations[..|evaluations| - 1];
    InitHasNoEarlyDuplicate(evaluations, id, |init|);
    if NoEarlyDuplicate(init, id) {
      n := |evaluations|;
      assert evaluations[..n] == evaluations && EarlyDuplicate(evaluations, id, n - 1);
      EntryTracksFlag(init, id);
      ListedAllShape(EntryOf(init, id), Occurrences(evaluations[n - 1], id));
    } else {
      n := DisagreementPoint(init, id);
      assert init[..n] == evaluations[..n];
    }
  }

  /** An alert listed twice in the first evaluation after the seed opens at once, on one sample. */
  lemma DuplicateOpensAtOnce(alert: AlertBrief, times: seq<int>, states: seq<State>, events: seq<seq<NotifyEvent>>)
    requires IsRun([[], [alert, alert]], times, states, events)
    ensures ForId(events[1], alert.id) == [NotifyEvent(Opened, times[1], alert)]
    ensures !Flag([[], [alert, alert]], alert.id)
  {
    var evaluations := [[], [alert, alert]];
    StatesHoldEntries(evaluations, times, states, events, 1, alert.id);
    assert evaluations[..1] == [[]];
    assert [alert, alert][..1] == [alert] && [alert][..0] == [];
    assert Observed(states[1], evaluations[1], times[1], states[2], events[1]);
    assert Occurrences([alert, alert], alert.id) == [alert, alert];
    assert OpenedBy(None, [alert], times[1]) == [];
  }

  // ---------- Events ----------

  lemma {:induction false} OpenedByShape(entry: Option<Entry>, alerts: seq<AlertBrief>, atMs: int)
    ensures var from, events := PresentSeen(entry), OpenedBy(entry, alerts, atMs);
            if alerts != [] && !from.announced && from.streak + |alerts| >= CONFIRM_TICKS
            then |events| == 1 && events[0].kind == Opened && events[0].alert in alerts && events[0].atMs == atMs
            else events == []
  {
    if alerts != [] {
      var init := alerts[..|alerts| - 1];
      OpenedByShape(entry, init, atMs);
      if init != [] {
        ListedAllShape(entry, init);
      }
    }
  }

  /** The alert as last listed. */
  function LastListed(evaluations: seq<seq<AlertBrief>>, id: AlertId): Option<AlertBrief> {
    if evaluations == [] then None
    else
      var alerts := Occurrences(evaluations[|evaluations| - 1], id);
      if alerts != [] then Some(alerts[|alerts| - 1]) else LastListed(evaluations[..|evaluations| - 1], id)
  }

  lemma {:induction false} EntryHoldsLastListed(evaluations: seq<seq<AlertBrief>>, id: AlertId)
    ensures EntryOf(evaluations, id).Some? ==> LastListed(evaluations, id) == Some(EntryOf(evaluations, id).value.brief)
  {
    if evaluations != [] {
      EntryHoldsLastListed(evaluations[..|evaluations| - 1], id);
      var alerts := Occurrences(evaluations[|evaluations| - 1], id);
      if |evaluations| > 1 && alerts != [] {
        ListedAllShape(EntryOf(evaluations[..|evaluations| - 1], id), alerts);
      }
    }
  }

  /** An id's events of one evaluation are the edges of its flag; a resolution names the alert as last listed. */
  ghost predicate IsEdge(events: seq<NotifyEvent>, evaluations: seq<seq<AlertBrief>>, id: AlertId)
    requires evaluations != []
  {
    var n := |evaluations|;
    var was, now := Flag(evaluations[..n - 1], id), Flag(evaluations, id);
    if n == 1 || was == now then events == []
    else
      && |events| == 1 && events[0].kind == (if now then Opened else Resolved)
      && (if now then events[0].alert in Occurrences(evaluations[n - 1], id)
          else LastListed(evaluations, id) == Some(events[0].alert))
  }

  lemma LastEventsAreEdge(evaluations: seq<seq<AlertBrief>>, id: AlertId, atMs: int)
    requires |evaluations| > 1 && NoEarlyDuplicate(evaluations, id)
    ensures var n := |evaluations|;
            IsEdge(EventsOf(EntryOf(evaluations[..n - 1], id), Occurrences(evaluations[n - 1], id), atMs),
                   evaluations, id)
  {
    var n := |evaluations|;
    var init, alerts := evaluations[..n - 1], Occurrences(evaluations[n - 1], id);
    InitHasNoEarlyDuplicate(evaluations, id, n - 1);
    assert !EarlyDuplicate(evaluations, id, n - 1);
    EntryTracksFlag(init, id);
    if alerts == [] {
      EntryHoldsLastListed(init, id);
    } else {
      OpenedByShape(EntryOf(init, id), alerts, atMs);
    }
  }

  /** In every run, the first evaluation announces nothing and each later one announces exactly its edges. */
  lemma EventsAreEdges(evaluations: seq<seq<AlertBrief>>, times: seq<int>, states: seq<State>,
                       events: seq<seq<NotifyEvent>>, k: nat, id: AlertId)
    requires IsRun(evaluations, times, states, events) && k < |evaluations|
    requires NoEarlyDuplicate(evaluations, id)
    ensures IsEdge(ForId(events[k], id), evaluations[..k + 1], id)
  {
    assert evaluations[..k + 1][..k] == evaluations[..k];
    StatesHoldEntries(evaluations, times, states, events, k, id);
    assert Observed(states[k], evaluations[k], times[k], states[k + 1], events[k]);
    if k > 0 {
      InitHasNoEarlyDuplicate(evaluations, id, k + 1);
      LastEventsAreEdge(evaluations[..k + 1], id, times[k]);
    }
  }

  /** Duplicates or not, an entry says whether its id was in the last evaluation, and is gone after two without it. */
  ghost predicate IsOfLastTwo(evaluations: seq<seq<AlertBrief>>, id: AlertId)
    requires evaluations != []
  {
    var n, entry := |evaluations|, EntryOf(evaluations, id);
    && (entry.Some? <==> Present(evaluations[n - 1], id) || (n > 1 && Present(evaluations[n - 2], id)))
    && (entry.Some? ==>
          && entry.value.seen.present == Present(evaluations[n - 1], id)
          && (!entry.value.seen.present ==> entry.value.seen.streak == 1))
  }

  lemma {:induction false} EntryIsOfLastTwo(evaluations: seq<seq<AlertBrief>>, id: AlertId)
    requires evaluations != []
    ensures IsOfLastTwo(evaluations, id)
  {
    var n := |evaluations|;
    if n > 1 {
      var init, alerts := evaluations[..n - 1], Occurrences(evaluations[n - 1], id);
      EntryIsOfLastTwo(init, id);
      if alerts != [] {
        ListedAllShape(EntryOf(init, id), alerts);
      }
    }
  }

  /** In every run, `seen` holds exactly the ids listed in the last two evaluations. */
  lemma SeenIsLastTwo(evaluations: seq<seq<AlertBrief>>, times: seq<int>, states: seq<State>,
                      events: seq<seq<NotifyEvent>>, k: nat, id: AlertId)
    requires IsRun(evaluations, times, states, events) && 0 < k <= |evaluations|
    ensures id in states[k].seen <==>
            Present(evaluations[k - 1], id) || (k > 1 && Present(evaluations[k - 2], id))
  {
    StatesHoldEntries(evaluations, times, states, events, k, id);
    EntryIsOfLastTwo(evaluations[..k], id);
  }

  /** In every run without an early duplicate, an id is announced in `seen` exactly when the filter's flag is set. */
  lemma SeenHoldsTheFlag(evaluations: seq<seq<AlertBrief>>, times: seq<int>, states: seq<State>,
                         events: seq<seq<NotifyEvent>>, k: nat, id: AlertId)
    requires IsRun(evaluations, times, states, events) && 0 < k <= |evaluations| && NoEarlyDuplicate(evaluations, id)
    ensures Announced(Lookup(states[k].seen, id)) <==> Flag(evaluations[..k], id)
  {
    StatesHoldEntries(evaluations, times, states, events, k, id);
    InitHasNoEarlyDuplicate(evaluations, id, k);
    EntryTracksFlag(evaluations[..k], id);
  }

  /** Every event of an id over the first `k` evaluations. */
  function AllFor(events: seq<seq<NotifyEvent>>, id: AlertId): seq<NotifyEvent> {
    if events == [] then [] else AllFor(events[..|events| - 1], id) + ForId(events[|events| - 1], id)
  }

  /** In every run, an id's events alternate, and the last one says whether it is open. */
  lemma {:induction false} EventsAlternate(evaluations: seq<seq<AlertBrief>>, times: seq<int>, states: seq<State>,
                                           events: seq<seq<NotifyEvent>>, k: nat, id: AlertId)
    requires IsRun(evaluations, times, states, events) && 0 < k <= |evaluations|
    requires NoEarlyDuplicate(evaluations, id)
    ensures var log := AllFor(events[..k], id);
            && (forall j :: 0 <= j < |log| - 1 ==> log[j].kind != log[j + 1].kind)
            && (if log == [] then Flag(evaluations[..k], id) == Present(evaluations[0], id)
                else Flag(evaluations[..k], id) == (log[|log| - 1].kind == Opened))
            && (log != [] ==> (log[0].kind == Resolved) == Present(evaluations[0], id))
  {
    assert events[..k][..k - 1] == events[..k - 1] && evaluations[..k][..k - 1] == evaluations[..k - 1];
    EventsAreEdges(evaluations, times, states, events, k - 1, id);
    if k > 1 {
      EventsAlternate(evaluations, times, states, events, k - 1, id);
    }
  }
}
