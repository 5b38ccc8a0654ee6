/**
 The bounded fleet history (`FleetHistory` in `src/application/fleet_history.rs`), against the full log
 of everything pushed to it.
 */
module FleetHistory {
  import opened Prelude
  import opened TimedSamples

  /** How far back the history reaches: 24 hours. */
  const SPAN_MS: nat := 86_400_000

  /** The fleet at one instant; `reading` stands for its figures. */
  type FleetSample = Sample<string>

  datatype State = State(samples: seq<FleetSample>, completeFromMs: nat)

  // ---------- push ----------

  function Evicted(s: State, cap: nat, oldestKept: nat): State
    decreases |s.samples|
  {
    if s.samples != [] && (|s.samples| >= cap || s.samples[0].atMs < oldestKept)
    then Evicted(State(s.samples[1..], s.samples[0].atMs), cap, oldestKept)
    else s
  }

  function Pushed(s: State, cap: nat, sample: FleetSample): State {
    var stamped := Stamp(s.samples, sample);
    var evicted := Evicted(s, cap, SaturatingSub(stamped.atMs, SPAN_MS));
    State(evicted.samples + [stamped], evicted.completeFromMs)
  }

  /** The kept samples; `window` reads them, `push` evicts and appends. */
  class FleetHistory {
    var samples: seq<FleetSample>
    var completeFromMs: nat
    const cap: nat

    ghost function Value(): State
      reads this
    {
      State(samples, completeFromMs)
    }

    constructor (startMs: nat, cap: nat)
      ensures Value() == State([], startMs) && this.cap == cap
    {
      samples, completeFromMs := [], startMs;
      this.cap := cap;
    }

    method Push(sample: FleetSample)
      modifies this
      ensures Value() == Pushed(old(Value()), cap, sample)
    {
      var stamped := sample;
      if samples != [] {
        stamped := sample.(atMs := Max(sample.atMs, SaturatingAdd(samples[|samples| - 1].atMs, 1)));
      }
      var oldestKept := SaturatingSub(stamped.atMs, SPAN_MS);
      while samples != [] && (|samples| >= cap || samples[0].atMs < oldestKept)
        invariant Evicted(Value(), cap, oldestKept) == Evicted(old(Value()), cap, oldestKept)
        decreases |samples|
      {
        completeFromMs := samples[0].atMs;
        samples := samples[1..];
      }
      samples := samples + [stamped];
    }

    method ReadWindow(sinceMs: nat, untilMs: nat) returns (window: seq<FleetSample>, from: nat, newest: Option<nat>)
      ensures window == Window(samples, sinceMs, untilMs + 1) && from == completeFromMs
      ensures newest == if samples == [] then None else Some(LastAt(samples))
    {
      var first := LeadingBelow(samples, sinceMs);
      var end := Max(LeadingBelow(samples, untilMs + 1), first);
      window, from := samples[first..end], completeFromMs;
      newest := if samples == [] then None else Some(samples[|samples| - 1].atMs);
    }
  }

  // ---------- The full log ----------

  /** Everything ever pushed, under the times it was kept with. */
  function Log(pushed: seq<FleetSample>): (log: seq<FleetSample>)
    ensures |log| == |pushed|
  {
    if pushed == [] then []
    else
      var log := Log(pushed[..|pushed| - 1]);
      log + [Stamp(log, pushed[|pushed| - 1])]
  }

  function History(startMs: nat, cap: nat, pushed: seq<FleetSample>): State {
    if pushed == [] then State([], startMs)
    else Pushed(History(startMs, cap, pushed[..|pushed| - 1]), cap, pushed[|pushed| - 1])
  }

  /** Clocks are `u64`s. */
  ghost predicate U64(pushed: seq<FleetSample>) {
    forall i :: 0 <= i < |pushed| ==> pushed[i].atMs <= U64_MAX
  }

  lemma {:induction false} LogIsOrdered(pushed: seq<FleetSample>)
    requires U64(pushed)
    ensures Ordered(Log(pushed)) && U64(Log(pushed))
  {
    if pushed != [] {
      LogIsOrdered(pushed[..|pushed| - 1]);
    }
  }

  /**
   The log is what was pushed, in order: a sample keeps its reading, and its time unless the clock did not advance.
   */
  lemma {:induction false} LogIsWhatWasPushed(pushed: seq<FleetSample>, i: nat)
    requires U64(pushed) && i < |pushed|
    ensures Log(pushed)[i].reading == pushed[i].reading && Log(pushed)[i].atMs >= pushed[i].atMs
    ensures i == 0 || pushed[i].atMs > Log(pushed)[i - 1].atMs ==> Log(pushed)[i].atMs == pushed[i].atMs
  {
    if i < |pushed| - 1 {
      var init := pushed[..|pushed| - 1];
      LogIsWhatWasPushed(init, i);
      assert Log(pushed)[i] == Log(init)[i];
      assert i > 0 ==> Log(pushed)[i - 1] == Log(init)[i - 1];
    }
  }

  /** Whatever the clock does, no two samples share a time, until one is kept at the last millisecond of a `u64`. */
  lemma {:induction false} LogIsStrictlyOrdered(pushed: seq<FleetSample>)
    requires U64(pushed)
    ensures StrictlyOrdered(Log(pushed)) <==> |pushed| < 2 || Log(pushed)[|pushed| - 2].atMs < U64_MAX
  {
    LogIsOrdered(pushed);
    if |pushed| > 1 {
      var init := pushed[..|pushed| - 1];
      LogIsStrictlyOrdered(init);
      var log := Log(pushed);
      assert log[..|log| - 1] == Log(init);
      if log[|log| - 2].atMs == U64_MAX {
        assert log[|log| - 1].atMs == U64_MAX;
      } else {
        assert |init| > 1 ==> Log(init)[|init| - 2].atMs <= Log(init)[|init| - 1].atMs;
        assert StrictlyOrdered(Log(init));
      }
    }
  }

  // ---------- What is kept ----------

  /** The suffix from `k` is within the cap (one sample is always kept) and the span. */
  ghost predicate Fits(log: seq<FleetSample>, cap: nat, k: nat)
    requires k < |log|
  {
    |log| - k <= Max(cap, 1) && log[k].atMs >= SaturatingSub(LastAt(log), 86_400_000)
  }

  /** `s` keeps the longest suffix that fits, and is complete after the sample before it. */
  ghost predicate KeepsFrom(s: State, startMs: nat, cap: nat, log: seq<FleetSample>, k: nat)
    requires k < |log|
  {
    && s.samples == log[k..] && Fits(log, cap, k)
    && (forall j :: 0 <= j < k ==> !Fits(log, cap, j))
    && s.completeFromMs == if k == 0 then startMs else log[k - 1].atMs
  }

  ghost predicate Keeps(s: State, startMs: nat, cap: nat, log: seq<FleetSample>) {
    if log == [] then s == State([], startMs) else exists k :: 0 <= k < |log| && KeepsFrom(s, startMs, cap, log, k)
  }

  lemma {:induction false} EvictsToFit(log: seq<FleetSample>, startMs: nat, cap: nat, s: State, k: nat)
    requires log != [] && k < |log| && s.samples == log[k..|log| - 1]
    requires s.completeFromMs == if k == 0 then startMs else log[k - 1].atMs
    requires forall j :: 0 <= j < k ==> !Fits(log, cap, j)
    ensures var evicted := Evicted(s, cap, SaturatingSub(LastAt(log), SPAN_MS));
            Keeps(State(evicted.samples + [log[|log| - 1]], evicted.completeFromMs), startMs, cap, log)
    decreases |log| - k
  {
    var oldest := SaturatingSub(LastAt(log), SPAN_MS);
    if s.samples != [] && (|s.samples| >= cap || s.samples[0].atMs < oldest) {
      EvictsToFit(log, startMs, cap, State(s.samples[1..], s.samples[0].atMs), k + 1);
    } else {
      assert KeepsFrom(State(s.samples + [log[|log| - 1]], s.completeFromMs), startMs, cap, log, k);
    }
  }

  lemma PushKeeps(s: State, startMs: nat, cap: nat, log: seq<FleetSample>, sample: FleetSample)
    requires Keeps(s, startMs, cap, log) && Ordered(log) && U64(log) && sample.atMs <= U64_MAX
    ensures Keeps(Pushed(s, cap, sample), startMs, cap, log + [Stamp(log, sample)])
  {
    var grown := log + [Stamp(log, sample)];
    if log == [] {
      EvictsToFit(grown, startMs, cap, s, 0);
    } else {
      var k :| 0 <= k < |log| && KeepsFrom(s, startMs, cap, log, k);
      assert LastAt(s.samples) == LastAt(log);
      forall j | 0 <= j < k ensures !Fits(grown, cap, j) {
        assert !Fits(log, cap, j) && grown[j] == log[j];
      }
      EvictsToFit(grown, startMs, cap, s, k);
    }
  }

  /** In every run of pushes, on any clock, the history is the longest suffix of the log that fits cap and span. */
  lemma {:induction false} HistoryKeepsLongestSuffix(startMs: nat, cap: nat, pushed: seq<FleetSample>)
    requires U64(pushed)
    ensures Keeps(History(startMs, cap, pushed), startMs, cap, Log(pushed))
  {
    if pushed != [] {
      var init := pushed[..|pushed| - 1];
      HistoryKeepsLongestSuffix(startMs, cap, init);
      LogIsOrdered(init);
      PushKeeps(History(startMs, cap, init), startMs, cap, Log(init), pushed[|pushed| - 1]);
    }
  }

  // ---------- What a window answers ----------

  lemma OlderThanSuffix(log: seq<FleetSample>, k: nat)
    requires Ordered(log) && k <= |log|
    ensures Ordered(log[k..]) && forall i :: 0 <= i < k ==> log[i].atMs <= log[k - 1].atMs
  {
  }

  lemma SuffixWindowIsFilter(log: seq<FleetSample>, k: nat, sinceMs: nat, untilMs: nat)
    requires Ordered(log) && k <= |log| && (k > 0 ==> log[k - 1].atMs < sinceMs)
    ensures Window(log[k..], sinceMs, untilMs + 1) == Filter(log, sinceMs, untilMs + 1)
  {
    OlderThanSuffix(log, k);
    WindowIsFilter(log[k..], sinceMs, untilMs + 1);
    FilterSkipsOlder(log, k, sinceMs, untilMs + 1);
  }

  /** In every run, a window that starts after `completeFromMs` is the filter of everything ever pushed. */
  lemma CompleteWindowIsFilterOfLog(startMs: nat, cap: nat, pushed: seq<FleetSample>, sinceMs: nat, untilMs: nat)
    requires U64(pushed)
    requires sinceMs > History(startMs, cap, pushed).completeFromMs
    ensures Window(History(startMs, cap, pushed).samples, sinceMs, untilMs + 1) ==
            Filter(Log(pushed), sinceMs, untilMs + 1)
  {
    var s, log := History(startMs, cap, pushed), Log(pushed);
    HistoryKeepsLongestSuffix(startMs, cap, pushed);
    LogIsOrdered(pushed);
    if log == [] {
      SuffixWindowIsFilter(log, 0, sinceMs, untilMs);
    } else {
      var k :| 0 <= k < |log| && KeepsFrom(s, startMs, cap, log, k);
      SuffixWindowIsFilter(log, k, sinceMs, untilMs);
    }
  }

  // ---------- A client that polls with `since = last + 1` ----------

  datatype Event = Push(sample: FleetSample) | Poll

  /** What has been pushed, and what the client has received and asks for next. */
  datatype Client = Client(pushed: seq<FleetSample>, received: seq<FleetSample>, sinceMs: nat)

  function NextSince(received: seq<FleetSample>, sinceMs: nat): nat {
    if received == [] then sinceMs else LastAt(received) + 1
  }

  function Followed(startMs: nat, cap: nat, sinceMs: nat, events: seq<Event>): Client {
    if events == [] then Client([], [], sinceMs)
    else
      var c := Followed(startMs, cap, sinceMs, events[..|events| - 1]);
      match events[|events| - 1]
      case Push(sample) => c.(pushed := c.pushed + [sample])
      case Poll =>
        var answer := Window(History(startMs, cap, c.pushed).samples, c.sinceMs, U64_MAX + 1);
        c.(received := c.received + answer, sinceMs := NextSince(answer, c.sinceMs))
  }

  /** At each poll the client's cursor had not fallen behind what is kept. */
  ghost predicate InTime(startMs: nat, cap: nat, sinceMs: nat, events: seq<Event>) {
    forall k :: 0 <= k < |events| && events[k].Poll? ==>
                  var c := Followed(startMs, cap, sinceMs, events[..k]);
                  c.sinceMs > History(startMs, cap, c.pushed).completeFromMs
  }

  function Pushes(events: seq<Event>): seq<FleetSample> {
    if events == [] then []
    else
      var init := Pushes(events[..|events| - 1]);
      if events[|events| - 1].Push? then init + [events[|events| - 1].sample] else init
  }

  /** How much of the log had been pushed at the last poll. */
  function PolledThrough(events: seq<Event>): nat {
    if events == [] then 0
    else if events[|events| - 1].Poll? then |Pushes(events)|
    else PolledThrough(events[..|events| - 1])
  }

  lemma FilterSince(log: seq<FleetSample>, sinceMs: nat)
    requires Ordered(log) && U64(log)
    ensures Filter(log, sinceMs, U64_MAX + 1) == log[LeadingBelow(log, sinceMs)..]
  {
    LeadingSplits(log, sinceMs);
    FilterIsSlice(log, sinceMs, U64_MAX + 1, LeadingBelow(log, sinceMs), |log|);
  }

  lemma {:induction false} LeadingOfPrefix(log: seq<FleetSample>, n: nat, bound: nat)
    requires n <= |log|
    ensures LeadingBelow(log[..n], bound) == Min(n, LeadingBelow(log, bound))
  {
    if n > 0 {
      assert log[..n][1..] == log[1..][..n - 1];
      LeadingOfPrefix(log[1..], n - 1, bound);
    }
  }

  /** Of the first `n` samples of the log, those from `sinceMs` on. */
  function Received(log: seq<FleetSample>, n: nat, sinceMs: nat): seq<FleetSample>
    requires n <= |log|
  {
    log[Min(n, LeadingBelow(log, sinceMs))..n]
  }

  lemma ReceivedOfLonger(log: seq<FleetSample>, longer: seq<FleetSample>, n: nat, sinceMs: nat)
    requires n <= |log| && log <= longer
    ensures Received(longer, n, sinceMs) == Received(log, n, sinceMs)
  {
    assert log == longer[..|log|];
    LeadingOfPrefix(longer, |log|, sinceMs);
  }

  lemma FilterAfter(log: seq<FleetSample>, n: nat)
    requires StrictlyOrdered(log) && U64(log) && 0 < n <= |log|
    ensures Filter(log, log[n - 1].atMs + 1, U64_MAX + 1) == log[n..]
  {
    var next := log[n - 1].atMs + 1;
    FilterIsSlice(log, next, U64_MAX + 1, n, |log|);
  }

  lemma NextSinceIs(log: seq<FleetSample>, n: nat, sinceMs: nat)
    requires n <= |log|
    ensures NextSince(Received(log, n, sinceMs), sinceMs)
         == if LeadingBelow(log, sinceMs) < n then log[n - 1].atMs + 1 else sinceMs
  {
    assert n <= LeadingBelow(log, sinceMs) ==> Received(log, n, sinceMs) == [];
  }

  lemma AnswerIs(log: seq<FleetSample>, n: nat, sinceMs: nat, nextMs: nat)
    requires StrictlyOrdered(log) && U64(log) && n <= |log|
    requires nextMs == NextSince(Received(log, n, sinceMs), sinceMs)
    ensures Filter(log, nextMs, U64_MAX + 1) == log[Max(n, LeadingBelow(log, sinceMs))..]
  {
    NextSinceIs(log, n, sinceMs);
    if LeadingBelow(log, sinceMs) < n {
      FilterAfter(log, n);
    } else {
      FilterSince(log, sinceMs);
    }
  }

  /** Asking past the last sample received gives exactly the rest. */
  lemma ReceivedThenRest(log: seq<FleetSample>, n: nat, sinceMs: nat)
    requires n <= |log|
    ensures Received(log, n, sinceMs) + log[Max(n, LeadingBelow(log, sinceMs))..] == Received(log, |log|, sinceMs)
  {
  }

  ghost predicate HasReceived(c: Client, pushed: seq<FleetSample>, n: nat, sinceMs: nat) {
    && c.pushed == pushed && n <= |pushed|
    && c.received == Received(Log(pushed), n, sinceMs) && c.sinceMs == NextSince(c.received, sinceMs)
  }

  lemma PushKeepsReceived(c: Client, n: nat, sinceMs: nat, sample: FleetSample)
    requires HasReceived(c, c.pushed, n, sinceMs)
    ensures HasReceived(c.(pushed := c.pushed + [sample]), c.pushed + [sample], n, sinceMs)
  {
    var pushed := c.pushed + [sample];
    assert pushed[..|c.pushed|] == c.pushed;
    ReceivedOfLonger(Log(c.pushed), Log(pushed), n, sinceMs);
  }

  lemma PollReceivesTheRest(startMs: nat, cap: nat, c: Client, n: nat, sinceMs: nat)
    requires HasReceived(c, c.pushed, n, sinceMs)
    requires U64(c.pushed) && StrictlyOrdered(Log(c.pushed))
    requires c.sinceMs > History(startMs, cap, c.pushed).completeFromMs
    ensures var answer := Window(History(startMs, cap, c.pushed).samples, c.sinceMs, U64_MAX + 1);
            HasReceived(c.(received := c.received + answer, sinceMs := NextSince(answer, c.sinceMs)),
                        c.pushed, |c.pushed|, sinceMs)
  {
    CompleteWindowIsFilterOfLog(startMs, cap, c.pushed, c.sinceMs, U64_MAX);
    LogIsOrdered(c.pushed);
    AnswerIs(Log(c.pushed), n, sinceMs, c.sinceMs);
    ReceivedThenRest(Log(c.pushed), n, sinceMs);
  }

  lemma StrictBefore(pushed: seq<FleetSample>, sample: FleetSample)
    requires StrictlyOrdered(Log(pushed + [sample])) && U64(pushed + [sample])
    ensures StrictlyOrdered(Log(pushed)) && U64(pushed)
  {
    assert (pushed + [sample])[..|pushed|] == pushed;
    var log := Log(pushed + [sample]);
    assert forall i :: 0 <= i < |pushed| ==> log[i] == Log(pushed)[i];
    assert forall i :: 0 <= i < |pushed| ==> (pushed + [sample])[i] == pushed[i];
  }

  lemma {:induction false} FollowedHasReceived(startMs: nat, cap: nat, sinceMs: nat, events: seq<Event>)
    requires InTime(startMs, cap, sinceMs, events)
    requires U64(Pushes(events)) && StrictlyOrdered(Log(Pushes(events)))
    ensures HasReceived(Followed(startMs, cap, sinceMs, events), Pushes(events), PolledThrough(events), sinceMs)
  {
    if events != [] {
      var init, event := events[..|events| - 1], events[|events| - 1];
      assert forall k :: 0 <= k <= |init| ==> init[..k] == events[..k];
      if event.Push? {
        StrictBefore(Pushes(init), event.sample);
        FollowedHasReceived(startMs, cap, sinceMs, init);
        PushKeepsReceived(Followed(startMs, cap, sinceMs, init), PolledThrough(init), sinceMs, event.sample);
      } else {
        FollowedHasReceived(startMs, cap, sinceMs, init);
        assert events[..|init|] == init;
        PollReceivesTheRest(startMs, cap, Followed(startMs, cap, sinceMs, init), PolledThrough(init), sinceMs);
      }
    }
  }

  /** A client polling in time has received, after each poll, every sample since it began, once and in order. */
  lemma PollerMissesNothing(startMs: nat, cap: nat, sinceMs: nat, events: seq<Event>)
    requires events != [] && events[|events| - 1].Poll?
    requires InTime(startMs, cap, sinceMs, events)
    requires U64(Pushes(events)) && StrictlyOrdered(Log(Pushes(events)))
    ensures Followed(startMs, cap, sinceMs, events).received == Filter(Log(Pushes(events)), sinceMs, U64_MAX + 1)
  {
    FollowedHasReceived(startMs, cap, sinceMs, events);
    LogIsOrdered(Pushes(events));
    FilterSince(Log(Pushes(events)), sinceMs);
  }
}
