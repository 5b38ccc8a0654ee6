/**
 A pipeline's trace over a window, stitched from the persisted history and the recorder's memory
 (`trace_window` in `src/application/flight_recorder.rs`, `window` in `src/db/flight_repo.rs`).
 */
module FlightWindow {
  import opened Prelude
  import opened TimedSamples
  import opened FlightRecorder
  import Thinning

  const I64_MAX: nat := 0x7FFF_FFFF_FFFF_FFFF

  const MAX_POINTS: nat := 2_000

  /** One persisted row of the pipeline: its key, and its sample unless the stored text no longer parses. */
  datatype Row = Row(atMs: nat, sample: Option<FlightSample>)

  /** The recorder's answer: where its detailed run begins, and the kept samples of the window. */
  type Memory = (nat, seq<FlightSample>)

  datatype FlightTrace = FlightTrace(completeFromMs: nat, detailedFromMs: nat, samples: seq<FlightSample>)

  // ---------- trace_window ----------

  function ToI64(ms: nat): nat {
    Min(ms, I64_MAX)
  }

  /** The samples of `rows` with keys in `[sinceMs, untilMs)` that still parse, oldest first. */
  function ReadRows(rows: seq<Row>, sinceMs: nat, untilMs: nat): seq<FlightSample> {
    if rows == [] then []
    else
      var rest := ReadRows(rows[1..], sinceMs, untilMs);
      if sinceMs <= rows[0].atMs < untilMs && rows[0].sample.Some? then [rows[0].sample.value] + rest else rest
  }

  function DetailedFrom(memory: Option<Memory>, untilMs: nat): nat {
    if memory.Some? then memory.value.0 else untilMs
  }

  /** The persisted part: none when memory covers the window or the rows cannot be read. */
  function Older(memory: Option<Memory>, rows: Option<seq<Row>>, sinceMs: nat, untilMs: nat): seq<FlightSample> {
    var from := DetailedFrom(memory, untilMs);
    if sinceMs < from && rows.Some? then ReadRows(rows.value, ToI64(sinceMs), ToI64(Min(from, untilMs))) else []
  }

  function Stitched(memory: Option<Memory>, rows: Option<seq<Row>>, sinceMs: nat, untilMs: nat): seq<FlightSample> {
    Older(memory, rows, sinceMs, untilMs) + if memory.Some? then memory.value.1 else []
  }

  /** A time the trace may be complete from: where memory begins, or the oldest row. */
  predicate IsKnownFrom(memory: Option<Memory>, oldestRow: Option<Option<nat>>, ms: nat) {
    || (memory.Some? && memory.value.0 == ms)
    || (oldestRow.Some? && oldestRow.value.Some? && oldestRow.value.value == ms)
  }

  /** The oldest row, unless memory covers the window and the store is not asked. */
  function Asked(memory: Option<Memory>, oldestRow: Option<Option<nat>>, sinceMs: nat, untilMs: nat)
    : Option<Option<nat>> {
    if sinceMs < DetailedFrom(memory, untilMs) then oldestRow else None
  }

  /** The oldest such time, or the window's start when there is none. */
  ghost predicate IsOldest(memory: Option<Memory>, asked: Option<Option<nat>>, sinceMs: nat, ms: nat) {
    if memory.None? && (asked.None? || asked.value.None?) then ms == sinceMs
    else IsKnownFrom(memory, asked, ms) && forall known: nat :: IsKnownFrom(memory, asked, known) ==> ms <= known
  }

  function OldestKnown(memory: Option<Memory>, oldestRow: Option<Option<nat>>, sinceMs: nat, untilMs: nat): nat {
    var kept := if memory.Some? then memory.value.0 else sinceMs;
    if sinceMs < DetailedFrom(memory, untilMs) && oldestRow.Some? && oldestRow.value.Some?
    then if memory.Some? then Min(kept, oldestRow.value.value) else oldestRow.value.value
    else kept
  }

  lemma OldestKnownIsOldest(memory: Option<Memory>, oldestRow: Option<Option<nat>>, sinceMs: nat, untilMs: nat)
    ensures IsOldest(memory, Asked(memory, oldestRow, sinceMs, untilMs), sinceMs,
                     OldestKnown(memory, oldestRow, sinceMs, untilMs))
  {
  }

  /** A row that parses and lies in the window. */
  predicate IsReadAt(rows: seq<Row>, k: nat, sinceMs: nat, untilMs: nat)
    requires k < |rows|
  {
    rows[k].sample.Some? && sinceMs <= rows[k].atMs < Seam(untilMs)
  }

  ghost predicate IsTraceFrom(trace: FlightTrace, memory: Option<Memory>, oldestRow: Option<Option<nat>>,
                              sinceMs: nat, untilMs: nat) {
    && trace.detailedFromMs == DetailedFrom(memory, untilMs)
    && IsOldest(memory, Asked(memory, oldestRow, sinceMs, untilMs), sinceMs, trace.completeFromMs)
  }

  /**
   The pipeline has no trace exactly when memory does not know it and no row of the window was read. `rows` and
   `oldestRow` are the two reads of the store; each may fail.
   */
  method Stitch(recorder: FlightRecorder, rows: Option<seq<Row>>, oldestRow: Option<Option<nat>>,
                pipeline: PipelineId, sinceMs: nat, untilMs: nat)
    returns (trace: Option<FlightTrace>)
    ensures trace.None? <==>
            pipeline !in recorder.traces
            && (rows.Some? ==> forall k: nat :: k < |rows.value| ==> !IsReadAt(rows.value, k, sinceMs, untilMs))
    ensures trace.Some? ==>
              var memory := MemoryOf(recorder.traces, pipeline, sinceMs, untilMs);
              && trace.value.samples == Stitched(memory, rows, sinceMs, untilMs)
              && IsTraceFrom(trace.value, memory, oldestRow, sinceMs, untilMs)
  {
    var memory := recorder.MemoryWindow(pipeline, sinceMs, untilMs);
    var detailedFromMs := if memory.Some? then memory.value.0 else untilMs;
    var samples: seq<FlightSample> := [];
    var oldest := if memory.Some? then Some(memory.value.0) else None;
    if sinceMs < detailedFromMs {
      if rows.Some? {
        samples := ReadRows(rows.value, ToI64(sinceMs), ToI64(Min(detailedFromMs, untilMs)));
      }
      if oldestRow.Some? && oldestRow.value.Some? {
        var first := oldestRow.value.value;
        oldest := Some(if oldest.Some? then Min(oldest.value, first) else first);
      }
    }
    if memory.None? {
      NothingIsRead(rows, sinceMs, untilMs);
    }
    if memory.None? && samples == [] {
      return None;
    }
    assert samples + [] == samples;
    if memory.Some? {
      samples := samples + memory.value.1;
    }
    OldestKnownIsOldest(memory, oldestRow, sinceMs, untilMs);
    trace := Some(FlightTrace(if oldest.Some? then oldest.value else sinceMs, detailedFromMs, samples));
  }

  method TraceWindow(recorder: FlightRecorder, rows: Option<seq<Row>>, oldestRow: Option<Option<nat>>,
                     pipeline: PipelineId, sinceMs: nat, untilMs: nat, maxPoints: nat)
    returns (trace: Option<FlightTrace>)
    ensures trace.None? <==>
            pipeline !in recorder.traces
            && (rows.Some? ==> forall k: nat :: k < |rows.value| ==> !IsReadAt(rows.value, k, sinceMs, untilMs))
    ensures trace.Some? ==>
              var memory := MemoryOf(recorder.traces, pipeline, sinceMs, untilMs);
              && IsThinned(trace.value.samples, Stitched(memory, rows, sinceMs, untilMs), maxPoints)
              && IsTraceFrom(trace.value, memory, oldestRow, sinceMs, untilMs)
  {
    trace := Stitch(recorder, rows, oldestRow, pipeline, sinceMs, untilMs);
    if trace.Some? {
      var samples := ThinToPoints(trace.value.samples, maxPoints);
      trace := Some(trace.value.(samples := samples));
    }
  }

  /** At most as many points as asked for, within what the server allows. */
  ghost predicate IsThinned(thinned: seq<FlightSample>, samples: seq<FlightSample>, maxPoints: nat) {
    thinned == Thinning.Thinned(samples, Max(2, Min(maxPoints, 2_000)))
  }

  method ThinToPoints(samples: seq<FlightSample>, maxPoints: nat) returns (thinned: seq<FlightSample>)
    ensures IsThinned(thinned, samples, maxPoints)
  {
    thinned := Thinning.Thin(samples, Max(2, Min(maxPoints, MAX_POINTS)));
  }

  function MemoryOf(traces: Traces, pipeline: PipelineId, sinceMs: nat, untilMs: nat): Option<Memory> {
    if pipeline in traces
    then Some((traces[pipeline].completeFromMs, Window(traces[pipeline].samples, sinceMs, untilMs)))
    else None
  }

  // ---------- The store ----------

  /** Keys are unique and ascending `i64`s, and each row's key is its sample's time. */
  ghost predicate IsStore(rows: seq<Row>) {
    && (forall i, j :: 0 <= i < j < |rows| ==> rows[i].atMs < rows[j].atMs)
    && (forall i :: 0 <= i < |rows| ==> rows[i].atMs <= I64_MAX)
    && (forall i :: 0 <= i < |rows| && rows[i].sample.Some? ==> rows[i].sample.value.atMs == rows[i].atMs)
  }

  ghost predicate AllWithin(samples: seq<FlightSample>, sinceMs: nat, untilMs: nat) {
    forall i :: 0 <= i < |samples| ==> Within(samples[i], sinceMs, untilMs)
  }

  lemma PrependIsStrict(sample: FlightSample, rest: seq<FlightSample>)
    requires StrictlyOrdered(rest) && forall i :: 0 <= i < |rest| ==> sample.atMs < rest[i].atMs
    ensures StrictlyOrdered([sample] + rest)
  {
  }

  lemma {:induction false} ReadRowsAreStrict(rows: seq<Row>, sinceMs: nat, untilMs: nat)
    requires IsStore(rows)
    ensures var read := ReadRows(rows, sinceMs, untilMs);
            && StrictlyOrdered(read) && AllWithin(read, sinceMs, untilMs)
            && forall i :: 0 <= i < |read| ==> read[i].atMs >= rows[0].atMs
  {
    if rows != [] {
      var read := ReadRows(rows[1..], sinceMs, untilMs);
      ReadRowsAreStrict(rows[1..], sinceMs, untilMs);
      assert |rows| > 1 ==> rows[1..][0] == rows[1];
      if |rows| == 1 {
        assert read == [];
      }
      if sinceMs <= rows[0].atMs < untilMs && rows[0].sample.Some? {
        PrependIsStrict(rows[0].sample.value, read);
      }
    }
  }

  lemma {:induction false} ReadRowsHold(rows: seq<Row>, sinceMs: nat, untilMs: nat, sample: FlightSample)
    ensures sample in ReadRows(rows, sinceMs, untilMs)
       <==> exists k :: 0 <= k < |rows| && rows[k].sample == Some(sample) && sinceMs <= rows[k].atMs < untilMs
  {
    if rows != [] {
      var rest := rows[1..];
      ReadRowsHold(rest, sinceMs, untilMs, sample);
      if sample in ReadRows(rest, sinceMs, untilMs) {
        var k :| 0 <= k < |rest| && rest[k].sample == Some(sample) && sinceMs <= rest[k].atMs < untilMs;
        assert rows[k + 1].sample == Some(sample);
      }
      if exists k :: 0 <= k < |rows| && rows[k].sample == Some(sample) && sinceMs <= rows[k].atMs < untilMs {
        var k :| 0 <= k < |rows| && rows[k].sample == Some(sample) && sinceMs <= rows[k].atMs < untilMs;
        if k > 0 {
          assert rest[k - 1].sample == Some(sample);
        }
      }
    }
  }

  /** With no memory, the persisted part is empty exactly when no row of the window parses. */
  lemma NothingIsRead(rows: Option<seq<Row>>, sinceMs: nat, untilMs: nat)
    ensures Older(None, rows, sinceMs, untilMs) == []
       <==> (rows.Some? ==> forall k: nat :: k < |rows.value| ==> !IsReadAt(rows.value, k, sinceMs, untilMs))
  {
    var older := Older(None, rows, sinceMs, untilMs);
    if rows.Some? {
      forall sample ensures sample in ReadRows(rows.value, ToI64(sinceMs), ToI64(untilMs)) <==>
                            exists k :: 0 <= k < |rows.value| && rows.value[k].sample == Some(sample)
                                        && ToI64(sinceMs) <= rows.value[k].atMs < ToI64(untilMs) {
        ReadRowsHold(rows.value, ToI64(sinceMs), ToI64(untilMs), sample);
      }
      if older != [] {
        assert older[0] in older;
        var k :| 0 <= k < |rows.value| && rows.value[k].sample == Some(older[0])
                 && ToI64(sinceMs) <= rows.value[k].atMs < ToI64(untilMs);
        assert IsReadAt(rows.value, k, sinceMs, untilMs);
      }
      forall k: nat | k < |rows.value| && IsReadAt(rows.value, k, sinceMs, untilMs) ensures older != [] {
        var sample := rows.value[k].sample.value;
        assert sample in ReadRows(rows.value, ToI64(sinceMs), ToI64(untilMs));
      }
    }
  }

  // ---------- Stitching ----------

  lemma JoinIsStrict(older: seq<FlightSample>, newer: seq<FlightSample>, bound: nat)
    requires StrictlyOrdered(older) && StrictlyOrdered(newer)
    requires forall i :: 0 <= i < |older| ==> older[i].atMs < bound
    requires forall i :: 0 <= i < |newer| ==> bound <= newer[i].atMs
    ensures StrictlyOrdered(older + newer)
  {
  }

  /** Where the persisted part of a stitched trace ends. */
  function Seam(from: nat): nat {
    Min(from, I64_MAX)
  }

  /** No kept sample of the window lies before the seam. */
  ghost predicate KeptAfterSeam(memory: Memory) {
    forall i :: 0 <= i < |memory.1| ==> memory.1[i].atMs >= Seam(memory.0)
  }

  lemma OlderIsBeforeSeam(memory: Option<Memory>, rows: Option<seq<Row>>, sinceMs: nat, untilMs: nat)
    requires rows.Some? ==> IsStore(rows.value)
    ensures var older := Older(memory, rows, sinceMs, untilMs);
            && StrictlyOrdered(older)
            && AllWithin(older, ToI64(sinceMs), Seam(Min(DetailedFrom(memory, untilMs), untilMs)))
  {
    if rows.Some? {
      ReadRowsAreStrict(rows.value, ToI64(sinceMs), ToI64(Min(DetailedFrom(memory, untilMs), untilMs)));
    }
  }

  lemma StitchedIsStrict(memory: Option<Memory>, rows: Option<seq<Row>>, sinceMs: nat, untilMs: nat)
    requires rows.Some? ==> IsStore(rows.value)
    requires memory.Some? ==> StrictlyOrdered(memory.value.1) && KeptAfterSeam(memory.value)
    ensures StrictlyOrdered(Stitched(memory, rows, sinceMs, untilMs))
  {
    OlderIsBeforeSeam(memory, rows, sinceMs, untilMs);
    var older := Older(memory, rows, sinceMs, untilMs);
    if memory.Some? {
      JoinIsStrict(older, memory.value.1, Seam(memory.value.0));
    } else {
      assert older + [] == older;
    }
  }

  lemma RepeatIsNotStrict(kept: seq<FlightSample>, i: nat)
    requires i < |kept|
    ensures !StrictlyOrdered([kept[i]] + kept)
  {
    var joined := [kept[i]] + kept;
    assert joined[0] == joined[i + 1];
  }

  lemma StoredCopyIsRead(memory: Memory, sample: FlightSample, sinceMs: nat, untilMs: nat)
    requires Within(sample, sinceMs, untilMs) && sample.atMs < Seam(memory.0)
    ensures var rows := [Row(sample.atMs, Some(sample))];
            IsStore(rows) && Stitched(Some(memory), Some(rows), sinceMs, untilMs) == [sample] + memory.1
  {
    var rows := [Row(sample.atMs, Some(sample))];
    assert rows[1..] == [];
    assert ReadRows(rows, ToI64(sinceMs), ToI64(Min(memory.0, untilMs))) == [sample];
  }

  /** A stitched trace is in strict order for every store exactly when no kept sample lies before the seam. */
  lemma StitchIsOrderedIff(memory: Memory, sinceMs: nat, untilMs: nat)
    requires StrictlyOrdered(memory.1) && AllWithin(memory.1, sinceMs, untilMs)
    ensures (forall rows :: IsStore(rows) ==> StrictlyOrdered(Stitched(Some(memory), Some(rows), sinceMs, untilMs)))
       <==> KeptAfterSeam(memory)
  {
    if KeptAfterSeam(memory) {
      forall rows | IsStore(rows) ensures StrictlyOrdered(Stitched(Some(memory), Some(rows), sinceMs, untilMs)) {
        StitchedIsStrict(Some(memory), Some(rows), sinceMs, untilMs);
      }
    } else {
      var i :| 0 <= i < |memory.1| && memory.1[i].atMs < Seam(memory.0);
      StoredCopyIsRead(memory, memory.1[i], sinceMs, untilMs);
      RepeatIsNotStrict(memory.1, i);
    }
  }

  lemma {:induction false} FilterHolds(samples: seq<FlightSample>, sinceMs: nat, boundMs: nat, sample: FlightSample)
    ensures sample in Filter(samples, sinceMs, boundMs) <==> sample in samples && Within(sample, sinceMs, boundMs)
  {
    if samples != [] {
      FilterHolds(samples[1..], sinceMs, boundMs, sample);
    }
  }

  lemma WindowIsStrict(samples: seq<FlightSample>, sinceMs: nat, boundMs: nat)
    requires StrictlyOrdered(samples)
    ensures StrictlyOrdered(Window(samples, sinceMs, boundMs)) &&
            AllWithin(Window(samples, sinceMs, boundMs), sinceMs, boundMs)
  {
    LeadingSplits(samples, sinceMs);
    LeadingSplits(samples, boundMs);
  }

  /**
   Nothing is missed and nothing is added: the kept samples of the window, if memory knows the pipeline, and the rows of
   the window up to where memory begins, or all of them if it does not.
   */
  lemma StitchedHolds(traces: Traces, p: PipelineId, rows: Option<seq<Row>>, sinceMs: nat, untilMs: nat,
                      sample: FlightSample)
    requires p in traces ==> StrictlyOrdered(traces[p].samples)
    ensures var end := if p in traces then Min(traces[p].completeFromMs, untilMs) else untilMs;
            (sample in Stitched(MemoryOf(traces, p, sinceMs, untilMs), rows, sinceMs, untilMs)
             <==> (p in traces && sample in traces[p].samples && Within(sample, sinceMs, untilMs))
                  || (rows.Some? && exists k :: 0 <= k < |rows.value| && rows.value[k].sample == Some(sample)
                                                && sinceMs <= rows.value[k].atMs < Seam(end)))
  {
    if p in traces {
      WindowIsFilter(traces[p].samples, sinceMs, untilMs);
      FilterHolds(traces[p].samples, sinceMs, untilMs, sample);
    }
    if rows.Some? {
      var end := if p in traces then Min(traces[p].completeFromMs, untilMs) else untilMs;
      ReadRowsHold(rows.value, ToI64(sinceMs), Seam(end), sample);
    }
  }

  // ---------- Over every run of the recorder ----------

  /** The clock was not behind the recorder's start when the pipeline appeared, or the cap has been reached since. */
  ghost predicate ClockNotEarly(log: Log, cap: nat, startedMs: nat)
    requires log.samples != []
  {
    |log.samples| > cap || log.samples[0].atMs >= Seam(startedMs)
  }

  lemma KeptAreAfterSeam(trace: Trace, log: Log, cap: nat, startedMs: nat)
    requires cap > 0 && |log.samples| == |log.probes| && LogIsSound(log, startedMs) && IsTailOf(trace, log, cap)
    requires StrictlyOrdered(log.samples) && ClockNotEarly(log, cap, startedMs)
    ensures forall i :: 0 <= i < |trace.samples| ==> trace.samples[i].atMs >= Seam(trace.completeFromMs)
  {
    var k := EvictedOf(|log.samples|, cap);
    forall i | 0 <= i < |trace.samples| ensures trace.samples[i].atMs >= Seam(trace.completeFromMs) {
      assert trace.samples[i] == log.samples[k + i];
    }
  }

  lemma KeptWindowIsAfterSeam(trace: Trace, sinceMs: nat, untilMs: nat)
    requires forall i :: 0 <= i < |trace.samples| ==> trace.samples[i].atMs >= Seam(trace.completeFromMs)
    ensures KeptAfterSeam((trace.completeFromMs, Window(trace.samples, sinceMs, untilMs)))
  {
  }

  /** What the recorder and a store answer for a window, at the end of a run. */
  function StitchedAfter(cap: nat, startedMs: nat, ticks: seq<Tick>, p: PipelineId, rows: seq<Row>,
                         sinceMs: nat, untilMs: nat): seq<FlightSample> {
    Stitched(MemoryOf(TracesAfter(cap, startedMs, ticks), p, sinceMs, untilMs), Some(rows), sinceMs, untilMs)
  }

  lemma RunStitchesInOrder(cap: nat, startedMs: nat, ticks: seq<Tick>, p: PipelineId, rows: seq<Row>, sinceMs: nat,
                           untilMs: nat)
    requires cap > 0 && p in TracesAfter(cap, startedMs, ticks) && IsStore(rows)
    requires var log := LogOf(startedMs, ticks, p);
             && log.Some? && log.value.samples != [] && LastAt(log.value.samples) < U64_MAX
             && ClockNotEarly(log.value, cap, startedMs)
    ensures StrictlyOrdered(StitchedAfter(cap, startedMs, ticks, p, rows, sinceMs, untilMs))
  {
    var trace, log := TracesAfter(cap, startedMs, ticks)[p], LogOf(startedMs, ticks, p).value;
    TracesAreTails(cap, startedMs, ticks, p);
    LogOfIsSound(startedMs, ticks, p);
    TailIsOrdered(trace, log, cap);
    KeptAreAfterSeam(trace, log, cap, startedMs);
    KeptWindowIsAfterSeam(trace, sinceMs, untilMs);
    WindowIsStrict(trace.samples, sinceMs, untilMs);
    StitchedIsStrict(MemoryOf(TracesAfter(cap, startedMs, ticks), p, sinceMs, untilMs), Some(rows), sinceMs, untilMs);
  }

  /** The first kept sample leads the window that starts at it. */
  lemma FirstLeadsItsWindow(samples: seq<FlightSample>)
    requires StrictlyOrdered(samples) && samples != []
    ensures var window := Window(samples, samples[0].atMs, samples[0].atMs + 1); window != [] && window[0] == samples[0]
  {
    assert LeadingBelow(samples, samples[0].atMs) == 0;
    assert LeadingBelow(samples, samples[0].atMs + 1) > 0;
  }

  lemma EarlyKeptSampleRepeats(trace: Trace)
    requires StrictlyOrdered(trace.samples) && trace.samples != [] && trace.samples[0].atMs < Seam(trace.completeFromMs)
    ensures var first := trace.samples[0];
            var memory := (trace.completeFromMs, Window(trace.samples, first.atMs, first.atMs + 1));
            var rows := [Row(first.atMs, Some(first))];
            IsStore(rows) && !StrictlyOrdered(Stitched(Some(memory), Some(rows), first.atMs, first.atMs + 1))
  {
    var first := trace.samples[0];
    var memory: Memory := (trace.completeFromMs, Window(trace.samples, first.atMs, first.atMs + 1));
    FirstLeadsItsWindow(trace.samples);
    StoredCopyIsRead(memory, first, first.atMs, first.atMs + 1);
    RepeatIsNotStrict(memory.1, 0);
  }

  /**
   In every run: every store and window stitch without a duplicate or a step back in time if and only if the clock
   was not behind the recorder's start when the pipeline appeared, or the cap has been reached since.
   */
  lemma RunStitchesInOrderIff(cap: nat, startedMs: nat, ticks: seq<Tick>, p: PipelineId)
    requires cap > 0 && p in TracesAfter(cap, startedMs, ticks)
    requires var log := LogOf(startedMs, ticks, p);
             log.Some? && log.value.samples != [] && LastAt(log.value.samples) < U64_MAX
    ensures (forall rows, sinceMs, untilMs :: IsStore(rows) ==>
               StrictlyOrdered(StitchedAfter(cap, startedMs, ticks, p, rows, sinceMs, untilMs)))
       <==> ClockNotEarly(LogOf(startedMs, ticks, p).value, cap, startedMs)
  {
    if ClockNotEarly(LogOf(startedMs, ticks, p).value, cap, startedMs) {
      forall rows, sinceMs: nat, untilMs: nat | IsStore(rows)
        ensures StrictlyOrdered(StitchedAfter(cap, startedMs, ticks, p, rows, sinceMs, untilMs)) {
        RunStitchesInOrder(cap, startedMs, ticks, p, rows, sinceMs, untilMs);
      }
    } else {
      var rows, sinceMs, untilMs := EarlyRunRepeats(cap, startedMs, ticks, p);
    }
  }

  lemma EarlyRunRepeats(cap: nat, startedMs: nat, ticks: seq<Tick>, p: PipelineId)
    returns (rows: seq<Row>, sinceMs: nat, untilMs: nat)
    requires cap > 0 && p in TracesAfter(cap, startedMs, ticks)
    requires var log := LogOf(startedMs, ticks, p);
             && log.Some? && log.value.samples != [] && LastAt(log.value.samples) < U64_MAX
             && !ClockNotEarly(log.value, cap, startedMs)
    ensures IsStore(rows) && !StrictlyOrdered(StitchedAfter(cap, startedMs, ticks, p, rows, sinceMs, untilMs))
  {
    var trace, log := TracesAfter(cap, startedMs, ticks)[p], LogOf(startedMs, ticks, p).value;
    TracesAreTails(cap, startedMs, ticks, p);
    LogOfIsSound(startedMs, ticks, p);
    assert trace.samples == log.samples;
    EarlyKeptSampleRepeats(trace);
    var first := trace.samples[0];
    rows, sinceMs, untilMs := [Row(first.atMs, Some(first))], first.atMs, first.atMs + 1;
  }

  lemma OneTick(cap: nat, startedMs: nat, atMs: nat, probe: Probe)
    requires cap > 0
    ensures TracesAfter(cap, startedMs, [Tick(atMs, [probe])])
         == map[probe.pipeline := Trace([SampleOf(None, atMs, probe)], Max(atMs, startedMs), LastOf(probe, atMs))]
  {
    var ticks, probes := [Tick(atMs, [probe])], [probe];
    var trace := RecordProbe(NewTrace(atMs, startedMs), cap, atMs, probe);
    assert [] + [SampleOf(None, atMs, probe)] == [SampleOf(None, atMs, probe)];
    assert trace == Trace([SampleOf(None, atMs, probe)], Max(atMs, startedMs), LastOf(probe, atMs));
    assert ticks[..0] == [] && TracesAfter(cap, startedMs, ticks[..0]) == map[];
    assert Retained(map[], probes) == map[];
    assert probes[..0] == [] && AfterProbes(map[], cap, startedMs, atMs, probes[..0]) == map[];
    assert AfterProbes(map[], cap, startedMs, atMs, probes) == map[probe.pipeline := trace];
  }

  /** A recorder that starts ahead of the clock: after one tick, a stored copy of its sample shows twice. */
  lemma EarlyClockRepeatsASample(cap: nat, startedMs: nat, atMs: nat, probe: Probe)
    requires cap > 0 && atMs < Seam(startedMs)
    ensures var sample := SampleOf(None, atMs, probe);
            var rows := [Row(atMs, Some(sample))];
            var ticks := [Tick(atMs, [probe])];
            StitchedAfter(cap, startedMs, ticks, probe.pipeline, rows, atMs, atMs + 1) == [sample, sample]
  {
    var sample := SampleOf(None, atMs, probe);
    OneTick(cap, startedMs, atMs, probe);
    assert [sample][1..] == [];
    assert Window([sample], atMs, atMs + 1) == [sample];
    StoredCopyIsRead((Max(atMs, startedMs), [sample]), sample, atMs, atMs + 1);
  }

  /** Thinning keeps the order. */
  lemma ThinnedIsStrict(samples: seq<FlightSample>, max: nat)
    requires StrictlyOrdered(samples)
    ensures StrictlyOrdered(Thinning.Thinned(samples, max))
  {
    if |samples| > max >= 2 {
      Thinning.ThinnedIsSpread(samples, max);
      var thinned := Thinning.Thinned(samples, max);
      forall i, j | 0 <= i < j < max ensures thinned[i].atMs < thinned[j].atMs {
        assert Thinning.Want(i, |samples|, max) < Thinning.Want(j, |samples|, max);
      }
    }
  }
}
