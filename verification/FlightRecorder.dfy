/**
 The per-pipeline flight recorder (`FlightRecorder::record` and the traces it keeps, in
 `src/application/flight_recorder.rs`), against the full log of what was recorded since each pipeline
 last appeared.
 */
module FlightRecorder {
  import opened Prelude
  import opened TimedSamples

  datatype PipelineId = PipelineId(name: string)

  datatype InputId = InputId(name: string)

  /** The selected ingest's cumulative byte counter. */
  datatype IngestProbe = IngestProbe(input: InputId, bytes: nat)

  /** What one tick reads of one pipeline; `detail` stands for the figures passed through unchanged. */
  datatype Probe = Probe(pipeline: PipelineId, ingest: Option<IngestProbe>, detail: string)

  datatype Ingest = Ingest(input: InputId, bitrateBps: Option<real>)

  datatype Health = Health(ingest: Option<Ingest>, detail: string)

  type FlightSample = Sample<Health>

  /** The session's byte counter at the last sample. */
  datatype LastBytes = LastBytes(input: InputId, bytes: nat, atMs: nat)

  datatype Trace = Trace(samples: seq<FlightSample>, completeFromMs: nat, lastBytes: Option<LastBytes>)

  type Traces = map<PipelineId, Trace>

  // ---------- record ----------

  function StampedAt(samples: seq<FlightSample>, atMs: nat): nat {
    if samples == [] then atMs else Max(atMs, SaturatingAdd(LastAt(samples), 1))
  }

  /** The same session went on since the last sample. */
  predicate Continues(last: Option<LastBytes>, ingest: IngestProbe, atMs: nat) {
    last.Some? && last.value.input == ingest.input && ingest.bytes >= last.value.bytes && atMs > last.value.atMs
  }

  function Bitrate(last: Option<LastBytes>, ingest: IngestProbe, atMs: nat): Option<real> {
    if Continues(last, ingest, atMs)
    then Some((ingest.bytes - last.value.bytes) as real * 8000.0 / (atMs - last.value.atMs) as real)
    else None
  }

  function SampleOf(last: Option<LastBytes>, atMs: nat, probe: Probe): FlightSample {
    var ingest := match probe.ingest
      case None => None
      case Some(ingest) => Some(Ingest(ingest.input, Bitrate(last, ingest, atMs)));
    Sample(atMs, Health(ingest, probe.detail))
  }

  function LastOf(probe: Probe, atMs: nat): Option<LastBytes> {
    match probe.ingest
    case None => None
    case Some(ingest) => Some(LastBytes(ingest.input, ingest.bytes, atMs))
  }

  function NewTrace(atMs: nat, startedMs: nat): Trace {
    Trace([], Max(atMs, startedMs), None)
  }

  function RecordProbe(trace: Trace, cap: nat, atMs: nat, probe: Probe): Trace {
    var at := StampedAt(trace.samples, atMs);
    var sample := SampleOf(trace.lastBytes, at, probe);
    if |trace.samples| >= cap && trace.samples != []
    then Trace(trace.samples[1..] + [sample], trace.samples[0].atMs, LastOf(probe, at))
    else Trace(trace.samples + [sample], trace.completeFromMs, LastOf(probe, at))
  }

  function Present(probes: seq<Probe>): set<PipelineId> {
    set k | 0 <= k < |probes| :: probes[k].pipeline
  }

  function Retained(traces: Traces, probes: seq<Probe>): Traces {
    map p | p in traces && p in Present(probes) :: traces[p]
  }

  function AfterProbes(traces: Traces, cap: nat, startedMs: nat, atMs: nat, probes: seq<Probe>): Traces {
    if probes == [] then traces
    else
      var before := AfterProbes(traces, cap, startedMs, atMs, probes[..|probes| - 1]);
      var probe := probes[|probes| - 1];
      var trace := if probe.pipeline in before then before[probe.pipeline] else NewTrace(atMs, startedMs);
      before[probe.pipeline := RecordProbe(trace, cap, atMs, probe)]
  }

  class FlightRecorder {
    var traces: Traces
    const cap: nat
    const startedMs: nat

    constructor (startedMs: nat, cap: nat)
      ensures traces == map[] && this.startedMs == startedMs && this.cap == Max(cap, 1)
    {
      traces := map[];
      this.cap := Max(cap, 1);
      this.startedMs := startedMs;
    }

    method Record(atMs: nat, probes: seq<Probe>)
      modifies this
      ensures traces == AfterProbes(Retained(old(traces), probes), cap, startedMs, atMs, probes)
    {
      traces := Retained(traces, probes);
      ghost var retained := traces;
      for k := 0 to |probes|
        invariant traces == AfterProbes(retained, cap, startedMs, atMs, probes[..k])
      {
        assert probes[..k + 1][..k] == probes[..k];
        var probe := probes[k];
        var trace := NewTrace(atMs, startedMs);
        if probe.pipeline in traces {
          trace := traces[probe.pipeline];
        }
        var at := atMs;
        if trace.samples != [] {
          at := Max(atMs, SaturatingAdd(LastAt(trace.samples), 1));
        }
        var sample := SampleOf(trace.lastBytes, at, probe);
        trace := trace.(lastBytes := LastOf(probe, at));
        if |trace.samples| >= cap && trace.samples != [] {
          trace := trace.(completeFromMs := trace.samples[0].atMs, samples := trace.samples[1..]);
        }
        trace := trace.(samples := trace.samples + [sample]);
        traces := traces[probe.pipeline := trace];
      }
      assert probes[..|probes|] == probes;
    }

    /** The kept samples in `[sinceMs, untilMs)` and where the kept run begins. */
    method MemoryWindow(pipeline: PipelineId, sinceMs: nat, untilMs: nat)
      returns (window: Option<(nat, seq<FlightSample>)>)
      ensures window.Some? <==> pipeline in traces
      ensures window.Some? ==>
                && window.value.0 == traces[pipeline].completeFromMs
                && window.value.1 == Window(traces[pipeline].samples, sinceMs, untilMs)
    {
      if pipeline !in traces {
        return None;
      }
      var trace := traces[pipeline];
      var first := LeadingBelow(trace.samples, sinceMs);
      var end := LeadingBelow(trace.samples, untilMs);
      window := Some((trace.completeFromMs, trace.samples[first..Max(end, first)]));
    }
  }

  // ---------- The full log of a pipeline ----------

  /** Everything recorded of a pipeline since it last appeared, with the probes it came from. */
  datatype Log = Log(samples: seq<FlightSample>, probes: seq<Probe>, completeFromMs: nat)

  /** One call of `record`. */
  datatype Tick = Tick(atMs: nat, probes: seq<Probe>)

  function LastBytesOf(log: Log): Option<LastBytes>
    requires |log.samples| == |log.probes|
  {
    if log.samples == [] then None else LastOf(log.probes[|log.probes| - 1], LastAt(log.samples))
  }

  /** A log with one more probe, nothing evicted. */
  function Extended(log: Log, atMs: nat, probe: Probe): (r: Log)
    requires |log.samples| == |log.probes|
    ensures |r.samples| == |r.probes| == |log.samples| + 1
  {
    Log(log.samples + [SampleOf(LastBytesOf(log), StampedAt(log.samples, atMs), probe)], log.probes + [probe],
        log.completeFromMs)
  }

  function LogAfterProbes(log: Option<Log>, startedMs: nat, atMs: nat, probes: seq<Probe>, p: PipelineId)
    : (r: Option<Log>)
    requires log.Some? ==> |log.value.samples| == |log.value.probes|
    ensures r.Some? ==> |r.value.samples| == |r.value.probes|
  {
    if probes == [] then log
    else
      var before := LogAfterProbes(log, startedMs, atMs, probes[..|probes| - 1], p);
      var probe := probes[|probes| - 1];
      if probe.pipeline != p then before
      else if before.Some? then Some(Extended(before.value, atMs, probe))
      else Some(Extended(Log([], [], Max(atMs, startedMs)), atMs, probe))
  }

  /** Absent from a tick, a pipeline loses its log. */
  function LogOf(startedMs: nat, ticks: seq<Tick>, p: PipelineId): (r: Option<Log>)
    ensures r.Some? ==> |r.value.samples| == |r.value.probes|
  {
    if ticks == [] then None
    else
      var tick := ticks[|ticks| - 1];
      var before := LogOf(startedMs, ticks[..|ticks| - 1], p);
      LogAfterProbes(if p in Present(tick.probes) then before else None, startedMs, tick.atMs, tick.probes, p)
  }

  function TracesAfter(cap: nat, startedMs: nat, ticks: seq<Tick>): Traces {
    if ticks == [] then map[]
    else
      var tick := ticks[|ticks| - 1];
      var before := TracesAfter(cap, startedMs, ticks[..|ticks| - 1]);
      AfterProbes(Retained(before, tick.probes), cap, startedMs, tick.atMs, tick.probes)
  }

  // ---------- What every log satisfies ----------

  /** Each sample is made from its probe and the one before it. */
  ghost predicate SamplesAreMade(log: Log)
    requires |log.samples| == |log.probes|
  {
    forall k :: 0 <= k < |log.samples| ==> IsMade(log, k)
  }

  ghost predicate IsMade(log: Log, k: nat)
    requires |log.samples| == |log.probes| && k < |log.samples|
  {
    log.samples[k] == SampleOf(BytesBefore(log, k), log.samples[k].atMs, log.probes[k])
  }

  ghost function BytesBefore(log: Log, k: nat): Option<LastBytes>
    requires |log.samples| == |log.probes| && k < |log.samples|
  {
    if k == 0 then None else LastOf(log.probes[k - 1], log.samples[k - 1].atMs)
  }

  /** Time does not stand still or go back, short of the last millisecond of a `u64`. */
  ghost predicate TimeAdvances(samples: seq<FlightSample>) {
    samples != [] && (LastAt(samples) < U64_MAX ==> StrictlyOrdered(samples))
  }

  ghost predicate LogIsSound(log: Log, startedMs: nat)
    requires |log.samples| == |log.probes|
  {
    && TimeAdvances(log.samples) && SamplesAreMade(log)
    && log.completeFromMs == Max(log.samples[0].atMs, startedMs)
  }

  lemma ExtendedTimeAdvances(samples: seq<FlightSample>, atMs: nat, sample: FlightSample)
    requires TimeAdvances(samples) && sample.atMs == StampedAt(samples, atMs)
    ensures TimeAdvances(samples + [sample])
  {
  }

  /** A sample carries its tick's time when the clock has moved on, and otherwise the next millisecond. */
  lemma SampleIsAtTheClock(trace: Trace, cap: nat, atMs: nat, probe: Probe)
    requires trace.samples != [] ==> LastAt(trace.samples) < U64_MAX
    ensures var samples := RecordProbe(trace, cap, atMs, probe).samples;
            && samples != []
            && LastAt(samples) == if trace.samples == [] || LastAt(trace.samples) < atMs then atMs
                                  else LastAt(trace.samples) + 1
  {
  }

  lemma ExtendedIsMade(log: Log, atMs: nat, probe: Probe)
    requires |log.samples| == |log.probes| && log.samples != [] && SamplesAreMade(log)
    ensures SamplesAreMade(Extended(log, atMs, probe))
  {
    var r, n := Extended(log, atMs, probe), |log.samples|;
    forall k | 0 <= k < n + 1 ensures IsMade(r, k) {
      if k < n {
        assert IsMade(log, k);
      }
    }
  }

  lemma ExtendedIsSound(log: Log, startedMs: nat, atMs: nat, probe: Probe)
    requires |log.samples| == |log.probes| && LogIsSound(log, startedMs)
    ensures LogIsSound(Extended(log, atMs, probe), startedMs)
  {
    ExtendedIsMade(log, atMs, probe);
    ExtendedTimeAdvances(log.samples, atMs, SampleOf(LastBytesOf(log), StampedAt(log.samples, atMs), probe));
  }

  lemma {:induction false} LogAfterProbesIsSound(log: Option<Log>, startedMs: nat, atMs: nat, probes: seq<Probe>,
                                                 p: PipelineId)
    requires log.Some? ==> |log.value.samples| == |log.value.probes| && LogIsSound(log.value, startedMs)
    ensures var r := LogAfterProbes(log, startedMs, atMs, probes, p); r.Some? ==> LogIsSound(r.value, startedMs)
  {
    if probes != [] {
      var init, probe := probes[..|probes| - 1], probes[|probes| - 1];
      LogAfterProbesIsSound(log, startedMs, atMs, init, p);
      var before := LogAfterProbes(log, startedMs, atMs, init, p);
      if probe.pipeline == p && before.Some? {
        ExtendedIsSound(before.value, startedMs, atMs, probe);
      }
    }
  }

  lemma {:induction false} LogOfIsSound(startedMs: nat, ticks: seq<Tick>, p: PipelineId)
    ensures var r := LogOf(startedMs, ticks, p); r.Some? ==> LogIsSound(r.value, startedMs)
  {
    if ticks != [] {
      var tick, init := ticks[|ticks| - 1], ticks[..|ticks| - 1];
      LogOfIsSound(startedMs, init, p);
      var before := LogOf(startedMs, init, p);
      LogAfterProbesIsSound(if p in Present(tick.probes) then before else None, startedMs, tick.atMs, tick.probes, p);
    }
  }

  // ---------- The kept trace is the end of the log ----------

  /** How many samples of a log of `n` the cap has evicted. */
  function EvictedOf(n: nat, cap: nat): nat {
    SaturatingSub(n, cap)
  }

  ghost predicate IsTailOf(trace: Trace, log: Log, cap: nat)
    requires |log.samples| == |log.probes|
  {
    var k := EvictedOf(|log.samples|, cap);
    && trace.samples == log.samples[k..] && trace.lastBytes == LastBytesOf(log)
    && trace.completeFromMs == if k == 0 then log.completeFromMs else log.samples[k - 1].atMs
  }

  ghost predicate Agree(trace: Option<Trace>, log: Option<Log>, cap: nat)
    requires log.Some? ==> |log.value.samples| == |log.value.probes|
  {
    && (trace.Some? <==> log.Some?)
    && (log.Some? ==> log.value.samples != [] && IsTailOf(trace.value, log.value, cap))
  }

  lemma TailOfLonger(samples: seq<FlightSample>, sample: FlightSample, cap: nat)
    requires cap > 0
    ensures var kept := samples[EvictedOf(|samples|, cap)..];
            var room := if |kept| >= cap && kept != [] then kept[1..] else kept;
            (samples + [sample])[EvictedOf(|samples| + 1, cap)..] == room + [sample]
  {
    var k := EvictedOf(|samples|, cap);
    if |samples| >= cap {
      assert (samples + [sample])[k + 1..] == samples[k + 1..] + [sample];
      assert samples[k..][1..] == samples[k + 1..];
    } else {
      assert (samples + [sample])[0..] == samples[0..] + [sample];
    }
  }

  lemma RecordProbeKeepsTail(trace: Trace, log: Log, cap: nat, atMs: nat, probe: Probe)
    requires cap > 0 && |log.samples| == |log.probes| && IsTailOf(trace, log, cap)
    ensures IsTailOf(RecordProbe(trace, cap, atMs, probe), Extended(log, atMs, probe), cap)
  {
    assert log.samples != [] ==> LastAt(log.samples) == LastAt(trace.samples);
    TailOfLonger(log.samples, SampleOf(LastBytesOf(log), StampedAt(log.samples, atMs), probe), cap);
  }

  lemma {:induction false} ProbesKeepAgreement(traces: Traces, log: Option<Log>, cap: nat, startedMs: nat, atMs: nat,
                                               probes: seq<Probe>, p: PipelineId)
    requires cap > 0 && (log.Some? ==> |log.value.samples| == |log.value.probes|)
    requires Agree(Lookup(traces, p), log, cap)
    ensures Agree(Lookup(AfterProbes(traces, cap, startedMs, atMs, probes), p),
                  LogAfterProbes(log, startedMs, atMs, probes, p), cap)
  {
    if probes != [] {
      var init, probe := probes[..|probes| - 1], probes[|probes| - 1];
      ProbesKeepAgreement(traces, log, cap, startedMs, atMs, init, p);
      var before := AfterProbes(traces, cap, startedMs, atMs, init);
      var logBefore := LogAfterProbes(log, startedMs, atMs, init, p);
      if probe.pipeline == p {
        var trace := if p in before then before[p] else NewTrace(atMs, startedMs);
        var full := if logBefore.Some? then logBefore.value else Log([], [], Max(atMs, startedMs));
        RecordProbeKeepsTail(trace, full, cap, atMs, probe);
      }
    }
  }

  /** In every run, on any clock, each trace is the last `cap` samples recorded since its pipeline last appeared. */
  lemma {:induction false} TracesAreTails(cap: nat, startedMs: nat, ticks: seq<Tick>, p: PipelineId)
    requires cap > 0
    ensures Agree(Lookup(TracesAfter(cap, startedMs, ticks), p), LogOf(startedMs, ticks, p), cap)
  {
    if ticks != [] {
      var tick, init := ticks[|ticks| - 1], ticks[..|ticks| - 1];
      TracesAreTails(cap, startedMs, init, p);
      var retained := Retained(TracesAfter(cap, startedMs, init), tick.probes);
      var log := if p in Present(tick.probes) then LogOf(startedMs, init, p) else None;
      ProbesKeepAgreement(retained, log, cap, startedMs, tick.atMs, tick.probes, p);
    }
  }

  lemma {:induction false} KnownAfterProbes(log: Option<Log>, startedMs: nat, atMs: nat, probes: seq<Probe>,
                                            p: PipelineId)
    requires log.Some? ==> |log.value.samples| == |log.value.probes|
    ensures LogAfterProbes(log, startedMs, atMs, probes, p).Some? <==> log.Some? || p in Present(probes)
  {
    if probes != [] {
      var init := probes[..|probes| - 1];
      KnownAfterProbes(log, startedMs, atMs, init, p);
      assert Present(probes) == Present(init) + {probes[|probes| - 1].pipeline} by {
        forall q | q in Present(probes) ensures q in Present(init) + {probes[|probes| - 1].pipeline} {
          var k :| 0 <= k < |probes| && probes[k].pipeline == q;
          assert k < |init| ==> init[k].pipeline == q;
        }
        forall q | q in Present(init) ensures q in Present(probes) {
          var k :| 0 <= k < |init| && init[k].pipeline == q;
          assert probes[k].pipeline == q;
        }
        assert probes[|probes| - 1].pipeline in Present(probes);
      }
    }
  }

  /** The recorder knows exactly the pipelines of the last tick. */
  lemma KnownAreThePresent(cap: nat, startedMs: nat, ticks: seq<Tick>, p: PipelineId)
    requires cap > 0 && ticks != []
    ensures p in TracesAfter(cap, startedMs, ticks) <==> p in Present(ticks[|ticks| - 1].probes)
  {
    var tick := ticks[|ticks| - 1];
    TracesAreTails(cap, startedMs, ticks, p);
    var before := LogOf(startedMs, ticks[..|ticks| - 1], p);
    KnownAfterProbes(if p in Present(tick.probes) then before else None, startedMs, tick.atMs, tick.probes, p);
  }

  /** The trace is the ordered end of the log within the cap, and everything evicted is at or before its bound. */
  ghost predicate OrderedTail(trace: Trace, log: Log, cap: nat) {
    && |trace.samples| == Min(cap, |log.samples|)
    && trace.samples == log.samples[|log.samples| - |trace.samples|..]
    && StrictlyOrdered(trace.samples)
    && forall k :: 0 <= k < |log.samples| - |trace.samples| ==> log.samples[k].atMs <= trace.completeFromMs
  }

  lemma TailIsOrdered(trace: Trace, log: Log, cap: nat)
    requires cap > 0 && |log.samples| == |log.probes| && IsTailOf(trace, log, cap) && StrictlyOrdered(log.samples)
    ensures OrderedTail(trace, log, cap)
  {
    SuffixIsStrict(log.samples, EvictedOf(|log.samples|, cap));
  }

  /** In every run, whatever the clock does short of the last millisecond of a `u64`. */
  lemma TracesAreOrdered(cap: nat, startedMs: nat, ticks: seq<Tick>, p: PipelineId)
    requires cap > 0 && p in TracesAfter(cap, startedMs, ticks)
    ensures var log := LogOf(startedMs, ticks, p);
            && log.Some? && log.value.samples != []
            && (LastAt(log.value.samples) < U64_MAX ==>
                  OrderedTail(TracesAfter(cap, startedMs, ticks)[p], log.value, cap))
  {
    TracesAreTails(cap, startedMs, ticks, p);
    LogOfIsSound(startedMs, ticks, p);
    var trace, log := TracesAfter(cap, startedMs, ticks)[p], LogOf(startedMs, ticks, p).value;
    if LastAt(log.samples) < U64_MAX {
      TailIsOrdered(trace, log, cap);
    }
  }

  lemma SuffixIsStrict(samples: seq<FlightSample>, k: nat)
    requires StrictlyOrdered(samples) && k <= |samples|
    ensures StrictlyOrdered(samples[k..])
    ensures forall i :: 0 <= i < k ==> samples[i].atMs <= samples[k - 1].atMs
  {
  }

  /**
   Kept samples lie at or after the bound exactly when one was evicted or the clock was not behind the recorder's start.
   */
  lemma KeptAreAfterBound(trace: Trace, log: Log, cap: nat, startedMs: nat)
    requires cap > 0 && |log.samples| == |log.probes| && LogIsSound(log, startedMs) && IsTailOf(trace, log, cap)
    requires LastAt(log.samples) < U64_MAX
    ensures (forall i :: 0 <= i < |trace.samples| ==> trace.samples[i].atMs >= trace.completeFromMs)
       <==> |log.samples| > cap || log.samples[0].atMs >= startedMs
  {
    var k := EvictedOf(|log.samples|, cap);
    assert trace.samples[0] == log.samples[k];
    if k > 0 {
      forall i | 0 <= i < |trace.samples| ensures trace.samples[i].atMs >= trace.completeFromMs {
        assert trace.samples[i] == log.samples[k + i];
      }
    } else {
      assert trace.samples == log.samples;
      assert forall i :: 0 < i < |log.samples| ==> log.samples[0].atMs < log.samples[i].atMs;
    }
  }

  // ---------- Bitrates ----------

  /** Samples `i` to `j` are one unbroken ingest session. */
  ghost predicate Session(log: Log, i: nat, j: nat)
    requires |log.samples| == |log.probes| && i <= j < |log.samples|
  {
    && (forall k :: i <= k <= j ==> log.probes[k].ingest.Some?)
    && (forall k :: i < k <= j ==> Unbroken(log.probes[k - 1], log.probes[k]))
  }

  ghost predicate Unbroken(before: Probe, probe: Probe)
    requires before.ingest.Some? && probe.ingest.Some?
  {
    before.ingest.value.input == probe.ingest.value.input && before.ingest.value.bytes <= probe.ingest.value.bytes
  }

  /** Bitrate times interval over 8000, summed over the samples after `i` up to `j`; a missing bitrate adds nothing. */
  ghost function ReportedBytes(log: Log, i: nat, j: nat): real
    requires |log.samples| == |log.probes| && i <= j < |log.samples|
  {
    if i == j then 0.0
    else
      var ingest := log.samples[j].reading.ingest;
      ReportedBytes(log, i, j - 1) +
      if ingest.Some? && ingest.value.bitrateBps.Some?
      then ingest.value.bitrateBps.value * (log.samples[j].atMs - log.samples[j - 1].atMs) as real / 8000.0
      else 0.0
  }

  lemma RateTimesInterval(x: real, d: real)
    requires d > 0.0
    ensures x * 8000.0 / d * d / 8000.0 == x
  {
    assert x * 8000.0 / d * d == x * 8000.0;
  }

  lemma BitrateIsGrowth(log: Log, j: nat)
    requires |log.samples| == |log.probes| && 0 < j < |log.samples|
    requires log.probes[j - 1].ingest.Some? && log.probes[j].ingest.Some? && Unbroken(log.probes[j - 1], log.probes[j])
    requires log.samples[j - 1].atMs < log.samples[j].atMs && IsMade(log, j)
    ensures var ingest := log.samples[j].reading.ingest;
            && ingest.Some? && ingest.value.bitrateBps.Some?
            && ingest.value.bitrateBps.value * (log.samples[j].atMs - log.samples[j - 1].atMs) as real / 8000.0
            == (log.probes[j].ingest.value.bytes - log.probes[j - 1].ingest.value.bytes) as real
  {
    var before, now := log.probes[j - 1].ingest.value, log.probes[j].ingest.value;
    RateTimesInterval((now.bytes - before.bytes) as real, (log.samples[j].atMs - log.samples[j - 1].atMs) as real);
  }

  /** The bitrates of an unbroken session account for exactly the bytes it received. */
  lemma {:induction false} SessionConservesBytes(log: Log, i: nat, j: nat)
    requires |log.samples| == |log.probes| && SamplesAreMade(log) && StrictlyOrdered(log.samples)
    requires i <= j < |log.samples| && Session(log, i, j)
    ensures ReportedBytes(log, i, j) == (log.probes[j].ingest.value.bytes - log.probes[i].ingest.value.bytes) as real
  {
    if i < j {
      SessionConservesBytes(log, i, j - 1);
      assert IsMade(log, j);
      BitrateIsGrowth(log, j);
    }
  }

  /**
   In every run a sample shows its own probe, and a bitrate exactly when the session went on since the sample before.
   */
  lemma SamplesShowProbes(startedMs: nat, ticks: seq<Tick>, p: PipelineId, k: nat)
    requires var log := LogOf(startedMs, ticks, p); log.Some? && k < |log.value.samples|
    ensures var log := LogOf(startedMs, ticks, p).value;
            var health, probe := log.samples[k].reading, log.probes[k];
            && health.detail == probe.detail && (health.ingest.Some? <==> probe.ingest.Some?)
            && (probe.ingest.Some? ==>
                  && health.ingest.value.input == probe.ingest.value.input
                  && (health.ingest.value.bitrateBps.Some? <==>
                      && k > 0 && log.probes[k - 1].ingest.Some? && Unbroken(log.probes[k - 1], probe)
                      && log.samples[k - 1].atMs < log.samples[k].atMs))
  {
    LogOfIsSound(startedMs, ticks, p);
    assert IsMade(LogOf(startedMs, ticks, p).value, k);
  }

  /** In every run, for every pipeline. */
  lemma RunConservesBytes(startedMs: nat, ticks: seq<Tick>, p: PipelineId, i: nat, j: nat)
    requires var log := LogOf(startedMs, ticks, p);
             && log.Some? && i <= j < |log.value.samples| && Session(log.value, i, j)
             && LastAt(log.value.samples) < U64_MAX
    ensures var log := LogOf(startedMs, ticks, p).value;
            ReportedBytes(log, i, j) == (log.probes[j].ingest.value.bytes - log.probes[i].ingest.value.bytes) as real
  {
    LogOfIsSound(startedMs, ticks, p);
    SessionConservesBytes(LogOf(startedMs, ticks, p).value, i, j);
  }
}
