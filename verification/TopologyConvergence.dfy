/**
 Topology convergence (`converge_topology` in `src/application/topology.rs`, within the output pass
 of `src/infrastructure/bootstrap/reconcile.rs`): the pass stops egresses of deleted outputs and
 tears down the runtime of deleted pipelines, while handlers go on creating and deleting rows.
 */
module TopologyConvergence {
  import opened Prelude

  /** Pipelines that hold runtime state, and registered egresses by output with their pipeline. */
  class Engine {
    var runtime: set<string>
    var egresses: map<string, string>

    constructor (runtime: set<string>, egresses: map<string, string>)
      ensures this.runtime == runtime && this.egresses == egresses
    {
      this.runtime, this.egresses := runtime, egresses;
    }
  }

  /** The outputs a pass keeps: those it read whose pipeline row is still there. */
  function Wanted(outputs: map<string, string>, pipelines: set<string>): set<string> {
    set o | o in outputs && outputs[o] in pipelines
  }

  /**
   One pass with no handler in between; `pipelines` is `None` when the rows cannot be read. An egress stays registered
   exactly when its output was read and that output's pipeline has a row, and runtime stays where there is a row. It
   ends where the steps of a pass end.
   */
  method ConvergeTopology(engine: Engine, pipelines: Option<set<string>>, outputs: map<string, string>)
    modifies engine
    ensures pipelines.None? ==> engine.runtime == old(engine.runtime) && engine.egresses == old(engine.egresses)
    ensures pipelines.Some? ==> engine.runtime == old(engine.runtime) * pipelines.value
    ensures pipelines.Some? ==>
              forall o :: o in engine.egresses <==>
                          o in old(engine.egresses) && o in outputs && outputs[o] in pipelines.value
    ensures forall o :: o in engine.egresses ==> o in old(engine.egresses)
                                                 && engine.egresses[o] == old(engine.egresses)[o]
    ensures forall s :: IsBefore(s, old(engine.runtime), old(engine.egresses), pipelines, outputs) ==>
              var done := Converged(s); done.runtime == engine.runtime && done.egresses == engine.egresses
  {
    var snapshot := engine.runtime;
    if pipelines.None? {
      return;
    }
    StopEgressesExcept(engine, Wanted(outputs, pipelines.value));
    TearDownAll(engine, snapshot - pipelines.value);
    forall s | IsBefore(s, old(engine.runtime), old(engine.egresses), pipelines, outputs)
      ensures Converged(s).runtime == engine.runtime && Converged(s).egresses == engine.egresses
    {
      ConvergedIs(s);
    }
  }

  /** Consumers stop before their producers. */
  method StopEgressesExcept(engine: Engine, wanted: set<string>)
    modifies engine`egresses
    ensures forall o :: o in engine.egresses <==> o in old(engine.egresses) && o in wanted
    ensures forall o :: o in engine.egresses ==> o in old(engine.egresses)
                                                 && engine.egresses[o] == old(engine.egresses)[o]
  {
    var listed := engine.egresses.Keys;
    while listed != {}
      invariant listed <= old(engine.egresses).Keys
      invariant forall o :: o in engine.egresses <==> o in old(engine.egresses) && (o in wanted || o in listed)
      invariant forall o :: o in engine.egresses ==> engine.egresses[o] == old(engine.egresses)[o]
      decreases |listed|
    {
      var o :| o in listed;
      listed := listed - {o};
      if o !in wanted {
        engine.egresses := engine.egresses - {o};
      }
    }
  }

  method TearDownAll(engine: Engine, deleted: set<string>)
    modifies engine`runtime
    ensures engine.runtime == old(engine.runtime) - deleted
  {
    var left := deleted;
    while left != {}
      invariant left <= deleted && engine.runtime == old(engine.runtime) - (deleted - left)
      decreases |left|
    {
      var p :| p in left;
      left := left - {p};
      engine.runtime := engine.runtime - {p};
    }
    assert deleted - left == deleted;
  }

  // ---------- Handlers and the pass interleaved ----------

  /** Where the pass is; each phase carries what it has read so far. */
  datatype Pass =
    | Idle
    | ReadOutputRows(outputs: map<string, string>)
    | SawRuntime(outputs: map<string, string>, snapshot: set<string>)
    | ReadPipelineRows(outputs: map<string, string>, snapshot: set<string>, pipelines: set<string>)
    | Stopping(outputs: map<string, string>, snapshot: set<string>, pipelines: set<string>, stop: set<string>)
    | TearingDown(outputs: map<string, string>, pipelines: set<string>, left: set<string>)
    | StartingOutputs(outputs: map<string, string>)

  /**
   The committed rows, every id ever committed (ids are not reused; an output keeps its pipeline), the
   runtime, and the pipelines torn down so far.
   */
  datatype System = System(pipelines: set<string>, outputs: map<string, string>,
                           everPipelines: set<string>, everOutputs: map<string, string>,
                           runtime: set<string>, egresses: map<string, string>,
                           pass: Pass, tornDown: set<string>)

  const INITIAL := System({}, map[], {}, map[], {}, map[], Idle, {})

  datatype Step =
    | CreatePipeline(p: string)
    | DeletePipeline(p: string)
    | CreateOutput(o: string, p: string)
    | DeleteOutput(o: string)
    | StartRuntime(p: string)           // an ingest, or a stage, of a pipeline whose row has committed
    | EgressEnds(o: string)
    | BeginPass
    | SnapshotRuntime
    | ReadPipelines
    | ReadPipelinesFails
    | ListEgresses
    | Unregister(o: string)
    | StopsDone
    | TearDown(p: string)
    | TeardownsDone
    | StartOutput(o: string)
    | EndPass

  predicate Enabled(s: System, step: Step) {
    match step
    case CreatePipeline(p) => p !in s.everPipelines
    case DeletePipeline(_) => true
    case CreateOutput(o, p) => o !in s.everOutputs && p in s.pipelines
    case DeleteOutput(_) => true
    case StartRuntime(p) => p in s.everPipelines
    case EgressEnds(_) => true
    case BeginPass => s.pass.Idle?
    case SnapshotRuntime => s.pass.ReadOutputRows?
    case ReadPipelines => s.pass.SawRuntime?
    case ReadPipelinesFails => s.pass.SawRuntime?
    case ListEgresses => s.pass.ReadPipelineRows?
    case Unregister(o) => s.pass.Stopping? && o in s.pass.stop
    case StopsDone => s.pass.Stopping? && s.pass.stop == {}
    case TearDown(p) => s.pass.TearingDown? && p in s.pass.left
    case TeardownsDone => s.pass.TearingDown? && s.pass.left == {}
    case StartOutput(o) => s.pass.StartingOutputs? && o in s.pass.outputs
    case EndPass => s.pass.StartingOutputs?
  }

  function Next(s: System, step: Step): System
    requires Enabled(s, step)
  {
    match step
    case CreatePipeline(p) => s.(pipelines := s.pipelines + {p}, everPipelines := s.everPipelines + {p})
    case DeletePipeline(p) =>
      s.(pipelines := s.pipelines - {p}, outputs := map o | o in s.outputs && s.outputs[o] != p :: s.outputs[o])
    case CreateOutput(o, p) => s.(outputs := s.outputs[o := p], everOutputs := s.everOutputs[o := p])
    case DeleteOutput(o) => s.(outputs := s.outputs - {o})
    case StartRuntime(p) => s.(runtime := s.runtime + {p})
    case EgressEnds(o) => s.(egresses := s.egresses - {o})
    case BeginPass => s.(pass := ReadOutputRows(s.outputs))
    case SnapshotRuntime => s.(pass := SawRuntime(s.pass.outputs, s.runtime))
    case ReadPipelines => s.(pass := ReadPipelineRows(s.pass.outputs, s.pass.snapshot, s.pipelines))
    case ReadPipelinesFails => s.(pass := StartingOutputs(s.pass.outputs))
    case ListEgresses =>
      var pass := s.pass;
      s.(pass := Stopping(pass.outputs, pass.snapshot, pass.pipelines,
                          s.egresses.Keys - Wanted(pass.outputs, pass.pipelines)))
    case Unregister(o) => s.(egresses := s.egresses - {o}, pass := s.pass.(stop := s.pass.stop - {o}))
    case StopsDone =>
      s.(pass := TearingDown(s.pass.outputs, s.pass.pipelines, s.pass.snapshot - s.pass.pipelines))
    case TearDown(p) =>
      s.(runtime := s.runtime - {p}, tornDown := s.tornDown + {p}, pass := s.pass.(left := s.pass.left - {p}))
    case TeardownsDone => s.(pass := StartingOutputs(s.pass.outputs))
    case StartOutput(o) =>
      s.(egresses := s.egresses[o := s.pass.outputs[o]], runtime := s.runtime + {s.pass.outputs[o]})
    case EndPass => s.(pass := Idle)
  }

  function Run(steps: seq<Step>): System {
    if steps == [] then INITIAL
    else
      var s := Run(steps[..|steps| - 1]);
      if Enabled(s, steps[|steps| - 1]) then Next(s, steps[|steps| - 1]) else s
  }

  // ---------- What every run keeps ----------

  /** Output rows some read or registration was made from: each output with its own pipeline. */
  ghost predicate Known(s: System, outputs: map<string, string>) {
    forall o :: o in outputs ==> o in s.everOutputs && s.everOutputs[o] == outputs[o]
  }

  ghost predicate RowsOk(s: System) {
    && s.pipelines <= s.everPipelines && s.runtime <= s.everPipelines
    && (forall o :: o in s.everOutputs ==> s.everOutputs[o] in s.everPipelines)
    && Known(s, s.outputs) && Known(s, s.egresses)
    && (forall o :: o in s.outputs ==> s.outputs[o] in s.pipelines)
    && s.tornDown <= s.everPipelines && s.tornDown !! s.pipelines
  }

  /** Pipelines that once had a row and have none: they never will again. */
  ghost predicate Deleted(s: System, pipelines: set<string>) {
    pipelines <= s.everPipelines && pipelines !! s.pipelines
  }

  /** A registered egress whose row is there was read: egresses are registered only between two readings of the rows. */
  ghost predicate LiveAreRead(s: System, outputs: map<string, string>) {
    forall o :: o in s.egresses && o in s.outputs ==> o in outputs
  }

  ghost predicate PassOk(s: System) {
    match s.pass
    case Idle => true
    case ReadOutputRows(outputs) => Known(s, outputs) && LiveAreRead(s, outputs)
    case SawRuntime(outputs, snapshot) =>
      Known(s, outputs) && LiveAreRead(s, outputs) && snapshot <= s.everPipelines
    case ReadPipelineRows(outputs, snapshot, pipelines) =>
      && Known(s, outputs) && LiveAreRead(s, outputs) && Deleted(s, snapshot - pipelines)
      && forall o :: o in s.egresses && o in s.outputs ==> s.outputs[o] in pipelines
    case Stopping(outputs, snapshot, pipelines, stop) =>
      && Known(s, outputs) && Deleted(s, snapshot - pipelines)
      && s.egresses.Keys <= Wanted(outputs, pipelines) + stop
      && stop !! s.outputs.Keys && stop <= s.everOutputs.Keys
    case TearingDown(outputs, pipelines, left) =>
      Known(s, outputs) && Deleted(s, left) && left !! pipelines
      && s.egresses.Keys <= Wanted(outputs, pipelines)
    case StartingOutputs(outputs) => Known(s, outputs)
  }

  ghost predicate Inv(s: System) {
    RowsOk(s) && PassOk(s)
  }

  lemma PipelineRowKeepsInv(s: System, step: Step)
    requires Inv(s) && Enabled(s, step) && (step.CreatePipeline? || step.DeletePipeline?)
    ensures Inv(Next(s, step))
  {
  }

  lemma OutputRowKeepsInv(s: System, step: Step)
    requires Inv(s) && Enabled(s, step) && (step.CreateOutput? || step.DeleteOutput?)
    ensures Inv(Next(s, step))
  {
  }

  lemma HandlerKeepsInv(s: System, step: Step)
    requires Inv(s) && Enabled(s, step)
    requires step.CreatePipeline? || step.DeletePipeline? || step.CreateOutput? || step.DeleteOutput?
             || step.StartRuntime? || step.EgressEnds?
    ensures Inv(Next(s, step))
  {
    if step.CreatePipeline? || step.DeletePipeline? {
      PipelineRowKeepsInv(s, step);
    } else if step.CreateOutput? || step.DeleteOutput? {
      OutputRowKeepsInv(s, step);
    }
  }

  lemma PassKeepsInv(s: System, step: Step)
    requires Inv(s) && Enabled(s, step)
    requires !(step.CreatePipeline? || step.DeletePipeline? || step.CreateOutput? || step.DeleteOutput?
               || step.StartRuntime? || step.EgressEnds?)
    ensures Inv(Next(s, step))
  {
  }

  lemma {:induction false} RunKeepsInv(steps: seq<Step>)
    ensures Inv(Run(steps))
  {
    if steps != [] {
      var s, step := Run(steps[..|steps| - 1]), steps[|steps| - 1];
      RunKeepsInv(steps[..|steps| - 1]);
      if Enabled(s, step) {
        match step
        case CreatePipeline(_) => HandlerKeepsInv(s, step);
        case DeletePipeline(_) => HandlerKeepsInv(s, step);
        case CreateOutput(_, _) => HandlerKeepsInv(s, step);
        case DeleteOutput(_) => HandlerKeepsInv(s, step);
        case StartRuntime(_) => HandlerKeepsInv(s, step);
        case EgressEnds(_) => HandlerKeepsInv(s, step);
        case _ => PassKeepsInv(s, step);
      }
    }
  }

  // ---------- The promises ----------

  /**
   In every run, a pipeline about to be torn down was created and deleted, and none of its egresses
   is registered any more.
   */
  lemma TeardownIsSafe(steps: seq<Step>, p: string)
    requires Enabled(Run(steps), TearDown(p))
    ensures var s := Run(steps);
            && p in s.everPipelines && p !in s.pipelines
            && forall o :: o in s.egresses ==> s.egresses[o] != p
  {
    RunKeepsInv(steps);
  }

  /** In every run, no pipeline ever torn down has a row: a live pipeline's runtime is never taken. */
  lemma LivePipelinesAreNeverTornDown(steps: seq<Step>)
    ensures Run(steps).tornDown !! Run(steps).pipelines
  {
    RunKeepsInv(steps);
  }

  /** In every run, the pass never stops an egress whose output row is there. */
  lemma LiveEgressesAreNeverStopped(steps: seq<Step>, o: string)
    requires Enabled(Run(steps), Unregister(o))
    ensures o !in Run(steps).outputs && o in Run(steps).everOutputs
  {
    RunKeepsInv(steps);
  }

  // ---------- A pass left to itself ----------

  /** The stops of a pass, one after the other. */
  ghost function Stopped(s: System): System
    requires s.pass.Stopping?
    decreases |s.pass.stop|
  {
    if s.pass.stop == {} then Next(s, StopsDone)
    else var o :| o in s.pass.stop; Stopped(Next(s, Unregister(o)))
  }

  ghost function TornDownAll(s: System): System
    requires s.pass.TearingDown?
    decreases |s.pass.left|
  {
    if s.pass.left == {} then Next(s, TeardownsDone)
    else var p :| p in s.pass.left; TornDownAll(Next(s, TearDown(p)))
  }

  /** A pass up to where it starts outputs. */
  ghost function Converged(s: System): System
    requires s.pass.Idle?
  {
    var read := Next(Next(Next(s, BeginPass), SnapshotRuntime), ReadPipelines);
    StoppedPhase(Next(read, ListEgresses));
    TornDownAll(Stopped(Next(read, ListEgresses)))
  }

  /** The engine and rows of `s`, between passes. */
  ghost predicate IsBefore(s: System, runtime: set<string>, egresses: map<string, string>,
                           pipelines: Option<set<string>>, outputs: map<string, string>) {
    && s.pass.Idle? && s.runtime == runtime && s.egresses == egresses
    && pipelines == Some(s.pipelines) && outputs == s.outputs
  }

  lemma RemovedOneByOne(egresses: map<string, string>, stop: set<string>, o: string)
    requires o in stop
    ensures (egresses - {o}) - (stop - {o}) == egresses - stop
  {
  }

  lemma LeftOneByOne(runtime: set<string>, tornDown: set<string>, left: set<string>, p: string)
    requires p in left
    ensures (runtime - {p}) - (left - {p}) == runtime - left && (tornDown + {p}) + (left - {p}) == tornDown + left
  {
  }

  lemma StoppedTakesOne(s: System) returns (o: string)
    requires s.pass.Stopping? && s.pass.stop != {}
    ensures o in s.pass.stop && Stopped(s) == Stopped(Next(s, Unregister(o)))
  {
    o :| o in s.pass.stop && Stopped(s) == Stopped(Next(s, Unregister(o)));
  }

  lemma TornDownTakesOne(s: System) returns (p: string)
    requires s.pass.TearingDown? && s.pass.left != {}
    ensures p in s.pass.left && TornDownAll(s) == TornDownAll(Next(s, TearDown(p)))
  {
    p :| p in s.pass.left && TornDownAll(s) == TornDownAll(Next(s, TearDown(p)));
  }

  lemma {:induction false} StoppedPhase(s: System)
    requires s.pass.Stopping?
    ensures Stopped(s) == s.(egresses := s.egresses - s.pass.stop,
                             pass := TearingDown(s.pass.outputs, s.pass.pipelines, s.pass.snapshot - s.pass.pipelines))
    decreases |s.pass.stop|
  {
    if s.pass.stop == {} {
      assert s.egresses - s.pass.stop == s.egresses;
    } else {
      var o := StoppedTakesOne(s);
      StoppedPhase(Next(s, Unregister(o)));
      RemovedOneByOne(s.egresses, s.pass.stop, o);
    }
  }

  lemma {:induction false} TornDownPhase(s: System)
    requires s.pass.TearingDown?
    ensures TornDownAll(s) == s.(runtime := s.runtime - s.pass.left, tornDown := s.tornDown + s.pass.left,
                                 pass := StartingOutputs(s.pass.outputs))
    decreases |s.pass.left|
  {
    if s.pass.left == {} {
      assert s.runtime - s.pass.left == s.runtime && s.tornDown + s.pass.left == s.tornDown;
    } else {
      var p := TornDownTakesOne(s);
      TornDownPhase(Next(s, TearDown(p)));
      LeftOneByOne(s.runtime, s.tornDown, s.pass.left, p);
    }
  }

  /** It leaves exactly the runtime of live pipelines, and the egresses of live outputs. */
  lemma ConvergedIs(s: System)
    requires s.pass.Idle?
    ensures var done := Converged(s);
            && done.runtime == s.runtime * s.pipelines
            && (forall o :: o in done.egresses <==>
                            o in s.egresses && o in s.outputs && s.outputs[o] in s.pipelines)
            && forall o :: o in done.egresses ==> done.egresses[o] == s.egresses[o]
  {
    var read := Next(Next(Next(s, BeginPass), SnapshotRuntime), ReadPipelines);
    var listed := Next(read, ListEgresses);
    StoppedPhase(listed);
    TornDownPhase(Stopped(listed));
  }

  // ---------- What each change comes to ----------

  lemma RunTakes(run: seq<Step>, step: Step)
    requires Enabled(Run(run), step)
    ensures Run(run + [step]) == Next(Run(run), step)
  {
    assert (run + [step])[..|run|] == run;
  }

  /** A pass left to itself, with one of the outputs it read started, and then ended. */
  ghost function Passed(s: System, o: string): System
    requires s.pass.Idle? && o in s.outputs
  {
    ConvergedReads(s);
    Next(Next(Converged(s), StartOutput(o)), EndPass)
  }

  lemma ConvergedReads(s: System)
    requires s.pass.Idle?
    ensures Converged(s).pass == StartingOutputs(s.outputs)
  {
    var read := Next(Next(Next(s, BeginPass), SnapshotRuntime), ReadPipelines);
    StoppedPhase(Next(read, ListEgresses));
    TornDownPhase(Stopped(Next(read, ListEgresses)));
  }

  lemma StartedIsRegistered(s: System, o: string)
    requires s.pass.StartingOutputs? && o in s.pass.outputs
    ensures var done := Next(Next(s, StartOutput(o)), EndPass);
            done.pass.Idle? && Lookup(done.egresses, o) == Some(s.pass.outputs[o]) && s.pass.outputs[o] in done.runtime
  {
  }

  lemma PassedStarts(s: System, o: string)
    requires s.pass.Idle? && o in s.outputs
    ensures var done := Passed(s, o);
            done.pass.Idle? && Lookup(done.egresses, o) == Some(s.outputs[o]) && s.outputs[o] in done.runtime
  {
    ConvergedReads(s);
    StartedIsRegistered(Converged(s), o);
  }

  /** After every run: a new output of a live pipeline is running once a pass has started it, and so is its pipeline. */
  lemma CreatedOutputIsStarted(run: seq<Step>, o: string, p: string)
    requires Run(run).pass.Idle? && p in Run(run).pipelines && o !in Run(run).everOutputs
    ensures var s := Run(run + [CreateOutput(o, p)]);
            && s.pass.Idle? && o in s.outputs
            && var done := Passed(s, o);
               done.pass.Idle? && Lookup(done.egresses, o) == Some(p) && p in done.runtime
  {
    RunTakes(run, CreateOutput(o, p));
    PassedStarts(Run(run + [CreateOutput(o, p)]), o);
  }

  /** The egress of a deleted output is stopped by the next pass, and those of the others are not. */
  lemma DeletedOutputIsStopped(run: seq<Step>, o: string, other: string)
    requires Run(run).pass.Idle?
    ensures var s := Run(run + [DeleteOutput(o)]);
            && s.pass.Idle? && o !in Converged(s).egresses
            && (other != o && other in Run(run).outputs && other in Run(run).egresses ==>
                  other in Converged(s).egresses)
  {
    RunKeepsInv(run);
    RunTakes(run, DeleteOutput(o));
    ConvergedIs(Run(run + [DeleteOutput(o)]));
  }

  /** A deleted pipeline loses its runtime and its egresses in the next pass; the others keep theirs. */
  lemma DeletedPipelineIsTornDown(run: seq<Step>, p: string, other: string)
    requires Run(run).pass.Idle?
    ensures var s := Run(run + [DeletePipeline(p)]);
            && s.pass.Idle? && p !in Converged(s).runtime
            && (forall o :: o in Converged(s).egresses ==> Converged(s).egresses[o] != p)
            && (other != p && other in Run(run).pipelines && other in Run(run).runtime ==>
                  other in Converged(s).runtime)
  {
    RunKeepsInv(run);
    RunTakes(run, DeletePipeline(p));
    ConvergedIs(Run(run + [DeletePipeline(p)]));
  }

  /** Runtime started for a new pipeline survives the next pass. */
  lemma CreatedPipelineRuns(run: seq<Step>, p: string)
    requires Run(run).pass.Idle? && p !in Run(run).everPipelines
    ensures var s := Run(run + [CreatePipeline(p)] + [StartRuntime(p)]);
            s.pass.Idle? && p in Converged(s).runtime
  {
    RunTakes(run, CreatePipeline(p));
    RunTakes(run + [CreatePipeline(p)], StartRuntime(p));
    ConvergedIs(Run(run + [CreatePipeline(p)] + [StartRuntime(p)]));
  }

  /** An egress that ends by itself is registered no more, and nothing else changes. */
  lemma EndedEgressIsGone(run: seq<Step>, o: string, other: string)
    ensures var s := Run(run + [EgressEnds(o)]);
            o !in s.egresses && (other != o ==> Lookup(s.egresses, other) == Lookup(Run(run).egresses, other))
  {
    RunTakes(run, EgressEnds(o));
  }

  /** A pass that cannot read the pipelines stops nothing and tears down nothing. */
  lemma FailedReadStopsNothing(run: seq<Step>)
    requires Run(run).pass.SawRuntime?
    ensures var s := Run(run + [ReadPipelinesFails]);
            s == Run(run).(pass := StartingOutputs(Run(run).pass.outputs))
  {
    RunTakes(run, ReadPipelinesFails);
  }
}
