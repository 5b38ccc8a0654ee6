/**
 Requested input selections (`input_selection_changed` and `apply_requested_selections` in
 `src/application/topology.rs`): a handler persists a promotion and then reports it; a pass
 takes the reported pipelines and applies their rows.
 */
module InputSelection {
  import opened Prelude
  import ReconcileRequests

  /** One read of a pipeline's input rows: the selected input if any, or a store error. */
  datatype RowsRead = Rows(selected: Option<string>) | Failed

  /** The engine's forwarded input per pipeline. */
  class Engine {
    var selected: map<string, string>

    constructor (selected: map<string, string>)
      ensures this.selected == selected
    {
      this.selected := selected;
    }

    method SelectPipelineInput(pipelineId: string, inputId: string)
      modifies this
      ensures selected == old(selected)[pipelineId := inputId]
    {
      selected := selected[pipelineId := inputId];
    }
  }

  /** The read answers a request: the rows name a selected input. */
  predicate Selects(read: RowsRead) {
    read.Rows? && read.selected.Some?
  }

  /**
   One pass with no handler in between: the engine forwards what the rows of each requested pipeline name, every other
   pipeline is left alone, and a request is kept exactly when its rows cannot be read. It ends where the steps of a pass
   end.
   */
  method ApplyRequestedSelections(requests: ReconcileRequests.ReconcileRequests, engine: Engine,
                                  read: string -> RowsRead)
    modifies requests, engine
    ensures forall p :: p in old(requests.dirtySelections) && Selects(read(p)) ==>
              Lookup(engine.selected, p) == read(p).selected
    ensures forall p :: !(p in old(requests.dirtySelections) && Selects(read(p))) ==>
              Lookup(engine.selected, p) == Lookup(old(engine.selected), p)
    ensures forall p :: p in requests.dirtySelections <==> p in old(requests.dirtySelections) && read(p).Failed?
    ensures requests.dirty == old(requests.dirty) && requests.deadlines == old(requests.deadlines)
    ensures forall s, failing :: IsAnswered(s, failing, old(requests.dirtySelections), old(engine.selected), read) ==>
              var done := Finished(Next(s, StartPass), failing);
              done.applied == engine.selected && done.dirty == requests.dirtySelections
  {
    var todo := requests.TakeDirtySelections();
    ghost var taken := todo;
    while todo != {}
      invariant todo <= taken
      invariant forall p :: p in taken - todo && Selects(read(p)) ==> Lookup(engine.selected, p) == read(p).selected
      invariant forall p :: !(p in taken - todo && Selects(read(p))) ==>
                  Lookup(engine.selected, p) == Lookup(old(engine.selected), p)
      invariant forall p :: p in requests.dirtySelections <==> p in taken - todo && read(p).Failed?
      invariant requests.dirty == old(requests.dirty) && requests.deadlines == old(requests.deadlines)
      decreases |todo|
    {
      var p :| p in todo;
      todo := todo - {p};
      match read(p) {
        case Rows(selected) =>
          if selected.Some? {
            engine.SelectPipelineInput(p, selected.value);
          }
        case Failed =>
          requests.KeepDirtySelection(p);
      }
    }
    forall s, failing | IsAnswered(s, failing, taken, old(engine.selected), read)
      ensures Finished(Next(s, StartPass), failing).applied == engine.selected
      ensures Finished(Next(s, StartPass), failing).dirty == requests.dirtySelections
    {
      PassEnds(s, failing, taken, old(engine.selected), read, engine.selected, requests.dirtySelections);
    }
  }

  lemma SameLookupsAreSame(a: map<string, string>, b: map<string, string>)
    requires forall p :: Lookup(a, p) == Lookup(b, p)
    ensures a == b
  {
    assert forall p :: (p in a <==> Lookup(a, p).Some?) && (p in b <==> Lookup(b, p).Some?);
    assert forall p :: p in a ==> p in b && a[p] == b[p] by {
      forall p | p in a ensures p in b && a[p] == b[p] {
        assert Lookup(a, p) == Lookup(b, p);
      }
    }
  }

  // ---------- Handlers and passes interleaved ----------

  /** What a pass holds between its awaits: pipelines to read, and a read not acted on yet. */
  datatype Pass = NotRunning | Running(todo: set<string>, held: Option<(string, RowsRead)>)

  /**
   `applied` is the selection the engine last got for a pipeline; `reporting` are handlers between their two halves.
   */
  datatype System = System(ever: set<string>, persisted: map<string, string>, applied: map<string, string>,
                           dirty: set<string>, reporting: multiset<string>, pass: Pass)

  const INITIAL := System({}, map[], map[], {}, multiset{}, NotRunning)

  datatype Step =
    | Create(p: string, input: string)    // the engine starts a new pipeline from its rows
    | Delete(p: string)
    | Promote(p: string, input: string)
    | Report(p: string)
    | StartPass
    | ReadRows(p: string)
    | ReadFails(p: string)
    | ActOnRead
    | EndPass

  predicate Enabled(s: System, step: Step) {
    match step
    case Create(p, _) => p !in s.ever
    case Delete(_) => true
    case Promote(p, _) => p in s.persisted
    case Report(p) => p in s.reporting
    case StartPass => s.pass.NotRunning?
    case ReadRows(p) => s.pass.Running? && p in s.pass.todo && s.pass.held.None?
    case ReadFails(p) => s.pass.Running? && p in s.pass.todo && s.pass.held.None?
    case ActOnRead => s.pass.Running? && s.pass.held.Some?
    case EndPass => s.pass.Running? && s.pass.todo == {} && s.pass.held.None?
  }

  /** A failed read keeps the request; a pipeline with no rows is left alone. */
  function ActedOn(s: System, p: string, read: RowsRead): System {
    match read
    case Failed => s.(dirty := s.dirty + {p})
    case Rows(selected) => if selected.None? then s else s.(applied := s.applied[p := selected.value])
  }

  function Next(s: System, step: Step): System
    requires Enabled(s, step)
  {
    match step
    case Create(p, input) =>
      s.(ever := s.ever + {p}, persisted := s.persisted[p := input], applied := s.applied[p := input])
    case Delete(p) => s.(persisted := s.persisted - {p})
    case Promote(p, input) => s.(persisted := s.persisted[p := input], reporting := s.reporting + multiset{p})
    case Report(p) => s.(reporting := s.reporting - multiset{p}, dirty := s.dirty + {p})
    case StartPass => s.(dirty := {}, pass := Running(s.dirty, None))
    case ReadRows(p) => s.(pass := Running(s.pass.todo - {p}, Some((p, Rows(Lookup(s.persisted, p))))))
    case ReadFails(p) => s.(pass := Running(s.pass.todo - {p}, Some((p, Failed))))
    case ActOnRead =>
      ActedOn(s.(pass := Running(s.pass.todo, None)), s.pass.held.value.0, s.pass.held.value.1)
    case EndPass => s.(pass := NotRunning)
  }

  function Run(steps: seq<Step>): System {
    if steps == [] then INITIAL
    else
      var s := Run(steps[..|steps| - 1]);
      if Enabled(s, steps[|steps| - 1]) then Next(s, steps[|steps| - 1]) else s
  }

  /** A request for the pipeline that no read has answered yet. */
  predicate Requested(s: System, p: string) {
    || p in s.dirty
    || p in s.reporting
    || (s.pass.Running? && (p in s.pass.todo || s.pass.held == Some((p, Failed))))
  }

  /** The pass has read the pipeline's present selection and has yet to apply it. */
  predicate ReadUnapplied(s: System, p: string)
    requires p in s.persisted
  {
    s.pass.Running? && s.pass.held == Some((p, Rows(Some(s.persisted[p]))))
  }

  ghost predicate Inv(s: System) {
    && s.persisted.Keys <= s.ever && s.dirty <= s.ever && (forall p :: p in s.reporting ==> p in s.ever)
    && (s.pass.Running? ==> s.pass.todo <= s.ever && (s.pass.held.Some? ==> s.pass.held.value.0 in s.ever))
    && forall p :: p in s.persisted ==>
         && (Lookup(s.applied, p) != Some(s.persisted[p]) ==> Requested(s, p) || ReadUnapplied(s, p))
         && (s.pass.Running? && s.pass.held.Some? && s.pass.held.value.0 == p && !ReadUnapplied(s, p) ==>
             Requested(s, p))
  }

  lemma HandlerKeepsInv(s: System, step: Step)
    requires Inv(s) && Enabled(s, step) && (step.Create? || step.Delete? || step.Promote? || step.Report?)
    ensures Inv(Next(s, step))
  {
  }

  lemma ReadKeepsInv(s: System, step: Step)
    requires Inv(s) && Enabled(s, step) && (step.ReadRows? || step.ReadFails?)
    ensures Inv(Next(s, step))
  {
  }

  lemma ActOnReadKeepsInv(s: System)
    requires Inv(s) && Enabled(s, ActOnRead)
    ensures Inv(Next(s, ActOnRead))
  {
  }

  lemma StepKeepsInv(s: System, step: Step)
    requires Inv(s) && Enabled(s, step)
    ensures Inv(Next(s, step))
  {
    match step
    case StartPass =>
    case EndPass =>
    case ActOnRead => ActOnReadKeepsInv(s);
    case ReadRows(_) => ReadKeepsInv(s, step);
    case ReadFails(_) => ReadKeepsInv(s, step);
    case _ => HandlerKeepsInv(s, step);
  }

  lemma {:induction false} RunKeepsInv(steps: seq<Step>)
    ensures Inv(Run(steps))
  {
    if steps != [] {
      RunKeepsInv(steps[..|steps| - 1]);
      if Enabled(Run(steps[..|steps| - 1]), steps[|steps| - 1]) {
        StepKeepsInv(Run(steps[..|steps| - 1]), steps[|steps| - 1]);
      }
    }
  }

  /** In every run, a selection the engine does not forward yet is still on its way to it. */
  lemma NoSelectionIsLost(steps: seq<Step>, p: string)
    requires p in Run(steps).persisted
    ensures var s := Run(steps);
            Lookup(s.applied, p) != Some(s.persisted[p]) ==> Requested(s, p) || ReadUnapplied(s, p)
  {
    RunKeepsInv(steps);
  }

  /** In every run, when nothing is requested and no pass runs, the engine forwards what is persisted. */
  lemma QuietEngineIsConverged(steps: seq<Step>)
    requires var s := Run(steps); s.dirty == {} && s.reporting == multiset{} && s.pass.NotRunning?
    ensures forall p :: p in Run(steps).persisted ==> Lookup(Run(steps).applied, p) == Some(Run(steps).persisted[p])
  {
    RunKeepsInv(steps);
  }

  // ---------- A pass makes progress ----------

  /** The rest of a pass left to itself; the reads of the `failing` pipelines fail. */
  ghost function Finished(s: System, failing: set<string>): System
    requires s.pass.Running?
    decreases |s.pass.todo|, s.pass.held.Some?
  {
    if s.pass.held.Some? then Finished(Next(s, ActOnRead), failing)
    else if s.pass.todo == {} then Next(s, EndPass)
    else
      var p :| p in s.pass.todo;
      Finished(Next(s, if p in failing then ReadFails(p) else ReadRows(p)), failing)
  }

  /** The object and engine of `s`, between passes, and reads that answer from its rows but for the failing ones. */
  ghost predicate IsAnswered(s: System, failing: set<string>, dirty: set<string>, selected: map<string, string>,
                             read: string -> RowsRead) {
    && s.pass.NotRunning? && s.dirty == dirty && s.applied == selected
    && forall p :: p in dirty ==> read(p) == if p in failing then Failed else Rows(Lookup(s.persisted, p))
  }

  /** One pipeline read and acted on. */
  function TookOne(s: System, p: string, failing: set<string>): System
    requires s.pass.Running? && s.pass.held.None? && p in s.pass.todo
  {
    Next(Next(s, if p in failing then ReadFails(p) else ReadRows(p)), ActOnRead)
  }

  lemma TookOneIs(s: System, p: string, failing: set<string>)
    requires s.pass.Running? && s.pass.held.None? && p in s.pass.todo
    ensures TookOne(s, p, failing) ==
            s.(applied := if p !in failing && p in s.persisted then s.applied[p := s.persisted[p]] else s.applied,
               dirty := if p in failing then s.dirty + {p} else s.dirty,
               pass := Running(s.pass.todo - {p}, None))
  {
  }

  lemma FinishedTakesOne(s: System, failing: set<string>) returns (p: string)
    requires s.pass.Running? && s.pass.held.None? && s.pass.todo != {}
    ensures p in s.pass.todo && Finished(s, failing) == Finished(TookOne(s, p, failing), failing)
  {
    p :| p in s.pass.todo
         && Finished(s, failing) == Finished(Next(s, if p in failing then ReadFails(p) else ReadRows(p)), failing);
    var read := Next(s, if p in failing then ReadFails(p) else ReadRows(p));
    assert Finished(read, failing) == Finished(Next(read, ActOnRead), failing);
  }

  /** What the pass makes of one pipeline. */
  ghost predicate IsApplied(s: System, failing: set<string>, applied: map<string, string>, p: string)
    requires s.pass.Running?
  {
    Lookup(applied, p) == if p in s.pass.todo && p !in failing && p in s.persisted then Some(s.persisted[p])
                          else Lookup(s.applied, p)
  }

  /** What a pass left to itself does, whatever order it takes the pipelines in. */
  lemma {:induction false} FinishedIs(s: System, failing: set<string>)
    requires s.pass.Running? && s.pass.held.None?
    ensures var done := Finished(s, failing);
            && done == s.(applied := done.applied, dirty := s.dirty + s.pass.todo * failing, pass := NotRunning)
            && forall p :: IsApplied(s, failing, done.applied, p)
    decreases |s.pass.todo|
  {
    if s.pass.todo == {} {
      assert s.dirty + s.pass.todo * failing == s.dirty;
    } else {
      var p := FinishedTakesOne(s, failing);
      var rest := TookOne(s, p, failing);
      TookOneIs(s, p, failing);
      FinishedIs(rest, failing);
      assert s.dirty + s.pass.todo * failing == rest.dirty + rest.pass.todo * failing;
      forall q ensures IsApplied(s, failing, Finished(s, failing).applied, q) {
        assert IsApplied(rest, failing, Finished(rest, failing).applied, q);
      }
    }
  }

  /** The selections and requests a pass leaves are those its steps end in. */
  lemma PassEnds(s: System, failing: set<string>, dirty: set<string>, before: map<string, string>,
                 read: string -> RowsRead, after: map<string, string>, kept: set<string>)
    requires IsAnswered(s, failing, dirty, before, read)
    requires forall p :: p in dirty && Selects(read(p)) ==> Lookup(after, p) == read(p).selected
    requires forall p :: !(p in dirty && Selects(read(p))) ==> Lookup(after, p) == Lookup(before, p)
    requires forall p :: p in kept <==> p in dirty && read(p).Failed?
    ensures var done := Finished(Next(s, StartPass), failing); done.applied == after && done.dirty == kept
  {
    var start := Next(s, StartPass);
    FinishedIs(start, failing);
    forall p ensures Lookup(Finished(start, failing).applied, p) == Lookup(after, p) {
      assert IsApplied(start, failing, Finished(start, failing).applied, p);
    }
    SameLookupsAreSame(Finished(start, failing).applied, after);
  }

  /** A pass some of whose reads fail converges the rest, and keeps the requests of those. */
  lemma FailedReadsAreKept(steps: seq<Step>, failing: set<string>, p: string)
    requires Run(steps).pass.NotRunning? && Run(steps).reporting == multiset{} && p in Run(steps).persisted
    ensures var done := Finished(Next(Run(steps), StartPass), failing);
            && done.persisted == Run(steps).persisted
            && (Lookup(done.applied, p) == Some(Run(steps).persisted[p]) || (p in failing && p in done.dirty))
  {
    RunKeepsInv(steps);
    var s := Next(Run(steps), StartPass);
    FinishedIs(s, failing);
    assert IsApplied(s, failing, Finished(s, failing).applied, p);
  }

  /** From every reachable state with no handler mid-way, one undisturbed pass converges the engine. */
  lemma PassConverges(steps: seq<Step>)
    requires Run(steps).pass.NotRunning? && Run(steps).reporting == multiset{}
    ensures var done := Finished(Next(Run(steps), StartPass), {});
            done.persisted == Run(steps).persisted
            && forall p :: p in done.persisted ==> Lookup(done.applied, p) == Some(done.persisted[p])
  {
    FinishedIs(Next(Run(steps), StartPass), {});
    forall p | p in Run(steps).persisted
      ensures Lookup(Finished(Next(Run(steps), StartPass), {}).applied, p) == Some(Run(steps).persisted[p]) {
      FailedReadsAreKept(steps, {}, p);
    }
  }

  lemma RunTakes(run: seq<Step>, step: Step)
    requires Enabled(Run(run), step)
    ensures Run(run + [step]) == Next(Run(run), step)
  {
    assert (run + [step])[..|run|] == run;
  }

  lemma RequestIsApplied(s: System, p: string)
    requires s.pass.NotRunning? && p in s.dirty
    ensures Lookup(Finished(Next(s, StartPass), {}).applied, p)
         == if p in s.persisted then Some(s.persisted[p]) else Lookup(s.applied, p)
  {
    FinishedIs(Next(s, StartPass), {});
    assert IsApplied(Next(s, StartPass), {}, Finished(Next(s, StartPass), {}).applied, p);
  }

  /** After every run: a promotion, once reported, is what the engine forwards when the next pass is done. */
  lemma PromotionTakesEffect(run: seq<Step>, p: string, input: string)
    requires p in Run(run).persisted && Run(run).pass.NotRunning?
    ensures var s := Run(run + [Promote(p, input)] + [Report(p)]);
            && s.pass.NotRunning? && s.reporting == Run(run).reporting
            && s.persisted == Run(run).persisted[p := input]
            && Lookup(Finished(Next(s, StartPass), {}).applied, p) == Some(input)
  {
    RunTakes(run, Promote(p, input));
    RunTakes(run + [Promote(p, input)], Report(p));
    RequestIsApplied(Run(run + [Promote(p, input)] + [Report(p)]), p);
  }

  /** A new pipeline is forwarded from its first selected input on, with no request. */
  lemma CreatedIsForwarded(run: seq<Step>, p: string, input: string)
    requires p !in Run(run).ever
    ensures var s := Run(run + [Create(p, input)]);
            Lookup(s.persisted, p) == Lookup(s.applied, p) == Some(input) && s.dirty == Run(run).dirty
  {
    RunTakes(run, Create(p, input));
  }

  /** A deleted pipeline has no input rows: a pass drops what was asked for it and leaves the engine alone. */
  lemma DeletedIsLeftAlone(run: seq<Step>, p: string)
    requires Run(run).pass.NotRunning?
    ensures var s := Run(run + [Delete(p)]);
            && s.pass.NotRunning?
            && var done := Finished(Next(s, StartPass), {});
               Lookup(done.applied, p) == Lookup(Run(run).applied, p) && p !in done.dirty
  {
    RunTakes(run, Delete(p));
    var s := Run(run + [Delete(p)]);
    FinishedIs(Next(s, StartPass), {});
    assert IsApplied(Next(s, StartPass), {}, Finished(Next(s, StartPass), {}).applied, p);
  }
}
