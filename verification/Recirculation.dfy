/**
 The recirculation gate (`src/application/recirculation.rs`): an output may feed
 another pipeline's input only when that does not close a cycle of pipelines.
 */
module Recirculation {
  import opened Prelude

  datatype PipelineId = PipelineId(name: string)

  /** A parsed `pipeline://<pipeline>/<input>` URL. */
  datatype Target = Target(pipelineId: PipelineId, inputId: string)

  /** An output row; `target` is its URL when that parses as a recirculation target. */
  datatype Output = Output(id: string, pipelineId: PipelineId, target: Option<Target>)

  datatype TopologyError = DirectCycle | IndirectCycle

  // ---------- The graph an output list draws ----------

  ghost predicate HasEdge(outputs: seq<Output>, from: PipelineId, to: PipelineId) {
    exists i :: 0 <= i < |outputs| && outputs[i].pipelineId == from
                && outputs[i].target.Some? && outputs[i].target.value.pipelineId == to
  }

  /** `path` follows edges of `outputs`; one pipeline alone is a path. */
  ghost predicate IsPath(outputs: seq<Output>, path: seq<PipelineId>) {
    && |path| > 0
    && forall i :: 0 <= i < |path| - 1 ==> HasEdge(outputs, path[i], path[i + 1])
  }

  ghost predicate Connects(outputs: seq<Output>, path: seq<PipelineId>, from: PipelineId, to: PipelineId) {
    IsPath(outputs, path) && path[0] == from && path[|path| - 1] == to
  }

  ghost predicate Reaches(outputs: seq<Output>, from: PipelineId, to: PipelineId) {
    exists path :: Connects(outputs, path, from, to)
  }

  ghost predicate Acyclic(outputs: seq<Output>) {
    forall path :: IsPath(outputs, path) && |path| > 1 ==> path[0] != path[|path| - 1]
  }

  // ---------- recirculation_edges ----------

  /** The pipelines the outputs of `from` feed, in row order. */
  function TargetsOf(outputs: seq<Output>, from: PipelineId): seq<PipelineId> {
    if outputs == [] then []
    else
      var last := outputs[|outputs| - 1];
      TargetsOf(outputs[..|outputs| - 1], from)
      + if last.pipelineId == from && last.target.Some? then [last.target.value.pipelineId] else []
  }

  lemma {:induction false} TargetsAreEdges(outputs: seq<Output>, from: PipelineId, to: PipelineId)
    ensures to in TargetsOf(outputs, from) <==> HasEdge(outputs, from, to)
  {
    if outputs != [] {
      var init := outputs[..|outputs| - 1];
      TargetsAreEdges(init, from, to);
      if HasEdge(init, from, to) {
        var i :| 0 <= i < |init| && init[i].pipelineId == from
                 && init[i].target.Some? && init[i].target.value.pipelineId == to;
        assert outputs[i] == init[i];
      }
    }
  }

  method RecirculationEdges(outputs: seq<Output>) returns (edges: map<PipelineId, seq<PipelineId>>)
    ensures forall p :: p in edges <==> TargetsOf(outputs, p) != []
    ensures forall p :: p in edges ==> edges[p] == TargetsOf(outputs, p)
  {
    edges := map[];
    for i := 0 to |outputs|
      invariant forall p :: p in edges <==> TargetsOf(outputs[..i], p) != []
      invariant forall p :: p in edges ==> edges[p] == TargetsOf(outputs[..i], p)
    {
      assert outputs[..i + 1][..i] == outputs[..i];
      var output := outputs[i];
      if output.target.None? {
        continue;
      }
      var before := if output.pipelineId in edges then edges[output.pipelineId] else [];
      edges := edges[output.pipelineId := before + [output.target.value.pipelineId]];
    }
    assert outputs[..|outputs|] == outputs;
  }

  // ---------- validate_recirculation_topology ----------

  /** A set closed under edges that starts inside never leads outside. */
  lemma {:induction false} ClosedSetHoldsPath(outputs: seq<Output>, closed: set<PipelineId>, path: seq<PipelineId>)
    requires IsPath(outputs, path) && path[0] in closed
    requires forall p, q :: p in closed && HasEdge(outputs, p, q) ==> q in closed
    ensures path[|path| - 1] in closed
  {
    if |path| > 1 {
      var init := path[..|path| - 1];
      forall i | 0 <= i < |init| - 1 ensures HasEdge(outputs, init[i], init[i + 1]) {
        assert HasEdge(outputs, path[i], path[i + 1]);
      }
      ClosedSetHoldsPath(outputs, closed, init);
      assert HasEdge(outputs, path[|path| - 2], path[|path| - 1]);
    }
  }

  lemma ReachesItself(outputs: seq<Output>, p: PipelineId)
    ensures Reaches(outputs, p, p)
  {
    assert Connects(outputs, [p], p, p);
  }

  lemma ReachesStep(outputs: seq<Output>, from: PipelineId, mid: PipelineId, to: PipelineId)
    requires Reaches(outputs, from, mid) && HasEdge(outputs, mid, to)
    ensures Reaches(outputs, from, to)
  {
    var path :| Connects(outputs, path, from, mid);
    assert Connects(outputs, path + [to], from, to);
  }

  /** Every pipeline some row feeds, and `start`: all a walk from `start` can meet. */
  function Universe(outputs: seq<Output>, start: PipelineId): set<PipelineId> {
    {start} + set i | 0 <= i < |outputs| && outputs[i].target.Some? :: outputs[i].target.value.pipelineId
  }

  /**
   Where the walk is: everything met can be reached and is not `source`, and no edge leads from a visited pipeline out.
   */
  ghost predicate IsWalk(outputs: seq<Output>, start: PipelineId, source: PipelineId,
                         visited: set<PipelineId>, stack: seq<PipelineId>) {
    && visited <= Universe(outputs, start) && source !in visited && source !in stack
    && (start in visited || start in stack)
    && (forall p :: p in stack ==> p in Universe(outputs, start) && Reaches(outputs, start, p))
    && (forall p, q :: p in visited && HasEdge(outputs, p, q) ==> q in visited || q in stack)
  }

  lemma SkipKeepsWalk(outputs: seq<Output>, start: PipelineId, source: PipelineId,
                      visited: set<PipelineId>, stack: seq<PipelineId>, pipeline: PipelineId)
    requires IsWalk(outputs, start, source, visited, stack + [pipeline]) && pipeline in visited
    ensures IsWalk(outputs, start, source, visited, stack)
  {
    assert forall p :: p in stack + [pipeline] <==> p in stack || p == pipeline;
  }

  lemma VisitKeepsWalk(outputs: seq<Output>, start: PipelineId, source: PipelineId,
                       visited: set<PipelineId>, stack: seq<PipelineId>, pipeline: PipelineId)
    requires IsWalk(outputs, start, source, visited, stack + [pipeline]) && source !in TargetsOf(outputs, pipeline)
    ensures IsWalk(outputs, start, source, visited + {pipeline}, stack + TargetsOf(outputs, pipeline))
  {
    assert forall p :: p in stack + [pipeline] <==> p in stack || p == pipeline;
    forall q ensures q in TargetsOf(outputs, pipeline) <==> HasEdge(outputs, pipeline, q) {
      TargetsAreEdges(outputs, pipeline, q);
    }
    forall q | q in TargetsOf(outputs, pipeline) ensures Reaches(outputs, start, q) && q in Universe(outputs, start) {
      ReachesStep(outputs, start, pipeline, q);
    }
  }

  /** A walk with nothing left to visit has met everything it can reach. */
  lemma FinishedWalk(outputs: seq<Output>, start: PipelineId, source: PipelineId, visited: set<PipelineId>)
    requires IsWalk(outputs, start, source, visited, [])
    ensures !Reaches(outputs, start, source)
  {
    forall p | Reaches(outputs, start, p) ensures p in visited {
      var path :| Connects(outputs, path, start, p);
      ClosedSetHoldsPath(outputs, visited, path);
    }
  }

  /** The depth-first walk: it accepts exactly when `source` cannot be reached from the target. */
  method ValidateTopology(source: PipelineId, target: Target, outputs: seq<Output>)
    returns (r: Result<(), TopologyError>)
    ensures r == Err(DirectCycle) <==> source == target.pipelineId
    ensures r == Err(IndirectCycle) <==>
            source != target.pipelineId && Reaches(outputs, target.pipelineId, source)
    ensures r.Ok? <==> !Reaches(outputs, target.pipelineId, source)
  {
    if source == target.pipelineId {
      ReachesItself(outputs, source);
      return Err(DirectCycle);
    }
    var start := target.pipelineId;
    var edges := RecirculationEdges(outputs);
    var stack := [start];
    var visited: set<PipelineId> := {};
    ReachesItself(outputs, start);
    while stack != []
      invariant IsWalk(outputs, start, source, visited, stack)
      decreases |Universe(outputs, start) - visited|, |stack|
    {
      var pipeline := stack[|stack| - 1];
      assert stack == stack[..|stack| - 1] + [pipeline];
      stack := stack[..|stack| - 1];
      if pipeline in visited {
        SkipKeepsWalk(outputs, start, source, visited, stack, pipeline);
        continue;
      }
      assert pipeline in stack + [pipeline];
      assert Universe(outputs, start) - (visited + {pipeline}) == Universe(outputs, start) - visited - {pipeline};
      var targets := if pipeline in edges then edges[pipeline] else [];
      if source in targets {
        TargetsAreEdges(outputs, pipeline, source);
        ReachesStep(outputs, start, pipeline, source);
        return Err(IndirectCycle);
      }
      VisitKeepsWalk(outputs, start, source, visited, stack, pipeline);
      visited := visited + {pipeline};
      stack := stack + targets;
    }
    FinishedWalk(outputs, start, source, visited);
    return Ok(());
  }

  // ---------- What one accepted change does to the graph ----------

  /** The two lists draw the same edges out of every pipeline but `source`. */
  ghost predicate SameAwayFrom(source: PipelineId, a: seq<Output>, b: seq<Output>) {
    forall p, q :: p != source ==> (HasEdge(a, p, q) <==> HasEdge(b, p, q))
  }

  /**
   Reaching `source` never needs an edge that leaves `source`. This is why an update may be
   validated against a list that still holds the row it replaces.
   */
  lemma ReachingSourceIgnoresItsEdges(a: seq<Output>, b: seq<Output>, from: PipelineId, source: PipelineId)
    requires SameAwayFrom(source, a, b)
    ensures Reaches(a, from, source) <==> Reaches(b, from, source)
  {
    if Reaches(a, from, source) {
      var path :| Connects(a, path, from, source);
      CutAtSource(a, b, path, source);
    }
    if Reaches(b, from, source) {
      var path :| Connects(b, path, from, source);
      CutAtSource(b, a, path, source);
    }
  }

  lemma {:induction false} CutAtSource(a: seq<Output>, b: seq<Output>, path: seq<PipelineId>, source: PipelineId)
    requires SameAwayFrom(source, a, b)
    requires IsPath(a, path) && path[|path| - 1] == source
    ensures Reaches(b, path[0], source)
  {
    if path[0] == source {
      ReachesItself(b, source);
    } else {
      var tail := path[1..];
      forall i | 0 <= i < |tail| - 1 ensures HasEdge(a, tail[i], tail[i + 1]) {
        assert HasEdge(a, path[i + 1], path[i + 2]);
      }
      CutAtSource(a, b, tail, source);
      var rest :| Connects(b, rest, tail[0], source);
      assert HasEdge(a, path[0], path[1]);
      assert Connects(b, [path[0]] + rest, path[0], source);
    }
  }

  lemma FewerEdgesStayAcyclic(a: seq<Output>, b: seq<Output>)
    requires Acyclic(a)
    requires forall p, q :: HasEdge(b, p, q) ==> HasEdge(a, p, q)
    ensures Acyclic(b)
  {
    forall path | IsPath(b, path) && |path| > 1 ensures path[0] != path[|path| - 1] {
      assert IsPath(a, path);
    }
  }

  /** A cycle through `source` can be walked from `source`: its first edge and the way back. */
  lemma CycleFromSource(outputs: seq<Output>, path: seq<PipelineId>, at: nat)
    returns (next: PipelineId)
    requires IsPath(outputs, path) && |path| > 1 && path[0] == path[|path| - 1] && at < |path| - 1
    ensures HasEdge(outputs, path[at], next) && Reaches(outputs, next, path[at])
  {
    next := path[at + 1];
    var back := path[at + 1..] + path[1..at + 1];
    forall i | 0 <= i < |back| - 1 ensures HasEdge(outputs, back[i], back[i + 1]) {
      var j := if i < |path| - at - 1 then at + 1 + i else i - (|path| - at - 1) + 1;
      assert back[i] == path[j];
      if j == |path| - 1 {
        assert back[i + 1] == path[1] && HasEdge(outputs, path[0], path[1]);
      } else {
        assert back[i + 1] == path[j + 1] && HasEdge(outputs, path[j], path[j + 1]);
      }
    }
    assert back[|back| - 1] == path[at];
    assert Connects(outputs, back, next, path[at]);
  }

  /** `after` is `before` with an edge from `source` to `target` put in, some edges of `source` perhaps dropped. */
  ghost predicate PutsEdge(before: seq<Output>, after: seq<Output>, source: PipelineId, target: PipelineId) {
    && SameAwayFrom(source, before, after)
    && HasEdge(after, source, target)
    && forall q :: HasEdge(after, source, q) ==> q == target || HasEdge(before, source, q)
  }

  /** The gate is exact: from an acyclic graph, the new edge closes a cycle just when the gate refuses it. */
  lemma GateIsExact(before: seq<Output>, after: seq<Output>, source: PipelineId, target: PipelineId)
    requires Acyclic(before) && PutsEdge(before, after, source, target)
    ensures Acyclic(after) <==> !Reaches(before, target, source)
  {
    ReachingSourceIgnoresItsEdges(before, after, target, source);
    if Reaches(before, target, source) {
      var path :| Connects(after, path, target, source);
      var cycle := [source] + path;
      assert IsPath(after, cycle) && cycle[0] == cycle[|cycle| - 1];
    } else {
      forall path | IsPath(after, path) && |path| > 1 ensures path[0] != path[|path| - 1] {
        if path[0] == path[|path| - 1] {
          CycleIsOldOrRefused(before, after, source, target, path);
        }
      }
    }
  }

  /** A cycle after the change was there before, or the gate would have refused the change. */
  lemma CycleIsOldOrRefused(before: seq<Output>, after: seq<Output>, source: PipelineId, target: PipelineId,
                            path: seq<PipelineId>)
    requires PutsEdge(before, after, source, target)
    requires IsPath(after, path) && |path| > 1 && path[0] == path[|path| - 1]
    ensures Reaches(before, target, source) || !Acyclic(before)
  {
    if at: nat :| at < |path| - 1 && path[at] == source {
      var next := CycleFromSource(after, path, at);
      ReachingSourceIgnoresItsEdges(before, after, next, source);
      if next != target {
        var back :| Connects(before, back, next, source);
        var cycle := [source] + back;
        assert IsPath(before, cycle) && cycle[0] == cycle[|cycle| - 1];
      }
    } else {
      assert IsPath(before, path);
    }
  }

  // ---------- Runs of changes ----------

  datatype Change =
    | Create(output: Output)
    | Update(pipelineId: PipelineId, id: string, target: Option<Target>)
    | DeleteOutput(pipelineId: PipelineId, id: string)
    | DeletePipeline(pipelineId: PipelineId)

  function Replace(outputs: seq<Output>, pipelineId: PipelineId, id: string, target: Option<Target>): seq<Output> {
    seq(|outputs|, i requires 0 <= i < |outputs| =>
      if outputs[i].pipelineId == pipelineId && outputs[i].id == id
      then outputs[i].(target := target) else outputs[i])
  }

  predicate Removes(change: Change, output: Output) {
    match change
    case DeleteOutput(pipelineId, id) => output.pipelineId == pipelineId && output.id == id
    case DeletePipeline(pipelineId) => output.pipelineId == pipelineId
    case _ => false
  }

  function Without(outputs: seq<Output>, change: Change): seq<Output> {
    if outputs == [] then []
    else (if Removes(change, outputs[0]) then [] else [outputs[0]]) + Without(outputs[1..], change)
  }

  /** The edge a change would put in, as the handlers hand it to the gate. */
  function Candidate(change: Change): Option<(PipelineId, Target)> {
    match change
    case Create(output) => if output.target.Some? then Some((output.pipelineId, output.target.value)) else None
    case Update(pipelineId, _, target) => if target.Some? then Some((pipelineId, target.value)) else None
    case _ => None
  }

  /** What the gate lets through; changes that put in no edge are not gated. */
  ghost predicate Accepted(outputs: seq<Output>, change: Change) {
    var candidate := Candidate(change);
    candidate.Some? ==> !Reaches(outputs, candidate.value.1.pipelineId, candidate.value.0)
  }

  function Changed(outputs: seq<Output>, change: Change): seq<Output> {
    match change
    case Create(output) => outputs + [output]
    case Update(pipelineId, id, target) => Replace(outputs, pipelineId, id, target)
    case _ => Without(outputs, change)
  }

  /** The rows after a serial run of changes; a refused change leaves them as they were. */
  ghost function Run(outputs: seq<Output>, changes: seq<Change>): seq<Output> {
    if changes == [] then outputs
    else
      var init := Run(outputs, changes[..|changes| - 1]);
      var change := changes[|changes| - 1];
      if Accepted(init, change) then Changed(init, change) else init
  }

  lemma {:induction false} WithoutKeepsRows(outputs: seq<Output>, change: Change)
    ensures forall output :: output in Without(outputs, change) ==> output in outputs
  {
    if outputs != [] {
      WithoutKeepsRows(outputs[1..], change);
    }
  }

  lemma ReplaceEdges(outputs: seq<Output>, change: Change)
    requires change.Update?
    ensures SameAwayFrom(change.pipelineId, outputs, Changed(outputs, change))
    ensures forall q :: HasEdge(Changed(outputs, change), change.pipelineId, q) ==>
              HasEdge(outputs, change.pipelineId, q)
              || (change.target.Some? && q == change.target.value.pipelineId)
  {
    var after := Changed(outputs, change);
    forall p, q | p != change.pipelineId ensures HasEdge(outputs, p, q) <==> HasEdge(after, p, q) {
      forall i | 0 <= i < |outputs| && outputs[i].pipelineId == p ensures after[i] == outputs[i] {}
    }
  }

  lemma AppendEdges(outputs: seq<Output>, output: Output)
    ensures forall p, q :: HasEdge(outputs + [output], p, q) <==>
              HasEdge(outputs, p, q)
              || (output.pipelineId == p && output.target.Some? && output.target.value.pipelineId == q)
  {
    var after := outputs + [output];
    assert after[|outputs|] == output;
    forall p, q | HasEdge(outputs, p, q) ensures HasEdge(after, p, q) {
      var i :| 0 <= i < |outputs| && outputs[i].pipelineId == p
               && outputs[i].target.Some? && outputs[i].target.value.pipelineId == q;
      assert after[i] == outputs[i];
    }
  }

  /** The row has this edge. */
  predicate Feeds(output: Output, from: PipelineId, to: PipelineId) {
    output.pipelineId == from && output.target.Some? && output.target.value.pipelineId == to
  }

  /** The row at `i` is the one the change names. */
  predicate IsNamed(outputs: seq<Output>, change: Change, i: nat)
    requires i < |outputs|
  {
    match change
    case Create(_) => false
    case Update(pipelineId, id, _) => outputs[i].pipelineId == pipelineId && outputs[i].id == id
    case DeleteOutput(pipelineId, id) => outputs[i].pipelineId == pipelineId && outputs[i].id == id
    case DeletePipeline(pipelineId) => outputs[i].pipelineId == pipelineId
  }

  lemma {:induction false} WithoutHolds(outputs: seq<Output>, change: Change, output: Output)
    requires change.DeleteOutput? || change.DeletePipeline?
    ensures output in Without(outputs, change)
       <==> exists i: nat :: i < |outputs| && outputs[i] == output && !IsNamed(outputs, change, i)
  {
    if outputs != [] {
      var rest := outputs[1..];
      WithoutHolds(rest, change, output);
      if i: nat :| i < |rest| && rest[i] == output && !IsNamed(rest, change, i) {
        assert outputs[i + 1] == output && !IsNamed(outputs, change, i + 1);
      }
      if i: nat :| i < |outputs| && outputs[i] == output && !IsNamed(outputs, change, i) {
        if i > 0 {
          assert rest[i - 1] == output && !IsNamed(rest, change, i - 1);
        }
      }
    }
  }

  /** The edges a change leaves: those of the rows it does not name, and its own where it finds a row to put it in. */
  lemma ChangedEdges(outputs: seq<Output>, change: Change, from: PipelineId, to: PipelineId)
    ensures HasEdge(Changed(outputs, change), from, to)
       <==> || (exists i: nat :: i < |outputs| && !IsNamed(outputs, change, i) && Feeds(outputs[i], from, to))
            || (change.Create? && Feeds(change.output, from, to))
            || (change.Update? && change.pipelineId == from && change.target.Some?
                && change.target.value.pipelineId == to
                && exists i: nat :: i < |outputs| && IsNamed(outputs, change, i))
  {
    var after := Changed(outputs, change);
    match change
    case Create(output) =>
      AppendEdges(outputs, output);
    case Update(pipelineId, id, target) =>
      forall i: nat | i < |outputs|
        ensures after[i] == if IsNamed(outputs, change, i) then outputs[i].(target := target) else outputs[i] {
      }
      if i: nat :| i < |outputs| && !IsNamed(outputs, change, i) && Feeds(outputs[i], from, to) {
        assert Feeds(after[i], from, to);
      } else if i: nat :| i < |outputs| && IsNamed(outputs, change, i) {
        assert after[i] == outputs[i].(target := target);
      }
    case _ =>
      forall output ensures output in after
                       <==> exists i: nat :: i < |outputs| && outputs[i] == output && !IsNamed(outputs, change, i) {
        WithoutHolds(outputs, change, output);
      }
      if HasEdge(after, from, to) {
        var i :| 0 <= i < |after| && Feeds(after[i], from, to);
        assert after[i] in after;
      } else if i: nat :| i < |outputs| && !IsNamed(outputs, change, i) && Feeds(outputs[i], from, to) {
        assert outputs[i] in after;
      }
  }

  /** A change that puts in no edge leaves at most those there were. */
  lemma NoEdgeIsAdded(outputs: seq<Output>, change: Change)
    requires Candidate(change).None?
    ensures forall p, q :: HasEdge(Changed(outputs, change), p, q) ==> HasEdge(outputs, p, q)
  {
    match change
    case Create(output) => AppendEdges(outputs, output);
    case Update(_, _, _) => ReplaceEdges(outputs, change);
    case _ =>
      WithoutKeepsRows(outputs, change);
      var after := Changed(outputs, change);
      forall p, q | HasEdge(after, p, q) ensures HasEdge(outputs, p, q) {
        var i :| 0 <= i < |after| && after[i].pipelineId == p
                 && after[i].target.Some? && after[i].target.value.pipelineId == q;
        assert after[i] in outputs;
      }
  }

  lemma AcceptedChangeKeepsAcyclic(outputs: seq<Output>, change: Change)
    requires Acyclic(outputs) && Accepted(outputs, change)
    ensures Acyclic(Changed(outputs, change))
  {
    var after := Changed(outputs, change);
    match change
    case Create(output) =>
      AppendEdges(outputs, output);
      if output.target.Some? {
        GateIsExact(outputs, after, output.pipelineId, output.target.value.pipelineId);
      } else {
        FewerEdgesStayAcyclic(outputs, after);
      }
    case Update(pipelineId, id, target) =>
      ReplaceEdges(outputs, change);
      if target.Some? && HasEdge(after, pipelineId, target.value.pipelineId) {
        GateIsExact(outputs, after, pipelineId, target.value.pipelineId);
      } else {
        FewerEdgesStayAcyclic(outputs, after);
      }
    case _ =>
      NoEdgeIsAdded(outputs, change);
      FewerEdgesStayAcyclic(outputs, after);
  }

  /** A change the gate accepts is made, and one it refuses is not. */
  lemma RunMakesAccepted(outputs: seq<Output>, changes: seq<Change>, change: Change)
    ensures Run(outputs, changes + [change])
         == if Accepted(Run(outputs, changes), change) then Changed(Run(outputs, changes), change)
            else Run(outputs, changes)
  {
    assert (changes + [change])[..|changes|] == changes;
  }

  /** Every serial run of changes behind the gate keeps the pipeline graph acyclic. */
  lemma {:induction false} RunStaysAcyclic(outputs: seq<Output>, changes: seq<Change>)
    requires Acyclic(outputs)
    ensures Acyclic(Run(outputs, changes))
    decreases |changes|
  {
    if changes != [] {
      var init := changes[..|changes| - 1];
      RunStaysAcyclic(outputs, init);
      if Accepted(Run(outputs, init), changes[|changes| - 1]) {
        AcceptedChangeKeepsAcyclic(Run(outputs, init), changes[|changes| - 1]);
      }
    }
  }

  // ---------- Handlers that validate at the same time, and agents that do not ----------

  /** A handler that the gate has let through when `addedAtCheck` edges had been written, and that has yet to write. */
  datatype Pending = Pending(change: Change, addedAtCheck: nat)

  /** `added` counts the changes written that put in an edge. */
  datatype System = System(outputs: seq<Output>, pending: seq<Pending>, added: nat)

  /** `WriteUnchecked` is an agent's change, which goes to the store without the gate. */
  datatype Step = Validate(change: Change) | Write(index: nat) | WriteUnchecked(change: Change)

  ghost predicate Enabled(s: System, step: Step) {
    match step
    case Validate(change) => Accepted(s.outputs, change)
    case Write(index) => index < |s.pending|
    case WriteUnchecked(_) => true
  }

  function Written(s: System, change: Change): System {
    s.(outputs := Changed(s.outputs, change), added := s.added + if Candidate(change).Some? then 1 else 0)
  }

  function Next(s: System, step: Step): System
    requires step.Write? ==> step.index < |s.pending|
  {
    match step
    case Validate(change) => s.(pending := s.pending + [Pending(change, s.added)])
    case Write(index) =>
      Written(s.(pending := s.pending[..index] + s.pending[index + 1..]), s.pending[index].change)
    case WriteUnchecked(change) => Written(s, change)
  }

  ghost function RunFrom(s: System, steps: seq<Step>): Option<System>
    decreases |steps|
  {
    if steps == [] then Some(s)
    else if Enabled(s, steps[0]) then RunFrom(Next(s, steps[0]), steps[1..])
    else None
  }

  /** What the step puts in the store. */
  function ChangeOf(s: System, step: Step): Option<Change>
    requires step.Write? ==> step.index < |s.pending|
  {
    match step
    case Validate(_) => None
    case Write(index) => Some(s.pending[index].change)
    case WriteUnchecked(change) => Some(change)
  }

  /** Every change is written while the gate would let it through. */
  ghost predicate IsStillAccepted(s: System, steps: seq<Step>)
    decreases |steps|
  {
    steps != [] && Enabled(s, steps[0]) ==>
      && (ChangeOf(s, steps[0]).Some? ==> Accepted(s.outputs, ChangeOf(s, steps[0]).value))
      && IsStillAccepted(Next(s, steps[0]), steps[1..])
  }

  /** In every such interleaving the graph stays acyclic. */
  lemma {:induction false} InterleavingStaysAcyclic(s: System, steps: seq<Step>)
    requires Acyclic(s.outputs) && RunFrom(s, steps).Some? && IsStillAccepted(s, steps)
    ensures Acyclic(RunFrom(s, steps).value.outputs)
    decreases |steps|
  {
    if steps != [] {
      if ChangeOf(s, steps[0]).Some? {
        AcceptedChangeKeepsAcyclic(s.outputs, ChangeOf(s, steps[0]).value);
      }
      InterleavingStaysAcyclic(Next(s, steps[0]), steps[1..]);
    }
  }

  /** The change finds its row: a create always does, an update when the row is still there. */
  ghost predicate FindsRow(outputs: seq<Output>, change: Change) {
    change.Update? ==>
      exists i :: 0 <= i < |outputs| && outputs[i].pipelineId == change.pipelineId && outputs[i].id == change.id
  }

  /** A write, checked before or not, keeps the graph acyclic exactly when the gate would let it through now. */
  lemma WriteIsSafeIff(s: System, step: Step)
    requires Acyclic(s.outputs) && Enabled(s, step) && ChangeOf(s, step).Some?
    ensures var change := ChangeOf(s, step).value;
            Acyclic(Next(s, step).outputs) <==> Accepted(s.outputs, change) || !FindsRow(s.outputs, change)
  {
    var change := ChangeOf(s, step).value;
    if Accepted(s.outputs, change) {
      AcceptedChangeKeepsAcyclic(s.outputs, change);
    } else if FindsRow(s.outputs, change) {
      RefusedChangeWouldCycle(s.outputs, change);
    } else {
      assert Changed(s.outputs, change) == s.outputs;
    }
  }

  /** A verdict stands as long as no edge has been added since: deletes in between do no harm. */
  lemma FewerEdgesStayAccepted(seen: seq<Output>, outputs: seq<Output>, change: Change)
    requires Accepted(seen, change) && forall p, q :: HasEdge(outputs, p, q) ==> HasEdge(seen, p, q)
    ensures Accepted(outputs, change)
  {
    var candidate := Candidate(change);
    if candidate.Some? && Reaches(outputs, candidate.value.1.pipelineId, candidate.value.0) {
      var path :| Connects(outputs, path, candidate.value.1.pipelineId, candidate.value.0);
      assert Connects(seen, path, candidate.value.1.pipelineId, candidate.value.0);
    }
  }

  /** A handler writes its edge before another edge is written, and an agent writes none. */
  predicate IsPrompt(s: System, steps: seq<Step>)
    decreases |steps|
  {
    if steps == [] || (steps[0].Write? && steps[0].index >= |s.pending|) then true
    else
      && (steps[0].Write? && Candidate(s.pending[steps[0].index].change).Some? ==>
            s.pending[steps[0].index].addedAtCheck == s.added)
      && (steps[0].WriteUnchecked? ==> Candidate(steps[0].change).None?)
      && IsPrompt(Next(s, steps[0]), steps[1..])
  }

  lemma PromptStep(s: System, step: Step, rest: seq<Step>)
    requires step.Write? ==> step.index < |s.pending| && s.pending[step.index].addedAtCheck == s.added
    requires step.WriteUnchecked? ==> Candidate(step.change).None?
    requires IsPrompt(Next(s, step), rest)
    ensures IsPrompt(s, [step] + rest)
  {
    assert ([step] + rest)[1..] == rest;
  }

  /** Changes that put in no edge may come between a check and its write. */
  lemma RemovalsKeepPrompt(s: System, change: Change, removal: Change)
    requires Candidate(removal).None?
    ensures IsPrompt(s, [Validate(change)] + ([WriteUnchecked(removal)] + ([Write(|s.pending|)] + [])))
  {
    var checked := Next(s, Validate(change));
    var removed := Next(checked, WriteUnchecked(removal));
    PromptStep(removed, Write(|s.pending|), []);
    PromptStep(checked, WriteUnchecked(removal), [Write(|s.pending|)] + []);
    PromptStep(s, Validate(change), [WriteUnchecked(removal)] + ([Write(|s.pending|)] + []));
  }

  /** The verdicts given since the last edge was written still stand. */
  ghost predicate VerdictsStand(s: System) {
    forall i :: 0 <= i < |s.pending| ==>
      && s.pending[i].addedAtCheck <= s.added
      && (s.pending[i].addedAtCheck == s.added ==> Accepted(s.outputs, s.pending[i].change))
  }

  lemma WrittenKeepsVerdicts(s: System, change: Change)
    requires VerdictsStand(s)
    ensures VerdictsStand(Written(s, change))
  {
    if Candidate(change).None? {
      NoEdgeIsAdded(s.outputs, change);
      forall i | 0 <= i < |s.pending| && s.pending[i].addedAtCheck == s.added
        ensures Accepted(Changed(s.outputs, change), s.pending[i].change) {
        FewerEdgesStayAccepted(s.outputs, Changed(s.outputs, change), s.pending[i].change);
      }
    }
  }

  lemma StepKeepsVerdicts(s: System, step: Step)
    requires VerdictsStand(s) && Enabled(s, step)
    ensures VerdictsStand(Next(s, step))
  {
    match step
    case Validate(_) =>
    case Write(index) =>
      var rest := s.(pending := s.pending[..index] + s.pending[index + 1..]);
      assert forall i :: 0 <= i < |rest.pending| ==> rest.pending[i] == s.pending[if i < index then i else i + 1];
      WrittenKeepsVerdicts(rest, s.pending[index].change);
    case WriteUnchecked(change) => WrittenKeepsVerdicts(s, change);
  }

  /** In a run in which no edge is written between a check and its write, every write would still be let through. */
  lemma {:induction false} PromptRunIsStillAccepted(s: System, steps: seq<Step>)
    requires VerdictsStand(s) && IsPrompt(s, steps)
    ensures IsStillAccepted(s, steps)
    decreases |steps|
  {
    if steps != [] && Enabled(s, steps[0]) {
      StepKeepsVerdicts(s, steps[0]);
      PromptRunIsStillAccepted(Next(s, steps[0]), steps[1..]);
    }
  }

  /** So every such run, from a store with no check under way, keeps the graph acyclic. */
  lemma PromptRunStaysAcyclic(outputs: seq<Output>, steps: seq<Step>)
    requires var s := System(outputs, [], 0); Acyclic(outputs) && RunFrom(s, steps).Some? && IsPrompt(s, steps)
    ensures Acyclic(RunFrom(System(outputs, [], 0), steps).value.outputs)
  {
    PromptRunIsStillAccepted(System(outputs, [], 0), steps);
    InterleavingStaysAcyclic(System(outputs, [], 0), steps);
  }

  lemma NothingReachesWithoutEdges(from: PipelineId, to: PipelineId)
    requires from != to
    ensures !Reaches([], from, to)
  {
    forall p | Reaches([], from, p) ensures p == from {
      var path :| Connects([], path, from, p);
      ClosedSetHoldsPath([], {from}, path);
    }
  }

  lemma RunStep(s: System, step: Step, rest: seq<Step>)
    requires Enabled(s, step)
    ensures RunFrom(s, [step] + rest) == RunFrom(Next(s, step), rest)
  {
    assert ([step] + rest)[1..] == rest;
  }

  lemma MutualEdgesAreACycle(one: Output, two: Output)
    requires one.target.Some? && one.target.value.pipelineId == two.pipelineId
    requires two.target.Some? && two.target.value.pipelineId == one.pipelineId
    ensures !Acyclic([one, two])
  {
    var a, b := one.pipelineId, two.pipelineId;
    assert [one, two][0] == one && [one, two][1] == two;
    assert HasEdge([one, two], a, b) && HasEdge([one, two], b, a);
    assert IsPath([one, two], [a, b, a]);
  }

  lemma TwoWrites(one: Output, two: Output)
    requires one.target.Some? && two.target.Some?
    ensures RunFrom(System([], [Pending(Create(one), 0), Pending(Create(two), 0)], 0), [Write(0)] + ([Write(0)] + []))
         == Some(System([one, two], [], 2))
  {
    var s := System([], [Pending(Create(one), 0), Pending(Create(two), 0)], 0);
    var t := System([one], [Pending(Create(two), 0)], 1);
    assert Next(s, Write(0)) == t && Next(t, Write(0)) == System([one, two], [], 2);
    RunStep(s, Write(0), [Write(0)] + []);
    RunStep(t, Write(0), []);
  }

  lemma TwoVerdicts(one: Change, two: Change, rest: seq<Step>)
    requires Accepted([], one) && Accepted([], two)
    ensures RunFrom(System([], [], 0), [Validate(one)] + ([Validate(two)] + rest))
         == RunFrom(System([], [Pending(one, 0), Pending(two, 0)], 0), rest)
  {
    var s, t, u := System([], [], 0), System([], [Pending(one, 0)], 0),
        System([], [Pending(one, 0), Pending(two, 0)], 0);
    assert Next(s, Validate(one)) == t && Next(t, Validate(two)) == u;
    RunStep(s, Validate(one), [Validate(two)] + rest);
    RunStep(t, Validate(two), rest);
  }

  /** Two handlers validate at once and then write: each is let through, and together they close a cycle. */
  lemma TwoHandlersCloseACycle(a: PipelineId, b: PipelineId, input: string)
    requires a != b
    ensures var there := Create(Output("1", a, Some(Target(b, input))));
            var back := Create(Output("2", b, Some(Target(a, input))));
            var steps := [Validate(there)] + ([Validate(back)] + ([Write(0)] + ([Write(0)] + [])));
            var end := RunFrom(System([], [], 0), steps);
            end.Some? && !Acyclic(end.value.outputs)
  {
    var one, two := Output("1", a, Some(Target(b, input))), Output("2", b, Some(Target(a, input)));
    NothingReachesWithoutEdges(b, a);
    NothingReachesWithoutEdges(a, b);
    TwoVerdicts(Create(one), Create(two), [Write(0)] + ([Write(0)] + []));
    TwoWrites(one, two);
    MutualEdgesAreACycle(one, two);
  }

  /** An agent's outputs need no second writer: it can send a pipeline back to itself. */
  lemma AgentClosesACycle(a: PipelineId, input: string)
    ensures var back := Create(Output("1", a, Some(Target(a, input))));
            var end := RunFrom(System([], [], 0), [WriteUnchecked(back)] + []);
            end.Some? && !Acyclic(end.value.outputs)
  {
    var s, output := System([], [], 0), Output("1", a, Some(Target(a, input)));
    var step := WriteUnchecked(Create(output));
    RunStep(s, step, []);
    var outputs := Next(s, step).outputs;
    assert outputs[0] == output && HasEdge(outputs, a, a);
    assert IsPath(outputs, [a, a]);
  }

  /** A gated change the gate refuses would have closed a cycle: nothing is refused needlessly. */
  lemma RefusedChangeWouldCycle(outputs: seq<Output>, change: Change)
    requires Acyclic(outputs) && !Accepted(outputs, change)
    requires change.Update? ==> exists i :: 0 <= i < |outputs|
                                            && outputs[i].pipelineId == change.pipelineId && outputs[i].id == change.id
    ensures !Acyclic(Changed(outputs, change))
  {
    var after := Changed(outputs, change);
    match change
    case Create(output) =>
      AppendEdges(outputs, output);
      GateIsExact(outputs, after, output.pipelineId, output.target.value.pipelineId);
    case Update(pipelineId, id, target) =>
      ReplaceEdges(outputs, change);
      var i :| 0 <= i < |outputs| && outputs[i].pipelineId == pipelineId && outputs[i].id == id;
      assert after[i] == outputs[i].(target := target);
      GateIsExact(outputs, after, pipelineId, target.value.pipelineId);
  }

  // ---------- validate_output_candidate ----------

  datatype PipelineInput = PipelineInput(id: string, pipelineId: PipelineId, enabled: bool, selected: bool)

  datatype TargetInputError = Missing | WrongPipeline | Disabled | Selected

  function ValidateTargetInput(target: Target, input: Option<PipelineInput>): (r: Result<(), TargetInputError>)
    ensures r.Ok? <==> input.Some? && input.value.pipelineId == target.pipelineId
                       && input.value.enabled && !input.value.selected
  {
    match input
    case None => Err(Missing)
    case Some(found) =>
      if found.pipelineId != target.pipelineId then Err(WrongPipeline)
      else if !found.enabled then Err(Disabled)
      else if found.selected then Err(Selected)
      else Ok(())
  }

  datatype CandidateError = Topology(cycle: TopologyError) | TargetInput(problem: TargetInputError)

  /** The gate a handler calls: a candidate it passes is `Accepted`, and the cycle check answers first. */
  method ValidateOutputCandidate(source: PipelineId, target: Target, outputs: seq<Output>, input: Option<PipelineInput>)
    returns (r: Result<(), CandidateError>)
    ensures r.Ok? <==> !Reaches(outputs, target.pipelineId, source) && ValidateTargetInput(target, input).Ok?
    ensures (r.Err? && r.error.Topology?) <==> Reaches(outputs, target.pipelineId, source)
    ensures r.Ok? ==> forall id :: Accepted(outputs, Create(Output(id, source, Some(target))))
                                   && Accepted(outputs, Update(source, id, Some(target)))
  {
    var topology := ValidateTopology(source, target, outputs);
    if topology.Err? {
      return Err(Topology(topology.error));
    }
    var checked := ValidateTargetInput(target, input);
    r := if checked.Err? then Err(TargetInput(checked.error)) else Ok(());
  }
}
