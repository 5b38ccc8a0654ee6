/**
 What a state stream comes to when it is left to itself: the client holds the server's current state. And what a client
 makes of the frames it takes, whatever it is handed.
 */
module StateProgress {
  import opened Prelude
  import opened StateHub
  import opened StateStream

  /** A step of the sender or the client, not of the server's state. */
  predicate IsOwn(step: Step) {
    !step.PublishState? && !step.Restart? && !step.Lag? && !step.Disconnect?
  }

  /** The system after these steps, if each is its own and enabled. */
  function RunOn(s: System, steps: seq<Step>): Option<System>
    requires s.worlds != []
    decreases |steps|
  {
    if steps == [] then Some(s)
    else if IsOwn(steps[0]) && Enabled(s, steps[0]) then RunOn(Next(s, steps[0]), steps[1..])
    else None
  }

  /** These steps bring the client to the server's current state. */
  ghost predicate CatchesUp(s: System, steps: seq<Step>)
    requires s.worlds != []
  {
    && RunOn(s, steps).Some?
    && var end := RunOn(s, steps).value;
       end.hub == s.hub && end.held == Some(Held(s.hub.epoch, s.hub.revision, s.hub.projection))
  }

  lemma StepFirst(s: System, step: Step, rest: seq<Step>)
    requires s.worlds != [] && IsOwn(step) && Enabled(s, step) && CatchesUp(Next(s, step), rest)
    ensures CatchesUp(s, [step] + rest)
  {
    assert ([step] + rest)[1..] == rest;
  }

  lemma LiveCatchesUp(s: System) returns (steps: seq<Step>)
    requires Inv(s) && s.connection.Some? && s.connection.value.stream.phase.Live?
    ensures CatchesUp(s, steps)
    decreases |s.hub.messages| - s.connection.value.next,
              |s.connection.value.stream.frames| - s.connection.value.taken
  {
    var c := s.connection.value;
    if c.next == |s.hub.messages| && c.taken == |c.stream.frames| {
      NothingInFlight(s.hub, s.worlds[s.hub.epoch], s.held, c);
      steps := [];
    } else {
      var step := if c.next < |s.hub.messages| then Receive else Take;
      StepKeepsInv(s, step);
      if step == Take {
        TakeKeepsInv(s);
      }
      var rest := LiveCatchesUp(Next(s, step));
      StepFirst(s, step, rest);
      steps := [step] + rest;
    }
  }

  lemma ReplayCatchesUp(s: System) returns (steps: seq<Step>)
    requires Inv(s) && s.connection.Some? && s.connection.value.stream.phase.Replaying?
    ensures CatchesUp(s, steps)
    decreases |s.connection.value.stream.phase.deltas|
  {
    StepKeepsInv(s, SendReplayed);
    var next := Next(s, SendReplayed);
    var rest;
    if next.connection.value.stream.phase.Live? {
      rest := LiveCatchesUp(next);
    } else {
      rest := ReplayCatchesUp(next);
    }
    StepFirst(s, SendReplayed, rest);
    steps := [SendReplayed] + rest;
  }

  lemma ConnectedCatchesUp(s: System) returns (steps: seq<Step>)
    requires Inv(s) && s.connection.Some?
    ensures CatchesUp(s, steps)
    decreases s.connection.value.stream.phase.Starting?
  {
    match s.connection.value.stream.phase {
      case Live => steps := LiveCatchesUp(s);
      case Replaying(_) => steps := ReplayCatchesUp(s);
      case Behind =>
        StepKeepsInv(s, SendCurrent);
        var rest := LiveCatchesUp(Next(s, SendCurrent));
        StepFirst(s, SendCurrent, rest);
        steps := [SendCurrent] + rest;
      case Starting =>
        StepKeepsInv(s, ReadHistory);
        var rest := ConnectedCatchesUp(Next(s, ReadHistory));
        StepFirst(s, ReadHistory, rest);
        steps := [ReadHistory] + rest;
    }
  }

  lemma RunTakes(run: seq<Step>, step: Step)
    requires Enabled(Run(run), step)
    ensures Run(run + [step]) == Next(Run(run), step)
  {
    assert (run + [step])[..|run|] == run;
  }

  lemma RunOnTakes(s: System, steps: seq<Step>)
    requires s.worlds != [] && steps != [] && RunOn(s, steps).Some?
    ensures Enabled(s, steps[0]) && RunOn(s, steps) == RunOn(Next(s, steps[0]), steps[1..])
  {
  }

  lemma {:induction false} RunOnIsRun(run: seq<Step>, steps: seq<Step>)
    requires RunOn(Run(run), steps).Some?
    ensures Some(Run(run + steps)) == RunOn(Run(run), steps)
    decreases |steps|
  {
    if steps == [] {
      assert run + steps == run;
    } else {
      RunOnTakes(Run(run), steps);
      RunTakes(run, steps[0]);
      RunOnIsRun(run + [steps[0]], steps[1..]);
      assert (run + [steps[0]]) + steps[1..] == run + steps;
    }
  }

  /** After these steps of sender and client alone, the client holds the server's current state. */
  ghost predicate IsCurrentAfter(run: seq<Step>, steps: seq<Step>) {
    && (forall k :: 0 <= k < |steps| ==> IsOwn(steps[k]))
    && Run(run + steps).hub == Run(run).hub
    && var hub := Run(run).hub; Run(run + steps).held == Some(Held(hub.epoch, hub.revision, hub.projection))
  }

  lemma {:induction false} RunOnIsOwn(s: System, steps: seq<Step>)
    requires s.worlds != [] && RunOn(s, steps).Some?
    ensures forall k :: 0 <= k < |steps| ==> IsOwn(steps[k])
    decreases |steps|
  {
    if steps != [] {
      RunOnIsOwn(Next(s, steps[0]), steps[1..]);
      assert forall k :: 0 < k < |steps| ==> steps[k] == steps[1..][k - 1];
    }
  }

  lemma ReachableCatchesUp(run: seq<Step>) returns (steps: seq<Step>)
    ensures CatchesUp(Run(run), steps)
  {
    RunKeepsInv(run);
    var s := Run(run);
    if s.connection.Some? {
      steps := ConnectedCatchesUp(s);
    } else {
      StepKeepsInv(s, Connect);
      steps := ConnectedCatchesUp(Next(s, Connect));
      StepFirst(s, Connect, steps);
      steps := [Connect] + steps;
    }
  }

  /** After every run, connected or not, the client comes to hold the server's current state. */
  lemma ClientCatchesUp(run: seq<Step>)
    ensures exists steps :: IsCurrentAfter(run, steps)
  {
    var steps := ReachableCatchesUp(run);
    RunOnIsRun(run, steps);
    RunOnIsOwn(Run(run), steps);
    assert IsCurrentAfter(run, steps);
  }

  /** Whatever is published after a run, the client comes to hold it. */
  lemma PublishedStateIsHeld(run: seq<Step>, projection: Projection)
    ensures exists steps :: Run(run + [PublishState(projection)] + steps).held.Some?
                            && Run(run + [PublishState(projection)] + steps).held.value.state == projection
  {
    var longer := run + [PublishState(projection)];
    assert longer[..|longer| - 1] == run;
    RunKeepsInv(run);
    ApplyUndoesDiff(Run(run).hub.projection, projection, Run(run).hub.epoch, Run(run).hub.revision + 1);
    ClientCatchesUp(longer);
    var steps :| IsCurrentAfter(longer, steps);
  }

  /**
   A client that reconnects to the same server run within its history gets exactly the deltas it missed.
   */
  lemma ReconnectResumes(run: seq<Step>)
    requires var s := Run(run);
             && s.connection.None? && s.held.Some? && s.held.value.epoch == s.hub.epoch
             && s.hub.revision <= s.held.value.revision + DELTA_HISTORY
    ensures var s := Run(run);
            var c := Next(Next(s, Connect), ReadHistory).connection.value;
            && s.held.value.revision <= |s.hub.messages|
            && c.stream == Stream(Replaying(s.hub.messages[s.held.value.revision..]), s.held.value.revision, [])
  {
    RunKeepsInv(run);
    var s := Run(run);
    SinceIsExact(s.hub, s.worlds[s.hub.epoch], Token(s.held.value.epoch, s.held.value.revision));
  }

  // ---------- The client alone ----------

  /**
   Whatever delta it is handed: one it already has changes nothing, the next one is applied, and one it cannot apply
   makes it start over.
   */
  lemma FoldedExactly(held: Option<Held>, delta: Delta)
    ensures Folded(held, DeltaFrame(delta)).None? <==>
            held.None? || delta.epoch != held.value.epoch || delta.revision > held.value.revision + 1
    ensures Folded(held, DeltaFrame(delta)).Some? ==>
              var next := Folded(held, DeltaFrame(delta)).value;
              && next.epoch == held.value.epoch && held.value.revision <= next.revision
              && (next == held.value <==> delta.revision <= held.value.revision)
              && (next != held.value ==>
                    next.revision == held.value.revision + 1 && next.state == Applied(held.value.state, delta))
  {
  }

  /** A client that has to start over takes no further frame. */
  lemma {:induction false} GapStopsTheFold(held: Option<Held>, before: seq<Frame>, after: seq<Frame>)
    requires FoldedAll(held, before).None? && before != []
    ensures FoldedAll(held, before + after).None?
    decreases before
  {
    assert (before + after)[0] == before[0] && (before + after)[1..] == before[1..] + after;
    var next := Folded(held, before[0]);
    if next.Some? {
      assert before[1..] != [];
      GapStopsTheFold(next, before[1..], after);
    }
  }
}
