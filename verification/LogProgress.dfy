/**
 What a log stream comes to when it is left to itself: it closes the gap page by page, hands over, and sends every row
 the client is owed.
 */
module LogProgress {
  import opened Prelude
  import opened LogFilters
  import opened LogBackfill
  import opened LogStream

  /** A step of the sender or the broadcast, not of the store's writers. */
  predicate IsOwn(step: Step) {
    !step.Commit? && !step.Retain? && !step.End?
  }

  /** The system after these steps, if each is its own and enabled. */
  ghost function RunOn(s: System, steps: seq<Step>): Option<System>
    decreases |steps|
  {
    if steps == [] then Some(s)
    else if IsOwn(steps[0]) && Enabled(s, steps[0]) then RunOn(Next(s, steps[0]), steps[1..])
    else None
  }

  /** The same store and request. */
  ghost predicate IsSameRequest(s: System, t: System) {
    t == s.(announced := t.announced, received := t.received, phase := t.phase, delivered := t.delivered,
            sent := t.sent)
  }

  /** These steps lead to a live stream that has received everything there is. */
  ghost predicate Completes(s: System, steps: seq<Step>) {
    && RunOn(s, steps).Some?
    && var end := RunOn(s, steps).value;
       && Inv(end) && end.phase.Live? && end.received == end.announced == |end.log| && IsSameRequest(s, end)
  }

  lemma StepFirst(s: System, step: Step, rest: seq<Step>)
    requires IsOwn(step) && Enabled(s, step) && Completes(Next(s, step), rest)
    ensures Completes(s, [step] + rest)
  {
    assert ([step] + rest)[1..] == rest;
  }

  lemma LiveCompletes(s: System) returns (steps: seq<Step>)
    requires Inv(s) && s.phase.Live?
    ensures Completes(s, steps)
    decreases |s.log| - s.received, |s.log| - s.announced
  {
    if s.received == |s.log| {
      steps := [];
    } else {
      var step := if s.received < s.announced then Receive else Announce;
      StepKeepsInv(s, step);
      var rest := LiveCompletes(Next(s, step));
      StepFirst(s, step, rest);
      steps := [step] + rest;
    }
  }

  /** How many rows of the log lie past the cursor. */
  function Ahead(log: seq<Row>, delivered: int): nat {
    if log == [] then 0 else (if log[0].id > delivered then 1 else 0) + Ahead(log[1..], delivered)
  }

  lemma {:induction false} AheadShrinks(log: seq<Row>, delivered: int, further: int)
    requires delivered <= further
    ensures Ahead(log, further) <= Ahead(log, delivered)
    ensures (exists row :: row in log && delivered < row.id <= further) ==> Ahead(log, further) < Ahead(log, delivered)
  {
    if log != [] {
      AheadShrinks(log[1..], delivered, further);
      if row :| row in log && delivered < row.id <= further {
        assert row == log[0] || row in log[1..];
      }
    }
  }

  /** The page read from the store as it is. */
  function Fetched(s: System): System
    requires s.phase.Fetching?
  {
    var restream := if s.selection.merges then Answer(s, s.selection.restream) else s.phase.restream;
    s.(phase := Fetching(Answer(s, s.selection.pipeline), restream))
  }

  /** Reading a page from one state of the store is coherent, and leads to sending it. */
  lemma FetchCompletes(s: System, rest: seq<Step>) returns (steps: seq<Step>)
    requires Inv(s) && s.phase == Fetching(Unread, Unread)
    requires Completes(Next(Fetched(s), StartPage), rest)
    ensures Completes(s, steps)
  {
    StepFirst(Fetched(s), StartPage, rest);
    steps := [StartPage] + rest;
    if s.selection.merges {
      StepFirst(Next(s, ReadPipeline), ReadRestream, steps);
      steps := [ReadRestream] + steps;
    }
    StepFirst(s, ReadPipeline, steps);
    steps := [ReadPipeline] + steps;
  }

  lemma FetchedKeepsInv(s: System)
    requires Inv(s) && s.phase == Fetching(Unread, Unread)
    ensures Inv(Next(Fetched(s), StartPage))
  {
    StepKeepsInv(s, ReadPipeline);
    if s.selection.merges {
      StepKeepsInv(Next(s, ReadPipeline), ReadRestream);
    }
    StepKeepsInv(Fetched(s), StartPage);
  }

  /** From every state between two reads: a stream left to itself completes. */
  lemma PagingCompletes(s: System) returns (steps: seq<Step>)
    requires Inv(s) && (s.phase == Fetching(Unread, Unread) || s.phase.Sending?)
    ensures Completes(s, steps)
    decreases Ahead(s.log, s.delivered), s.phase.Fetching? || (s.phase.queue == [] && s.phase.full),
              s.phase.Sending?
  {
    if s.phase.Fetching? {
      FetchedKeepsInv(s);
      var rest := PagingCompletes(Next(Fetched(s), StartPage));
      steps := FetchCompletes(s, rest);
    } else {
      var step := if s.phase.queue == [] then EndPage else SendRow;
      var next := Next(s, step);
      StepKeepsInv(s, step);
      var rest;
      if step == SendRow {
        assert s.phase.queue[0] in s.phase.queue;
        AheadShrinks(s.log, s.delivered, next.delivered);
        rest := PagingCompletes(next);
      } else if s.phase.full {
        rest := PagingCompletes(next);
      } else {
        rest := LiveCompletes(next);
      }
      StepFirst(s, step, rest);
      steps := [step] + rest;
    }
  }

  /** Everything the client is owed was sent, each row once. */
  ghost predicate HasSentAll(s: System) {
    ExactlyOnce(s) && forall i :: 0 <= i < |s.log| && Owed(s, i) ==> s.log[i] in s.sent
  }

  /** These steps of sender and broadcast lead to a live stream that has received and sent everything. */
  ghost predicate SendsAll(start: System, run: seq<Step>, steps: seq<Step>) {
    && (forall k :: 0 <= k < |steps| ==> IsOwn(steps[k]))
    && var s, end := Run(start, run), Run(start, run + steps);
       IsSameRequest(s, end) && end.phase.Live? && end.received == end.announced == |end.log| && HasSentAll(end)
  }

  lemma RunTakes(start: System, run: seq<Step>, step: Step)
    requires Enabled(Run(start, run), step)
    ensures Run(start, run + [step]) == Next(Run(start, run), step)
  {
    assert (run + [step])[..|run|] == run;
  }

  lemma RunOnTakes(s: System, steps: seq<Step>)
    requires steps != [] && RunOn(s, steps).Some?
    ensures IsOwn(steps[0]) && Enabled(s, steps[0]) && RunOn(s, steps) == RunOn(Next(s, steps[0]), steps[1..])
  {
  }

  lemma {:induction false} RunOnIsRun(start: System, run: seq<Step>, steps: seq<Step>)
    requires RunOn(Run(start, run), steps).Some?
    ensures Some(Run(start, run + steps)) == RunOn(Run(start, run), steps)
    decreases |steps|
  {
    if steps == [] {
      assert run + steps == run;
    } else {
      RunOnTakes(Run(start, run), steps);
      RunTakes(start, run, steps[0]);
      RunOnIsRun(start, run + [steps[0]], steps[1..]);
      StepsAssociate(run, steps);
    }
  }

  lemma StepsAssociate(run: seq<Step>, steps: seq<Step>)
    requires steps != []
    ensures (run + [steps[0]]) + steps[1..] == run + steps
  {
  }

  lemma {:induction false} RunOnIsOwn(s: System, steps: seq<Step>)
    requires RunOn(s, steps).Some?
    ensures forall k :: 0 <= k < |steps| ==> IsOwn(steps[k])
    decreases |steps|
  {
    if steps != [] {
      RunOnTakes(s, steps);
      RunOnIsOwn(Next(s, steps[0]), steps[1..]);
      assert forall k :: 0 < k < |steps| ==> steps[k] == steps[1..][k - 1];
    }
  }

  /**
   After every coherent run that has not ended and is not between the reads of a page, the stream left to itself comes
   to send all the rows the client is owed.
   */
  lemma StreamCompletes(log: seq<Row>, gone: set<int>, announced: nat, f: StreamFilter, resume: Option<int>,
                        run: seq<Step>)
    requires Sorted(log) && announced <= |log|
    requires CoherentRun(Opened(log, gone, announced, SelectionOf(f), resume), run)
    requires var s := Run(Opened(log, gone, announced, SelectionOf(f), resume), run);
             s.phase == Fetching(Unread, Unread) || s.phase.Sending? || s.phase.Live?
    ensures exists steps :: SendsAll(Opened(log, gone, announced, SelectionOf(f), resume), run, steps)
  {
    var start := Opened(log, gone, announced, SelectionOf(f), resume);
    FilterSelectionIsSound(f);
    OpenedIsInv(log, gone, announced, SelectionOf(f), resume);
    RunKeepsInv(start, run);
    var s, steps := Run(start, run), [];
    if s.phase.Live? {
      steps := LiveCompletes(s);
    } else {
      steps := PagingCompletes(s);
    }
    RunOnIsRun(start, run, steps);
    RunOnIsOwn(s, steps);
    SentIsExactlyOnce(RunOn(s, steps).value);
    assert SendsAll(start, run, steps);
  }

  // ---------- What ends, and what is deleted ----------

  /** A stream that has ended sends nothing more. */
  lemma {:induction false} EndedSendsNothing(s: System, steps: seq<Step>)
    ensures Run(Next(s, End), steps).phase.Ended? && Run(Next(s, End), steps).sent == s.sent
  {
    if steps != [] {
      EndedSendsNothing(s, steps[..|steps| - 1]);
    }
  }

  /** A row that retention deleted is in no page read after it. */
  lemma DeletedRowsAreNotRead(s: System, deleted: set<int>, query: Query, row: Row)
    requires row in Answer(Next(s, Retain(deleted)), query).rows && Sorted(s.log)
    ensures row.id !in deleted
  {
    var next := Next(s, Retain(deleted));
    PageIsPage(next.log, CursorQuery(query, next.delivered, next.gone), PAGE_SIZE);
  }
}
