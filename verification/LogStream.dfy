/**
 The log stream (`logs_stream_handler` in `src/api/logs.rs`): a resumed client is paged from the
 store, then handed to the live broadcast by id cursor. Commits, broadcasts, retention and the
 stream's own steps interleave in any order.
 */
module LogStream {
  import opened Prelude
  import opened LogFilters
  import opened LogBackfill

  const PAGE_SIZE: nat := 200

  // ---------- The sender ----------

  /** How far the sender has delivered, and the rows it has sent. */
  datatype Cursor = Cursor(delivered: int, sent: seq<Row>)

  function Paged(c: Cursor, row: Row): Cursor {
    Cursor(Max(c.delivered, row.id), c.sent + [row])
  }

  function Heard(c: Cursor, live: Query, row: Row): Cursor {
    if row.id <= c.delivered || !live(row) then c else Cursor(row.id, c.sent + [row])
  }

  // ---------- The system ----------

  /** A backfill query: not answered yet, or answered when `at` rows had committed. */
  datatype Reading = Unread | Read(rows: seq<Row>, at: nat)

  datatype Phase =
    | Fetching(pipeline: Reading, restream: Reading)
    | Sending(queue: seq<Row>, full: bool)   // the rest of a page, and whether the page was full
    | Live
    | Ended

  /**
   `log` is every row ever committed, `gone` the ids retention deleted, and `announced` how many rows
   the drain has broadcast. The receiver gets `log[received]` next. `owedFrom` and `base` say
   which rows the client is owed: those from an index on, above an id.
   */
  datatype System = System(log: seq<Row>, gone: set<int>, announced: nat,
                           selection: Selection, owedFrom: nat, base: int, received: nat,
                           phase: Phase, delivered: int, sent: seq<Row>)

  /** A request arrives: the receiver subscribes, then the sender starts. */
  function Opened(log: seq<Row>, gone: set<int>, announced: nat, selection: Selection, resume: Option<int>): System {
    var base := if resume.Some? then resume.value else 0;
    System(log, gone, announced, selection, if resume.Some? then 0 else announced, base, announced,
           if resume.Some? then Fetching(Unread, Unread) else Live, base, [])
  }

  datatype Step =
    | Commit(rows: seq<Row>)
    | Announce
    | Retain(deleted: set<int>)
    | ReadPipeline
    | ReadRestream
    | StartPage
    | SendRow
    | EndPage
    | Receive
    | End              // a failed query, a gone client, a lagged or closed receiver

  ghost predicate Enabled(s: System, step: Step) {
    match step
    case Commit(rows) => Sorted(s.log + rows)
    case Announce => s.announced < |s.log|
    case Retain(_) => true
    case ReadPipeline => s.phase.Fetching? && s.phase.pipeline.Unread?
    case ReadRestream => s.phase.Fetching? && s.phase.restream.Unread? && s.selection.merges
    case StartPage => s.phase.Fetching? && s.phase.pipeline.Read? && (s.selection.merges ==> s.phase.restream.Read?)
    case SendRow => s.phase.Sending? && s.phase.queue != []
    case EndPage => s.phase.Sending? && s.phase.queue == []
    case Receive => s.phase.Live? && s.received < s.announced && s.received < |s.log|
    case End => true
  }

  function Next(s: System, step: Step): System
    requires Enabled(s, step)
  {
    match step
    case Commit(rows) => s.(log := s.log + rows)
    case Announce => s.(announced := s.announced + 1)
    case Retain(deleted) => s.(gone := s.gone + deleted)
    case ReadPipeline => s.(phase := s.phase.(pipeline := Answer(s, s.selection.pipeline)))
    case ReadRestream => s.(phase := s.phase.(restream := Answer(s, s.selection.restream)))
    case StartPage =>
      s.(phase := Sending(PageOf(s), |PageOf(s)| >= PAGE_SIZE))
    case SendRow =>
      var c := Paged(Cursor(s.delivered, s.sent), s.phase.queue[0]);
      s.(phase := s.phase.(queue := s.phase.queue[1..]), delivered := c.delivered, sent := c.sent)
    case EndPage => s.(phase := if s.phase.full then Fetching(Unread, Unread) else Live)
    case Receive =>
      var c := Heard(Cursor(s.delivered, s.sent), s.selection.live, s.log[s.received]);
      s.(received := s.received + 1, delivered := c.delivered, sent := c.sent)
    case End => s.(phase := Ended)
  }

  function Answer(s: System, query: Query): Reading {
    Read(Page(s.log, CursorQuery(query, s.delivered, s.gone), PAGE_SIZE), |s.log|)
  }

  /** The system after a run of steps; a step that is not enabled is not taken. */
  ghost function Run(start: System, steps: seq<Step>): System {
    if steps == [] then start
    else
      var before := Run(start, steps[..|steps| - 1]);
      if Enabled(before, steps[|steps| - 1]) then Next(before, steps[|steps| - 1]) else before
  }

  // ---------- What the client is owed ----------

  /** A live row past the client's cursor that retention has not deleted. */
  predicate Owed(s: System, i: nat)
    requires i < |s.log|
  {
    s.owedFrom <= i && s.log[i].id > s.base && s.log[i].id !in s.gone && s.selection.live(s.log[i])
  }

  function PageOf(s: System): seq<Row>
    requires s.phase.Fetching? && s.phase.pipeline.Read? && (s.selection.merges ==> s.phase.restream.Read?)
  {
    if s.selection.merges then First(Merged(s.phase.pipeline.rows, s.phase.restream.rows), PAGE_SIZE)
    else s.phase.pipeline.rows
  }

  /**
   The page about to be sent does not reach past an owed row that committed between its two reads
   and belongs to the query read first. Two reads of one state of the store are always coherent.
   */
  ghost predicate Coherent(s: System) {
    s.phase.Fetching? && s.phase.pipeline.Read? && s.phase.restream.Read? && s.selection.merges ==>
      forall i :: 0 <= i < |s.log| && Owed(s, i) && s.log[i].id > s.delivered
                  && (|| (s.phase.pipeline.at <= i < s.phase.restream.at && s.selection.pipeline(s.log[i]))
                      || (s.phase.restream.at <= i < s.phase.pipeline.at && s.selection.restream(s.log[i]))) ==>
                    AllBelow(PageOf(s), s.log[i].id)
  }

  /** Every merged page of the run was read coherently; a stream that merges nothing always is. */
  ghost predicate CoherentRun(start: System, steps: seq<Step>) {
    forall k :: 0 <= k < |steps| && steps[k].StartPage? ==> Coherent(Run(start, steps[..k]))
  }

  // ---------- The invariant ----------

  ghost predicate SentOk(s: System) {
    && Sorted(s.sent)
    && (if s.sent == [] then s.delivered == s.base
        else s.base < s.sent[0].id && s.delivered == s.sent[|s.sent| - 1].id)
    && (forall row :: row in s.sent ==> row in s.log && Backfills(s.selection, row))
    && forall i :: 0 <= i < |s.log| && Owed(s, i) && s.log[i].id <= s.delivered ==> s.log[i] in s.sent
  }

  /** An answered query: its page, and the rows of its snapshot the page cannot have passed. */
  ghost predicate ReadingOk(s: System, query: Query, r: Reading) {
    r.Read? ==>
      && s.received <= r.at <= |s.log|
      && Sorted(r.rows) && |r.rows| <= PAGE_SIZE
      && (forall row :: row in r.rows ==> row in s.log[..r.at] && row.id > s.delivered && query(row))
      && forall i :: 0 <= i < r.at && Owed(s, i) && s.log[i].id > s.delivered && query(s.log[i]) ==>
                       s.log[i] in r.rows || (|r.rows| == PAGE_SIZE && AllBelow(r.rows, s.log[i].id))
  }

  /** The rest of a page: an owed row not on it lies past its last row, and past the receiver if the page was short. */
  ghost predicate QueueOk(s: System, queue: seq<Row>, full: bool) {
    && Sorted(queue)
    && (forall row :: row in queue ==> row in s.log && row.id > s.delivered && Backfills(s.selection, row))
    && forall i :: 0 <= i < |s.log| && Owed(s, i) && s.log[i].id > s.delivered && s.log[i] !in queue ==>
                     AllBelow(queue, s.log[i].id) && (full || i >= s.received)
  }

  ghost predicate CaughtUp(s: System) {
    forall i :: 0 <= i < |s.log| && i < s.received && Owed(s, i) ==> s.log[i] in s.sent
  }

  ghost predicate PhaseOk(s: System) {
    match s.phase
    case Fetching(pipeline, restream) =>
      ReadingOk(s, s.selection.pipeline, pipeline) && ReadingOk(s, s.selection.restream, restream)
    case Sending(queue, full) => QueueOk(s, queue, full)
    case Live => CaughtUp(s)
    case Ended => true
  }

  ghost predicate Inv(s: System) {
    && Sound(s.selection)
    && Sorted(s.log) && s.owedFrom <= s.received <= s.announced <= |s.log|
    && SentOk(s) && PhaseOk(s)
  }

  lemma OpenedIsInv(log: seq<Row>, gone: set<int>, announced: nat, selection: Selection, resume: Option<int>)
    requires Sound(selection) && Sorted(log) && announced <= |log|
    ensures Inv(Opened(log, gone, announced, selection, resume))
  {
  }

  // ---------- Each step keeps it ----------

  lemma NewRowsAreLater(log: seq<Row>, rows: seq<Row>)
    requires Sorted(log + rows)
    ensures forall row, i :: row in log && |log| <= i < |log + rows| ==> row.id < (log + rows)[i].id
  {
    forall row, i | row in log && |log| <= i < |log + rows| ensures row.id < (log + rows)[i].id {
      var k :| 0 <= k < |log| && log[k] == row;
      assert (log + rows)[k] == row;
    }
  }

  lemma CommitKeepsSentOk(s: System, rows: seq<Row>)
    requires SentOk(s) && Enabled(s, Commit(rows))
    ensures SentOk(Next(s, Commit(rows)))
  {
    var next := Next(s, Commit(rows));
    assert s.sent != [] ==> s.sent[|s.sent| - 1] in s.log;
    forall i | 0 <= i < |next.log| && Owed(next, i) && next.log[i].id <= next.delivered
      ensures next.log[i] in next.sent {
      NewRowsAreLater(s.log, rows);
      assert Owed(s, i);
    }
  }

  lemma CommitKeepsQueueOk(s: System, rows: seq<Row>, queue: seq<Row>, full: bool)
    requires QueueOk(s, queue, full) && Enabled(s, Commit(rows)) && s.received <= |s.log|
    ensures QueueOk(Next(s, Commit(rows)), queue, full)
  {
    var next := Next(s, Commit(rows));
    forall i | 0 <= i < |next.log| && Owed(next, i) && next.log[i].id > next.delivered && next.log[i] !in queue
      ensures AllBelow(queue, next.log[i].id) && (full || i >= next.received)
    {
      NewRowsAreLater(s.log, rows);
      if i < |s.log| {
        assert next.log[i] == s.log[i] && Owed(s, i);
      }
    }
  }

  lemma CommitKeepsInv(s: System, rows: seq<Row>)
    requires Inv(s) && Enabled(s, Commit(rows))
    ensures Inv(Next(s, Commit(rows)))
  {
    var next := Next(s, Commit(rows));
    CommitKeepsSentOk(s, rows);
    assert forall i :: 0 <= i < |s.log| ==> next.log[i] == s.log[i] && Owed(next, i) == Owed(s, i);
    match s.phase
    case Fetching(pipeline, restream) =>
      ReadingSurvives(s, next, s.selection.pipeline, pipeline);
      ReadingSurvives(s, next, s.selection.restream, restream);
    case Sending(queue, full) => CommitKeepsQueueOk(s, rows, queue, full);
    case _ =>
  }

  /** An answered query stays good while rows are added and ids retired. */
  lemma ReadingSurvives(s: System, next: System, query: Query, r: Reading)
    requires ReadingOk(s, query, r)
    requires s.log <= next.log && next.received == s.received && next.delivered == s.delivered
    requires forall i :: 0 <= i < |s.log| && Owed(next, i) ==> Owed(s, i)
    ensures ReadingOk(next, query, r)
  {
    if r.Read? {
      assert next.log[..r.at] == s.log[..r.at];
    }
  }

  lemma RetainKeepsInv(s: System, deleted: set<int>)
    requires Inv(s)
    ensures Inv(Next(s, Retain(deleted)))
  {
    var next := Next(s, Retain(deleted));
    assert forall i :: 0 <= i < |s.log| && Owed(next, i) ==> Owed(s, i);
    assert SentOk(next);
    if s.phase.Fetching? {
      ReadingSurvives(s, next, s.selection.pipeline, s.phase.pipeline);
      ReadingSurvives(s, next, s.selection.restream, s.phase.restream);
    }
  }

  lemma AnswerIsOk(s: System, query: Query)
    requires Inv(s) && s.phase.Fetching?
    ensures ReadingOk(s, query, Answer(s, query))
  {
    PageIsPage(s.log, CursorQuery(query, s.delivered, s.gone), PAGE_SIZE);
    assert s.log[..|s.log|] == s.log;
  }

  lemma ReadKeepsInv(s: System, step: Step)
    requires Inv(s) && Enabled(s, step) && (step.ReadPipeline? || step.ReadRestream?)
    ensures Inv(Next(s, step))
  {
    var next := Next(s, step);
    AnswerIsOk(s, s.selection.pipeline);
    AnswerIsOk(s, s.selection.restream);
    assert forall i :: 0 <= i < |s.log| ==> Owed(next, i) == Owed(s, i);
    ReadingSurvives(s, next, s.selection.pipeline, next.phase.pipeline);
    ReadingSurvives(s, next, s.selection.restream, next.phase.restream);
  }

  lemma SendRowKeepsSentOk(s: System)
    requires Inv(s) && Enabled(s, SendRow)
    ensures SentOk(Next(s, SendRow))
  {
    var next, queue := Next(s, SendRow), s.phase.queue;
    HeadAndTail(queue);
    assert queue[0] in queue;
    forall i | 0 <= i < |next.log| && Owed(next, i) && next.log[i].id <= next.delivered
      ensures next.log[i] in next.sent {
      assert Owed(s, i);
    }
  }

  lemma SendRowKeepsQueueOk(s: System)
    requires Inv(s) && Enabled(s, SendRow)
    ensures QueueOk(Next(s, SendRow), s.phase.queue[1..], s.phase.full)
  {
    var next, queue := Next(s, SendRow), s.phase.queue;
    HeadAndTail(queue);
    forall i | 0 <= i < |next.log| && Owed(next, i) && next.log[i].id > next.delivered && next.log[i] !in queue[1..]
      ensures AllBelow(queue[1..], next.log[i].id) && (s.phase.full || i >= next.received) {
      assert Owed(s, i) && s.log[i] !in queue;
    }
  }

  lemma SendRowKeepsInv(s: System)
    requires Inv(s) && Enabled(s, SendRow)
    ensures Inv(Next(s, SendRow))
  {
    SendRowKeepsSentOk(s);
    SendRowKeepsQueueOk(s);
  }

  lemma ReceiveKeepsSentOk(s: System)
    requires Inv(s) && Enabled(s, Receive)
    ensures SentOk(Next(s, Receive))
  {
    var next := Next(s, Receive);
    assert s.log[s.received] in s.log;
    forall i | 0 <= i < |next.log| && Owed(next, i) && next.log[i].id <= next.delivered
      ensures next.log[i] in next.sent {
      assert Owed(s, i);
    }
  }

  lemma ReceiveKeepsCaughtUp(s: System)
    requires Inv(s) && Enabled(s, Receive)
    ensures CaughtUp(Next(s, Receive))
  {
    var next := Next(s, Receive);
    forall i | 0 <= i < |next.log| && i < next.received && Owed(next, i) ensures next.log[i] in next.sent {
      assert Owed(s, i);
    }
  }

  lemma ReceiveKeepsInv(s: System)
    requires Inv(s) && Enabled(s, Receive)
    ensures Inv(Next(s, Receive))
  {
    ReceiveKeepsSentOk(s);
    ReceiveKeepsCaughtUp(s);
  }

  /** A page read by one query. */
  lemma SinglePageIsQueueOk(s: System, page: seq<Row>)
    requires Inv(s) && s.phase.Fetching? && s.phase.pipeline.Read? && !s.selection.merges
    requires page == PageOf(s)
    ensures QueueOk(s, page, |page| >= PAGE_SIZE)
  {
    var at := s.phase.pipeline.at;
    forall i | 0 <= i < |s.log| && Owed(s, i) && s.log[i].id > s.delivered && s.log[i] !in page
      ensures AllBelow(page, s.log[i].id) && (|page| >= PAGE_SIZE || i >= s.received)
    {
      assert s.selection.live(s.log[i]) && Backfills(s.selection, s.log[i]);
      SnapshotIsBelow(s, at, page, i);
    }
  }

  /** Rows committed after a snapshot have larger ids than the rows in it. */
  lemma SnapshotIsBelow(s: System, at: nat, rows: seq<Row>, i: nat)
    requires Sorted(s.log) && at <= |s.log| && i < |s.log|
    requires forall row :: row in rows ==> row in s.log[..at]
    ensures at <= i ==> AllBelow(rows, s.log[i].id)
  {
    forall row | row in rows && at <= i ensures row.id < s.log[i].id {
      var k :| 0 <= k < at && s.log[k] == row;
    }
  }

  /** A coherent page merged from two queries. */
  lemma MergedPageIsQueueOk(s: System, page: seq<Row>)
    requires Inv(s) && s.phase.Fetching? && s.phase.pipeline.Read? && s.phase.restream.Read? && s.selection.merges
    requires Coherent(s)
    requires page == PageOf(s)
    ensures QueueOk(s, page, |page| >= PAGE_SIZE)
  {
    MergedPageHolds(s, page);
    forall i | 0 <= i < |s.log| && Owed(s, i) && s.log[i].id > s.delivered && s.log[i] !in page
      ensures AllBelow(page, s.log[i].id) && (|page| >= PAGE_SIZE || i >= s.received)
    {
      MergedPageCovers(s, page, i);
    }
  }

  lemma MergedPageHolds(s: System, page: seq<Row>)
    requires Inv(s) && s.phase.Fetching? && s.phase.pipeline.Read? && s.phase.restream.Read? && s.selection.merges
    requires page == PageOf(s)
    ensures Sorted(page) && Sorted(Merged(s.phase.pipeline.rows, s.phase.restream.rows))
    ensures forall row :: row in Merged(s.phase.pipeline.rows, s.phase.restream.rows) <==>
                            row in s.phase.pipeline.rows || row in s.phase.restream.rows
    ensures forall row :: row in page ==>
                            row in s.log && row.id > s.delivered && Backfills(s.selection, row)
                            && row in s.log[..Max(s.phase.pipeline.at, s.phase.restream.at)]
  {
    var pipeline, restream := s.phase.pipeline, s.phase.restream;
    PrefixRows(s.log, pipeline.at, Max(pipeline.at, restream.at));
    PrefixRows(s.log, restream.at, Max(pipeline.at, restream.at));
    LogRowsAgree(s.log, pipeline.rows, restream.rows);
    MergedHolds(pipeline.rows, restream.rows);
    FirstHolds(Merged(pipeline.rows, restream.rows), PAGE_SIZE);
  }

  lemma FirstHolds(rows: seq<Row>, limit: nat)
    requires Sorted(rows)
    ensures Sorted(First(rows, limit)) && forall row :: row in First(rows, limit) ==> row in rows
  {
  }

  lemma PrefixRows(log: seq<Row>, at: nat, most: nat)
    requires at <= most <= |log|
    ensures forall row :: row in log[..at] ==> row in log[..most] && row in log
  {
    assert log[..at] == log[..most][..at];
  }

  lemma MergedPageCovers(s: System, page: seq<Row>, i: nat)
    requires Inv(s) && s.phase.Fetching? && s.phase.pipeline.Read? && s.phase.restream.Read? && s.selection.merges
    requires Coherent(s)
    requires page == PageOf(s)
    requires i < |s.log| && Owed(s, i) && s.log[i].id > s.delivered && s.log[i] !in page
    ensures AllBelow(page, s.log[i].id) && (|page| >= PAGE_SIZE || i >= s.received)
  {
    var pipeline, restream := s.phase.pipeline, s.phase.restream;
    var merged := Merged(pipeline.rows, restream.rows);
    MergedPageHolds(s, page);
    SnapshotIsBelow(s, Max(pipeline.at, restream.at), page, i);
    assert s.selection.live(s.log[i]) && Backfills(s.selection, s.log[i]);
    if s.selection.pipeline(s.log[i]) {
      OwnQueryCovers(s, s.selection.pipeline, pipeline, merged, i);
    } else {
      OwnQueryCovers(s, s.selection.restream, restream, merged, i);
    }
  }

  /** An owed row its own query had in view is on the merged page, or past a full one. */
  lemma OwnQueryCovers(s: System, query: Query, r: Reading, merged: seq<Row>, i: nat)
    requires ReadingOk(s, query, r) && r.Read? && Sorted(merged)
    requires forall row :: row in r.rows ==> row in merged
    requires i < |s.log| && Owed(s, i) && s.log[i].id > s.delivered && query(s.log[i])
    ensures i < r.at ==> s.log[i] in First(merged, PAGE_SIZE)
                         || (|merged| >= PAGE_SIZE && AllBelow(First(merged, PAGE_SIZE), s.log[i].id))
  {
    if i < r.at {
      if s.log[i] in r.rows {
        var j :| 0 <= j < |merged| && merged[j] == s.log[i];
        if j < PAGE_SIZE {
          assert First(merged, PAGE_SIZE)[j] == s.log[i];
        }
      } else {
        FullPageEndsFirst(r.rows, merged, PAGE_SIZE, s.log[i].id);
      }
    }
  }

  lemma LogRowsAgree(log: seq<Row>, a: seq<Row>, b: seq<Row>)
    requires Sorted(log)
    requires (forall row :: row in a ==> row in log) && (forall row :: row in b ==> row in log)
    ensures Agree(a, b)
  {
  }

  lemma StartPageKeepsInv(s: System)
    requires Inv(s) && Enabled(s, StartPage) && Coherent(s)
    ensures Inv(Next(s, StartPage))
  {
    var next := Next(s, StartPage);
    var page := next.phase.queue;
    if s.selection.merges {
      MergedPageIsQueueOk(s, page);
    } else {
      SinglePageIsQueueOk(s, page);
    }
    assert forall i :: 0 <= i < |s.log| ==> Owed(next, i) == Owed(s, i);
    assert QueueOk(next, page, |page| >= PAGE_SIZE);
  }

  lemma EndPageKeepsInv(s: System)
    requires Inv(s) && Enabled(s, EndPage)
    ensures Inv(Next(s, EndPage))
  {
    var next := Next(s, EndPage);
    assert forall i :: 0 <= i < |s.log| ==> Owed(next, i) == Owed(s, i);
  }

  lemma AnnounceOrEndKeepsInv(s: System, step: Step)
    requires Inv(s) && Enabled(s, step) && (step.Announce? || step.End?)
    ensures Inv(Next(s, step))
  {
    var next := Next(s, step);
    assert forall i :: 0 <= i < |s.log| ==> Owed(next, i) == Owed(s, i);
    if next.phase.Fetching? {
      ReadingSurvives(s, next, s.selection.pipeline, s.phase.pipeline);
      ReadingSurvives(s, next, s.selection.restream, s.phase.restream);
    } else if next.phase.Sending? {
      assert QueueOk(next, s.phase.queue, s.phase.full);
    }
  }

  lemma StepKeepsInv(s: System, step: Step)
    requires Inv(s) && Enabled(s, step) && (step.StartPage? ==> Coherent(s))
    ensures Inv(Next(s, step))
  {
    match step
    case Commit(rows) => CommitKeepsInv(s, rows);
    case Retain(deleted) => RetainKeepsInv(s, deleted);
    case ReadPipeline => ReadKeepsInv(s, step);
    case ReadRestream => ReadKeepsInv(s, step);
    case StartPage => StartPageKeepsInv(s);
    case SendRow => SendRowKeepsInv(s);
    case EndPage => EndPageKeepsInv(s);
    case Receive => ReceiveKeepsInv(s);
    case _ => AnnounceOrEndKeepsInv(s, step);
  }

  lemma {:induction false} RunKeepsInv(start: System, steps: seq<Step>)
    requires Inv(start) && CoherentRun(start, steps)
    ensures Inv(Run(start, steps))
    decreases |steps|
  {
    if steps != [] {
      var init := steps[..|steps| - 1];
      assert CoherentRun(start, init) by {
        assert forall k :: 0 <= k <= |init| ==> init[..k] == steps[..k];
      }
      RunKeepsInv(start, init);
      if Enabled(Run(start, init), steps[|steps| - 1]) {
        StepKeepsInv(Run(start, init), steps[|steps| - 1]);
      }
    }
  }

  // ---------- When a merged page is safe ----------

  /** The stream once the page it is sending is sent. */
  ghost function Drained(s: System): System
    requires s.phase.Sending?
    decreases |s.phase.queue|
  {
    if s.phase.queue == [] then s else Drained(Next(s, SendRow))
  }

  lemma {:induction false} DrainedKeepsInv(s: System)
    requires Inv(s) && s.phase.Sending?
    ensures Inv(Drained(s))
    decreases |s.phase.queue|
  {
    if s.phase.queue != [] {
      SendRowKeepsInv(s);
      DrainedKeepsInv(Next(s, SendRow));
    }
  }

  lemma {:induction false} DrainedSendsPage(s: System)
    requires s.phase.Sending?
    ensures var d := Drained(s);
            && d == s.(phase := d.phase, delivered := d.delivered, sent := s.sent + s.phase.queue)
            && s.delivered <= d.delivered
            && forall row :: row in s.phase.queue ==> row.id <= d.delivered
    decreases |s.phase.queue|
  {
    var queue := s.phase.queue;
    if queue != [] {
      DrainedSendsPage(Next(s, SendRow));
      assert queue == [queue[0]] + queue[1..];
    }
  }

  /** Sending a page keeps the promise just when the page is coherent. */
  lemma PageIsSafeIffCoherent(s: System)
    requires Inv(s) && Enabled(s, StartPage)
    ensures ExactlyOnce(Drained(Next(s, StartPage))) <==> Coherent(s)
  {
    var d := Drained(Next(s, StartPage));
    if Coherent(s) {
      StartPageKeepsInv(s);
      DrainedKeepsInv(Next(s, StartPage));
      SentIsExactlyOnce(d);
    } else {
      DrainedSendsPage(Next(s, StartPage));
      var i :| 0 <= i < |s.log| && Owed(s, i) && s.log[i].id > s.delivered
               && (|| (s.phase.pipeline.at <= i < s.phase.restream.at && s.selection.pipeline(s.log[i]))
                   || (s.phase.restream.at <= i < s.phase.pipeline.at && s.selection.restream(s.log[i])))
               && !AllBelow(PageOf(s), s.log[i].id);
      LateRowIsNotOnPage(s, i);
      SentIsExactlyOnce(s);
      assert Owed(d, i);
      SkippedRowIsNotSent(d, i);
    }
  }

  /** A row its query read too early to see is not on the page: the other query never selects it. */
  lemma LateRowIsNotOnPage(s: System, i: nat)
    requires Inv(s) && Enabled(s, StartPage) && s.selection.merges && i < |s.log|
    requires || (s.phase.pipeline.at <= i && s.selection.pipeline(s.log[i]))
             || (s.phase.restream.at <= i && s.selection.restream(s.log[i]))
    ensures s.log[i] !in PageOf(s)
  {
    MergedPageHolds(s, PageOf(s));
    var merged := Merged(s.phase.pipeline.rows, s.phase.restream.rows);
    FirstHolds(merged, PAGE_SIZE);
    SnapshotIsBelow(s, s.phase.pipeline.at, s.phase.pipeline.rows, i);
    SnapshotIsBelow(s, s.phase.restream.at, s.phase.restream.rows, i);
  }

  // ---------- The promises ----------

  /** What a client was sent: ascending, past its cursor, selected, and every owed row up to the cursor's new place. */
  ghost predicate ExactlyOnce(s: System) {
    && Sorted(s.sent)
    && (forall row :: row in s.sent ==> s.base < row.id <= s.delivered && row in s.log && Backfills(s.selection, row))
    && forall i :: 0 <= i < |s.log| && Owed(s, i) && s.log[i].id <= s.delivered ==> s.log[i] in s.sent
  }

  /** In every run of a stream whose merged pages are coherent, no row is skipped or sent twice. */
  lemma StreamIsExactlyOnce(log: seq<Row>, gone: set<int>, announced: nat, f: StreamFilter, resume: Option<int>,
                            steps: seq<Step>)
    requires Sorted(log) && announced <= |log|
    requires CoherentRun(Opened(log, gone, announced, SelectionOf(f), resume), steps)
    ensures ExactlyOnce(Run(Opened(log, gone, announced, SelectionOf(f), resume), steps))
  {
    FilterSelectionIsSound(f);
    OpenedIsInv(log, gone, announced, SelectionOf(f), resume);
    RunKeepsInv(Opened(log, gone, announced, SelectionOf(f), resume), steps);
    SentIsExactlyOnce(Run(Opened(log, gone, announced, SelectionOf(f), resume), steps));
  }

  lemma SentIsExactlyOnce(s: System)
    requires SentOk(s)
    ensures ExactlyOnce(s)
  {
    forall row | row in s.sent ensures s.base < row.id <= s.delivered {
      var k :| 0 <= k < |s.sent| && s.sent[k] == row;
    }
  }

  /** A stream that merges nothing is coherent in every run, so its promise has no condition. */
  lemma {:induction false} UnmergedRunIsCoherent(start: System, steps: seq<Step>)
    requires !start.selection.merges
    requires start.phase.Fetching? ==> start.phase.restream.Unread?
    ensures CoherentRun(start, steps)
  {
    forall k | 0 <= k < |steps| && steps[k].StartPage? ensures Coherent(Run(start, steps[..k])) {
      UnmergedNeverReadsRestream(start, steps[..k]);
    }
  }

  lemma {:induction false} UnmergedNeverReadsRestream(start: System, steps: seq<Step>)
    requires !start.selection.merges
    requires start.phase.Fetching? ==> start.phase.restream.Unread?
    ensures var s := Run(start, steps);
            s.selection == start.selection && (s.phase.Fetching? ==> s.phase.restream.Unread?)
    decreases |steps|
  {
    if steps != [] {
      UnmergedNeverReadsRestream(start, steps[..|steps| - 1]);
    }
  }

  /** A row the two matchers agree on was sent exactly if it is live and between the resume id and the cursor. */
  lemma AgreedRowIsSentIff(log: seq<Row>, gone: set<int>, announced: nat, f: StreamFilter, resume: int,
                           steps: seq<Step>, row: Row)
    requires Sorted(log) && announced <= |log|
    requires CoherentRun(Opened(log, gone, announced, SelectionOf(f), Some(resume)), steps)
    requires BackfillMatches(f, row) ==> LiveMatches(f, row)
    requires var s := Run(Opened(log, gone, announced, SelectionOf(f), Some(resume)), steps);
             row in s.log && row.id !in s.gone
    ensures var s := Run(Opened(log, gone, announced, SelectionOf(f), Some(resume)), steps);
            row in s.sent <==> LiveMatches(f, row) && resume < row.id <= s.delivered
  {
    var start := Opened(log, gone, announced, SelectionOf(f), Some(resume));
    var s := Run(start, steps);
    StreamIsExactlyOnce(log, gone, announced, f, Some(resume), steps);
    RunKeepsRequest(start, steps);
    FilterSelectionIsSound(f);
    var i :| 0 <= i < |s.log| && s.log[i] == row;
    assert Owed(s, i) <==> LiveMatches(f, row) && resume < row.id;
  }

  /** What was sent up to the cursor is the live rows and no others. */
  ghost predicate IsTheSelection(f: StreamFilter, resume: int, s: System) {
    forall row :: row in s.log && row.id !in s.gone ==>
                    (row in s.sent <==> LiveMatches(f, row) && resume < row.id <= s.delivered)
  }

  /** For a filter whose matchers agree, a coherent run has sent exactly the live rows. */
  lemma AgreeingStreamIsTheSelection(log: seq<Row>, gone: set<int>, announced: nat, f: StreamFilter, resume: int,
                                     steps: seq<Step>)
    requires Sorted(log) && announced <= |log| && MatchersAgree(f)
    requires CoherentRun(Opened(log, gone, announced, SelectionOf(f), Some(resume)), steps)
    ensures IsTheSelection(f, resume, Run(Opened(log, gone, announced, SelectionOf(f), Some(resume)), steps))
  {
    var s := Run(Opened(log, gone, announced, SelectionOf(f), Some(resume)), steps);
    forall row | row in s.log && row.id !in s.gone
      ensures row in s.sent <==> LiveMatches(f, row) && resume < row.id <= s.delivered
    {
      if BackfillMatches(f, row) {
        AgreeingRowsAreLive(f, row);
      }
      AgreedRowIsSentIff(log, gone, announced, f, resume, steps, row);
    }
  }

  const ONE_PAGE: seq<Step> := [ReadPipeline] + [ReadRestream] + [StartPage] + [SendRow]

  lemma OneRowPage(query: Query, row: Row)
    requires row.id > 0
    ensures Page([row], CursorQuery(query, 0, {}), PAGE_SIZE) == if query(row) then [row] else []
  {
    assert [row][1..] == [];
  }

  /** A store of one row, after both queries of the first page. */
  function OneRowRead(selection: Selection, row: Row): System {
    var first := Read(if selection.pipeline(row) then [row] else [], 1);
    var second := if selection.merges then Read(if selection.restream(row) then [row] else [], 1) else Unread;
    Opened([row], {}, 1, selection, Some(0)).(phase := Fetching(first, second))
  }

  lemma OneRowReads(selection: Selection, row: Row)
    requires row.id > 0
    ensures Run(Opened([row], {}, 1, selection, Some(0)), [ReadPipeline] + [ReadRestream]) == OneRowRead(selection, row)
  {
    var s0 := Opened([row], {}, 1, selection, Some(0));
    OneRowPage(selection.pipeline, row);
    OneRowPage(selection.restream, row);
    RunExtends(s0, [], s0, ReadPipeline, [ReadPipeline]);
    OneMore(s0, [ReadPipeline], ReadRestream);
  }

  lemma OneRowPageIsIt(selection: Selection, row: Row)
    requires Sound(selection) && Backfills(selection, row)
    ensures PageOf(OneRowRead(selection, row)) == [row]
  {
    var s := OneRowRead(selection, row);
    if s.selection.merges {
      var merged := Merged(s.phase.pipeline.rows, s.phase.restream.rows);
      assert merged == [row];
    }
  }

  /** A store of one selected row: the page of it is sent. */
  lemma OneRowIsSent(selection: Selection, row: Row)
    requires Sound(selection) && Backfills(selection, row) && row.id > 0
    ensures var s := Run(Opened([row], {}, 1, selection, Some(0)), ONE_PAGE);
            s.log == [row] && s.gone == {} && s.sent == [row]
  {
    var s0, s2 := Opened([row], {}, 1, selection, Some(0)), OneRowRead(selection, row);
    OneRowReads(selection, row);
    OneRowPageIsIt(selection, row);
    RunExtends(s0, [ReadPipeline] + [ReadRestream], s2, StartPage, [ReadPipeline] + [ReadRestream] + [StartPage]);
    RunExtends(s0, [ReadPipeline] + [ReadRestream] + [StartPage], s2.(phase := Sending([row], false)), SendRow,
               ONE_PAGE);
    assert [] + [row] == [row];
  }

  lemma OneMore(start: System, steps: seq<Step>, step: Step)
    ensures var before := Run(start, steps);
            Run(start, steps + [step]) == if Enabled(before, step) then Next(before, step) else before
  {
    assert (steps + [step])[..|steps|] == steps;
  }

  /** A request with this filter on some store, and a run of it: if its pages are coherent, it sent the live rows. */
  ghost predicate SelectsInRun(f: StreamFilter, log: seq<Row>, gone: set<int>, announced: nat, resume: int,
                               steps: seq<Step>) {
    var start := Opened(log, gone, announced, SelectionOf(f), Some(resume));
    Sorted(log) && announced <= |log| && CoherentRun(start, steps) ==> IsTheSelection(f, resume, Run(start, steps))
  }

  /** Every coherent run of a stream sends exactly the live rows if and only if the filter's matchers agree. */
  lemma StreamIsTheSelectionIff(f: StreamFilter)
    ensures (forall log, gone, announced, resume, steps :: SelectsInRun(f, log, gone, announced, resume, steps))
       <==> MatchersAgree(f)
  {
    if MatchersAgree(f) {
      forall log, gone, announced: nat, resume, steps ensures SelectsInRun(f, log, gone, announced, resume, steps) {
        var start := Opened(log, gone, announced, SelectionOf(f), Some(resume));
        if Sorted(log) && announced <= |log| && CoherentRun(start, steps) {
          AgreeingStreamIsTheSelection(log, gone, announced, f, resume, steps);
        }
      }
    } else {
      var row := SplitRow(f);
      FilterSelectionIsSound(f);
      OneRowIsSent(SelectionOf(f), row);
      var start := Opened([row], {}, 1, SelectionOf(f), Some(0));
      OnePageIsCoherent(start);
      assert row in Run(start, ONE_PAGE).log && row.id !in Run(start, ONE_PAGE).gone;
      assert !SelectsInRun(f, [row], {}, 1, 0, ONE_PAGE);
    }
  }

  lemma OnePageIsCoherent(start: System)
    requires start.phase == Fetching(Unread, Unread)
    ensures CoherentRun(start, ONE_PAGE)
  {
    QuietReadsAreCoherent(start, ONE_PAGE);
  }

  // ---------- Two reads of one state of the store ----------

  /** The page's readings so far were answered from one state of the store, which has not grown between them. */
  ghost predicate ReadsAreQuiet(s: System) {
    s.phase.Fetching? && s.selection.merges ==>
      match (s.phase.pipeline, s.phase.restream)
      case (Read(_, a), Read(_, b)) => a == b
      case (Read(_, a), Unread) => a == |s.log|
      case (Unread, Read(_, b)) => b == |s.log|
      case _ => true
  }

  /** One of a merged page's two queries is answered and the other is not. */
  predicate IsBetweenReads(s: System) {
    s.phase.Fetching? && s.selection.merges && s.phase.pipeline.Read? != s.phase.restream.Read?
  }

  lemma StepKeepsReadsQuiet(s: System, step: Step)
    requires ReadsAreQuiet(s) && Enabled(s, step) && (step.Commit? ==> !IsBetweenReads(s))
    ensures ReadsAreQuiet(Next(s, step))
  {
  }

  lemma {:induction false} RunKeepsReadsQuiet(start: System, steps: seq<Step>)
    requires ReadsAreQuiet(start)
    requires forall k :: 0 <= k < |steps| && steps[k].Commit? ==> !IsBetweenReads(Run(start, steps[..k]))
    ensures ReadsAreQuiet(Run(start, steps))
    decreases |steps|
  {
    if steps != [] {
      var init, last := steps[..|steps| - 1], steps[|steps| - 1];
      forall k | 0 <= k < |init| && init[k].Commit? ensures !IsBetweenReads(Run(start, init[..k])) {
        assert init[..k] == steps[..k];
      }
      RunKeepsReadsQuiet(start, init);
      assert steps[..|init|] == init;
      if Enabled(Run(start, init), last) {
        StepKeepsReadsQuiet(Run(start, init), last);
      }
    }
  }

  /** A run in which no row commits between a page's two reads meets the condition. */
  lemma QuietReadsAreCoherent(start: System, steps: seq<Step>)
    requires ReadsAreQuiet(start)
    requires forall k :: 0 <= k < |steps| && steps[k].Commit? ==> !IsBetweenReads(Run(start, steps[..k]))
    ensures CoherentRun(start, steps)
  {
    forall k | 0 <= k < |steps| && steps[k].StartPage? ensures Coherent(Run(start, steps[..k])) {
      forall i | 0 <= i < |steps[..k]| && steps[..k][i].Commit? ensures !IsBetweenReads(Run(start, steps[..k][..i])) {
        assert steps[..k][..i] == steps[..i];
      }
      RunKeepsReadsQuiet(start, steps[..k]);
    }
  }

  lemma {:induction false} RunKeepsRequest(start: System, steps: seq<Step>)
    ensures var s := Run(start, steps);
            s.selection == start.selection && s.base == start.base && s.owedFrom == start.owedFrom
    decreases |steps|
  {
    if steps != [] {
      RunKeepsRequest(start, steps[..|steps| - 1]);
    }
  }

  /** A live stream that has received everything broadcast so far has sent every owed row of it. */
  lemma DrainedStreamIsComplete(log: seq<Row>, gone: set<int>, announced: nat, f: StreamFilter, resume: Option<int>,
                                steps: seq<Step>)
    requires Sorted(log) && announced <= |log|
    requires CoherentRun(Opened(log, gone, announced, SelectionOf(f), resume), steps)
    ensures var s := Run(Opened(log, gone, announced, SelectionOf(f), resume), steps);
            s.phase.Live? ==>
              s.received <= |s.log| && forall i :: 0 <= i < s.received && Owed(s, i) ==> s.log[i] in s.sent
  {
    FilterSelectionIsSound(f);
    OpenedIsInv(log, gone, announced, SelectionOf(f), resume);
    RunKeepsInv(Opened(log, gone, announced, SelectionOf(f), resume), steps);
  }

  lemma RunExtends(start: System, steps: seq<Step>, before: System, step: Step, longer: seq<Step>)
    requires Run(start, steps) == before && Enabled(before, step) && longer == steps + [step]
    ensures Run(start, longer) == Next(before, step)
  {
    assert longer[..|steps|] == steps;
  }

  /**
   Without coherence the promise fails, for every merging stream: when a row of the pipeline and then a
   global row commit between the two reads of a page, the page holds only the second row, and the
   cursor passes the first.
   */
  lemma IncoherentPageSkipsARow(selection: Selection, one: Row, two: Row)
    requires selection.merges && 0 < one.id < two.id
    requires selection.live(one) && !selection.restream(one) && selection.restream(two)
    ensures var steps := [ReadPipeline, Commit([one, two]), ReadRestream, StartPage, SendRow];
            var s := Run(Opened([], {}, 0, selection, Some(0)), steps);
            s.log == [one, two] && s.sent == [two] && s.delivered == two.id && Owed(s, 0) && !ExactlyOnce(s)
  {
    IncoherentReads(selection, one, two);
    var s0 := Opened([], {}, 0, selection, Some(0));
    var t3 := [ReadPipeline, Commit([one, two]), ReadRestream];
    var s3 := Run(s0, t3);
    RunExtends(s0, t3, s3, StartPage, t3 + [StartPage]);
    var s4 := s3.(phase := Sending([two], false));
    RunExtends(s0, t3 + [StartPage], s4, SendRow,
               [ReadPipeline, Commit([one, two]), ReadRestream, StartPage, SendRow]);
    SkippedRowIsNotSent(Next(s4, SendRow), 0);
  }

  lemma SkippedRowIsNotSent(s: System, i: nat)
    requires i < |s.log| && Owed(s, i) && s.log[i].id <= s.delivered && s.log[i] !in s.sent
    ensures !ExactlyOnce(s)
  {
  }

  lemma IncoherentCommit(selection: Selection, one: Row, two: Row)
    requires selection.merges && 0 < one.id < two.id
    ensures var start := Opened([], {}, 0, selection, Some(0));
            var read := start.(log := [one, two], phase := Fetching(Read([], 0), Unread));
            Run(start, [ReadPipeline, Commit([one, two])]) == read
  {
    var start := Opened([], {}, 0, selection, Some(0));
    RunExtends(start, [], start, ReadPipeline, [ReadPipeline]);
    assert [] + [one, two] == [one, two];
    RunExtends(start, [ReadPipeline], start.(phase := Fetching(Read([], 0), Unread)), Commit([one, two]),
               [ReadPipeline, Commit([one, two])]);
  }

  lemma IncoherentReads(selection: Selection, one: Row, two: Row)
    requires selection.merges && 0 < one.id < two.id
    requires !selection.restream(one) && selection.restream(two)
    ensures var start := Opened([], {}, 0, selection, Some(0));
            Run(start, [ReadPipeline, Commit([one, two]), ReadRestream])
            == start.(log := [one, two], phase := Fetching(Read([], 0), Read([two], 2)))
  {
    var start := Opened([], {}, 0, selection, Some(0));
    IncoherentCommit(selection, one, two);
    OnlySecondIsRead(selection.restream, one, two);
    RunExtends(start, [ReadPipeline, Commit([one, two])],
               start.(log := [one, two], phase := Fetching(Read([], 0), Unread)), ReadRestream,
               [ReadPipeline, Commit([one, two]), ReadRestream]);
  }

  lemma OnlySecondIsRead(query: Query, one: Row, two: Row)
    requires !query(one) && query(two) && two.id > 0
    ensures Page([one, two], CursorQuery(query, 0, {}), PAGE_SIZE) == [two]
  {
    assert [one, two][1..] == [two];
    assert Page([two], CursorQuery(query, 0, {}), PAGE_SIZE) == [two];
  }

  /** Such a stream: one pipeline's logs with the global ones. */
  lemma SomeStreamSkipsARow()
    ensures var f := StreamFilter("info", None, None, Some("p"), None, None, true, None);
            var one := Row(1, "INFO", "t", "m", Some("p"), None, None);
            var two := Row(2, "INFO", "t", "m", None, None, None);
            var steps := [ReadPipeline, Commit([one, two]), ReadRestream, StartPage, SendRow];
            !ExactlyOnce(Run(Opened([], {}, 0, SelectionOf(f), Some(0)), steps))
  {
    IncoherentPageSkipsARow(SelectionOf(StreamFilter("info", None, None, Some("p"), None, None, true, None)),
                            Row(1, "INFO", "t", "m", Some("p"), None, None),
                            Row(2, "INFO", "t", "m", None, None, None));
  }
}
