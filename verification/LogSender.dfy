/**
 The spawned sender of the log stream (`logs_stream_handler` in `src/api/logs.rs`), as it runs on the store's
 answers and the broadcast entries it is handed, and the runs of `LogStream` that hand it those.
 */
module LogSender {
  import opened Prelude
  import opened LogFilters
  import opened LogBackfill
  import opened LogStream

  // ---------- What the sender computes ----------

  function PagedAll(c: Cursor, page: seq<Row>): Cursor {
    if page == [] then c else Paged(PagedAll(c, page[..|page| - 1]), page[|page| - 1])
  }

  function HeardAll(c: Cursor, live: Query, rows: seq<Row>): Cursor {
    if rows == [] then c else Heard(HeardAll(c, live, rows[..|rows| - 1]), live, rows[|rows| - 1])
  }

  function PagesAll(c: Cursor, pages: seq<seq<Row>>): Cursor {
    if pages == [] then c else PagedAll(PagesAll(c, pages[..|pages| - 1]), pages[|pages| - 1])
  }

  /** How many of the store's answers are sent: up to the first short page, or before the first failed query. */
  function PagesSent(answers: seq<Option<seq<Row>>>): (n: nat)
    ensures n <= |answers| && forall i :: 0 <= i < n ==> answers[i].Some?
    ensures forall i :: 0 <= i < n - 1 ==> |answers[i].value| >= 200
    ensures n < |answers| ==> answers[n].None? || (n > 0 && |answers[n - 1].value| < 200)
  {
    if answers == [] || answers[0].None? then 0
    else if |answers[0].value| < PAGE_SIZE then 1
    else 1 + PagesSent(answers[1..])
  }

  function Values(answers: seq<Option<seq<Row>>>): seq<seq<Row>>
    requires forall i :: 0 <= i < |answers| ==> answers[i].Some?
  {
    seq(|answers|, (i: int) requires 0 <= i < |answers| => answers[i].value)
  }

  /** The pages among the store's answers that are sent. */
  function PagesIn(answers: seq<Option<seq<Row>>>): seq<seq<Row>> {
    Values(answers[..PagesSent(answers)])
  }

  /** The last page sent was short: the broadcast takes over. */
  predicate HandsOver(pages: seq<seq<Row>>) {
    pages != [] && |pages[|pages| - 1]| < PAGE_SIZE
  }

  /**
   The whole sender: the pages sent one after the other, then, once they hand over, the live entries past the cursor.
   */
  function Served(live: Query, resume: Option<int>, pages: seq<seq<Row>>, entries: seq<Row>): Cursor {
    if resume.None? then HeardAll(Cursor(0, []), live, entries)
    else
      var c := PagesAll(Cursor(resume.value, []), pages);
      if HandsOver(pages) then HeardAll(c, live, entries) else c
  }

  // ---------- What a page does to the cursor ----------

  lemma {:induction false} PagedAllSends(c: Cursor, page: seq<Row>)
    ensures PagedAll(c, page).sent == c.sent + page
    ensures var delivered := PagedAll(c, page).delivered;
            && delivered >= c.delivered && (forall row :: row in page ==> delivered >= row.id)
            && (delivered == c.delivered || exists row :: row in page && row.id == delivered)
  {
    if page != [] {
      PagedAllSends(c, page[..|page| - 1]);
      assert c.sent + page == c.sent + page[..|page| - 1] + [page[|page| - 1]];
    }
  }

  function Flat(pages: seq<seq<Row>>): seq<Row> {
    if pages == [] then [] else Flat(pages[..|pages| - 1]) + pages[|pages| - 1]
  }

  lemma {:induction false} PagesAllSends(c: Cursor, pages: seq<seq<Row>>)
    ensures PagesAll(c, pages).sent == c.sent + Flat(pages)
  {
    if pages != [] {
      var init := pages[..|pages| - 1];
      PagesAllSends(c, init);
      PagedAllSends(PagesAll(c, init), pages[|pages| - 1]);
      assert c.sent + Flat(pages) == c.sent + Flat(init) + pages[|pages| - 1];
    }
  }

  lemma {:induction false} PagedAllFront(c: Cursor, page: seq<Row>)
    requires page != []
    ensures PagedAll(c, page) == PagedAll(Paged(c, page[0]), page[1..])
  {
    if |page| > 1 {
      var init := page[..|page| - 1];
      PagedAllFront(c, init);
      assert init[1..] == page[1..][..|page| - 2];
    } else {
      assert page[..0] == [] && page[1..] == [];
    }
  }

  // ---------- The object ----------

  class Task {
    var delivered: int
    var sent: seq<Row>

    ghost function Value(): Cursor
      reads this
    {
      Cursor(delivered, sent)
    }

    constructor (resume: Option<int>)
      ensures delivered == (if resume.Some? then resume.value else 0) && sent == []
    {
      delivered := if resume.Some? then resume.value else 0;
      sent := [];
    }

    /** The whole page is sent, and the cursor is the greatest id of the page and before it. */
    method SendPage(page: seq<Row>)
      modifies this
      ensures Value() == PagedAll(old(Value()), page) && sent == old(sent) + page
      ensures delivered >= old(delivered) && forall row :: row in page ==> delivered >= row.id
      ensures delivered == old(delivered) || exists row :: row in page && row.id == delivered
    {
      for i := 0 to |page|
        invariant Value() == PagedAll(old(Value()), page[..i])
      {
        assert page[..i + 1][..i] == page[..i];
        delivered := Max(delivered, page[i].id);
        sent := sent + [page[i]];
      }
      assert page[..|page|] == page;
      PagedAllSends(old(Value()), page);
    }

    /** Every page up to the first short one is sent whole; a failed query ends the response before it. */
    method Backfill(answers: seq<Option<seq<Row>>>) returns (handedOver: bool)
      modifies this
      ensures Value() == PagesAll(old(Value()), PagesIn(answers)) && sent == old(sent) + Flat(PagesIn(answers))
      ensures handedOver <==> HandsOver(PagesIn(answers))
    {
      var k := 0;
      handedOver := false;
      while k < |answers| && answers[k].Some? && !handedOver
        invariant 0 <= k <= PagesSent(answers) && (handedOver <==> k > 0 && |answers[k - 1].value| < PAGE_SIZE)
        invariant Value() == PagesAll(old(Value()), Values(answers[..k]))
        decreases |answers| - k
      {
        SentOrStopped(answers, k);
        ValuesGrow(answers, k);
        OnePageMore(old(Value()), Values(answers[..k]), answers[k].value);
        SendPage(answers[k].value);
        handedOver := |answers[k].value| < PAGE_SIZE;
        k := k + 1;
      }
      StopsThere(answers, k);
      PagesAllSends(old(Value()), PagesIn(answers));
    }

    method Serve(live: Query, resume: Option<int>, answers: seq<Option<seq<Row>>>, entries: seq<Row>)
      requires delivered == (if resume.Some? then resume.value else 0) && sent == []
      modifies this
      ensures Value() == Served(live, resume, PagesIn(answers), entries)
      ensures resume.Some? && !HandsOver(PagesIn(answers)) ==> sent == Flat(PagesIn(answers))
    {
      if resume.Some? {
        var handedOver := Backfill(answers);
        assert [] + Flat(PagesIn(answers)) == Flat(PagesIn(answers));
        if !handedOver {
          return;
        }
      }
      ghost var start := Value();
      for i := 0 to |entries|
        invariant Value() == HeardAll(start, live, entries[..i])
      {
        assert entries[..i + 1][..i] == entries[..i];
        var entry := entries[i];
        if entry.id <= delivered {
          continue;
        }
        if !live(entry) {
          continue;
        }
        delivered := entry.id;
        sent := sent + [entry];
      }
      assert entries[..|entries|] == entries;
    }
  }

  lemma ValuesGrow(answers: seq<Option<seq<Row>>>, k: nat)
    requires k < |answers| && forall i :: 0 <= i <= k ==> answers[i].Some?
    ensures Values(answers[..k + 1]) == Values(answers[..k]) + [answers[k].value]
  {
  }

  /** While every page so far was full, the next answered one is sent. */
  lemma {:induction false} SentOrStopped(answers: seq<Option<seq<Row>>>, k: nat)
    requires k <= PagesSent(answers) && k < |answers| && answers[k].Some?
    requires k > 0 ==> |answers[k - 1].value| >= PAGE_SIZE
    ensures k < PagesSent(answers)
  {
  }

  /** A failed query, a short page or the last answer is where sending stops. */
  lemma StopsThere(answers: seq<Option<seq<Row>>>, k: nat)
    requires k <= PagesSent(answers)
    requires k == |answers| || answers[k].None? || (k > 0 && |answers[k - 1].value| < PAGE_SIZE)
    ensures k == PagesSent(answers)
  {
  }

  // ---------- What a run hands the sender ----------

  /** The pages started and the broadcast entries received. */
  datatype Feed = Feed(pages: seq<seq<Row>>, entries: seq<Row>)

  ghost function FeedNext(s: System, feed: Feed, step: Step): Feed
    requires Enabled(s, step)
  {
    match step
    case StartPage => feed.(pages := feed.pages + [PageOf(s)])
    case Receive => feed.(entries := feed.entries + [s.log[s.received]])
    case _ => feed
  }

  ghost function FeedOf(start: System, steps: seq<Step>): Feed {
    if steps == [] then Feed([], [])
    else
      var init, last := steps[..|steps| - 1], steps[|steps| - 1];
      var s, feed := Run(start, init), FeedOf(start, init);
      if Enabled(s, last) then FeedNext(s, feed, last) else feed
  }

  ghost predicate AllFull(pages: seq<seq<Row>>) {
    forall i :: 0 <= i < |pages| ==> |pages[i]| >= PAGE_SIZE
  }

  function CursorOf(s: System): Cursor {
    Cursor(s.delivered, s.sent)
  }

  /** The stream's cursor is the sender's on that feed, the rest of a page under way still to come. */
  ghost predicate IsFed(s: System, feed: Feed, resume: Option<int>) {
    var c := PagesAll(Cursor(if resume.Some? then resume.value else 0, []), feed.pages);
    && (resume.None? ==> feed.pages == [])
    && match s.phase
       case Fetching(_, _) => resume.Some? && AllFull(feed.pages) && feed.entries == [] && CursorOf(s) == c
       case Sending(queue, full) =>
         && resume.Some? && feed.pages != [] && feed.entries == [] && PagedAll(CursorOf(s), queue) == c
         && AllFull(feed.pages[..|feed.pages| - 1]) && (full <==> !HandsOver(feed.pages))
       case Live =>
         && (resume.Some? ==> HandsOver(feed.pages) && AllFull(feed.pages[..|feed.pages| - 1]))
         && CursorOf(s) == HeardAll(c, s.selection.live, feed.entries)
       case Ended => s.sent <= Served(s.selection.live, resume, feed.pages, feed.entries).sent
  }

  lemma OnePageMore(c: Cursor, pages: seq<seq<Row>>, page: seq<Row>)
    ensures PagesAll(c, pages + [page]) == PagedAll(PagesAll(c, pages), page)
  {
    assert (pages + [page])[..|pages|] == pages;
  }

  lemma OneEntryMore(c: Cursor, live: Query, rows: seq<Row>, row: Row)
    ensures HeardAll(c, live, rows + [row]) == Heard(HeardAll(c, live, rows), live, row)
  {
    assert (rows + [row])[..|rows|] == rows;
  }

  lemma StartPageKeepsFed(s: System, feed: Feed, resume: Option<int>)
    requires IsFed(s, feed, resume) && Enabled(s, StartPage)
    ensures IsFed(Next(s, StartPage), FeedNext(s, feed, StartPage), resume)
  {
    var pages, page := feed.pages, PageOf(s);
    OnePageMore(Cursor(if resume.Some? then resume.value else 0, []), pages, page);
    assert (pages + [page])[..|pages + [page]| - 1] == pages;
  }

  lemma SendRowKeepsFed(s: System, feed: Feed, resume: Option<int>)
    requires IsFed(s, feed, resume) && Enabled(s, SendRow)
    ensures IsFed(Next(s, SendRow), feed, resume)
  {
    PagedAllFront(CursorOf(s), s.phase.queue);
  }

  lemma ReceiveKeepsFed(s: System, feed: Feed, resume: Option<int>)
    requires IsFed(s, feed, resume) && Enabled(s, Receive)
    ensures IsFed(Next(s, Receive), FeedNext(s, feed, Receive), resume)
  {
    var c := PagesAll(Cursor(if resume.Some? then resume.value else 0, []), feed.pages);
    OneEntryMore(c, s.selection.live, feed.entries, s.log[s.received]);
  }

  /** Wherever it stands, what the stream has sent is the beginning of what the sender sends on that feed. */
  lemma FedIsPrefix(s: System, feed: Feed, resume: Option<int>)
    requires IsFed(s, feed, resume)
    ensures s.sent <= Served(s.selection.live, resume, feed.pages, feed.entries).sent
    ensures s.phase.Fetching? || s.phase.Live? ==>
              CursorOf(s) == Served(s.selection.live, resume, feed.pages, feed.entries)
  {
    if s.phase.Sending? {
      PagedAllSends(CursorOf(s), s.phase.queue);
    } else if s.phase.Fetching? && feed.pages != [] {
      assert |feed.pages[|feed.pages| - 1]| >= PAGE_SIZE;
    }
  }

  lemma StepKeepsFed(s: System, feed: Feed, resume: Option<int>, step: Step)
    requires IsFed(s, feed, resume) && Enabled(s, step)
    ensures IsFed(Next(s, step), FeedNext(s, feed, step), resume)
  {
    match step
    case StartPage => StartPageKeepsFed(s, feed, resume);
    case SendRow => SendRowKeepsFed(s, feed, resume);
    case Receive => ReceiveKeepsFed(s, feed, resume);
    case EndPage => EndPageKeepsFed(s, feed, resume);
    case End => FedIsPrefix(s, feed, resume);
    case _ =>
  }

  lemma EndPageKeepsFed(s: System, feed: Feed, resume: Option<int>)
    requires IsFed(s, feed, resume) && Enabled(s, EndPage)
    ensures IsFed(Next(s, EndPage), feed, resume)
  {
    var pages := feed.pages;
    if s.phase.full {
      forall i | 0 <= i < |pages| ensures |pages[i]| >= PAGE_SIZE {
        assert i < |pages| - 1 ==> pages[i] == pages[..|pages| - 1][i];
      }
    }
  }

  lemma {:induction false} RunIsFed(log: seq<Row>, gone: set<int>, announced: nat, selection: Selection,
                                    resume: Option<int>, steps: seq<Step>)
    ensures var start := Opened(log, gone, announced, selection, resume);
            IsFed(Run(start, steps), FeedOf(start, steps), resume)
    decreases |steps|
  {
    var start := Opened(log, gone, announced, selection, resume);
    if steps != [] {
      var init, last := steps[..|steps| - 1], steps[|steps| - 1];
      RunIsFed(log, gone, announced, selection, resume, init);
      if Enabled(Run(start, init), last) {
        StepKeepsFed(Run(start, init), FeedOf(start, init), resume, last);
      }
    }
  }

  /**
   In every run, what the stream has sent is what the sender sends on the pages the run started and the entries it
   received: all of it between pages and when live, the beginning of it inside a page and once ended.
   */
  lemma RunIsServed(log: seq<Row>, gone: set<int>, announced: nat, selection: Selection, resume: Option<int>,
                    steps: seq<Step>)
    ensures var start := Opened(log, gone, announced, selection, resume);
            var s, feed := Run(start, steps), FeedOf(start, steps);
            var served := Served(selection.live, resume, feed.pages, feed.entries);
            s.sent <= served.sent && (s.phase.Fetching? || s.phase.Live? ==> CursorOf(s) == served)
  {
    var start := Opened(log, gone, announced, selection, resume);
    RunIsFed(log, gone, announced, selection, resume, steps);
    RunKeepsRequest(start, steps);
    FedIsPrefix(Run(start, steps), FeedOf(start, steps), resume);
  }

  /** The store's answers that are these pages. */
  function Answers(pages: seq<seq<Row>>): seq<Option<seq<Row>>> {
    seq(|pages|, (i: int) requires 0 <= i < |pages| => Some(pages[i]))
  }

  /** Pages of which only the last may be short are all sent. */
  lemma {:induction false} AllAnswersAreSent(pages: seq<seq<Row>>)
    requires pages != [] ==> AllFull(pages[..|pages| - 1])
    ensures PagesSent(Answers(pages)) == |pages|
  {
    if |pages| > 1 {
      var rest := pages[1..];
      assert Answers(pages)[1..] == Answers(rest);
      assert |pages[0]| >= PAGE_SIZE by {
        assert pages[..|pages| - 1][0] == pages[0];
      }
      var init := rest[..|rest| - 1];
      forall i | 0 <= i < |init| ensures |init[i]| >= PAGE_SIZE {
        assert init[i] == pages[..|pages| - 1][i + 1];
      }
      AllAnswersAreSent(rest);
    }
  }

  lemma AnswersAreSent(pages: seq<seq<Row>>)
    requires pages != [] ==> AllFull(pages[..|pages| - 1])
    ensures PagesIn(Answers(pages)) == pages
  {
    AllAnswersAreSent(pages);
    assert Answers(pages)[..|pages|] == Answers(pages);
  }

  lemma LiveFeedIsAnswered(log: seq<Row>, gone: set<int>, announced: nat, selection: Selection, resume: Option<int>,
                           steps: seq<Step>)
    requires Run(Opened(log, gone, announced, selection, resume), steps).phase.Live?
    ensures var feed := FeedOf(Opened(log, gone, announced, selection, resume), steps);
            PagesIn(Answers(feed.pages)) == feed.pages
  {
    RunIsFed(log, gone, announced, selection, resume, steps);
    AnswersAreSent(FeedOf(Opened(log, gone, announced, selection, resume), steps).pages);
  }

  /**
   So the sender, handed the pages and entries of a coherent run that is live, sends every owed row exactly once.
   */
  lemma ServedIsExactlyOnce(log: seq<Row>, gone: set<int>, announced: nat, f: StreamFilter, resume: Option<int>,
                            steps: seq<Step>)
    requires Sorted(log) && announced <= |log|
    requires CoherentRun(Opened(log, gone, announced, SelectionOf(f), resume), steps)
    requires Run(Opened(log, gone, announced, SelectionOf(f), resume), steps).phase.Live?
    ensures var start := Opened(log, gone, announced, SelectionOf(f), resume);
            var s, feed := Run(start, steps), FeedOf(start, steps);
            var served := Served(SelectionOf(f).live, resume, PagesIn(Answers(feed.pages)), feed.entries);
            CursorOf(s) == served && ExactlyOnce(s.(delivered := served.delivered, sent := served.sent))
  {
    LiveFeedIsAnswered(log, gone, announced, SelectionOf(f), resume, steps);
    RunIsServed(log, gone, announced, SelectionOf(f), resume, steps);
    StreamIsExactlyOnce(log, gone, announced, f, resume, steps);
  }
}
