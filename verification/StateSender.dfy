/**
 The spawned sender of the state stream (`v1_state_stream_handler` in `src/api/runtime_state.rs`), as it runs on
 what the hub answers and what its receive loop is handed, and the runs of `StateStream` that hand it those.
 */
module StateSender {
  import opened Prelude
  import opened StateHub
  import opened StateStream

  // ---------- What the sender computes ----------

  /** What the receive loop is handed; `Lagged` carries the hub as it is when the snapshot is read. */
  datatype Arrival = Received(delta: Delta) | Lagged(hub: Hub) | Heartbeat

  function OnArrival(stream: Stream, arrival: Arrival): Stream {
    match arrival
    case Received(delta) => OnDelta(stream, delta)
    case Lagged(hub) => SendSnapshot(stream, hub)
    case Heartbeat => stream
  }

  function Served(stream: Stream, arrivals: seq<Arrival>): Stream {
    if arrivals == [] then stream
    else OnArrival(Served(stream, arrivals[..|arrivals| - 1]), arrivals[|arrivals| - 1])
  }

  function DeltaFrames(deltas: seq<Delta>): seq<Frame> {
    seq(|deltas|, (i: int) requires 0 <= i < |deltas| => DeltaFrame(deltas[i]))
  }

  /** The revision of the last delta, or the one before them. */
  function Through(revision: nat, deltas: seq<Delta>): nat {
    if deltas == [] then revision else deltas[|deltas| - 1].revision
  }

  /** The sender up to its receive loop; `history` is the hub as the gap is read, `now` as a snapshot is. */
  function Opening(history: Hub, now: Hub, token: Option<Token>): Stream {
    var begun := Begin(Stream(Starting, 0, []), history, token);
    if begun.phase.Replaying?
    then Stream(Live, Through(begun.sentThrough, begun.phase.deltas), DeltaFrames(begun.phase.deltas))
    else SendSnapshot(begun, now)
  }

  // ---------- The object ----------

  class Task {
    var sentThrough: nat
    var frames: seq<Frame>

    ghost function Value(): Stream
      reads this
    {
      Stream(Live, sentThrough, frames)
    }

    constructor ()
      ensures sentThrough == 0 && frames == []
    {
      sentThrough, frames := 0, [];
    }

    /** The deltas after the token, each a frame, when the hub still has them all; otherwise the current snapshot. */
    method Open(history: Hub, now: Hub, token: Option<Token>)
      requires frames == [] && sentThrough == 0
      modifies this
      ensures Value() == Opening(history, now, token)
      ensures token.Some? && SinceToken(history, token.value).Deltas? ==>
                frames == DeltaFrames(SinceToken(history, token.value).deltas)
      ensures token.None? || SinceToken(history, token.value).Resync? ==>
                frames == [SnapshotFrame(now.epoch, now.revision, now.projection)] && sentThrough == now.revision
    {
      if token.Some? {
        var since := SinceToken(history, token.value);
        if since.Deltas? {
          var through := TokenRevision(token.value);
          for i := 0 to |since.deltas|
            invariant through == Through(TokenRevision(token.value), since.deltas[..i])
            invariant frames == DeltaFrames(since.deltas[..i])
          {
            through := since.deltas[i].revision;
            frames := frames + [DeltaFrame(since.deltas[i])];
            assert since.deltas[..i + 1] == since.deltas[..i] + [since.deltas[i]];
          }
          assert since.deltas[..|since.deltas|] == since.deltas;
          sentThrough := through;
          return;
        }
      }
      frames := [SnapshotFrame(now.epoch, now.revision, now.projection)];
      sentThrough := now.revision;
    }

    method Serve(history: Hub, now: Hub, token: Option<Token>, arrivals: seq<Arrival>)
      requires frames == [] && sentThrough == 0
      modifies this
      ensures Value() == Served(Opening(history, now, token), arrivals)
    {
      Open(history, now, token);
      var i := 0;
      while i < |arrivals|
        invariant 0 <= i <= |arrivals|
        invariant Value() == Served(Opening(history, now, token), arrivals[..i])
      {
        assert arrivals[..i + 1][..i] == arrivals[..i];
        match arrivals[i] {
          case Received(delta) =>
            if delta.revision > sentThrough {
              sentThrough := delta.revision;
              frames := frames + [DeltaFrame(delta)];
            }
          case Lagged(hub) =>
            frames := frames + [SnapshotFrame(hub.epoch, hub.revision, hub.projection)];
            sentThrough := hub.revision;
          case Heartbeat =>
        }
        i := i + 1;
      }
      assert arrivals[..i] == arrivals;
    }
  }

  // ---------- What a run hands the sender ----------

  /**
   Of the connection under way: the hub its gap and its first snapshot were read from, and what its loop was handed.
   */
  datatype Feed = Feed(history: Option<Hub>, now: Option<Hub>, arrivals: seq<Arrival>)

  const NO_FEED := Feed(None, None, [])

  function FeedNext(s: System, feed: Feed, step: Step): Feed
    requires Enabled(s, step)
  {
    match step
    case Connect => NO_FEED
    case ReadHistory => feed.(history := Some(s.hub))
    case SendCurrent =>
      if feed.now.None? then feed.(now := Some(s.hub)) else feed.(arrivals := feed.arrivals + [Lagged(s.hub)])
    case SendReplayed => if s.connection.value.stream.phase.deltas == [] then feed.(now := Some(s.hub)) else feed
    case Receive => feed.(arrivals := feed.arrivals + [Received(s.hub.messages[s.connection.value.next])])
    case _ => feed
  }

  function FeedOf(steps: seq<Step>): Feed {
    if steps == [] then NO_FEED
    else
      var init, last := steps[..|steps| - 1], steps[|steps| - 1];
      if Enabled(Run(init), last) then FeedNext(Run(init), FeedOf(init), last) else FeedOf(init)
  }

  /** What the sender sends on a feed once its opening is over. */
  function FedStream(feed: Feed, token: Option<Token>): Stream
    requires feed.history.Some? && feed.now.Some?
  {
    Served(Opening(feed.history.value, feed.now.value, token), feed.arrivals)
  }

  /** The stream is the sender's on that feed, the replay under way still to come. */
  ghost predicate IsFed(c: Connection, feed: Feed) {
    match c.stream.phase
    case Starting => feed == NO_FEED && c.stream == Stream(Starting, 0, [])
    case Replaying(deltas) =>
      && feed.history.Some? && feed.now.None? && feed.arrivals == []
      && var begun := Begin(Stream(Starting, 0, []), feed.history.value, c.token);
         && begun.phase.Replaying?
         && c.stream.frames + DeltaFrames(deltas) == DeltaFrames(begun.phase.deltas)
         && Through(c.stream.sentThrough, deltas) == Through(begun.sentThrough, begun.phase.deltas)
    case Behind =>
      && feed.history.Some?
      && (if feed.now.None?
          then feed.arrivals == [] && c.stream == Begin(Stream(Starting, 0, []), feed.history.value, c.token)
          else c.stream.(phase := Live) == FedStream(feed, c.token))
    case Live => feed.history.Some? && feed.now.Some? && c.stream == FedStream(feed, c.token)
  }

  lemma OneArrivalMore(stream: Stream, arrivals: seq<Arrival>, arrival: Arrival)
    ensures Served(stream, arrivals + [arrival]) == OnArrival(Served(stream, arrivals), arrival)
  {
    assert (arrivals + [arrival])[..|arrivals|] == arrivals;
  }

  lemma FirstFrame(deltas: seq<Delta>)
    requires deltas != []
    ensures DeltaFrames(deltas) == [DeltaFrame(deltas[0])] + DeltaFrames(deltas[1..])
  {
  }

  lemma SendReplayedKeepsFed(s: System, feed: Feed)
    requires s.connection.Some? && Enabled(s, SendReplayed) && s.worlds != [] && IsFed(s.connection.value, feed)
    ensures IsFed(Next(s, SendReplayed).connection.value, FeedNext(s, feed, SendReplayed))
  {
    var c := s.connection.value;
    var deltas := c.stream.phase.deltas;
    if deltas == [] {
      assert c.stream.frames + DeltaFrames(deltas) == c.stream.frames;
      assert Served(Opening(feed.history.value, s.hub, c.token), []) == Opening(feed.history.value, s.hub, c.token);
    } else {
      FirstFrame(deltas);
      assert c.stream.frames + ([DeltaFrame(deltas[0])] + DeltaFrames(deltas[1..]))
          == c.stream.frames + [DeltaFrame(deltas[0])] + DeltaFrames(deltas[1..]);
    }
  }

  lemma ReadHistoryKeepsFed(s: System, feed: Feed)
    requires s.connection.Some? && Enabled(s, ReadHistory) && s.worlds != [] && IsFed(s.connection.value, feed)
    ensures IsFed(Next(s, ReadHistory).connection.value, FeedNext(s, feed, ReadHistory))
  {
    var begun := Begin(s.connection.value.stream, s.hub, s.connection.value.token);
    if begun.phase.Replaying? {
      assert [] + DeltaFrames(begun.phase.deltas) == DeltaFrames(begun.phase.deltas);
    }
  }

  lemma SendCurrentKeepsFed(s: System, feed: Feed)
    requires s.connection.Some? && Enabled(s, SendCurrent) && s.worlds != [] && IsFed(s.connection.value, feed)
    ensures IsFed(Next(s, SendCurrent).connection.value, FeedNext(s, feed, SendCurrent))
  {
    var c := s.connection.value;
    if feed.now.None? {
      assert Served(Opening(feed.history.value, s.hub, c.token), []) == Opening(feed.history.value, s.hub, c.token);
    } else {
      OneArrivalMore(Opening(feed.history.value, feed.now.value, c.token), feed.arrivals, Lagged(s.hub));
    }
  }

  lemma ReceiveKeepsFed(s: System, feed: Feed)
    requires s.connection.Some? && Enabled(s, Receive) && s.worlds != [] && IsFed(s.connection.value, feed)
    ensures IsFed(Next(s, Receive).connection.value, FeedNext(s, feed, Receive))
  {
    var c := s.connection.value;
    OneArrivalMore(Opening(feed.history.value, feed.now.value, c.token), feed.arrivals,
                   Received(s.hub.messages[c.next]));
  }

  lemma StepKeepsFed(s: System, feed: Feed, step: Step)
    requires s.worlds != [] && Enabled(s, step) && (s.connection.Some? ==> IsFed(s.connection.value, feed))
    ensures Next(s, step).connection.Some? ==> IsFed(Next(s, step).connection.value, FeedNext(s, feed, step))
  {
    match step
    case ReadHistory => ReadHistoryKeepsFed(s, feed);
    case SendReplayed => SendReplayedKeepsFed(s, feed);
    case SendCurrent => SendCurrentKeepsFed(s, feed);
    case Receive => ReceiveKeepsFed(s, feed);
    case _ =>
  }

  lemma {:induction false} RunIsFed(steps: seq<Step>)
    ensures Run(steps).connection.Some? ==> IsFed(Run(steps).connection.value, FeedOf(steps))
  {
    if steps != [] {
      var init, last := steps[..|steps| - 1], steps[|steps| - 1];
      RunIsFed(init);
      if Enabled(Run(init), last) {
        StepKeepsFed(Run(init), FeedOf(init), last);
      }
    }
  }

  /** In every run, the frames of a live connection are exactly those the sender sends on what the run handed it. */
  lemma RunIsServed(steps: seq<Step>)
    requires Run(steps).connection.Some? && Run(steps).connection.value.stream.phase.Live?
    ensures var c, feed := Run(steps).connection.value, FeedOf(steps);
            feed.history.Some? && feed.now.Some? && c.stream == FedStream(feed, c.token)
  {
    RunIsFed(steps);
  }

  /** So the sender's frames have no gap, and leave a client that takes them all at `sent_through`, exactly. */
  lemma ServedHasNoGap(steps: seq<Step>)
    requires Run(steps).connection.Some? && Run(steps).connection.value.stream.phase.Live?
    ensures var s, feed := Run(steps), FeedOf(steps);
            var c := s.connection.value;
            && feed.history.Some? && feed.now.Some? && s.hub.epoch < |s.worlds|
            && var served := FedStream(feed, c.token);
               && Contiguous(served.frames, c.token)
               && c.taken <= |served.frames| && served.sentThrough < |s.worlds[s.hub.epoch]|
               && FoldedAll(s.held, served.frames[c.taken..])
                  == Some(Held(s.hub.epoch, served.sentThrough, s.worlds[s.hub.epoch][served.sentThrough]))
  {
    RunIsServed(steps);
    StreamHasNoGap(steps);
    FramesInFlightLeadToSentThrough(steps);
  }
}
