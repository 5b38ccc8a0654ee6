/**
 The state stream (`src/api/runtime_state.rs`): a client gets a snapshot or the deltas it
 missed, then live deltas, and starts over from a snapshot whenever it falls behind. The sender,
 the hub and the client take their steps in any order.
 */
module StateStream {
  import opened Prelude
  import opened StateHub

  // ---------- The sender ----------

  datatype Phase =
    | Starting                        // subscribed; history not read yet
    | Behind                          // must send a snapshot: no token, a resync, or a lagged receiver
    | Replaying(deltas: seq<Delta>)   // deltas of the resumed gap still to send
    | Live

  datatype Stream = Stream(phase: Phase, sentThrough: nat, frames: seq<Frame>)

  function Begin(stream: Stream, hub: Hub, token: Option<Token>): Stream {
    if token.None? then stream.(phase := Behind)
    else
      match SinceToken(hub, token.value)
      case Resync => stream.(phase := Behind)
      case Deltas(deltas) => stream.(phase := Replaying(deltas), sentThrough := TokenRevision(token.value))
  }

  /** The revision the sender reads back from the token text; 0 if it has none. */
  function TokenRevision(token: Token): nat {
    if token.Token? then token.revision else 0
  }

  function SendDelta(stream: Stream, delta: Delta): Stream {
    stream.(sentThrough := delta.revision, frames := stream.frames + [DeltaFrame(delta)])
  }

  function Replay(stream: Stream): Stream
    requires stream.phase.Replaying?
  {
    var deltas := stream.phase.deltas;
    if deltas == [] then stream.(phase := Live)
    else SendDelta(stream, deltas[0]).(phase := Replaying(deltas[1..]))
  }

  function SendSnapshot(stream: Stream, hub: Hub): Stream {
    Stream(Live, hub.revision, stream.frames + [SnapshotFrame(hub.epoch, hub.revision, hub.projection)])
  }

  function OnDelta(stream: Stream, delta: Delta): Stream {
    if delta.revision <= stream.sentThrough then stream else SendDelta(stream, delta)
  }

  // ---------- The system ----------

  /** `next` indexes the broadcast message the receiver gets next; the client has taken `taken` frames. */
  datatype Connection = Connection(token: Option<Token>, next: nat, stream: Stream, taken: nat)

  /** `worlds[e][r]` was the projection at revision `r` of server run `e`. */
  datatype System = System(worlds: seq<seq<Projection>>, hub: Hub, held: Option<Held>, connection: Option<Connection>)

  datatype Step =
    | PublishState(projection: Projection)
    | Restart
    | Connect           // subscribes, then spawns the sender
    | ReadHistory
    | SendReplayed
    | SendCurrent
    | Receive
    | Lag(to: nat)      // the receiver lost messages and goes on from `to`
    | Take              // the client takes one frame
    | Disconnect

  const INITIAL := System([[EMPTY]], NewHub(0), None, None)

  predicate Enabled(s: System, step: Step) {
    match step
    case PublishState(_) => true
    case Restart => true
    case Connect => s.connection.None?
    case ReadHistory => s.connection.Some? && s.connection.value.stream.phase.Starting?
    case SendReplayed => s.connection.Some? && s.connection.value.stream.phase.Replaying?
    case SendCurrent => s.connection.Some? && s.connection.value.stream.phase.Behind?
    case Receive =>
      s.connection.Some? && s.connection.value.stream.phase.Live? && s.connection.value.next < |s.hub.messages|
    case Lag(to) =>
      s.connection.Some? && s.connection.value.stream.phase.Live? && s.connection.value.next < to <= |s.hub.messages|
    case Take => s.connection.Some? && s.connection.value.taken < |s.connection.value.stream.frames|
    case Disconnect => s.connection.Some?
  }

  function WithStream(s: System, stream: Stream): System
    requires s.connection.Some?
  {
    s.(connection := Some(s.connection.value.(stream := stream)))
  }

  function HeldToken(held: Option<Held>): Option<Token> {
    if held.None? then None else Some(Token(held.value.epoch, held.value.revision))
  }

  function Next(s: System, step: Step): System
    requires Enabled(s, step)
    requires s.worlds != []
  {
    match step
    case PublishState(projection) =>
      var current := s.worlds[|s.worlds| - 1];
      s.(hub := Publish(s.hub, projection),
      worlds := s.worlds[|s.worlds| - 1 := Recorded(s.hub, current, projection)])
    case Restart =>
      s.(worlds := s.worlds + [[EMPTY]], hub := NewHub(|s.worlds|), connection := None)
    case Connect =>
      s.(connection := Some(Connection(HeldToken(s.held), |s.hub.messages|, Stream(Starting, 0, []), 0)))
    case ReadHistory =>
      WithStream(s, Begin(s.connection.value.stream, s.hub, s.connection.value.token))
    case SendReplayed => WithStream(s, Replay(s.connection.value.stream))
    case SendCurrent => WithStream(s, SendSnapshot(s.connection.value.stream, s.hub))
    case Receive =>
      var c := s.connection.value;
      s.(connection := Some(c.(next := c.next + 1, stream := OnDelta(c.stream, s.hub.messages[c.next]))))
    case Lag(to) =>
      var c := s.connection.value;
      s.(connection := Some(c.(next := to, stream := c.stream.(phase := Behind))))
    case Take =>
      var c := s.connection.value;
      var folded := Folded(s.held, c.stream.frames[c.taken]);
      if folded.None? then s.(connection := None)
      else s.(held := folded, connection := Some(c.(taken := c.taken + 1)))
    case Disconnect => s.(connection := None)
  }

  /** The system after a run of steps; a step that is not enabled is not taken. */
  function Run(steps: seq<Step>): (s: System)
    ensures s.worlds != []
  {
    if steps == [] then INITIAL
    else
      var before := Run(steps[..|steps| - 1]);
      var step := steps[|steps| - 1];
      if Enabled(before, step) then Next(before, step) else before
  }

  // ---------- What every run keeps ----------

  /** What is held is the server's state at that revision of that run. */
  ghost predicate Exact(worlds: seq<seq<Projection>>, held: Option<Held>) {
    held.Some? ==>
      held.value.epoch < |worlds| && held.value.revision < |worlds[held.value.epoch]|
      && held.value.state == worlds[held.value.epoch][held.value.revision]
  }

  /** A delta frame is one revision above the frame before it, the first above the token's. */
  ghost predicate FrameFollows(frames: seq<Frame>, token: Option<Token>, i: nat)
    requires i < |frames|
  {
    frames[i].DeltaFrame? ==>
      if i > 0 then frames[i].delta.revision == FrameRevision(frames[i - 1]) + 1
      else frames[i].delta.revision > 0 && token == Some(Token(frames[i].delta.epoch, frames[i].delta.revision - 1))
  }

  ghost predicate Contiguous(frames: seq<Frame>, token: Option<Token>) {
    forall i :: 0 <= i < |frames| ==> FrameFollows(frames, token, i)
  }

  lemma OneMoreIsContiguous(frames: seq<Frame>, token: Option<Token>, frame: Frame)
    requires Contiguous(frames, token) && FrameFollows(frames + [frame], token, |frames|)
    ensures Contiguous(frames + [frame], token)
  {
    var grown := frames + [frame];
    forall i | 0 <= i < |grown| ensures FrameFollows(grown, token, i) {
      if i < |frames| {
        assert FrameFollows(frames, token, i);
      }
    }
  }

  /** Each frame is a state of this server run, or the message that led to one. */
  ghost predicate Genuine(hub: Hub, past: seq<Projection>, frame: Frame)
    requires Valid(hub, past)
  {
    match frame
    case SnapshotFrame(epoch, revision, state) =>
      epoch == hub.epoch && revision <= hub.revision && state == past[revision]
    case DeltaFrame(delta) => 0 < delta.revision <= hub.revision && delta == hub.messages[delta.revision - 1]
  }

  /** The revision of frame `i - 1`, or of the token before the first frame. */
  ghost predicate At(c: Connection, epoch: nat, i: nat, revision: nat)
    requires i <= |c.stream.frames|
  {
    if i > 0 then FrameRevision(c.stream.frames[i - 1]) == revision else c.token == Some(Token(epoch, revision))
  }

  ghost predicate ConnectionOk(hub: Hub, past: seq<Projection>, held: Option<Held>, c: Connection)
    requires Valid(hub, past)
  {
    && c.next <= hub.revision
    && c.taken <= |c.stream.frames|
    && Contiguous(c.stream.frames, c.token)
    && (forall i :: 0 <= i < |c.stream.frames| ==> Genuine(hub, past, c.stream.frames[i]))
    && (if c.taken == 0 then c.token == HeldToken(held)
        else held.Some? && held.value.epoch == hub.epoch && At(c, hub.epoch, c.taken, held.value.revision))
    && match c.stream.phase
       case Starting => c.stream.frames == []
       case Behind => true
       case Replaying(deltas) =>
         && At(c, hub.epoch, |c.stream.frames|, c.stream.sentThrough)
         && c.next <= c.stream.sentThrough + |deltas| <= hub.revision
         && deltas == hub.messages[c.stream.sentThrough..c.stream.sentThrough + |deltas|]
       case Live =>
         && At(c, hub.epoch, |c.stream.frames|, c.stream.sentThrough)
         && c.next <= c.stream.sentThrough <= hub.revision
  }

  ghost predicate Inv(s: System) {
    && s.worlds != [] && s.hub.epoch == |s.worlds| - 1
    && Valid(s.hub, s.worlds[s.hub.epoch])
    && Exact(s.worlds, s.held)
    && (s.connection.Some? ==> ConnectionOk(s.hub, s.worlds[s.hub.epoch], s.held, s.connection.value))
  }

  lemma PublishKeepsInv(s: System, projection: Projection)
    requires Inv(s)
    ensures Inv(Next(s, PublishState(projection)))
  {
    var past := s.worlds[s.hub.epoch];
    var next := Next(s, PublishState(projection));
    PublishKeepsValid(s.hub, past, projection);
    if s.connection.Some? {
      var frames := s.connection.value.stream.frames;
      forall i | 0 <= i < |frames| ensures Genuine(next.hub, next.worlds[next.hub.epoch], frames[i]) {
        assert Genuine(s.hub, past, frames[i]);
      }
    }
  }

  lemma ReadHistoryKeepsInv(s: System)
    requires Inv(s) && Enabled(s, ReadHistory)
    ensures Inv(Next(s, ReadHistory))
  {
    var c := s.connection.value;
    if c.token.Some? {
      SinceIsExact(s.hub, s.worlds[s.hub.epoch], c.token.value);
      assert s.hub.messages == s.hub.messages[..s.hub.revision];
    }
  }

  /** Sending the message after `sentThrough` keeps the frames genuine and without a gap. */
  lemma SendKeepsFrames(hub: Hub, past: seq<Projection>, c: Connection, sent: Stream)
    requires Valid(hub, past) && c.stream.sentThrough < hub.revision
    requires At(c, hub.epoch, |c.stream.frames|, c.stream.sentThrough)
    requires Contiguous(c.stream.frames, c.token)
    requires forall i :: 0 <= i < |c.stream.frames| ==> Genuine(hub, past, c.stream.frames[i])
    requires sent == SendDelta(c.stream, hub.messages[c.stream.sentThrough])
    ensures sent.sentThrough == c.stream.sentThrough + 1
    ensures Contiguous(sent.frames, c.token)
    ensures forall i :: 0 <= i < |sent.frames| ==> Genuine(hub, past, sent.frames[i])
  {
    assert Follows(hub, past, c.stream.sentThrough);
    OneMoreIsContiguous(c.stream.frames, c.token, sent.frames[|c.stream.frames|]);
  }

  lemma SendReplayedKeepsInv(s: System)
    requires Inv(s) && Enabled(s, SendReplayed)
    ensures Inv(Next(s, SendReplayed))
  {
    var c := s.connection.value;
    var deltas := c.stream.phase.deltas;
    if deltas != [] {
      var delta := s.hub.messages[c.stream.sentThrough];
      assert deltas[0] == delta;
      SendKeepsFrames(s.hub, s.worlds[s.hub.epoch], c, SendDelta(c.stream, delta));
      assert deltas[1..] == s.hub.messages[c.stream.sentThrough + 1..c.stream.sentThrough + |deltas|];
    }
  }

  lemma ReceiveKeepsInv(s: System)
    requires Inv(s) && Enabled(s, Receive)
    ensures Inv(Next(s, Receive))
  {
    var c := s.connection.value;
    assert Follows(s.hub, s.worlds[s.hub.epoch], c.next);
    if c.next == c.stream.sentThrough {
      SendKeepsFrames(s.hub, s.worlds[s.hub.epoch], c, OnDelta(c.stream, s.hub.messages[c.next]));
    }
  }

  lemma SendCurrentKeepsInv(s: System)
    requires Inv(s) && Enabled(s, SendCurrent)
    ensures Inv(Next(s, SendCurrent))
  {
    var sent := SendSnapshot(s.connection.value.stream, s.hub);
    var frames := s.connection.value.stream.frames;
    assert Genuine(s.hub, s.worlds[s.hub.epoch], sent.frames[|frames|]);
    OneMoreIsContiguous(frames, s.connection.value.token, sent.frames[|frames|]);
  }

  /** What is held of this server run is its state at that revision. */
  ghost predicate HeldIsPast(hub: Hub, past: seq<Projection>, held: Option<Held>) {
    held.Some? && held.value.epoch == hub.epoch ==>
      held.value.revision < |past| && held.value.state == past[held.value.revision]
  }

  function HeldAt(hub: Hub, past: seq<Projection>, revision: nat): Option<Held>
    requires revision < |past|
  {
    Some(Held(hub.epoch, revision, past[revision]))
  }

  /** A client is never handed a frame it cannot apply, and applying it gives the state at the frame's revision. */
  lemma FrameApplies(hub: Hub, past: seq<Projection>, held: Option<Held>, c: Connection)
    requires Valid(hub, past) && ConnectionOk(hub, past, held, c) && HeldIsPast(hub, past, held)
    requires c.taken < |c.stream.frames|
    ensures var frame := c.stream.frames[c.taken];
            FrameRevision(frame) < |past| && Folded(held, frame) == HeldAt(hub, past, FrameRevision(frame))
  {
    var frame := c.stream.frames[c.taken];
    assert Genuine(hub, past, frame);
    if frame.DeltaFrame? {
      var revision := frame.delta.revision - 1;
      assert Follows(hub, past, revision);
      HeldIsBefore(hub, past, held, c, revision);
      assert frame.delta == hub.messages[revision];
    }
  }

  lemma HeldIsBefore(hub: Hub, past: seq<Projection>, held: Option<Held>, c: Connection, revision: nat)
    requires Valid(hub, past) && ConnectionOk(hub, past, held, c) && c.taken < |c.stream.frames|
    requires c.stream.frames[c.taken].DeltaFrame? && revision + 1 == c.stream.frames[c.taken].delta.revision
    requires c.stream.frames[c.taken].delta.epoch == hub.epoch
    ensures held.Some? && held.value.epoch == hub.epoch && held.value.revision == revision
  {
    assert FrameFollows(c.stream.frames, c.token, c.taken);
  }

  lemma TakenKeepsConnection(hub: Hub, past: seq<Projection>, held: Option<Held>, c: Connection)
    requires Valid(hub, past) && ConnectionOk(hub, past, held, c) && c.taken < |c.stream.frames|
    requires FrameRevision(c.stream.frames[c.taken]) < |past|
    ensures ConnectionOk(hub, past, HeldAt(hub, past, FrameRevision(c.stream.frames[c.taken])),
                         c.(taken := c.taken + 1))
  {
  }

  lemma TakeKeepsInv(s: System)
    requires Inv(s) && Enabled(s, Take)
    ensures Inv(Next(s, Take)) && Next(s, Take).connection.Some?
  {
    FrameApplies(s.hub, s.worlds[s.hub.epoch], s.held, s.connection.value);
    TakenKeepsConnection(s.hub, s.worlds[s.hub.epoch], s.held, s.connection.value);
  }

  lemma StepKeepsInv(s: System, step: Step)
    requires Inv(s) && Enabled(s, step)
    ensures Inv(Next(s, step))
  {
    match step
    case PublishState(projection) => PublishKeepsInv(s, projection);
    case ReadHistory => ReadHistoryKeepsInv(s);
    case SendReplayed => SendReplayedKeepsInv(s);
    case SendCurrent => SendCurrentKeepsInv(s);
    case Receive => ReceiveKeepsInv(s);
    case Take => TakeKeepsInv(s);
    case _ =>
  }

  lemma {:induction false} RunKeepsInv(steps: seq<Step>)
    ensures Inv(Run(steps))
  {
    if steps != [] {
      RunKeepsInv(steps[..|steps| - 1]);
      if Enabled(Run(steps[..|steps| - 1]), steps[|steps| - 1]) {
        StepKeepsInv(Run(steps[..|steps| - 1]), steps[|steps| - 1]);
      }
    }
  }

  // ---------- The promises ----------

  /** In every run, what a client holds is what the server's state was at that revision. */
  lemma HeldStateIsExact(steps: seq<Step>)
    ensures Exact(Run(steps).worlds, Run(steps).held)
  {
    RunKeepsInv(steps);
  }

  /** In every run, the deltas sent have no gap, and the client never meets one it must resync from. */
  lemma StreamHasNoGap(steps: seq<Step>)
    requires Run(steps).connection.Some?
    ensures var c := Run(steps).connection.value; Contiguous(c.stream.frames, c.token)
    ensures Enabled(Run(steps), Take) ==> Next(Run(steps), Take).connection.Some?
  {
    RunKeepsInv(steps);
    if Enabled(Run(steps), Take) {
      TakeKeepsInv(Run(steps));
    }
  }

  /** In every run, folding the frames in flight leaves the client at `sentThrough`, exactly. */
  lemma FramesInFlightLeadToSentThrough(steps: seq<Step>)
    requires Run(steps).connection.Some?
    requires Run(steps).connection.value.stream.phase.Live? || Run(steps).connection.value.stream.phase.Replaying?
    ensures var s := Run(steps);
            var c := s.connection.value;
            c.taken <= |c.stream.frames| && s.hub.epoch < |s.worlds|
            && c.stream.sentThrough < |s.worlds[s.hub.epoch]|
            && FoldedAll(s.held, c.stream.frames[c.taken..])
               == Some(Held(s.hub.epoch, c.stream.sentThrough, s.worlds[s.hub.epoch][c.stream.sentThrough]))
  {
    RunKeepsInv(steps);
    var s := Run(steps);
    FoldInFlight(s.hub, s.worlds[s.hub.epoch], s.held, s.connection.value);
  }

  lemma NothingInFlight(hub: Hub, past: seq<Projection>, held: Option<Held>, c: Connection)
    requires Valid(hub, past) && ConnectionOk(hub, past, held, c) && HeldIsPast(hub, past, held)
    requires (c.stream.phase.Live? || c.stream.phase.Replaying?) && c.taken == |c.stream.frames|
    ensures held == HeldAt(hub, past, c.stream.sentThrough)
  {
  }

  lemma FoldedNext(held: Option<Held>, frames: seq<Frame>, taken: nat)
    requires taken < |frames| && Folded(held, frames[taken]).Some?
    ensures FoldedAll(held, frames[taken..]) == FoldedAll(Folded(held, frames[taken]), frames[taken + 1..])
  {
    assert frames[taken..][1..] == frames[taken + 1..];
  }

  lemma {:induction false} FoldInFlight(hub: Hub, past: seq<Projection>, held: Option<Held>, c: Connection)
    requires Valid(hub, past) && ConnectionOk(hub, past, held, c) && HeldIsPast(hub, past, held)
    requires c.stream.phase.Live? || c.stream.phase.Replaying?
    ensures FoldedAll(held, c.stream.frames[c.taken..]) == HeldAt(hub, past, c.stream.sentThrough)
    decreases |c.stream.frames| - c.taken
  {
    if c.taken == |c.stream.frames| {
      NothingInFlight(hub, past, held, c);
    } else {
      FrameApplies(hub, past, held, c);
      TakenKeepsConnection(hub, past, held, c);
      FoldedNext(held, c.stream.frames, c.taken);
      FoldInFlight(hub, past, Folded(held, c.stream.frames[c.taken]), c.(taken := c.taken + 1));
    }
  }

  /** When nothing is in flight, the client holds the server's current state. */
  lemma QuietClientIsCurrent(steps: seq<Step>)
    requires Run(steps).connection.Some? && Run(steps).connection.value.stream.phase.Live?
    requires Run(steps).connection.value.next == |Run(steps).hub.messages|
    requires Run(steps).connection.value.taken == |Run(steps).connection.value.stream.frames|
    ensures var s := Run(steps); s.held == Some(Held(s.hub.epoch, s.hub.revision, s.hub.projection))
  {
    RunKeepsInv(steps);
    var s := Run(steps);
    NothingInFlight(s.hub, s.worlds[s.hub.epoch], s.held, s.connection.value);
  }
}
