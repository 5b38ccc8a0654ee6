/**
 The revisioned runtime state (`src/application/runtime_state/hub.rs`, `diff` in
 `src/application/runtime_state/mod.rs`) and the client that folds its frames
 (`web/ts/core/state-stream.ts`). Every hub call holds one lock, so each is one step on a value.
 */
module StateHub {
  import opened Prelude

  /** One kind of entity by id; an entity is compared and replaced whole. */
  type Entities = map<string, string>

  datatype Projection = Projection(pipelines: Entities, outputs: Entities, inputs: Entities, graphs: Entities)

  const EMPTY := Projection(map[], map[], map[], map[])

  /** What one kind of entity needs to get from one projection to the next. */
  datatype Changes = Changes(upserts: Entities, removed: set<string>)

  datatype Delta = Delta(epoch: nat, revision: nat,
                         pipelines: Changes, outputs: Changes, inputs: Changes, graphs: Changes)

  /** A delta not yet numbered by the hub. */
  datatype Difference = Difference(pipelines: Changes, outputs: Changes, inputs: Changes, graphs: Changes)

  function Changed(before: Entities, after: Entities): Changes {
    Changes(map id | id in after && Lookup(before, id) != Some(after[id]) :: after[id],
            set id | id in before && id !in after)
  }

  function Diff(before: Projection, after: Projection): Difference {
    Difference(Changed(before.pipelines, after.pipelines), Changed(before.outputs, after.outputs),
               Changed(before.inputs, after.inputs), Changed(before.graphs, after.graphs))
  }

  predicate NoChanges(c: Changes) {
    c.upserts == map[] && c.removed == {}
  }

  predicate IsEmpty(d: Difference) {
    NoChanges(d.pipelines) && NoChanges(d.outputs) && NoChanges(d.inputs) && NoChanges(d.graphs)
  }

  /** The client's `upsertBy`: removed keys go, then upserts are set. */
  function Upserted(current: Entities, c: Changes): Entities {
    (current - c.removed) + c.upserts
  }

  function Applied(state: Projection, delta: Delta): Projection {
    Projection(Upserted(state.pipelines, delta.pipelines), Upserted(state.outputs, delta.outputs),
               Upserted(state.inputs, delta.inputs), Upserted(state.graphs, delta.graphs))
  }

  lemma UpsertUndoesChanged(before: Entities, after: Entities)
    ensures Upserted(before, Changed(before, after)) == after
    ensures NoChanges(Changed(before, after)) <==> before == after
  {
    var c := Changed(before, after);
    assert forall id :: id in Upserted(before, c) <==> id in after;
    if NoChanges(c) {
      forall id | id in before ensures id in after && before[id] == after[id] {
        assert id !in c.removed && id !in c.upserts;
      }
      forall id | id in after ensures id in before {
        assert id !in c.upserts;
      }
    }
  }

  /** Applying the difference of two projections to the first gives the second; it is empty only between equals. */
  lemma ApplyUndoesDiff(before: Projection, after: Projection, epoch: nat, revision: nat)
    ensures Applied(before, Numbered(Diff(before, after), epoch, revision)) == after
    ensures IsEmpty(Diff(before, after)) <==> before == after
  {
    UpsertUndoesChanged(before.pipelines, after.pipelines);
    UpsertUndoesChanged(before.outputs, after.outputs);
    UpsertUndoesChanged(before.inputs, after.inputs);
    UpsertUndoesChanged(before.graphs, after.graphs);
  }

  function Numbered(d: Difference, epoch: nat, revision: nat): Delta {
    Delta(epoch, revision, d.pipelines, d.outputs, d.inputs, d.graphs)
  }

  // ---------- The hub ----------

  /** Deltas kept for clients that reconnect. */
  const DELTA_HISTORY: nat := 256

  /** `messages` is everything sent to the broadcast channel in this server run. */
  datatype Hub = Hub(epoch: nat, revision: nat, projection: Projection, history: seq<Delta>, messages: seq<Delta>)

  function NewHub(epoch: nat): Hub {
    Hub(epoch, 0, EMPTY, [], [])
  }

  function Publish(hub: Hub, projection: Projection): Hub {
    var difference := Diff(hub.projection, projection);
    if IsEmpty(difference) then hub
    else
      var delta := Numbered(difference, hub.epoch, hub.revision + 1);
      var kept := if |hub.history| == DELTA_HISTORY then hub.history[1..] else hub.history;
      Hub(hub.epoch, hub.revision + 1, projection, kept + [delta], hub.messages + [delta])
  }

  /** A resume token `<epoch>.<revision>`, or text that is not one. */
  datatype Token = Malformed | Token(epoch: nat, revision: nat)

  datatype Since = Deltas(deltas: seq<Delta>) | Resync

  function After(history: seq<Delta>, revision: nat): seq<Delta> {
    if history == [] then []
    else (if history[0].revision > revision then [history[0]] else []) + After(history[1..], revision)
  }

  function SinceToken(hub: Hub, token: Token): Since {
    if token.Malformed? || token.epoch != hub.epoch || token.revision > hub.revision then Resync
    else
      var oldestKept := if hub.history == [] then hub.revision + 1 else hub.history[0].revision;
      if token.revision + 1 < oldestKept then Resync else Deltas(After(hub.history, token.revision))
  }

  /** `past[r]` was the projection at revision `r`; each message carries one revision to the next. */
  ghost predicate Valid(hub: Hub, past: seq<Projection>) {
    && |past| == hub.revision + 1 && past[hub.revision] == hub.projection
    && |hub.messages| == hub.revision
    && (forall i :: 0 <= i < hub.revision ==> Follows(hub, past, i))
    && |hub.history| == Min(hub.revision, DELTA_HISTORY)
    && hub.history == hub.messages[hub.revision - |hub.history|..]
  }

  ghost predicate Follows(hub: Hub, past: seq<Projection>, i: nat)
    requires i + 1 < |past| && i < |hub.messages|
  {
    var message := hub.messages[i];
    message.epoch == hub.epoch && message.revision == i + 1 && past[i + 1] == Applied(past[i], message)
  }

  /** The projections a run has been through, after publishing one more. */
  function Recorded(hub: Hub, past: seq<Projection>, projection: Projection): seq<Projection> {
    if hub.projection == projection then past else past + [projection]
  }

  lemma PublishKeepsValid(hub: Hub, past: seq<Projection>, projection: Projection)
    requires Valid(hub, past)
    ensures Valid(Publish(hub, projection), Recorded(hub, past, projection))
    ensures hub.messages <= Publish(hub, projection).messages
    ensures past <= Recorded(hub, past, projection)
  {
    ApplyUndoesDiff(hub.projection, projection, hub.epoch, hub.revision + 1);
    if hub.projection != projection {
      var next := Publish(hub, projection);
      var grown := past + [projection];
      forall i | 0 <= i < next.revision ensures Follows(next, grown, i) {
        if i < hub.revision {
          assert Follows(hub, past, i);
        }
      }
      assert next.history == next.messages[next.revision - |next.history|..];
    }
  }

  lemma {:induction false} AfterIsSuffix(history: seq<Delta>, first: nat, revision: nat)
    requires forall i :: 0 <= i < |history| ==> history[i].revision == first + i
    requires first <= revision + 1 <= first + |history|
    ensures After(history, revision) == history[revision + 1 - first..]
  {
    if history != [] {
      if first <= revision {
        AfterIsSuffix(history[1..], first + 1, revision);
      } else {
        AfterKeepsAll(history, revision);
      }
    }
  }

  lemma {:induction false} AfterKeepsAll(history: seq<Delta>, revision: nat)
    requires forall i :: 0 <= i < |history| ==> history[i].revision > revision
    ensures After(history, revision) == history
  {
    if history != [] {
      AfterKeepsAll(history[1..], revision);
    }
  }

  lemma HistoryRevisions(hub: Hub, past: seq<Projection>)
    requires Valid(hub, past)
    ensures forall i :: 0 <= i < |hub.history| ==> hub.history[i].revision == hub.revision - |hub.history| + 1 + i
  {
    var first := hub.revision - |hub.history|;
    forall i | 0 <= i < |hub.history| ensures hub.history[i].revision == first + 1 + i {
      assert Follows(hub, past, first + i);
    }
  }

  lemma SuffixOfSuffix(messages: seq<Delta>, first: nat, revision: nat)
    requires first <= revision <= |messages|
    ensures messages[first..][revision - first..] == messages[revision..]
  {
  }

  /** A resumed client is answered with exactly the deltas after its revision, or told to start over. */
  lemma SinceIsExact(hub: Hub, past: seq<Projection>, token: Token)
    requires Valid(hub, past)
    ensures SinceToken(hub, token).Deltas? <==>
            token.Token? && token.epoch == hub.epoch
            && token.revision <= hub.revision <= token.revision + 256
    ensures SinceToken(hub, token).Deltas? ==> SinceToken(hub, token).deltas == hub.messages[token.revision..]
  {
    var first := hub.revision - |hub.history|;
    HistoryRevisions(hub, past);
    if token.Token? && token.epoch == hub.epoch && token.revision <= hub.revision <= token.revision + DELTA_HISTORY {
      AfterIsSuffix(hub.history, first + 1, token.revision);
      SuffixOfSuffix(hub.messages, first, token.revision);
    }
  }

  // ---------- The client ----------

  datatype Frame =
    | SnapshotFrame(epoch: nat, revision: nat, state: Projection)
    | DeltaFrame(delta: Delta)

  function FrameRevision(frame: Frame): nat {
    match frame
    case SnapshotFrame(_, revision, _) => revision
    case DeltaFrame(delta) => delta.revision
  }

  /** What the page holds: the state at one revision of one server run. */
  datatype Held = Held(epoch: nat, revision: nat, state: Projection)

  /** `None` when the frame does not follow what is held: the client reconnects. */
  function Folded(held: Option<Held>, frame: Frame): Option<Held> {
    match frame
    case SnapshotFrame(epoch, revision, state) => Some(Held(epoch, revision, state))
    case DeltaFrame(delta) =>
      if held.None? || delta.epoch != held.value.epoch then None
      else if delta.revision <= held.value.revision then held
      else if delta.revision != held.value.revision + 1 then None
      else Some(Held(held.value.epoch, delta.revision, Applied(held.value.state, delta)))
  }

  /** The client after a run of frames; `None` from the first frame that does not follow. */
  function FoldedAll(held: Option<Held>, frames: seq<Frame>): Option<Held>
    decreases frames
  {
    if frames == [] then held
    else
      var next := Folded(held, frames[0]);
      if next.None? then None else FoldedAll(next, frames[1..])
  }
}
