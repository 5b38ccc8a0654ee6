/**
 Requests to the reconciler (`ReconcileRequests` in `src/application/topology.rs`). Handlers
 ask for a pass from any thread; `take_due` consumes what is due in two atomic halves.
 */
module ReconcileRequests {
  import opened Prelude

  /** A point of the monotonic clock, in milliseconds. */
  type Instant = int

  datatype Requests = Requests(dirty: bool, deadlines: set<Instant>, selections: set<string>)

  function Woken(r: Requests): Requests {
    r.(dirty := true)
  }

  function WokenAt(r: Requests, at: Instant): Requests {
    r.(deadlines := r.deadlines + {at})
  }

  /** The first half of `take_due`: the dirty flag is swapped out. */
  function Swapped(r: Requests): Requests {
    r.(dirty := false)
  }

  function DueAt(r: Requests, now: Instant): set<Instant> {
    set at | at in r.deadlines && at <= now
  }

  /** The second half: deadlines at or before `now` go. */
  function Retained(r: Requests, now: Instant): Requests {
    r.(deadlines := r.deadlines - DueAt(r, now))
  }

  function WithSelection(r: Requests, pipelineId: string): Requests {
    r.(selections := r.selections + {pipelineId})
  }

  function WithoutSelections(r: Requests): Requests {
    r.(selections := {})
  }

  predicate IsLeast(least: Instant, instants: set<Instant>) {
    least in instants && forall at :: at in instants ==> least <= at
  }

  lemma {:induction false} HasLeast(instants: set<Instant>, some: Instant)
    requires some in instants
    ensures exists least :: IsLeast(least, instants)
    decreases |instants|
  {
    if below :| below in instants && below < some {
      var rest := instants - {some};
      assert instants == rest + {some};
      HasLeast(rest, below);
      var least :| IsLeast(least, rest);
      assert IsLeast(least, instants);
    } else {
      assert IsLeast(some, instants);
    }
  }

  datatype EventKind = IngestDisconnected | IngestConnected | IngestProbed | EgressStopped | EgressFailed | OtherEvent

  class ReconcileRequests {
    var dirty: bool
    var deadlines: set<Instant>
    var dirtySelections: set<string>

    ghost function State(): Requests
      reads this
    {
      Requests(dirty, deadlines, dirtySelections)
    }

    constructor ()
      ensures State() == Requests(false, {}, {})
    {
      dirty, deadlines, dirtySelections := false, {}, {};
    }

    method Wake()
      modifies this
      ensures State() == Woken(old(State()))
      ensures dirty && deadlines == old(deadlines) && dirtySelections == old(dirtySelections)
    {
      dirty := true;
    }

    method WakeAt(at: Instant)
      modifies this
      ensures State() == WokenAt(old(State()), at)
      ensures dirty == old(dirty) && deadlines == old(deadlines) + {at} && dirtySelections == old(dirtySelections)
    {
      deadlines := deadlines + {at};
    }

    /** Both halves with nothing in between; true exactly when a wake or a deadline was due. */
    method TakeDue(now: Instant) returns (due: bool)
      modifies this
      ensures State() == Retained(Swapped(old(State())), now)
      ensures due <==> old(dirty) || exists at :: at in old(deadlines) && at <= now
      ensures forall at :: at in deadlines <==> at in old(deadlines) && at > now
      ensures !dirty && dirtySelections == old(dirtySelections)
    {
      var wasDirty := dirty;
      dirty := false;
      var before := |deadlines|;
      ghost var pending := deadlines;
      deadlines := set at | at in deadlines && at > now;
      assert deadlines == pending - DueAt(old(State()), now);
      assert pending == deadlines + DueAt(old(State()), now);
      if at :| at in pending && at <= now {
        assert at in DueAt(old(State()), now);
      }
      due := wasDirty || |deadlines| != before;
    }

    /** The earliest pending deadline. */
    method NextDeadline() returns (next: Option<Instant>)
      ensures next.None? <==> forall at :: at !in deadlines
      ensures next.Some? ==> next.value in deadlines && forall at :: at in deadlines ==> next.value <= at
    {
      if some :| some in deadlines {
        HasLeast(deadlines, some);
        var least :| IsLeast(least, deadlines);
        return Some(least);
      }
      return None;
    }

    method InputSelectionChanged(pipelineId: string)
      modifies this
      ensures State() == Woken(WithSelection(old(State()), pipelineId))
      ensures dirty && deadlines == old(deadlines) && dirtySelections == old(dirtySelections) + {pipelineId}
    {
      dirtySelections := dirtySelections + {pipelineId};
      Wake();
    }

    method TakeDirtySelections() returns (taken: set<string>)
      modifies this
      ensures taken == old(dirtySelections)
      ensures State() == WithoutSelections(old(State()))
      ensures dirty == old(dirty) && deadlines == old(deadlines) && dirtySelections == {}
    {
      taken := dirtySelections;
      dirtySelections := {};
    }

    method KeepDirtySelection(pipelineId: string)
      modifies this
      ensures State() == WithSelection(old(State()), pipelineId)
      ensures dirty == old(dirty) && deadlines == old(deadlines)
      ensures dirtySelections == old(dirtySelections) + {pipelineId}
    {
      dirtySelections := dirtySelections + {pipelineId};
    }

    /** An ingest that left asks for a pass now and for one just after its grace; a failed egress asks for none. */
    method RequestPassForEvent(event: EventKind, now: Instant, grace: nat)
      modifies this
      ensures dirty <==> old(dirty) || (event != EgressFailed && event != OtherEvent)
      ensures deadlines == if event.IngestDisconnected? then old(deadlines) + {now + grace + 10} else old(deadlines)
      ensures dirtySelections == old(dirtySelections)
    {
      match event {
        case IngestDisconnected =>
          Wake();
          WakeAt(now + grace + 10);
        case IngestConnected => Wake();
        case IngestProbed => Wake();
        case EgressStopped => Wake();
        case _ =>
      }
    }
  }

  // ---------- Any interleaving of handlers and take_due calls ----------

  datatype Event =
    | Wake
    | WakeAt(at: Instant)
    | Swap(call: nat)                    // first half of take_due call `call`
    | Retain(call: nat, now: Instant)    // its second half; the call returns
    | AddSelection(pipelineId: string)   // the first half of a report, whose second is a wake, or a request kept
    | TakeSelections

  /** The requests, and the flag each started call swapped out. */
  datatype System = System(requests: Requests, flags: map<nat, bool>)

  function After(events: seq<Event>): System {
    if events == [] then System(Requests(false, {}, {}), map[])
    else
      var s := After(events[..|events| - 1]);
      match events[|events| - 1]
      case Wake => s.(requests := Woken(s.requests))
      case WakeAt(at) => s.(requests := WokenAt(s.requests, at))
      case Swap(call) => System(Swapped(s.requests), s.flags[call := s.requests.dirty])
      case Retain(_, now) => s.(requests := Retained(s.requests, now))
      case AddSelection(pipelineId) => s.(requests := WithSelection(s.requests, pipelineId))
      case TakeSelections => s.(requests := WithoutSelections(s.requests))
  }

  /** Each call swaps once, and returns after it. */
  ghost predicate WellFormed(events: seq<Event>) {
    && (forall a, b :: 0 <= a < b < |events| && events[a].Swap? && events[b].Swap? ==> events[a].call != events[b].call)
    && forall b :: 0 <= b < |events| && events[b].Retain? ==>
                     exists a :: 0 <= a < b && events[a] == Swap(events[b].call)
  }

  /** What the call that returns at `b` answers. */
  predicate Returns(events: seq<Event>, b: nat)
    requires b < |events| && events[b].Retain?
  {
    var s := After(events[..b]);
    Lookup(s.flags, events[b].call) == Some(true) || DueAt(s.requests, events[b].now) != {}
  }

  // ---------- What is pending, from the events alone ----------

  /** A wake that no call has swapped out before `end`. */
  ghost predicate WakePending(events: seq<Event>, end: nat)
    requires end <= |events|
  {
    exists w :: 0 <= w < end && events[w].Wake? && forall k :: w < k < end ==> !events[k].Swap?
  }

  /** A deadline `at` that no call with `now >= at` has consumed before `end`. */
  ghost predicate DeadlinePending(events: seq<Event>, at: Instant, end: nat)
    requires end <= |events|
  {
    exists w :: 0 <= w < end && events[w] == WakeAt(at)
                && forall k :: w < k < end && events[k].Retain? ==> events[k].now < at
  }

  /** A selection asked for that no pass has taken before `end`. */
  ghost predicate SelectionPending(events: seq<Event>, pipelineId: string, end: nat)
    requires end <= |events|
  {
    exists w :: 0 <= w < end && events[w] == AddSelection(pipelineId)
                && forall k :: w < k < end ==> !events[k].TakeSelections?
  }

  lemma {:induction false} DirtyIsWakePending(events: seq<Event>, end: nat)
    requires end <= |events|
    ensures After(events[..end]).requests.dirty <==> WakePending(events, end)
  {
    if end > 0 {
      assert events[..end][..end - 1] == events[..end - 1];
      DirtyIsWakePending(events, end - 1);
      if events[end - 1].Wake? {
        assert WakePending(events, end);
      } else if WakePending(events, end - 1) && !events[end - 1].Swap? {
        var w :| 0 <= w < end - 1 && events[w].Wake? && forall k :: w < k < end - 1 ==> !events[k].Swap?;
        assert forall k :: w < k < end ==> !events[k].Swap?;
      }
    }
  }

  /** One more event: a deadline is pending if it is set now, or was pending and is not consumed now. */
  lemma DeadlinePendingStep(events: seq<Event>, at: Instant, end: nat)
    requires 0 < end <= |events|
    ensures DeadlinePending(events, at, end)
       <==> events[end - 1] == WakeAt(at)
            || (DeadlinePending(events, at, end - 1) && !(events[end - 1].Retain? && events[end - 1].now >= at))
  {
    if events[end - 1] == WakeAt(at) {
      assert DeadlinePending(events, at, end);
    } else if DeadlinePending(events, at, end - 1) && !(events[end - 1].Retain? && events[end - 1].now >= at) {
      var w :| 0 <= w < end - 1 && events[w] == WakeAt(at)
               && forall k :: w < k < end - 1 && events[k].Retain? ==> events[k].now < at;
      assert forall k :: w < k < end && events[k].Retain? ==> events[k].now < at;
    }
  }

  /** A deadline is kept until a call whose time has come to it, and no longer. */
  lemma {:induction false} DeadlineIsPending(events: seq<Event>, at: Instant, end: nat)
    requires end <= |events|
    ensures at in After(events[..end]).requests.deadlines <==> DeadlinePending(events, at, end)
  {
    if end > 0 {
      assert events[..end][..end - 1] == events[..end - 1];
      DeadlineIsPending(events, at, end - 1);
      DeadlinePendingStep(events, at, end);
    }
  }

  lemma SelectionPendingStep(events: seq<Event>, pipelineId: string, end: nat)
    requires 0 < end <= |events|
    ensures SelectionPending(events, pipelineId, end)
       <==> events[end - 1] == AddSelection(pipelineId)
            || (SelectionPending(events, pipelineId, end - 1) && !events[end - 1].TakeSelections?)
  {
    if events[end - 1] == AddSelection(pipelineId) {
      assert SelectionPending(events, pipelineId, end);
    } else if SelectionPending(events, pipelineId, end - 1) && !events[end - 1].TakeSelections? {
      var w :| 0 <= w < end - 1 && events[w] == AddSelection(pipelineId)
               && forall k :: w < k < end - 1 ==> !events[k].TakeSelections?;
      assert forall k :: w < k < end ==> !events[k].TakeSelections?;
    }
  }

  /** What a pass would take is exactly what was asked for since the last pass took it: no wake or call loses any. */
  lemma {:induction false} SelectionIsPending(events: seq<Event>, pipelineId: string, end: nat)
    requires end <= |events|
    ensures pipelineId in After(events[..end]).requests.selections <==> SelectionPending(events, pipelineId, end)
  {
    if end > 0 {
      assert events[..end][..end - 1] == events[..end - 1];
      SelectionIsPending(events, pipelineId, end - 1);
      SelectionPendingStep(events, pipelineId, end);
    }
  }

  lemma {:induction false} FlagIsWakePending(events: seq<Event>, a: nat, end: nat)
    requires WellFormed(events) && a < end <= |events| && events[a].Swap?
    ensures Lookup(After(events[..end]).flags, events[a].call) == Some(WakePending(events, a))
  {
    assert events[..end][..end - 1] == events[..end - 1];
    if a == end - 1 {
      DirtyIsWakePending(events, a);
    } else {
      FlagIsWakePending(events, a, end - 1);
    }
  }

  // ---------- The promises ----------

  /** A call answers true exactly when it found a wake at its first half or a due deadline at its second. */
  lemma TakeDueIsExact(events: seq<Event>, a: nat, b: nat)
    requires WellFormed(events) && a < b < |events| && events[b].Retain? && events[a] == Swap(events[b].call)
    ensures Returns(events, b) <==>
            WakePending(events, a) || exists at :: at <= events[b].now && DeadlinePending(events, at, b)
  {
    FlagIsWakePending(events, a, b);
    var s := After(events[..b]);
    forall at ensures at in s.requests.deadlines <==> DeadlinePending(events, at, b) {
      DeadlineIsPending(events, at, b);
    }
    if at :| at <= events[b].now && DeadlinePending(events, at, b) {
      assert at in DueAt(s.requests, events[b].now);
    } else {
      assert DueAt(s.requests, events[b].now) == {};
    }
  }

  lemma {:induction false} FirstSwapAfter(events: seq<Event>, w: nat, a: nat) returns (first: nat)
    requires w < a < |events| && events[a].Swap?
    ensures w < first <= a && events[first].Swap? && forall k :: w < k < first ==> !events[k].Swap?
    decreases a
  {
    if k :| w < k < a && events[k].Swap? {
      first := FirstSwapAfter(events, w, k);
    } else {
      first := a;
    }
  }

  /** The call that started at `a` answers true when it returns. */
  ghost predicate AnswersTrue(events: seq<Event>, a: nat)
    requires a < |events| && events[a].Swap?
  {
    forall b :: (a < b < |events| && events[b].Retain? && events[b].call == events[a].call) ==> Returns(events, b)
  }

  /** The call whose first half is at `a` is the first since `w`, and swapped out a set flag. */
  ghost predicate TakesWake(events: seq<Event>, w: nat, a: nat) {
    && w < a < |events| && events[a].Swap? && (forall k :: w < k < a ==> !events[k].Swap?)
    && Lookup(After(events[..a + 1]).flags, events[a].call) == Some(true)
  }

  /**
   No wake is lost: the first call whose first half follows a wake takes it, and answers true when it returns,
   so a call that started after the wake answers true unless another took the wake and answers true.
   */
  lemma NoWakeIsLost(events: seq<Event>, w: nat, a: nat)
    requires WellFormed(events) && w < a < |events| && events[w].Wake? && events[a].Swap?
    ensures exists first: nat :: TakesWake(events, w, first) && first <= a && AnswersTrue(events, first)
  {
    var first := FirstSwapAfter(events, w, a);
    assert WakePending(events, first);
    FlagIsWakePending(events, first, first + 1);
    assert TakesWake(events, w, first);
    forall b | first < b < |events| && events[b].Retain? && events[b].call == events[first].call
      ensures Returns(events, b)
    {
      FlagIsWakePending(events, first, b);
    }
  }

  /** No deadline is lost: by the time a call at or past it returns, some call has consumed it and answered true. */
  lemma {:induction false} NoDeadlineIsLost(events: seq<Event>, w: nat, b: nat)
    requires w < b < |events| && events[w].WakeAt? && events[b].Retain? && events[w].at <= events[b].now
    ensures exists first :: w < first <= b && events[first].Retain? && events[w].at <= events[first].now
                            && Returns(events, first)
    decreases b
  {
    if k :| w < k < b && events[k].Retain? && events[w].at <= events[k].now {
      NoDeadlineIsLost(events, w, k);
    } else {
      var at := events[w].at;
      assert DeadlinePending(events, at, b);
      DeadlineIsPending(events, at, b);
      assert at in DueAt(After(events[..b]).requests, events[b].now);
      assert Returns(events, b);
    }
  }
}
