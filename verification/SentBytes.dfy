/**
 Differencing of the outputs' cumulative byte counters (`bytes_sent_since` and its use by
 `run_fleet_sampler` in `src/application/fleet_history.rs`).
 */
module SentBytes {
  import opened Prelude

  datatype OutputId = OutputId(name: string)

  /** One output's cumulative counter, as one reading of the engine reports it. */
  datatype Reading = Reading(id: OutputId, bytes: nat)

  type Counters = map<OutputId, nat>

  /** What one reading adds: the growth of a counter seen before, all of one that is new or went backwards. */
  function Credit(before: Option<nat>, bytes: nat): nat {
    if before.Some? && bytes >= before.value then bytes - before.value else bytes
  }

  /** The counters after a reading of every output; a later entry for an id replaces an earlier one. */
  function Latest(now: seq<Reading>): Counters {
    if now == [] then map[] else Latest(now[..|now| - 1])[now[|now| - 1].id := now[|now| - 1].bytes]
  }

  function CallSum(seen: Counters, now: seq<Reading>): nat {
    if now == [] then 0
    else
      var last := now[|now| - 1];
      CallSum(seen, now[..|now| - 1]) + Credit(Lookup(seen, last.id), last.bytes)
  }

  /** `seen` is replaced; the sum saturates at the largest `u64`. */
  method BytesSentSince(seen: Counters, now: seq<Reading>) returns (total: nat, next: Counters)
    ensures total == Min(CallSum(seen, now), U64_MAX)
    ensures next == Latest(now)
  {
    total, next := 0, map[];
    for k := 0 to |now|
      invariant total == Min(CallSum(seen, now[..k]), U64_MAX)
      invariant next == Latest(now[..k])
    {
      assert now[..k + 1][..k] == now[..k];
      var before := Lookup(seen, now[k].id);
      total := SaturatingAdd(total, Credit(before, now[k].bytes));
      next := next[now[k].id := now[k].bytes];
    }
    assert now[..|now|] == now;
  }

  // ---------- A run of the sampler ----------

  /** The counters kept after `calls`. */
  function SeenAfter(calls: seq<seq<Reading>>): Counters {
    if calls == [] then map[] else Latest(calls[|calls| - 1])
  }

  /** The sum of what `calls` return, from an empty map. */
  function Returned(calls: seq<seq<Reading>>): nat {
    if calls == [] then 0
    else
      var init := calls[..|calls| - 1];
      Returned(init) + Min(CallSum(SeenAfter(init), calls[|calls| - 1]), U64_MAX)
  }

  /** The same sum, without saturation. */
  function Summed(calls: seq<seq<Reading>>): nat {
    if calls == [] then 0
    else
      var init := calls[..|calls| - 1];
      Summed(init) + CallSum(SeenAfter(init), calls[|calls| - 1])
  }

  ghost predicate NoCallSaturates(calls: seq<seq<Reading>>) {
    forall k :: 0 <= k < |calls| ==> CallSum(SeenAfter(calls[..k]), calls[k]) <= U64_MAX
  }

  /** No traffic is lost to saturation exactly when no single call exceeds a `u64`. */
  lemma {:induction false} SaturationLosesExactly(calls: seq<seq<Reading>>)
    ensures Returned(calls) <= Summed(calls)
    ensures Returned(calls) == Summed(calls) <==> NoCallSaturates(calls)
  {
    if calls != [] {
      var init, last := calls[..|calls| - 1], calls[|calls| - 1];
      SaturationLosesExactly(init);
      assert forall k :: 0 <= k < |init| ==> init[..k] == calls[..k];
      assert calls[..|init|] == init;
      if NoCallSaturates(init) && CallSum(SeenAfter(init), last) <= U64_MAX {
        forall k | 0 <= k < |calls| ensures CallSum(SeenAfter(calls[..k]), calls[k]) <= U64_MAX {
          if k < |init| {
            assert init[..k] == calls[..k] && init[k] == calls[k];
          }
        }
      } else if !NoCallSaturates(init) {
        var k :| 0 <= k < |init| && CallSum(SeenAfter(init[..k]), init[k]) > U64_MAX;
        assert CallSum(SeenAfter(calls[..k]), calls[k]) > U64_MAX;
      } else {
        assert CallSum(SeenAfter(calls[..|init|]), calls[|init|]) > U64_MAX;
      }
    }
  }

  // ---------- The same traffic, output by output ----------

  /** One output's counter at each call, absent where the output was not reported. */
  function CounterOf(calls: seq<seq<Reading>>, id: OutputId): (h: seq<Option<nat>>)
    ensures |h| == |calls|
  {
    seq(|calls|, (k: int) requires 0 <= k < |calls| => Lookup(Latest(calls[k]), id))
  }

  /** Call `k` belongs to the same uninterrupted, nondecreasing stretch as the call before it. */
  predicate Continues(h: seq<Option<nat>>, k: nat) {
    0 < k < |h| && h[k - 1].Some? && h[k].Some? && h[k - 1].value <= h[k].value
  }

  /** The final values of the stretches that end before call `n`. */
  function FinalValues(h: seq<Option<nat>>, n: nat): nat
    requires n <= |h|
  {
    if n == 0 then 0
    else FinalValues(h, n - 1) + if h[n - 1].Some? && !Continues(h, n) then h[n - 1].value else 0
  }

  /** What a stretch under way at the first call starts from; every later one starts from zero. */
  function Baseline(h: seq<Option<nat>>): nat {
    if h != [] && h[0].Some? then h[0].value else 0
  }

  function CreditAt(h: seq<Option<nat>>, k: nat): nat
    requires k < |h|
  {
    if h[k].None? then 0 else Credit(if k == 0 then None else h[k - 1], h[k].value)
  }

  function Credits(h: seq<Option<nat>>, n: nat): nat
    requires n <= |h|
  {
    if n == 0 then 0 else Credits(h, n - 1) + CreditAt(h, n - 1)
  }

  /** The credits so far are the stretches that ended and the one under way. */
  lemma {:induction false} CreditsAreStretches(h: seq<Option<nat>>, n: nat)
    requires n <= |h|
    ensures Credits(h, n)
         == FinalValues(h, n) + if n > 0 && Continues(h, n) then h[n - 1].value else 0
  {
    if n > 0 {
      CreditsAreStretches(h, n - 1);
    }
  }

  function CreditIn(seen: Counters, now: Counters, id: OutputId): nat {
    if id in now then Credit(Lookup(seen, id), now[id]) else 0
  }

  function SumOfCredits(ids: seq<OutputId>, seen: Counters, now: Counters): nat {
    if ids == [] then 0 else CreditIn(seen, now, ids[0]) + SumOfCredits(ids[1..], seen, now)
  }

  ghost predicate Distinct(ids: seq<OutputId>) {
    forall i, j :: 0 <= i < j < |ids| ==> ids[i] != ids[j]
  }

  ghost predicate DistinctReadings(now: seq<Reading>) {
    forall i, j :: 0 <= i < j < |now| ==> now[i].id != now[j].id
  }

  lemma {:induction false} SumIgnoresOthers(ids: seq<OutputId>, seen: Counters, now: Counters, id: OutputId, bytes: nat)
    requires id !in ids
    ensures SumOfCredits(ids, seen, now[id := bytes]) == SumOfCredits(ids, seen, now)
  {
    if ids != [] {
      SumIgnoresOthers(ids[1..], seen, now, id, bytes);
    }
  }

  lemma {:induction false} SumGainsOne(ids: seq<OutputId>, seen: Counters, now: Counters, id: OutputId, bytes: nat)
    requires Distinct(ids) && id in ids && id !in now
    ensures SumOfCredits(ids, seen, now[id := bytes]) == SumOfCredits(ids, seen, now) + Credit(Lookup(seen, id), bytes)
  {
    if ids[0] == id {
      SumIgnoresOthers(ids[1..], seen, now, id, bytes);
    } else {
      SumGainsOne(ids[1..], seen, now, id, bytes);
    }
  }

  lemma {:induction false} LatestHolds(now: seq<Reading>, id: OutputId)
    ensures id in Latest(now) <==> exists k :: 0 <= k < |now| && now[k].id == id
  {
    if now != [] {
      var init := now[..|now| - 1];
      LatestHolds(init, id);
      if id in Latest(init) {
        var k :| 0 <= k < |init| && init[k].id == id;
        assert now[k].id == id;
      } else if exists k :: 0 <= k < |now| && now[k].id == id {
        var k :| 0 <= k < |now| && now[k].id == id;
        assert k < |init| ==> init[k].id == id;
      }
    }
  }

  lemma {:induction false} CallSumIsSumOfCredits(ids: seq<OutputId>, seen: Counters, now: seq<Reading>)
    requires Distinct(ids) && DistinctReadings(now) && forall k :: 0 <= k < |now| ==> now[k].id in ids
    ensures CallSum(seen, now) == SumOfCredits(ids, seen, Latest(now))
  {
    if now == [] {
      SumOfNothing(ids, seen);
    } else {
      var init, last := now[..|now| - 1], now[|now| - 1];
      CallSumIsSumOfCredits(ids, seen, init);
      LatestHolds(init, last.id);
      SumGainsOne(ids, seen, Latest(init), last.id, last.bytes);
    }
  }

  lemma {:induction false} SumOfNothing(ids: seq<OutputId>, seen: Counters)
    ensures SumOfCredits(ids, seen, map[]) == 0
  {
    if ids != [] {
      SumOfNothing(ids[1..], seen);
    }
  }

  function SumOfAllCredits(ids: seq<OutputId>, calls: seq<seq<Reading>>): nat {
    if ids == [] then 0
    else Credits(CounterOf(calls, ids[0]), |calls|) + SumOfAllCredits(ids[1..], calls)
  }

  lemma {:induction false} CreditsOfPrefix(h: seq<Option<nat>>, g: seq<Option<nat>>, n: nat)
    requires n <= |h| && h <= g
    ensures Credits(h, n) == Credits(g, n)
  {
    if n > 0 {
      CreditsOfPrefix(h, g, n - 1);
    }
  }

  lemma CounterGrows(calls: seq<seq<Reading>>, now: seq<Reading>, id: OutputId)
    ensures CounterOf(calls + [now], id) == CounterOf(calls, id) + [Lookup(Latest(now), id)]
  {
    var grown := calls + [now];
    forall k | 0 <= k < |calls| ensures CounterOf(grown, id)[k] == CounterOf(calls, id)[k] {
      assert grown[k] == calls[k];
    }
  }

  lemma LastCounter(calls: seq<seq<Reading>>, id: OutputId)
    ensures Lookup(SeenAfter(calls), id) == if calls == [] then None else CounterOf(calls, id)[|calls| - 1]
  {
  }

  /** What one more call adds to a counter's credits. */
  function Gain(before: Option<nat>, last: Option<nat>): nat {
    if last.None? then 0 else Credit(before, last.value)
  }

  lemma CreditsOfLonger(h: seq<Option<nat>>, g: seq<Option<nat>>, last: Option<nat>)
    requires g == h + [last]
    ensures Credits(g, |g|) == Credits(h, |h|) + Gain(if h == [] then None else h[|h| - 1], last)
  {
    CreditsOfPrefix(h, g, |h|);
  }

  lemma CreditsGain(calls: seq<seq<Reading>>, now: seq<Reading>, id: OutputId)
    ensures Credits(CounterOf(calls + [now], id), |calls| + 1)
         == Credits(CounterOf(calls, id), |calls|) + CreditIn(SeenAfter(calls), Latest(now), id)
  {
    CounterGrows(calls, now, id);
    LastCounter(calls, id);
    GainIs(calls, now, id, CounterOf(calls, id), CounterOf(calls + [now], id));
  }

  lemma GainIs(calls: seq<seq<Reading>>, now: seq<Reading>, id: OutputId, h: seq<Option<nat>>, g: seq<Option<nat>>)
    requires |h| == |calls| && g == h + [Lookup(Latest(now), id)]
    requires Lookup(SeenAfter(calls), id) == if calls == [] then None else h[|calls| - 1]
    ensures Credits(g, |calls| + 1) == Credits(h, |calls|) + CreditIn(SeenAfter(calls), Latest(now), id)
  {
    CreditsOfLonger(h, g, Lookup(Latest(now), id));
  }

  lemma {:induction false} SumsGain(ids: seq<OutputId>, calls: seq<seq<Reading>>, now: seq<Reading>)
    ensures SumOfAllCredits(ids, calls + [now])
         == SumOfAllCredits(ids, calls) + SumOfCredits(ids, SeenAfter(calls), Latest(now))
  {
    if ids != [] {
      CreditsGain(calls, now, ids[0]);
      SumsGain(ids[1..], calls, now);
    }
  }

  /** Every reading names one of `ids`, and no call names one twice. */
  ghost predicate Reports(calls: seq<seq<Reading>>, ids: seq<OutputId>) {
    && Distinct(ids)
    && forall k :: 0 <= k < |calls| ==>
                     DistinctReadings(calls[k]) && forall i :: 0 <= i < |calls[k]| ==> calls[k][i].id in ids
  }

  lemma {:induction false} SummedByOutput(ids: seq<OutputId>, calls: seq<seq<Reading>>)
    requires Reports(calls, ids)
    ensures Summed(calls) == SumOfAllCredits(ids, calls)
  {
    if calls == [] {
      NoCallsNoCredits(ids);
    } else {
      var init, now := calls[..|calls| - 1], calls[|calls| - 1];
      assert calls == init + [now];
      SummedByOutput(ids, init);
      SumsGain(ids, init, now);
      CallSumIsSumOfCredits(ids, SeenAfter(init), now);
    }
  }

  lemma {:induction false} NoCallsNoCredits(ids: seq<OutputId>)
    ensures SumOfAllCredits(ids, []) == 0
  {
    if ids != [] {
      NoCallsNoCredits(ids[1..]);
    }
  }

  /** Over all outputs, each stretch's final value, less the baseline of those under way at the first call. */
  function Traffic(ids: seq<OutputId>, calls: seq<seq<Reading>>): int {
    if ids == [] then 0
    else
      var h := CounterOf(calls, ids[0]);
      FinalValues(h, |h|) - Baseline(h) + Traffic(ids[1..], calls)
  }

  lemma {:induction false} TrafficIsCredits(ids: seq<OutputId>, calls: seq<seq<Reading>>)
    requires calls != []
    ensures Traffic(ids, calls) == SumOfAllCredits(ids, calls) - SumOfCredits(ids, map[], Latest(calls[0]))
  {
    if ids != [] {
      var h := CounterOf(calls, ids[0]);
      CreditsAreStretches(h, |h|);
      assert h[0] == Lookup(Latest(calls[0]), ids[0]);
      TrafficIsCredits(ids[1..], calls);
    }
  }

  /** What the sampler records: every call after the one at start-up. */
  function Sampled(calls: seq<seq<Reading>>): int
    requires calls != []
  {
    Returned(calls) - Returned(calls[..1])
  }

  /** No call after the one at start-up exceeds a `u64`. */
  ghost predicate NoLaterCallSaturates(calls: seq<seq<Reading>>) {
    forall k :: 0 < k < |calls| ==> CallSum(SeenAfter(calls[..k]), calls[k]) <= U64_MAX
  }

  lemma NoLaterCallSaturatesAfter(init: seq<seq<Reading>>, last: seq<Reading>)
    requires init != []
    ensures NoLaterCallSaturates(init + [last])
       <==> NoLaterCallSaturates(init) && CallSum(SeenAfter(init), last) <= U64_MAX
  {
    var calls := init + [last];
    assert forall k :: 0 < k <= |init| ==> calls[..k] == init[..k];
    assert calls[..|init|] == init && calls[|init|] == last && init[..|init|] == init;
    if NoLaterCallSaturates(calls) {
      forall k | 0 < k < |init| ensures CallSum(SeenAfter(init[..k]), init[k]) <= U64_MAX {
        assert calls[..k] == init[..k] && calls[k] == init[k];
      }
      assert CallSum(SeenAfter(calls[..|init|]), calls[|init|]) <= U64_MAX;
    }
    if NoLaterCallSaturates(init) && CallSum(SeenAfter(init), last) <= U64_MAX {
      forall k | 0 < k < |calls| ensures CallSum(SeenAfter(calls[..k]), calls[k]) <= U64_MAX {
        if k < |init| {
          assert calls[..k] == init[..k] && calls[k] == init[k];
        }
      }
    }
  }

  lemma OneCallMore(init: seq<seq<Reading>>, last: seq<Reading>)
    ensures Returned(init + [last]) == Returned(init) + Min(CallSum(SeenAfter(init), last), U64_MAX)
    ensures Summed(init + [last]) == Summed(init) + CallSum(SeenAfter(init), last)
  {
    assert (init + [last])[..|init|] == init;
  }

  lemma {:induction false} LaterCallsLose(calls: seq<seq<Reading>>)
    requires calls != []
    ensures Sampled(calls) <= Summed(calls) - Summed(calls[..1])
    ensures Sampled(calls) == Summed(calls) - Summed(calls[..1]) <==> NoLaterCallSaturates(calls)
  {
    if |calls| == 1 {
      assert calls[..1] == calls;
    } else {
      var init, last := calls[..|calls| - 1], calls[|calls| - 1];
      assert calls == init + [last] && init[..1] == calls[..1];
      LaterCallsLose(init);
      OneCallMore(init, last);
      NoLaterCallSaturatesAfter(init, last);
    }
  }

  /**
   The sampler's totals are exactly the outputs' traffic if and only if no call after the one at start-up exceeds a
   `u64`.
   */
  lemma SampledIsTrafficIff(ids: seq<OutputId>, calls: seq<seq<Reading>>)
    requires calls != [] && Reports(calls, ids)
    ensures Sampled(calls) <= Traffic(ids, calls)
    ensures Sampled(calls) == Traffic(ids, calls) <==> NoLaterCallSaturates(calls)
  {
    LaterCallsLose(calls);
    SummedByOutput(ids, calls);
    TrafficIsCredits(ids, calls);
    assert calls[..1][..0] == [] && calls[..1] == [calls[0]];
    CallSumIsSumOfCredits(ids, map[], calls[0]);
  }
}
