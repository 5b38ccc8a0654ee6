/**
 Samples in time order, as both bounded histories keep them: the time a new sample is kept under, and windows
 found by binary search against windows found by looking at every sample.
 */
module TimedSamples {
  import opened Prelude

  /** One instant of a history; `reading` is what was read then. */
  datatype Sample<R> = Sample(atMs: nat, reading: R)

  function LastAt<R>(samples: seq<Sample<R>>): nat
    requires samples != []
  {
    samples[|samples| - 1].atMs
  }

  /** The time a sample is kept under: after the newest one's, even when the wall clock stepped back. */
  function Stamp<R>(samples: seq<Sample<R>>, sample: Sample<R>): Sample<R> {
    if samples == [] then sample
    else sample.(atMs := Max(sample.atMs, SaturatingAdd(LastAt(samples), 1)))
  }

  ghost predicate Ordered<R>(samples: seq<Sample<R>>) {
    forall i, j :: 0 <= i < j < |samples| ==> samples[i].atMs <= samples[j].atMs
  }

  ghost predicate StrictlyOrdered<R>(samples: seq<Sample<R>>) {
    forall i, j :: 0 <= i < j < |samples| ==> samples[i].atMs < samples[j].atMs
  }

  /** `partition_point(|s| s.at_ms < bound)` on samples in time order: how many lead with a smaller time. */
  function LeadingBelow<R>(samples: seq<Sample<R>>, bound: nat): (n: nat)
    ensures n <= |samples|
  {
    if samples == [] || samples[0].atMs >= bound then 0 else 1 + LeadingBelow(samples[1..], bound)
  }

  function Window<R>(samples: seq<Sample<R>>, sinceMs: nat, boundMs: nat): seq<Sample<R>> {
    var first := LeadingBelow(samples, sinceMs);
    samples[first..Max(LeadingBelow(samples, boundMs), first)]
  }

  predicate Within<R>(sample: Sample<R>, sinceMs: nat, boundMs: nat) {
    sinceMs <= sample.atMs < boundMs
  }

  /** The samples of the window `[sinceMs, boundMs)`, by looking at every one. */
  function Filter<R>(samples: seq<Sample<R>>, sinceMs: nat, boundMs: nat): seq<Sample<R>> {
    if samples == [] then []
    else
      var rest := Filter(samples[1..], sinceMs, boundMs);
      if Within(samples[0], sinceMs, boundMs) then [samples[0]] + rest else rest
  }

  ghost predicate WithinIsSlice<R>(samples: seq<Sample<R>>, sinceMs: nat, boundMs: nat, first: nat, end: nat) {
    && first <= end <= |samples|
    && forall i :: 0 <= i < |samples| ==> (Within(samples[i], sinceMs, boundMs) <==> first <= i < end)
  }

  lemma WithinIsSliceOfRest<R>(samples: seq<Sample<R>>, sinceMs: nat, boundMs: nat, first: nat, end: nat)
    requires samples != [] && WithinIsSlice(samples, sinceMs, boundMs, first, end)
    ensures WithinIsSlice(samples[1..], sinceMs, boundMs, SaturatingSub(first, 1), SaturatingSub(end, 1))
    ensures Within(samples[0], sinceMs, boundMs) <==> first == 0 < end
  {
  }

  lemma SliceFromRest<R>(samples: seq<Sample<R>>, first: nat, end: nat)
    requires samples != [] && first <= end <= |samples|
    ensures var rest := samples[1..][SaturatingSub(first, 1)..SaturatingSub(end, 1)];
            samples[first..end] == if first == 0 < end then [samples[0]] + rest else rest
  {
    var rest := samples[1..];
    if first > 0 {
      SameSlices(samples[first..end], rest[first - 1..end - 1]);
    } else if end > 0 {
      SameSlices(samples[first..end], [samples[0]] + rest[0..end - 1]);
    } else {
      SameSlices(samples[first..end], rest[0..0]);
    }
  }

  /** Two sequences that agree at every index are one. */
  lemma SameSlices<R>(a: seq<Sample<R>>, b: seq<Sample<R>>)
    requires |a| == |b| && forall i :: 0 <= i < |a| ==> a[i] == b[i]
    ensures a == b
  {
  }

  lemma {:induction false} FilterIsSlice<R>(samples: seq<Sample<R>>, sinceMs: nat, boundMs: nat, first: nat, end: nat)
    requires WithinIsSlice(samples, sinceMs, boundMs, first, end)
    ensures Filter(samples, sinceMs, boundMs) == samples[first..end]
  {
    if samples != [] {
      WithinIsSliceOfRest(samples, sinceMs, boundMs, first, end);
      SliceFromRest(samples, first, end);
      FilterIsSlice(samples[1..], sinceMs, boundMs, SaturatingSub(first, 1), SaturatingSub(end, 1));
    }
  }

  lemma {:induction false} FilterSkipsOlder<R>(samples: seq<Sample<R>>, k: nat, sinceMs: nat, boundMs: nat)
    requires k <= |samples| && forall i :: 0 <= i < k ==> samples[i].atMs < sinceMs
    ensures Filter(samples, sinceMs, boundMs) == Filter(samples[k..], sinceMs, boundMs)
  {
    if k > 0 {
      FilterSkipsOlder(samples[1..], k - 1, sinceMs, boundMs);
      assert samples[1..][k - 1..] == samples[k..];
    } else {
      assert samples[0..] == samples;
    }
  }

  lemma {:induction false} LeadingSplits<R>(samples: seq<Sample<R>>, bound: nat)
    requires Ordered(samples)
    ensures var n := LeadingBelow(samples, bound);
            && (forall i :: 0 <= i < n ==> samples[i].atMs < bound)
            && (forall i :: n <= i < |samples| ==> samples[i].atMs >= bound)
  {
    if samples != [] {
      LeadingSplits(samples[1..], bound);
      var n := LeadingBelow(samples, bound);
      assert forall i :: 1 <= i < |samples| ==> samples[i] == samples[1..][i - 1];
    }
  }

  /** The binary-search window of kept samples is their filter. */
  lemma WindowIsFilter<R>(samples: seq<Sample<R>>, sinceMs: nat, boundMs: nat)
    requires Ordered(samples)
    ensures Window(samples, sinceMs, boundMs) == Filter(samples, sinceMs, boundMs)
  {
    LeadingSplits(samples, sinceMs);
    LeadingSplits(samples, boundMs);
    var first := LeadingBelow(samples, sinceMs);
    FilterIsSlice(samples, sinceMs, boundMs, first, Max(LeadingBelow(samples, boundMs), first));
  }
}
