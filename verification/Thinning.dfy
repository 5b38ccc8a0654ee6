/** Thinning of a trace to at most `max` samples (`thin` in `src/application/flight_recorder.rs`). */
module Thinning {

  /** Where pick `i` of `max` lies among `len` samples: `i * (len - 1) / (max - 1)`, to the nearest index. */
  function Want(i: nat, len: nat, max: nat): nat
    requires len > 0 && max >= 2
  {
    var x: nat := i * (len - 1);
    (x + (max - 1) / 2) / (max - 1)
  }

  function Thinned<T>(samples: seq<T>, max: nat): seq<T> {
    if |samples| <= max || max < 2 then samples
    else
      seq(max, (i: nat) requires i < max => WantIsIndex(i, |samples|, max); samples[Want(i, |samples|, max)])
  }

  // ---------- Arithmetic of the picks ----------

  lemma {:induction false} ProductGrows(d: nat, a: nat, b: nat)
    ensures a < b ==> d * a + d <= d * b
    decreases b
  {
    if a < b {
      assert d * b == d * (b - 1) + d;
      ProductGrows(d, a, b - 1);
    }
  }

  lemma QuotientIs(x: nat, d: nat, q: nat, r: nat)
    requires d > 0 && r < d && x == d * q + r
    ensures x / d == q
  {
    ProductGrows(d, x / d, q);
    ProductGrows(d, q, x / d);
    assert x == d * (x / d) + x % d;
  }

  lemma Distributes(d: nat, a: nat, b: nat)
    ensures d * (a + b) == d * a + d * b
  {
  }

  lemma SumOfQuotients(x: nat, d: nat, q: nat, r: nat, p: nat, s: nat)
    requires d > 0 && r < d && s < d && x == (d * q + r) + (d * p + s)
    ensures x / d == q + p + (if r + s < d then 0 else 1)
  {
    Distributes(d, q, p);
    if r + s < d {
      QuotientIs(x, d, q + p, r + s);
    } else {
      Distributes(d, q + p, 1);
      QuotientIs(x, d, q + p + 1, r + s - d);
    }
  }

  lemma DivAdd(x: nat, y: nat, d: nat)
    requires d > 0
    ensures (x + y) / d == x / d + y / d + (if x % d + y % d < d then 0 else 1)
  {
    var q, r, p, s := x / d, x % d, y / d, y % d;
    assert x == d * q + r;
    assert y == d * p + s;
    SumOfQuotients(x + y, d, q, r, p, s);
  }

  /** Consecutive picks differ by the floor or the ceiling of `(len - 1) / (max - 1)`. */
  lemma GapIsFloorOrCeiling(i: nat, len: nat, max: nat)
    requires len > 0 && max >= 2
    ensures var gap, floor := Want(i + 1, len, max) - Want(i, len, max), (len - 1) / (max - 1);
            gap == floor || ((len - 1) % (max - 1) > 0 && gap == floor + 1)
  {
    assert (i + 1) * (len - 1) == i * (len - 1) + (len - 1);
    DivAdd(i * (len - 1) + (max - 1) / 2, len - 1, max - 1);
  }

  lemma FirstWant(len: nat, max: nat)
    requires len > 0 && max >= 2
    ensures Want(0, len, max) == 0
  {
    QuotientIs((max - 1) / 2, max - 1, 0, (max - 1) / 2);
  }

  lemma LastQuotient(span: nat, steps: nat)
    requires steps > 0
    ensures (steps * span + steps / 2) / steps == span
  {
    QuotientIs(steps * span + steps / 2, steps, span, steps / 2);
  }

  lemma LastWant(len: nat, max: nat)
    requires len > 0 && max >= 2
    ensures Want(max - 1, len, max) == len - 1
  {
    LastQuotient(len - 1, max - 1);
  }

  lemma FloorIsPositive(span: nat, steps: nat)
    requires 0 < steps <= span
    ensures span / steps >= 1
  {
    ProductGrows(steps, span / steps, 1);
    assert span == steps * (span / steps) + span % steps;
  }

  lemma NextWantIsLater(i: nat, len: nat, max: nat)
    requires 2 <= max <= len
    ensures Want(i, len, max) < Want(i + 1, len, max)
  {
    GapIsFloorOrCeiling(i, len, max);
    FloorIsPositive(len - 1, max - 1);
  }

  /** Picks are strictly increasing when there are no more of them than samples. */
  lemma {:induction false} WantIncreases(i: nat, j: nat, len: nat, max: nat)
    requires 2 <= max <= len && i < j
    ensures Want(i, len, max) < Want(j, len, max)
  {
    NextWantIsLater(j - 1, len, max);
    if i < j - 1 {
      WantIncreases(i, j - 1, len, max);
    }
  }

  lemma WantIsIndex(i: nat, len: nat, max: nat)
    requires 2 <= max <= len && i < max
    ensures Want(i, len, max) < len
  {
    LastWant(len, max);
    if i < max - 1 {
      WantIncreases(i, max - 1, len, max);
    }
  }

  /** Each pick is within half an index of the even spread. */
  lemma WantIsNearest(i: nat, len: nat, max: nat)
    requires len > 0 && max >= 2
    ensures -(max - 1) <= 2 * ((max - 1) * Want(i, len, max) - i * (len - 1)) <= max - 1
  {
    var x := i * (len - 1) + (max - 1) / 2;
    assert x == (max - 1) * (x / (max - 1)) + x % (max - 1);
  }

  // ---------- The streaming loop ----------

  method Thin<T>(samples: seq<T>, max: nat) returns (picked: seq<T>)
    ensures picked == Thinned(samples, max)
  {
    var len := |samples|;
    if len <= max || max < 2 {
      return samples;
    }
    picked := [];
    var next := 0;
    FirstWant(len, max);
    for index := 0 to len
      invariant next < max && |picked| == next
      invariant picked == Thinned(samples, max)[..next]
      invariant index <= Want(next, len, max) < len
    {
      var want := (next * (len - 1) + (max - 1) / 2) / (max - 1);
      if index == want {
        picked := picked + [samples[index]];
        next := next + 1;
        if next == max {
          break;
        }
        WantIncreases(next - 1, next, len, max);
        WantIsIndex(next, len, max);
      }
    }
  }

  // ---------- What thinning keeps ----------

  /** Exactly `max` samples, the first and the last among them, in order and evenly spread. */
  lemma ThinnedIsSpread<T>(samples: seq<T>, max: nat)
    requires |samples| > max >= 2
    ensures |Thinned(samples, max)| == max
    ensures Thinned(samples, max)[0] == samples[0] && Thinned(samples, max)[max - 1] == samples[|samples| - 1]
    ensures forall i :: 0 <= i < max ==>
                          var at := Want(i, |samples|, max);
                          at < |samples| && Thinned(samples, max)[i] == samples[at]
    ensures forall i, j :: 0 <= i < j < max ==> Want(i, |samples|, max) < Want(j, |samples|, max)
  {
    FirstWant(|samples|, max);
    LastWant(|samples|, max);
    forall i | 0 <= i < max ensures Want(i, |samples|, max) < |samples| {
      WantIsIndex(i, |samples|, max);
    }
    forall i, j | 0 <= i < j < max ensures Want(i, |samples|, max) < Want(j, |samples|, max) {
      WantIncreases(i, j, |samples|, max);
    }
  }
}
