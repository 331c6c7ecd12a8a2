/**
 Reductions over finite sequences of numbers: the maximum, minimum and average that
 the Java streams `max()`, `min()` and `average()` compute. A stream reduction yields
 no value (an empty `OptionalDouble` / `OptionalInt`) for an empty stream; here that
 is `None`. Temperatures are `real`, humidities are `int`, so each reduction comes in
 both flavours.
 */
module Aggregates {
  import opened Options

  /** Sum of a sequence of reals, from the front. */
  function Sum(s: seq<real>): real
  {
    if |s| == 0 then 0.0 else s[0] + Sum(s[1..])
  }

  /** Sum of a sequence of integers, from the front. */
  function IntSum(s: seq<int>): int
  {
    if |s| == 0 then 0 else s[0] + IntSum(s[1..])
  }

  /** The largest element: one of the elements, and no element exceeds it. */
  function Max(s: seq<real>): (m: real)
    requires |s| > 0
    ensures m in s
    ensures forall i :: 0 <= i < |s| ==> s[i] <= m
  {
    if |s| == 1 then s[0]
    else
      var rest := Max(s[1..]);
      if s[0] >= rest then s[0] else rest
  }

  /** The smallest element: one of the elements, and no element is below it. */
  function Min(s: seq<real>): (m: real)
    requires |s| > 0
    ensures m in s
    ensures forall i :: 0 <= i < |s| ==> m <= s[i]
  {
    if |s| == 1 then s[0]
    else
      var rest := Min(s[1..]);
      if s[0] <= rest then s[0] else rest
  }

  /** The largest integer element. */
  function IntMax(s: seq<int>): (m: int)
    requires |s| > 0
    ensures m in s
    ensures forall i :: 0 <= i < |s| ==> s[i] <= m
  {
    if |s| == 1 then s[0]
    else
      var rest := IntMax(s[1..]);
      if s[0] >= rest then s[0] else rest
  }

  /** The smallest integer element. */
  function IntMin(s: seq<int>): (m: int)
    requires |s| > 0
    ensures m in s
    ensures forall i :: 0 <= i < |s| ==> m <= s[i]
  {
    if |s| == 1 then s[0]
    else
      var rest := IntMin(s[1..]);
      if s[0] <= rest then s[0] else rest
  }

  /** A lower bound on every element bounds the sum from below by count times bound. */
  lemma {:induction false} SumAtLeast(s: seq<real>, lo: real)
    requires forall i :: 0 <= i < |s| ==> lo <= s[i]
    ensures (|s| as real) * lo <= Sum(s)
  {
    if |s| > 0 {
      SumAtLeast(s[1..], lo);
      assert (|s| as real) * lo == lo + (|s[1..]| as real) * lo;
    }
  }

  /** An upper bound on every element bounds the sum from above by count times bound. */
  lemma {:induction false} SumAtMost(s: seq<real>, hi: real)
    requires forall i :: 0 <= i < |s| ==> s[i] <= hi
    ensures Sum(s) <= (|s| as real) * hi
  {
    if |s| > 0 {
      SumAtMost(s[1..], hi);
      assert (|s| as real) * hi == hi + (|s[1..]| as real) * hi;
    }
  }

  /** Bounds on every element of a non-empty sequence bound its arithmetic mean. */
  lemma MeanWithin(s: seq<real>, lo: real, hi: real)
    requires |s| > 0
    requires forall i :: 0 <= i < |s| ==> lo <= s[i] <= hi
    ensures lo <= Sum(s) / (|s| as real) <= hi
  {
    SumAtLeast(s, lo);
    SumAtMost(s, hi);
    QuotientBetween(lo, Sum(s), hi, |s| as real);
  }

  /** If `n * lo <= total <= n * hi` with `n` positive, then `lo <= total / n <= hi`. */
  lemma QuotientBetween(lo: real, total: real, hi: real, n: real)
    requires n > 0.0
    requires n * lo <= total <= n * hi
    ensures lo <= total / n <= hi
  {
  }

  /** Summing two sequences pointwise ordered keeps the order. */
  lemma {:induction false} SumMonotone(a: seq<real>, b: seq<real>)
    requires |a| == |b|
    requires forall i :: 0 <= i < |a| ==> a[i] <= b[i]
    ensures Sum(a) <= Sum(b)
  {
    if |a| > 0 {
      SumMonotone(a[1..], b[1..]);
    }
  }

  /** Integer counterpart of `SumAtLeast`. */
  lemma {:induction false} IntSumAtLeast(s: seq<int>, lo: int)
    requires forall i :: 0 <= i < |s| ==> lo <= s[i]
    ensures |s| * lo <= IntSum(s)
  {
    if |s| > 0 {
      IntSumAtLeast(s[1..], lo);
      assert |s| * lo == lo + |s[1..]| * lo;
    }
  }

  /** Integer counterpart of `SumAtMost`. */
  lemma {:induction false} IntSumAtMost(s: seq<int>, hi: int)
    requires forall i :: 0 <= i < |s| ==> s[i] <= hi
    ensures IntSum(s) <= |s| * hi
  {
    if |s| > 0 {
      IntSumAtMost(s[1..], hi);
      assert |s| * hi == hi + |s[1..]| * hi;
    }
  }

  /** Integer counterpart of `MeanWithin`. */
  lemma IntMeanWithin(s: seq<int>, lo: int, hi: int)
    requires |s| > 0
    requires forall i :: 0 <= i < |s| ==> lo <= s[i] <= hi
    ensures lo as real <= (IntSum(s) as real) / (|s| as real) <= hi as real
  {
    IntSumAtLeast(s, lo);
    IntSumAtMost(s, hi);
    QuotientBetween(lo as real, IntSum(s) as real, hi as real, |s| as real);
  }

  // ---------------------------------------------------------------------------
  // Stream reductions

  /** `DoubleStream.max()`: no value for an empty stream, else the largest element. */
  function StreamMax(s: seq<real>): (r: Option<real>)
    ensures r.None? <==> |s| == 0
    ensures r.Some? ==> r.value in s && forall i :: 0 <= i < |s| ==> s[i] <= r.value
  {
    if |s| == 0 then None else Some(Max(s))
  }

  /** `DoubleStream.min()`: no value for an empty stream, else the smallest element. */
  function StreamMin(s: seq<real>): (r: Option<real>)
    ensures r.None? <==> |s| == 0
    ensures r.Some? ==> r.value in s && forall i :: 0 <= i < |s| ==> r.value <= s[i]
  {
    if |s| == 0 then None else Some(Min(s))
  }

  /** `IntStream.max()`. */
  function IntStreamMax(s: seq<int>): (r: Option<int>)
    ensures r.None? <==> |s| == 0
    ensures r.Some? ==> r.value in s && forall i :: 0 <= i < |s| ==> s[i] <= r.value
  {
    if |s| == 0 then None else Some(IntMax(s))
  }

  /** `IntStream.min()`. */
  function IntStreamMin(s: seq<int>): (r: Option<int>)
    ensures r.None? <==> |s| == 0
    ensures r.Some? ==> r.value in s && forall i :: 0 <= i < |s| ==> r.value <= s[i]
  {
    if |s| == 0 then None else Some(IntMin(s))
  }

  /** The running total and count an average accumulates, element by element from the front. */
  function Accumulate(s: seq<real>, total: real, count: nat): (real, nat)
  {
    if |s| == 0 then (total, count) else Accumulate(s[1..], total + s[0], count + 1)
  }

  /** Accumulating from a running state adds the sum and the length of what remains. */
  lemma {:induction false} AccumulateSums(s: seq<real>, total: real, count: nat)
    ensures Accumulate(s, total, count) == (total + Sum(s), count + |s|)
  {
    if |s| > 0 {
      AccumulateSums(s[1..], total + s[0], count + 1);
    }
  }

  /**
   `DoubleStream.average()`: no value for an empty stream, else the sum of every
   element divided by how many there are.
   */
  function StreamAverage(s: seq<real>): (r: Option<real>)
    ensures r.None? <==> |s| == 0
    ensures r.Some? ==> r.value == Sum(s) / (|s| as real)
  {
    var acc := Accumulate(s, 0.0, 0);
    AccumulateSums(s, 0.0, 0);
    if acc.1 == 0 then None else Some(acc.0 / (acc.1 as real))
  }

  /** The running integer total and count of an `IntStream` average. */
  function IntAccumulate(s: seq<int>, total: int, count: nat): (int, nat)
  {
    if |s| == 0 then (total, count) else IntAccumulate(s[1..], total + s[0], count + 1)
  }

  lemma {:induction false} IntAccumulateSums(s: seq<int>, total: int, count: nat)
    ensures IntAccumulate(s, total, count) == (total + IntSum(s), count + |s|)
  {
    if |s| > 0 {
      IntAccumulateSums(s[1..], total + s[0], count + 1);
    }
  }

  /**
   `IntStream.average()`: no value for an empty stream, else the integer sum divided,
   as a real, by the count.
   */
  function IntStreamAverage(s: seq<int>): (r: Option<real>)
    ensures r.None? <==> |s| == 0
    ensures r.Some? ==> r.value == (IntSum(s) as real) / (|s| as real)
  {
    var acc := IntAccumulate(s, 0, 0);
    IntAccumulateSums(s, 0, 0);
    if acc.1 == 0 then None else Some((acc.0 as real) / (acc.1 as real))
  }
}
