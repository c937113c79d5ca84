/** The generators and windowing combinators of iters.go: Of, Repeat,
    Exponential, Trim, jitter/Jitter and MaxElapsedTime.

    Repeat and Exponential never end on their own: their loops stop only when
    the receiver refuses a value, which is what the budget of a `Receiver`
    guarantees. Trim and MaxElapsedTime are the combinators that bound such
    generators, so they take a `Source` that may be infinite. */
module Generators {
  import opened Protocol

  function Min(a: int, b: int): int {
    if a <= b then a else b
  }

  // ---------------------------------------------------------------------
  // Of and Repeat

  /** Of: offers the literal values `vv` in order. */
  method Of<V>(vv: seq<V>, r: Receiver) returns (emitted: seq<V>)
    ensures emitted == Deliver(vv, r)
  {
    emitted := [];
    var i := 0;
    while i < |vv|
      invariant i <= |vv|
      invariant emitted == vv[..i]
      invariant |emitted| <= r.accepts
    {
      var more := r.Answer(|emitted|);
      emitted := emitted + [vv[i]];
      i := i + 1;
      if !more {
        assert emitted == vv[..i];
        DeliverRefused(emitted, vv, r);
        return;
      }
    }
    assert vv[..i] == vv;
    DeliverAll(emitted, r);
  }

  /** The infinite sequence of `v` that Repeat describes. */
  function Repeated<V>(v: V): Source<V> {
    Infinite((i: nat) => v)
  }

  /** Repeat: offers `v` until the receiver refuses it. */
  method Repeat<V>(v: V, r: Receiver) returns (emitted: seq<V>)
    ensures emitted == Repeated(v).Take(r.accepts + 1)
    ensures |emitted| == r.accepts + 1
    ensures forall i :: 0 <= i < |emitted| ==> emitted[i] == v
  {
    emitted := [];
    while true
      invariant |emitted| <= r.accepts
      invariant forall i :: 0 <= i < |emitted| ==> emitted[i] == v
      decreases r.accepts - |emitted|
    {
      var more := r.Answer(|emitted|);
      emitted := emitted + [v];
      if !more {
        return;
      }
    }
  }

  // ---------------------------------------------------------------------
  // Exponential

  /** One step of Exponential: below the ceiling the value grows by `factor`
      but not past `max`; at or above the ceiling it stays. */
  function ExpStep(v: int, max: int, factor: int): int {
    if v < max then Min(max, v * factor) else v
  }

  /** The i-th value of Exponential(start, max, factor). */
  function ExpValue(start: int, max: int, factor: int, i: nat): int {
    if i == 0 then start else ExpStep(ExpValue(start, max, factor, i - 1), max, factor)
  }

  /** The infinite sequence Exponential(start, max, factor) describes. */
  function Exponentials(start: int, max: int, factor: int): Source<int> {
    Infinite((i: nat) => ExpValue(start, max, factor, i))
  }

  /** Exponential: offers start, then keeps growing the value by `factor`
      up to `max`, until the receiver refuses a value. */
  method Exponential(start: int, max: int, factor: int, r: Receiver) returns (emitted: seq<int>)
    ensures emitted == Exponentials(start, max, factor).Take(r.accepts + 1)
    ensures |emitted| == r.accepts + 1 && emitted[0] == start
    ensures start <= max ==> forall i :: 0 <= i < |emitted| ==> emitted[i] <= max
  {
    emitted := [];
    var v := start;
    while true
      invariant |emitted| <= r.accepts
      invariant v == ExpValue(start, max, factor, |emitted|)
      invariant forall i :: 0 <= i < |emitted| ==> emitted[i] == ExpValue(start, max, factor, i)
      decreases r.accepts - |emitted|
    {
      var more := r.Answer(|emitted|);
      emitted := emitted + [v];
      if !more {
        forall i | 0 <= i < |emitted|
          ensures start <= max ==> emitted[i] <= max
        {
          if start <= max {
            ExponentialCeiling(start, max, factor, i);
          }
        }
        return;
      }
      if v < max {
        v := Min(max, v * factor);
      }
    }
  }

  /** If the sequence starts at or below its ceiling, it never exceeds it. */
  lemma {:induction false} ExponentialCeiling(start: int, max: int, factor: int, i: nat)
    requires start <= max
    ensures ExpValue(start, max, factor, i) <= max
  {
    if i > 0 {
      ExponentialCeiling(start, max, factor, i - 1);
    }
  }

  /** Once a value reaches the ceiling, every later value equals it. */
  lemma {:induction false} ExponentialSettles(start: int, max: int, factor: int, i: nat, j: nat)
    requires i <= j
    requires ExpValue(start, max, factor, i) >= max
    ensures ExpValue(start, max, factor, j) == ExpValue(start, max, factor, i)
    decreases j - i
  {
    if i < j {
      ExponentialSettles(start, max, factor, i, j - 1);
    }
  }

  function Pow(b: int, e: nat): int {
    if e == 0 then 1 else b * Pow(b, e - 1)
  }

  lemma {:induction false} PowPositive(b: int, e: nat)
    requires b >= 1
    ensures Pow(b, e) >= 1
  {
    if e > 0 {
      PowPositive(b, e - 1);
      assert b * Pow(b, e - 1) >= Pow(b, e - 1);
    }
  }

  lemma MulRotate(a: int, b: int, c: int)
    ensures a * (b * c) == (a * c) * b
  {
  }

  /** For a non-negative start at or below the ceiling and a factor of at least
      1, the i-th value is start * factor^i capped at max. */
  lemma {:induction false} ExponentialClosedForm(start: int, max: int, factor: int, i: nat)
    requires 0 <= start <= max && factor >= 1
    ensures ExpValue(start, max, factor, i) == Min(max, start * Pow(factor, i))
  {
    if i > 0 {
      ExponentialClosedForm(start, max, factor, i - 1);
      PowPositive(factor, i - 1);
      var p := Pow(factor, i - 1);
      var before := start * p;
      var after := before * factor;
      assert before >= 0;
      assert after >= before;
      assert start * Pow(factor, i) == after by {
        assert Pow(factor, i) == factor * p;
        MulRotate(start, factor, p);
      }
      if before < max {
        assert ExpValue(start, max, factor, i - 1) == before;
      } else {
        assert ExpValue(start, max, factor, i - 1) == max;
      }
    }
  }

  // ---------------------------------------------------------------------
  // Trim

  /** The values Trim(s, count) offers: the first `count` values of `s`, or
      all of them if it has fewer; none if `count <= 0`. */
  function Trimmed<V>(src: Source<V>, count: int): (out: seq<V>)
    ensures count <= 0 ==> out == []
    ensures count > 0 ==> out == src.Take(count)
  {
    if count <= 0 then [] else src.Take(count)
  }

  /** Trim: offers at most `count` values. It learns that the limit is reached
      only when the source offers the value after it, so on a longer source it
      takes one value more than it offers. */
  method Trim<V>(src: Source<V>, count: int, r: Receiver) returns (emitted: seq<V>, pulled: nat)
    ensures emitted == Deliver(Trimmed(src, count), r)
    ensures Stopped(Trimmed(src, count), r) ==> pulled == |emitted|
    ensures !Stopped(Trimmed(src, count), r) ==>
              pulled == |src.Take(if count <= 0 then 1 else count + 1)|
  {
    emitted, pulled := [], 0;
    var n := 0;
    while src.Has(pulled)
      invariant n == pulled == |emitted|
      invariant emitted == src.Take(pulled)
      invariant n <= count || n == 0
      invariant |emitted| <= r.accepts
      decreases count - n
    {
      var v := src.At(pulled);
      pulled := pulled + 1;
      if n >= count {
        assert emitted == Trimmed(src, count);
        DeliverAll(emitted, r);
        return;
      }
      var more := r.Answer(|emitted|);
      emitted := emitted + [v];
      if !more {
        assert emitted == src.Take(pulled);
        DeliverRefused(emitted, Trimmed(src, count), r);
        return;
      }
      n := n + 1;
    }
    assert emitted == Trimmed(src, count);
    DeliverAll(emitted, r);
  }

  /** Trim never offers more than `count` values, and offers exactly `count`
      when the source has that many. */
  lemma TrimBound<V>(src: Source<V>, count: int)
    ensures |Trimmed(src, count)| <= if count <= 0 then 0 else count
    ensures count > 0 && src.Has(count - 1) ==> |Trimmed(src, count)| == count
  {
  }

  /** Trim(Repeat(v), n) is n copies of v. */
  lemma TrimRepeat<V>(v: V, n: nat)
    ensures Trimmed(Repeated(v), n) == seq(n, i => v)
  {
  }

  /** Trim(Exponential(1, 100, 2), 10) is 1, 2, 4, ..., 64, 100, 100, 100. */
  lemma TrimExponentialExample()
    ensures Trimmed(Exponentials(1, 100, 2), 10) == [1, 2, 4, 8, 16, 32, 64, 100, 100, 100]
  {
    var e := Exponentials(1, 100, 2);
    assert ExpValue(1, 100, 2, 6) == 64;
    assert ExpValue(1, 100, 2, 7) == 100;
    ExponentialSettles(1, 100, 2, 7, 8);
    ExponentialSettles(1, 100, 2, 7, 9);
    assert e.Take(10) == [1, 2, 4, 8, 16, 32, 64, 100, 100, 100];
  }

  // ---------------------------------------------------------------------
  // Jitter

  /** jitter(v, factor, random): v moved by factor * v * random; a zero factor
      returns v itself. Floating point is modelled by exact reals. */
  function Jittered(v: real, factor: real, random: real): (j: real)
    ensures j == v * (1.0 + factor * random)
    ensures factor == 0.0 ==> j == v
  {
    if factor == 0.0 then v else v + factor * v * random
  }

  /** With `random` in [-1, 1] the jittered value stays within factor * |v|
      of `v`; a zero factor leaves every value unchanged. */
  lemma JitterBound(v: real, factor: real, random: real)
    requires -1.0 <= random <= 1.0
    ensures factor == 0.0 ==> Jittered(v, factor, random) == v
    ensures -Abs(factor * v) <= Jittered(v, factor, random) - v <= Abs(factor * v)
  {
    var d := factor * v;
    assert Jittered(v, factor, random) - v == d * random;
    if d >= 0.0 {
      assert -d <= d * random <= d;
    } else {
      assert d <= d * random <= -d;
    }
  }

  function Abs(x: real): real {
    if x < 0.0 then -x else x
  }

  /** jitter(2, 0.5, r) for r = -1, 0, 1 gives 1, 2 and 3. */
  lemma JitterExamples()
    ensures Jittered(2.0, 0.5, -1.0) == 1.0
    ensures Jittered(2.0, 0.5, 0.0) == 2.0
    ensures Jittered(2.0, 0.5, 1.0) == 3.0
  {
  }

  /** Jitter: offers every value jittered with a fresh random draw; with a zero
      factor it offers the values unchanged and never draws. `random(i)` is
      the i-th draw of the random source. */
  method Jitter(vv: seq<real>, factor: real, random: nat -> real, r: Receiver)
    returns (emitted: seq<real>, pulled: nat, draws: nat)
    ensures |emitted| == pulled == Min(|vv|, r.accepts + 1)
    ensures forall i :: 0 <= i < |emitted| ==> emitted[i] == Jittered(vv[i], factor, random(i))
    ensures factor == 0.0 ==> emitted == Deliver(vv, r) && draws == 0
    ensures factor != 0.0 ==> draws == |emitted|
  {
    emitted, pulled, draws := [], 0, 0;
    while pulled < |vv|
      invariant pulled <= |vv|
      invariant |emitted| == pulled <= r.accepts
      invariant forall i :: 0 <= i < |emitted| ==> emitted[i] == Jittered(vv[i], factor, random(i))
      invariant draws == if factor == 0.0 then 0 else pulled
    {
      var v := vv[pulled];
      var w := v;
      if factor != 0.0 {
        w := Jittered(v, factor, random(draws));
        draws := draws + 1;
      }
      pulled := pulled + 1;
      var more := r.Answer(|emitted|);
      emitted := emitted + [w];
      if !more {
        assert factor == 0.0 ==> emitted == vv[..pulled];
        return;
      }
    }
    assert factor == 0.0 ==> emitted == vv;
  }

  // ---------------------------------------------------------------------
  // MaxElapsedTime

  /** The number of leading values, among the first `bound`, that the source
      has and whose clock check is within `max`: the position of the first
      value that is missing or late, or `bound` if there is none. */
  function OnTime<V>(src: Source<V>, max: int, elapsed: nat -> int, bound: nat): (n: nat)
    ensures n <= bound
    ensures forall i :: 0 <= i < n ==> src.Has(i) && elapsed(i) <= max
    ensures n < bound ==> !src.Has(n) || elapsed(n) > max
  {
    if bound == 0 then 0
    else
      var n := OnTime(src, max, elapsed, bound - 1);
      if n < bound - 1 then n
      else if src.Has(bound - 1) && elapsed(bound - 1) <= max then bound
      else bound - 1
  }

  /** A clock that is never over `max` lets every value through: the on-time
      prefix is as long as the source allows. */
  lemma {:induction false} OnTimeNeverLate<V>(src: Source<V>, max: int, elapsed: nat -> int, bound: nat)
    requires forall i: nat :: elapsed(i) <= max
    ensures OnTime(src, max, elapsed, bound) == |src.Take(bound)|
  {
    if bound > 0 {
      OnTimeNeverLate(src, max, elapsed, bound - 1);
    }
  }

  /** MaxElapsedTime: offers the source's values while the time elapsed since
      this traversal began stays within `max`. `elapsed(i)` is the elapsed time
      the traversal reads when it checks the clock for the i-th value; the
      first value found late is pulled but not offered. */
  method MaxElapsedTime<V>(src: Source<V>, max: int, elapsed: nat -> int, r: Receiver)
    returns (emitted: seq<V>, pulled: nat)
    ensures emitted == Deliver(src.Take(OnTime(src, max, elapsed, r.accepts + 1)), r)
    ensures |emitted| == r.accepts + 1 ==> pulled == |emitted|
    ensures |emitted| <= r.accepts && src.Has(|emitted|) ==> pulled == |emitted| + 1 && elapsed(|emitted|) > max
    ensures !src.Has(|emitted|) ==> pulled == |emitted|
  {
    emitted, pulled := [], 0;
    while src.Has(pulled)
      invariant pulled == |emitted| <= r.accepts
      invariant emitted == src.Take(|emitted|)
      invariant forall i :: 0 <= i < |emitted| ==> elapsed(i) <= max
      decreases r.accepts - |emitted|
    {
      var v := src.At(pulled);
      pulled := pulled + 1;
      if elapsed(pulled - 1) > max {
        assert OnTime(src, max, elapsed, r.accepts + 1) == |emitted|;
        DeliverAll(emitted, r);
        return;
      }
      var more := r.Answer(|emitted|);
      emitted := emitted + [v];
      if !more {
        assert OnTime(src, max, elapsed, r.accepts + 1) == |emitted|;
        return;
      }
    }
    assert OnTime(src, max, elapsed, r.accepts + 1) == |emitted|;
    DeliverAll(emitted, r);
  }

  /** Over Repeat(v), a receiver that would take more than the clock allows
      gets the values up to the first late check, `k` copies of `v`: the clock
      is what ends the traversal. */
  lemma MaxElapsedStopsRepeat<V>(v: V, max: int, elapsed: nat -> int, k: nat, r: Receiver)
    requires forall i :: 0 <= i < k ==> elapsed(i) <= max
    requires elapsed(k) > max
    requires k <= r.accepts
    ensures Deliver(Repeated(v).Take(OnTime(Repeated(v), max, elapsed, r.accepts + 1)), r) == seq(k, i => v)
  {
    assert OnTime(Repeated(v), max, elapsed, r.accepts + 1) == k;
  }
}
