/** The retry generator of retry.go: RetryAfterDelay turns a schedule of
    delays into (attempt, delay) pairs numbered from 1, and Retry puts an
    immediate (0, 0) attempt in front of them.

    Waiting is not modelled in time. The `select` between `ctx.Done()` and
    `time.After(delay)` is an oracle: `cancel(i)` says whether cancellation
    won the race at the i-th wait. Durations are integers (nanoseconds). */
module Retry {
  import opened Protocol
  import Generators

  /** The three ways a retry traversal ends: the schedule ran out, cancellation
      won a wait, or the receiver refused a pair. */
  datatype Ending = Exhausted | Cancelled | Refused

  /** The delays of `d` numbered as attempts 1, 2, 3, ... */
  function Numbered(d: seq<int>): (out: seq<(int, int)>)
    ensures |out| == |d|
    ensures forall i :: 0 <= i < |d| ==> out[i] == (i + 1, d[i])
  {
    seq(|d|, i requires 0 <= i < |d| => (i + 1, d[i]))
  }

  /** The index of the first of the first `n` waits that cancellation wins,
      or `n` if it wins none of them. */
  function FirstCancel(cancel: nat -> bool, n: nat): (c: nat)
    ensures c <= n
    ensures forall i :: 0 <= i < c ==> !cancel(i)
    ensures c < n ==> cancel(c)
  {
    if n == 0 then 0
    else
      var c := FirstCancel(cancel, n - 1);
      if c < n - 1 then c else if cancel(n - 1) then n - 1 else n
  }

  /** The pairs RetryAfterDelay offers its receiver: one per delay, numbered
      from 1, up to the first wait cancellation wins and at most up to the
      pair the receiver refuses. A nil schedule offers nothing. */
  function AfterDelayEmits(delays: Option<Source<int>>, cancel: nat -> bool, r: Receiver): seq<(int, int)> {
    if delays.None? then []
    else
      var offered := delays.value.Take(r.accepts + 1);
      Numbered(offered[..FirstCancel(cancel, |offered|)])
  }

  /** The pairs Retry offers its receiver: (0, 0), then, if the receiver wants
      more, what RetryAfterDelay offers the rest of it. */
  function RetryEmits(delays: Option<Source<int>>, cancel: nat -> bool, r: Receiver): seq<(int, int)> {
    [(0, 0)] + if r.accepts == 0 then [] else AfterDelayEmits(delays, cancel, r.After(1))
  }

  /** When the run ends at delay `k` (cancellation wins the wait for it, the
      schedule has no delay `k`, or the receiver refused the pair before it),
      what RetryAfterDelay offered is the first `k` delays, numbered. */
  lemma AfterDelayStops(src: Source<int>, cancel: nat -> bool, r: Receiver, k: nat)
    requires k <= r.accepts + 1
    requires forall i :: 0 <= i < k ==> !cancel(i)
    requires k == r.accepts + 1 || !src.Has(k) || cancel(k)
    ensures AfterDelayEmits(Some(src), cancel, r) == Numbered(src.Take(k))
  {
    var offered := src.Take(r.accepts + 1);
    if k < |offered| {
      assert FirstCancel(cancel, |offered|) == k;
      assert offered[..k] == src.Take(k);
    } else {
      assert offered == src.Take(k);
      assert offered[..FirstCancel(cancel, |offered|)] == offered;
    }
  }

  /** RetryAfterDelay: for every delay pulled from the schedule, waits; if
      cancellation wins the wait it ends, otherwise it offers (attempt, delay)
      and counts the attempt. `pulled` is the number of delays it took. */
  method RetryAfterDelay(delays: Option<Source<int>>, cancel: nat -> bool, r: Receiver)
    returns (emitted: seq<(int, int)>, pulled: nat, ending: Ending)
    ensures emitted == AfterDelayEmits(delays, cancel, r)
    ensures delays.None? ==> emitted == [] && pulled == 0 && ending == Exhausted
    ensures delays.Some? ==> forall i :: 0 <= i < |emitted| ==>
              delays.value.Has(i) && emitted[i] == (i + 1, delays.value.At(i)) && !cancel(i)
    ensures ending == Exhausted ==>
              |emitted| <= r.accepts && pulled == |emitted| && (delays.None? || !delays.value.Has(pulled))
    ensures ending == Cancelled ==>
              |emitted| <= r.accepts && delays.Some? && delays.value.Has(|emitted|) && pulled == |emitted| + 1 && cancel(|emitted|)
    ensures ending == Refused ==> pulled == |emitted| == r.accepts + 1
  {
    if delays.None? {
      return [], 0, Exhausted;
    }
    var src := delays.value;
    emitted, pulled := [], 0;
    var attempts := 1;
    while src.Has(pulled)
      invariant pulled == |emitted| <= r.accepts
      invariant attempts == pulled + 1
      invariant emitted == Numbered(src.Take(pulled))
      invariant forall i :: 0 <= i < pulled ==> !cancel(i)
      decreases r.accepts - |emitted|
    {
      var delay := src.At(pulled);
      pulled := pulled + 1;
      if cancel(pulled - 1) {
        // ctx.Done() won the select: end without offering this attempt
        AfterDelayStops(src, cancel, r, pulled - 1);
        return emitted, pulled, Cancelled;
      }
      var more := r.Answer(|emitted|);
      emitted := emitted + [(attempts, delay)];
      assert src.Take(pulled) == src.Take(pulled - 1) + [delay];
      if !more {
        AfterDelayStops(src, cancel, r, pulled);
        return emitted, pulled, Refused;
      }
      attempts := attempts + 1;
    }
    AfterDelayStops(src, cancel, r, pulled);
    ending := Exhausted;
  }

  /** Retry: offers (0, 0) before touching the schedule; if the receiver wants
      more, forwards what RetryAfterDelay offers. Retry's loop body answers
      RetryAfterDelay's j-th call with its own receiver's answer to call j + 1,
      which is the receiver `r.After(1)`. */
  method Retry(delays: Option<Source<int>>, cancel: nat -> bool, r: Receiver)
    returns (emitted: seq<(int, int)>, pulled: nat, ending: Ending)
    ensures emitted == RetryEmits(delays, cancel, r)
    ensures emitted[0] == (0, 0)
    ensures r.accepts == 0 ==> emitted == [(0, 0)] && pulled == 0 && ending == Refused
    ensures r.accepts > 0 ==> emitted[1..] == AfterDelayEmits(delays, cancel, r.After(1))
    ensures delays.None? ==> emitted == [(0, 0)]
    ensures ending == Exhausted ==>
              |emitted| <= r.accepts && pulled == |emitted| - 1 && (delays.None? || !delays.value.Has(pulled))
    ensures ending == Cancelled ==>
              |emitted| <= r.accepts && delays.Some? && delays.value.Has(|emitted| - 1) && pulled == |emitted| && cancel(|emitted| - 1)
    ensures ending == Refused ==> pulled == |emitted| - 1 && |emitted| == r.accepts + 1
  {
    emitted := [(0, 0)];
    if !r.Answer(0) {
      return emitted, 0, Refused;
    }
    var rest;
    rest, pulled, ending := RetryAfterDelay(delays, cancel, r.After(1));
    emitted := emitted + rest;
  }

  // ---------------------------------------------------------------------
  // Properties

  /** With n delays, no cancellation and a receiver that takes everything,
      Retry offers n + 1 pairs: (0, 0), then (i, d_i) for i = 1..n. */
  lemma RetryAllDelays(d: seq<int>, cancel: nat -> bool, r: Receiver)
    requires forall i :: 0 <= i < |d| ==> !cancel(i)
    requires |d| < r.accepts
    ensures RetryEmits(Some(Finite(d)), cancel, r) == [(0, 0)] + Numbered(d)
    ensures |RetryEmits(Some(Finite(d)), cancel, r)| == |d| + 1
  {
  }

  /** If cancellation wins the wait before attempt c + 1, no pair with an
      attempt number above c is offered. */
  lemma RetryCancelStops(delays: Option<Source<int>>, cancel: nat -> bool, r: Receiver, c: nat)
    requires cancel(c)
    ensures |RetryEmits(delays, cancel, r)| <= c + 1
    ensures forall i :: 0 <= i < |RetryEmits(delays, cancel, r)| ==> RetryEmits(delays, cancel, r)[i].0 <= c
  {
  }

  const Millisecond: int := 1_000_000

  /** Retry over Trim(Repeat(100ms), 10) offers (0, 0), then (1, 100ms) ...
      (10, 100ms). */
  lemma RetryTenExample(r: Receiver)
    requires r.accepts > 10
    ensures RetryEmits(Some(Finite(Generators.Trimmed(Generators.Repeated(100 * Millisecond), 10))), (i: nat) => false, r)
         == [(0, 0)] + seq(10, (i: int) => (i + 1, 100 * Millisecond))
  {
  }

  /** Retry over Trim(Exponential(1ms, 1s, 2), 5), with a receiver that stops
      after attempt 5, offers (0, 0), (1, 1ms), (2, 2ms), (3, 4ms), (4, 8ms),
      (5, 16ms). */
  lemma RetryBreakExample()
    ensures RetryEmits(Some(Finite(Generators.Trimmed(Generators.Exponentials(Millisecond, 1000 * Millisecond, 2), 5))),
                       (i: nat) => false, Receiver(5))
         == [(0, 0), (1, Millisecond), (2, 2 * Millisecond), (3, 4 * Millisecond), (4, 8 * Millisecond), (5, 16 * Millisecond)]
  {
    var e := Generators.Exponentials(Millisecond, 1000 * Millisecond, 2);
    var d := Generators.Trimmed(e, 5);
    assert Generators.ExpValue(Millisecond, 1000 * Millisecond, 2, 1) == 2 * Millisecond;
    assert Generators.ExpValue(Millisecond, 1000 * Millisecond, 2, 2) == 4 * Millisecond;
    assert Generators.ExpValue(Millisecond, 1000 * Millisecond, 2, 3) == 8 * Millisecond;
    assert Generators.ExpValue(Millisecond, 1000 * Millisecond, 2, 4) == 16 * Millisecond;
    assert d == [Millisecond, 2 * Millisecond, 4 * Millisecond, 8 * Millisecond, 16 * Millisecond];
    var offered := Finite(d).Take(5);
    assert offered == d;
    assert FirstCancel((i: nat) => false, 5) == 5;
    assert offered[..5] == d;
  }

  /** Retry over Repeat(100ms) with a context cancelled before the first wait
      offers (0, 0) only. */
  lemma RetryCancelledExample(r: Receiver)
    ensures RetryEmits(Some(Generators.Repeated(100 * Millisecond)), (i: nat) => true, r) == [(0, 0)]
  {
    RetryCancelStops(Some(Generators.Repeated(100 * Millisecond)), (i: nat) => true, r, 0);
  }
}
