/** The push-style sequence protocol shared by every combinator.

    A Go `iter.Seq[V]` calls a receiver (`yield`) once per value and must
    stop the first time the receiver answers `false`. A deterministic receiver
    facing a given stream of values is characterised by how many values it
    accepts before it answers `false`; this module models it that way. */
module Protocol {

  datatype Option<T> = None | Some(value: T)

  /** A receiver that answers `true` to its first `accepts` calls and `false`
      to the call after them. A receiver that never stops, fed by a finite
      source, is one whose `accepts` is at least the source's length. */
  datatype Receiver = Receiver(accepts: nat) {

    /** The answer to the call made after `calls` earlier calls. */
    predicate Answer(calls: nat) {
      calls < accepts
    }

    /** The same receiver once `n` calls have been answered `true`. */
    function After(n: nat): (r: Receiver)
      requires n <= accepts
      ensures forall k: nat :: r.Answer(k) == Answer(n + k)
    {
      Receiver(accepts - n)
    }
  }

  /** The values a receiver is actually called with when a producer offers it
      `out` in order: every value up to and including the first one it answers
      `false`, and nothing after that. */
  function Deliver<T>(out: seq<T>, r: Receiver): (d: seq<T>)
    ensures d <= out
    ensures forall i :: 0 <= i < |d| - 1 ==> r.Answer(i)
    ensures |d| < |out| ==> 0 < |d| && !r.Answer(|d| - 1)
    ensures |d| == |out| || |d| == r.accepts + 1
  {
    if |out| <= r.accepts then out else out[..r.accepts + 1]
  }

  /** Whether the receiver answers `false` somewhere while being offered `out`. */
  predicate Stopped<T>(out: seq<T>, r: Receiver) {
    r.accepts < |out|
  }

  /** A prefix that already holds the value the receiver refused is all it gets. */
  lemma DeliverRefused<T>(emitted: seq<T>, out: seq<T>, r: Receiver)
    requires emitted <= out
    requires |emitted| == r.accepts + 1
    ensures Deliver(out, r) == emitted
    ensures Stopped(out, r)
  {
  }

  /** A source that ends before the receiver refuses anything is delivered whole. */
  lemma DeliverAll<T>(out: seq<T>, r: Receiver)
    requires |out| <= r.accepts
    ensures Deliver(out, r) == out
    ensures !Stopped(out, r)
  {
  }

  /** A callback over a key and a value (a Go `func(K, V) R`) seen as a
      function of one pair, so the key/value forms can reuse the one-value ones. */
  function OnPair<K, V, R>(f: (K, V) -> R): ((K, V)) -> R {
    (p: (K, V)) => f(p.0, p.1)
  }

  /** A source of values: a finite list (a slice, `Of`) or an infinite
      generator (`Repeat`, `Exponential`), given as its i-th value. */
  datatype Source<T> = Finite(items: seq<T>) | Infinite(gen: nat -> T) {

    /** Whether the source produces an i-th value (counting from 0). */
    predicate Has(i: nat) {
      Infinite? || i < |items|
    }

    /** The i-th value the source produces. */
    function At(i: nat): T
      requires Has(i)
    {
      if Finite? then items[i] else gen(i)
    }

    /** The first `n` values of the source, or all of them if it has fewer. */
    function Take(n: nat): (s: seq<T>)
      ensures |s| <= n
      ensures |s| == n || (Finite? && s == items)
      ensures forall i :: 0 <= i < |s| ==> Has(i) && s[i] == At(i)
      ensures !Has(|s|) || |s| == n
    {
      if Finite? then
        (if n <= |items| then items[..n] else items)
      else
        seq(n, i requires 0 <= i < n => gen(i))
    }
  }
}
