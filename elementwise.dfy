/** Element-wise combinators of iters.go: filtering, mapping and the
    conversions between single-value and key/value sequences.

    Each combinator is a method that runs one traversal: it ranges over its
    source `s`, offers values to the receiver `r`, and returns what the
    receiver was called with (`emitted`) and how many source values it took
    (`pulled`). A refusal from the receiver ends the traversal, and `pulled`
    shows that the source was not asked for anything more. */
module Elementwise {
  import opened Protocol

  /** The values of `s` that satisfy `f`, in order. */
  function Filtered<T>(s: seq<T>, f: T -> bool): (out: seq<T>)
    ensures |out| <= |s|
  {
    if s == [] then [] else (if f(s[0]) then [s[0]] else []) + Filtered(s[1..], f)
  }

  /** `f` applied to every value of `s`. */
  function Mapped<A, B>(s: seq<A>, f: A -> B): (out: seq<B>)
    ensures |out| == |s|
    ensures forall i :: 0 <= i < |s| ==> out[i] == f(s[i])
  {
    seq(|s|, i requires 0 <= i < |s| => f(s[i]))
  }

  /** Every value of `s` paired with its 0-based position. */
  function Enumerated<V>(s: seq<V>): (out: seq<(int, V)>)
    ensures |out| == |s|
    ensures forall i :: 0 <= i < |s| ==> out[i] == (i, s[i])
  {
    seq(|s|, i requires 0 <= i < |s| => (i, s[i]))
  }

  // ---------------------------------------------------------------------
  // Properties of the specification functions

  /** Filtering distributes over concatenation: it keeps the order of the
      input and decides every value on its own. */
  lemma {:induction false} FilteredAppend<T>(a: seq<T>, b: seq<T>, f: T -> bool)
    ensures Filtered(a + b, f) == Filtered(a, f) + Filtered(b, f)
  {
    if a == [] {
      assert a + b == b;
    } else {
      var head := if f(a[0]) then [a[0]] else [];
      assert (a + b)[0] == a[0] && (a + b)[1..] == a[1..] + b;
      FilteredAppend(a[1..], b, f);
      calc {
        Filtered(a + b, f);
        head + Filtered(a[1..] + b, f);
        head + (Filtered(a[1..], f) + Filtered(b, f));
        (head + Filtered(a[1..], f)) + Filtered(b, f);
      }
    }
  }

  /** Filtering a prefix and the rest of a sequence gives the whole filter. */
  lemma FilteredSplit<T>(s: seq<T>, n: nat, f: T -> bool)
    requires n <= |s|
    ensures Filtered(s[..n], f) + Filtered(s[n..], f) == Filtered(s, f)
  {
    assert s == s[..n] + s[n..];
    FilteredAppend(s[..n], s[n..], f);
  }

  /** Filtering emits exactly the values satisfying `f`, each as often as it
      occurs in the input. */
  lemma {:induction false} FilteredCounts<T>(s: seq<T>, f: T -> bool)
    ensures forall x :: multiset(Filtered(s, f))[x] == if f(x) then multiset(s)[x] else 0
  {
    if s != [] {
      FilteredCounts(s[1..], f);
      assert s == [s[0]] + s[1..];
    }
  }

  /** A value is emitted by a filter exactly when it is in the input and
      satisfies the predicate. */
  lemma FilteredMembers<T>(s: seq<T>, f: T -> bool, x: T)
    ensures x in Filtered(s, f) <==> x in s && f(x)
  {
  }

  /** Mapping then filtering equals filtering on the composed predicate `q`
      then mapping, so the two pipelines also count the same number of values. */
  lemma {:induction false} FilterMapCommute<A, B>(s: seq<A>, g: A -> B, p: B -> bool, q: A -> bool)
    requires forall x :: q(x) == p(g(x))
    ensures Filtered(Mapped(s, g), p) == Mapped(Filtered(s, q), g)
    ensures |Filtered(Mapped(s, g), p)| == |Filtered(s, q)|
  {
    if s != [] {
      FilterMapCommute(s[1..], g, p, q);
      assert Mapped(s, g)[1..] == Mapped(s[1..], g);
      var head := if q(s[0]) then [s[0]] else [];
      assert Mapped(head + Filtered(s[1..], q), g) == Mapped(head, g) + Mapped(Filtered(s[1..], q), g);
    }
  }

  // ---------------------------------------------------------------------
  // Combinators

  /** Filter: offers the values satisfying `f`, in order; returns as soon as the
      receiver refuses one. */
  method Filter<V>(s: seq<V>, f: V -> bool, r: Receiver) returns (emitted: seq<V>, pulled: nat)
    ensures emitted == Deliver(Filtered(s, f), r)
    ensures pulled <= |s|
    ensures emitted == Filtered(s[..pulled], f)
    ensures emitted + Filtered(s[pulled..], f) == Filtered(s, f)
    ensures !Stopped(Filtered(s, f), r) ==> pulled == |s|
    ensures Stopped(Filtered(s, f), r) ==> 0 < pulled && f(s[pulled - 1])
  {
    emitted, pulled := [], 0;
    while pulled < |s|
      invariant pulled <= |s|
      invariant emitted == Filtered(s[..pulled], f)
      invariant |emitted| <= r.accepts
    {
      var v := s[pulled];
      assert s[..pulled + 1] == s[..pulled] + [v];
      FilteredAppend(s[..pulled], [v], f);
      pulled := pulled + 1;
      if f(v) {
        var more := r.Answer(|emitted|);
        emitted := emitted + [v];
        if !more {
          FilteredSplit(s, pulled, f);
          DeliverRefused(emitted, Filtered(s, f), r);
          return;
        }
      }
    }
    assert s[..pulled] == s;
    FilteredSplit(s, pulled, f);
    DeliverAll(emitted, r);
  }

  /** Filter2: the same filter over a key/value sequence, deciding on the pair. */
  method Filter2<K, V>(s: seq<(K, V)>, f: (K, V) -> bool, r: Receiver)
    returns (emitted: seq<(K, V)>, pulled: nat)
    ensures emitted == Deliver(Filtered(s, OnPair(f)), r)
    ensures forall i :: 0 <= i < |emitted| ==> f(emitted[i].0, emitted[i].1)
    ensures pulled <= |s|
    ensures emitted == Filtered(s[..pulled], OnPair(f))
    ensures !Stopped(Filtered(s, OnPair(f)), r) ==> pulled == |s|
    ensures Stopped(Filtered(s, OnPair(f)), r) ==> 0 < pulled && f(s[pulled - 1].0, s[pulled - 1].1)
  {
    emitted, pulled := Filter(s, OnPair(f), r);
    forall i | 0 <= i < |emitted|
      ensures f(emitted[i].0, emitted[i].1)
    {
      FilteredMembers(s, OnPair(f), emitted[i]);
    }
  }

  /** NotNil: drops nil references (`None`) and keeps the rest in order. */
  method NotNil<V>(s: seq<Option<V>>, r: Receiver) returns (emitted: seq<Option<V>>, pulled: nat)
    ensures emitted == Deliver(Filtered(s, (p: Option<V>) => p.Some?), r)
    ensures forall i :: 0 <= i < |emitted| ==> emitted[i].Some?
    ensures pulled <= |s|
    ensures emitted == Filtered(s[..pulled], (p: Option<V>) => p.Some?)
    ensures !Stopped(Filtered(s, (p: Option<V>) => p.Some?), r) ==> pulled == |s|
    ensures Stopped(Filtered(s, (p: Option<V>) => p.Some?), r) ==> 0 < pulled && s[pulled - 1].Some?
  {
    emitted, pulled := Filter(s, (p: Option<V>) => p.Some?, r);
    forall i | 0 <= i < |emitted|
      ensures emitted[i].Some?
    {
      FilteredMembers(s, (p: Option<V>) => p.Some?, emitted[i]);
    }
  }

  /** NotNilValues: drops the pairs whose value is a nil reference. */
  method NotNilValues<K, V>(s: seq<(K, Option<V>)>, r: Receiver)
    returns (emitted: seq<(K, Option<V>)>, pulled: nat)
    ensures emitted == Deliver(Filtered(s, (p: (K, Option<V>)) => p.1.Some?), r)
    ensures forall i :: 0 <= i < |emitted| ==> emitted[i].1.Some?
    ensures pulled <= |s|
    ensures emitted == Filtered(s[..pulled], (p: (K, Option<V>)) => p.1.Some?)
    ensures !Stopped(Filtered(s, (p: (K, Option<V>)) => p.1.Some?), r) ==> pulled == |s|
    ensures Stopped(Filtered(s, (p: (K, Option<V>)) => p.1.Some?), r) ==> 0 < pulled && s[pulled - 1].1.Some?
  {
    emitted, pulled := Filter(s, (p: (K, Option<V>)) => p.1.Some?, r);
    forall i | 0 <= i < |emitted|
      ensures emitted[i].1.Some?
    {
      FilteredMembers(s, (p: (K, Option<V>)) => p.1.Some?, emitted[i]);
    }
  }

  /** NotEmpty: drops the values equal to the type's zero value `zero`. */
  method NotEmpty<V(==)>(s: seq<V>, zero: V, r: Receiver) returns (emitted: seq<V>, pulled: nat)
    ensures emitted == Deliver(Filtered(s, (v: V) => v != zero), r)
    ensures zero !in emitted
    ensures pulled <= |s|
    ensures emitted == Filtered(s[..pulled], (v: V) => v != zero)
    ensures !Stopped(Filtered(s, (v: V) => v != zero), r) ==> pulled == |s|
    ensures Stopped(Filtered(s, (v: V) => v != zero), r) ==> 0 < pulled && s[pulled - 1] != zero
  {
    emitted, pulled := Filter(s, (v: V) => v != zero, r);
    if zero in emitted {
      FilteredMembers(s, (v: V) => v != zero, zero);
    }
  }

  /** NotEmptyValues: drops the pairs whose value is the zero value `zero`. */
  method NotEmptyValues<K, V(==)>(s: seq<(K, V)>, zero: V, r: Receiver)
    returns (emitted: seq<(K, V)>, pulled: nat)
    ensures emitted == Deliver(Filtered(s, (p: (K, V)) => p.1 != zero), r)
    ensures forall i :: 0 <= i < |emitted| ==> emitted[i].1 != zero
    ensures pulled <= |s|
    ensures emitted == Filtered(s[..pulled], (p: (K, V)) => p.1 != zero)
    ensures !Stopped(Filtered(s, (p: (K, V)) => p.1 != zero), r) ==> pulled == |s|
    ensures Stopped(Filtered(s, (p: (K, V)) => p.1 != zero), r) ==> 0 < pulled && s[pulled - 1].1 != zero
  {
    emitted, pulled := Filter(s, (p: (K, V)) => p.1 != zero, r);
    forall i | 0 <= i < |emitted|
      ensures emitted[i].1 != zero
    {
      FilteredMembers(s, (p: (K, V)) => p.1 != zero, emitted[i]);
    }
  }

  /** Map: offers `f(v)` for every source value `v`, one pull per offer. */
  method Map<V1, V2>(s: seq<V1>, f: V1 -> V2, r: Receiver) returns (emitted: seq<V2>, pulled: nat)
    ensures emitted == Deliver(Mapped(s, f), r)
    ensures pulled == |emitted|
  {
    emitted, pulled := [], 0;
    while pulled < |s|
      invariant pulled <= |s|
      invariant emitted == Mapped(s[..pulled], f)
      invariant |emitted| <= r.accepts
    {
      var v := s[pulled];
      var more := r.Answer(|emitted|);
      emitted := emitted + [f(v)];
      pulled := pulled + 1;
      if !more {
        assert Mapped(s, f) == emitted + Mapped(s[pulled..], f);
        DeliverRefused(emitted, Mapped(s, f), r);
        return;
      }
    }
    assert s[..pulled] == s;
    DeliverAll(emitted, r);
  }

  /** Map2: maps every pair with `f`, which may change both components. */
  method Map2<K1, V1, K2, V2>(s: seq<(K1, V1)>, f: (K1, V1) -> (K2, V2), r: Receiver)
    returns (emitted: seq<(K2, V2)>, pulled: nat)
    ensures emitted == Deliver(Mapped(s, OnPair(f)), r)
    ensures forall i :: 0 <= i < |emitted| ==> emitted[i] == f(s[i].0, s[i].1)
    ensures pulled == |emitted|
  {
    emitted, pulled := Map(s, OnPair(f), r);
  }

  /** MapValues: maps the value of every pair and leaves its key untouched. */
  method MapValues<K, V1, V2>(s: seq<(K, V1)>, f: V1 -> V2, r: Receiver)
    returns (emitted: seq<(K, V2)>, pulled: nat)
    ensures emitted == Deliver(Mapped(s, (p: (K, V1)) => (p.0, f(p.1))), r)
    ensures forall i :: 0 <= i < |emitted| ==> emitted[i].0 == s[i].0 && emitted[i].1 == f(s[i].1)
    ensures pulled == |emitted|
  {
    emitted, pulled := Map(s, (p: (K, V1)) => (p.0, f(p.1)), r);
  }

  /** MapKeys: maps the key of every pair and leaves its value untouched. */
  method MapKeys<K1, K2, V>(s: seq<(K1, V)>, f: K1 -> K2, r: Receiver)
    returns (emitted: seq<(K2, V)>, pulled: nat)
    ensures emitted == Deliver(Mapped(s, (p: (K1, V)) => (f(p.0), p.1)), r)
    ensures forall i :: 0 <= i < |emitted| ==> emitted[i].0 == f(s[i].0) && emitted[i].1 == s[i].1
    ensures pulled == |emitted|
  {
    emitted, pulled := Map(s, (p: (K1, V)) => (f(p.0), p.1), r);
  }

  /** WithKeys: pairs every value with the key `f` derives from it. */
  method WithKeys<K, V>(s: seq<V>, f: V -> K, r: Receiver) returns (emitted: seq<(K, V)>, pulled: nat)
    ensures emitted == Deliver(Mapped(s, (v: V) => (f(v), v)), r)
    ensures forall i :: 0 <= i < |emitted| ==> emitted[i] == (f(s[i]), s[i])
    ensures pulled == |emitted|
  {
    emitted, pulled := Map(s, (v: V) => (f(v), v), r);
  }

  /** ToSeq2: splits every value into a pair with `f`. */
  method ToSeq2<T, K, V>(s: seq<T>, f: T -> (K, V), r: Receiver) returns (emitted: seq<(K, V)>, pulled: nat)
    ensures emitted == Deliver(Mapped(s, f), r)
    ensures forall i :: 0 <= i < |emitted| ==> emitted[i] == f(s[i])
    ensures pulled == |emitted|
  {
    emitted, pulled := Map(s, f, r);
  }

  /** Values: drops the key of every pair. */
  method Values<K, V>(s: seq<(K, V)>, r: Receiver) returns (emitted: seq<V>, pulled: nat)
    ensures emitted == Deliver(Mapped(s, (p: (K, V)) => p.1), r)
    ensures forall i :: 0 <= i < |emitted| ==> emitted[i] == s[i].1
    ensures pulled == |emitted|
  {
    emitted, pulled := Map(s, (p: (K, V)) => p.1, r);
  }

  /** Keys: drops the value of every pair. */
  method Keys<K, V>(s: seq<(K, V)>, r: Receiver) returns (emitted: seq<K>, pulled: nat)
    ensures emitted == Deliver(Mapped(s, (p: (K, V)) => p.0), r)
    ensures forall i :: 0 <= i < |emitted| ==> emitted[i] == s[i].0
    ensures pulled == |emitted|
  {
    emitted, pulled := Map(s, (p: (K, V)) => p.0, r);
  }

  /** WithIndex: pairs every value with a running counter that starts at 0
      on every traversal. */
  method WithIndex<V>(s: seq<V>, r: Receiver) returns (emitted: seq<(int, V)>, pulled: nat)
    ensures emitted == Deliver(Enumerated(s), r)
    ensures forall i :: 0 <= i < |emitted| ==> emitted[i] == (i, s[i])
    ensures pulled == |emitted|
  {
    emitted, pulled := [], 0;
    var i := 0;
    while pulled < |s|
      invariant pulled <= |s|
      invariant i == pulled
      invariant emitted == Enumerated(s[..pulled])
      invariant |emitted| <= r.accepts
    {
      var v := s[pulled];
      pulled := pulled + 1;
      var more := r.Answer(|emitted|);
      emitted := emitted + [(i, v)];
      if !more {
        assert Enumerated(s) == emitted + Enumerated(s)[pulled..];
        DeliverRefused(emitted, Enumerated(s), r);
        return;
      }
      i := i + 1;
    }
    assert s[..pulled] == s;
    DeliverAll(emitted, r);
  }
}
