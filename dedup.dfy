/** The deduplicating combinators of iters.go: Fold, FoldFunc, Fold2 and
    Fold2Func. Each traversal owns a fresh set of the keys it has already
    emitted; a value whose key is in the set is skipped, and the first value
    of every key is emitted, in the order the keys first occur. */
module Dedup {
  import opened Protocol

  /** The keys that `key` derives from the values of `s`. */
  function KeySet<V, K(==)>(s: seq<V>, key: V -> K): (ks: set<K>)
    ensures forall i :: 0 <= i < |s| ==> key(s[i]) in ks
  {
    set i | 0 <= i < |s| :: key(s[i])
  }

  /** The first value of `s` for every key, in first-occurrence order. */
  function Deduped<V, K(==)>(s: seq<V>, key: V -> K): seq<V>
    decreases |s|
  {
    if s == [] then []
    else
      var init := s[..|s| - 1];
      Deduped(init, key) + (if key(s[|s| - 1]) in KeySet(init, key) then [] else [s[|s| - 1]])
  }

  /** The position of the first value of `s` whose key is `k`. */
  function FirstIndex<V, K(==)>(s: seq<V>, key: V -> K, k: K): (i: nat)
    requires k in KeySet(s, key)
    ensures i < |s| && key(s[i]) == k
    ensures forall j :: 0 <= j < i ==> key(s[j]) != k
    decreases |s|
  {
    var init := s[..|s| - 1];
    if k in KeySet(init, key) then FirstIndex(init, key, k) else |s| - 1
  }

  // ---------------------------------------------------------------------
  // Properties of the specification

  /** Appending one value adds its key to the key set. */
  lemma KeySetSnoc<V, K>(s: seq<V>, v: V, key: V -> K)
    ensures KeySet(s + [v], key) == KeySet(s, key) + {key(v)}
  {
    var t := s + [v];
    forall k | k in KeySet(t, key)
      ensures k in KeySet(s, key) + {key(v)}
    {
      var i :| 0 <= i < |t| && key(t[i]) == k;
      if i < |s| {
        assert t[i] == s[i];
      }
    }
    forall k | k in KeySet(s, key)
      ensures k in KeySet(t, key)
    {
      var i :| 0 <= i < |s| && key(s[i]) == k;
      assert t[i] == s[i];
    }
    assert key(t[|s|]) == key(v);
  }

  /** The deduplicated sequence holds every key of the input and no other. */
  lemma {:induction false} DedupedKeys<V, K>(s: seq<V>, key: V -> K)
    ensures KeySet(Deduped(s, key), key) == KeySet(s, key)
    decreases |s|
  {
    if s != [] {
      var init, last := s[..|s| - 1], s[|s| - 1];
      assert s == init + [last];
      DedupedKeys(init, key);
      KeySetSnoc(init, last, key);
      if key(last) !in KeySet(init, key) {
        assert Deduped(s, key) == Deduped(init, key) + [last];
        KeySetSnoc(Deduped(init, key), last, key);
      } else {
        assert Deduped(s, key) == Deduped(init, key);
      }
    }
  }

  /** No two values of the deduplicated sequence share a key. */
  lemma {:induction false} DedupedDistinct<V, K>(s: seq<V>, key: V -> K)
    ensures forall i, j :: 0 <= i < j < |Deduped(s, key)| ==> key(Deduped(s, key)[i]) != key(Deduped(s, key)[j])
    decreases |s|
  {
    if s != [] {
      var init, last := s[..|s| - 1], s[|s| - 1];
      DedupedDistinct(init, key);
      DedupedKeys(init, key);
    }
  }

  /** Every value of the deduplicated sequence is the first value of the input
      with its key, and the values come in the order their keys first occur. */
  lemma {:induction false} DedupedFirsts<V, K>(s: seq<V>, key: V -> K)
    ensures KeySet(Deduped(s, key), key) == KeySet(s, key)
    ensures forall t :: 0 <= t < |Deduped(s, key)| ==>
              Deduped(s, key)[t] == s[FirstIndex(s, key, key(Deduped(s, key)[t]))]
    ensures forall t, u :: 0 <= t < u < |Deduped(s, key)| ==>
              FirstIndex(s, key, key(Deduped(s, key)[t])) < FirstIndex(s, key, key(Deduped(s, key)[u]))
    decreases |s|
  {
    DedupedKeys(s, key);
    if s != [] {
      var init, last := s[..|s| - 1], s[|s| - 1];
      var d, out := Deduped(init, key), Deduped(s, key);
      DedupedFirsts(init, key);
      forall t | 0 <= t < |d|
        ensures key(d[t]) in KeySet(init, key)
        ensures FirstIndex(s, key, key(d[t])) == FirstIndex(init, key, key(d[t]))
      {
        assert key(d[t]) in KeySet(d, key);
      }
      assert forall t :: 0 <= t < |d| ==> out[t] == d[t];
    }
  }

  /** The deduplication of a prefix is a prefix of the deduplication. */
  lemma {:induction false} DedupedPrefix<V, K>(s: seq<V>, n: nat, key: V -> K)
    requires n <= |s|
    ensures Deduped(s[..n], key) <= Deduped(s, key)
    decreases |s| - n
  {
    if n < |s| {
      DedupedPrefix(s, n + 1, key);
      assert s[..n + 1][..n] == s[..n];
    } else {
      assert s[..n] == s;
    }
  }

  // ---------------------------------------------------------------------
  // Combinators

  /** FoldFunc: offers every value whose key `foldKey` has not been seen yet in
      this traversal, and records the key before offering it. */
  method FoldFunc<K(==), V>(s: seq<V>, foldKey: V -> K, r: Receiver) returns (emitted: seq<V>, pulled: nat)
    ensures emitted == Deliver(Deduped(s, foldKey), r)
    ensures forall i, j :: 0 <= i < j < |emitted| ==> foldKey(emitted[i]) != foldKey(emitted[j])
    ensures pulled <= |s|
    ensures !Stopped(Deduped(s, foldKey), r) ==> pulled == |s|
    ensures Stopped(Deduped(s, foldKey), r) ==>
              0 < pulled && emitted == Deduped(s[..pulled], foldKey) &&
              foldKey(s[pulled - 1]) !in KeySet(s[..pulled - 1], foldKey)
  {
    var m: set<K> := {};
    emitted, pulled := [], 0;
    while pulled < |s|
      invariant pulled <= |s|
      invariant emitted == Deduped(s[..pulled], foldKey)
      invariant m == KeySet(s[..pulled], foldKey)
      invariant |emitted| <= r.accepts
    {
      var v := s[pulled];
      var key := foldKey(v);
      assert s[..pulled + 1][..pulled] == s[..pulled];
      KeySetSnoc(s[..pulled], v, foldKey);
      assert s[..pulled + 1] == s[..pulled] + [v];
      pulled := pulled + 1;
      if key in m {
        continue;
      }
      m := m + {key};
      var more := r.Answer(|emitted|);
      emitted := emitted + [v];
      if !more {
        DedupedPrefix(s, pulled, foldKey);
        DeliverRefused(emitted, Deduped(s, foldKey), r);
        DedupedDistinct(s, foldKey);
        return;
      }
    }
    assert s[..pulled] == s;
    DeliverAll(emitted, r);
    DedupedDistinct(s, foldKey);
  }

  /** Fold: deduplicates on the values themselves. */
  method Fold<V(==)>(s: seq<V>, r: Receiver) returns (emitted: seq<V>, pulled: nat)
    ensures emitted == Deliver(Deduped(s, (v: V) => v), r)
    ensures forall i, j :: 0 <= i < j < |emitted| ==> emitted[i] != emitted[j]
    ensures pulled <= |s|
    ensures !Stopped(Deduped(s, (v: V) => v), r) ==> pulled == |s|
    ensures Stopped(Deduped(s, (v: V) => v), r) ==>
              0 < pulled && emitted == Deduped(s[..pulled], (v: V) => v) &&
              s[pulled - 1] !in KeySet(s[..pulled - 1], (v: V) => v)
  {
    emitted, pulled := FoldFunc(s, (v: V) => v, r);
  }

  /** Fold2: deduplicates a key/value sequence on the key alone, keeping the
      first value of every key. */
  method Fold2<K(==), V>(s: seq<(K, V)>, r: Receiver) returns (emitted: seq<(K, V)>, pulled: nat)
    ensures emitted == Deliver(Deduped(s, (p: (K, V)) => p.0), r)
    ensures forall i, j :: 0 <= i < j < |emitted| ==> emitted[i].0 != emitted[j].0
    ensures pulled <= |s|
    ensures !Stopped(Deduped(s, (p: (K, V)) => p.0), r) ==> pulled == |s|
    ensures Stopped(Deduped(s, (p: (K, V)) => p.0), r) ==>
              0 < pulled && emitted == Deduped(s[..pulled], (p: (K, V)) => p.0) &&
              s[pulled - 1].0 !in KeySet(s[..pulled - 1], (p: (K, V)) => p.0)
  {
    emitted, pulled := FoldFunc(s, (p: (K, V)) => p.0, r);
  }

  /** Fold2Func: deduplicates a key/value sequence on `foldKey(k, v)`. */
  method Fold2Func<F(==), K, V>(s: seq<(K, V)>, foldKey: (K, V) -> F, r: Receiver)
    returns (emitted: seq<(K, V)>, pulled: nat)
    ensures emitted == Deliver(Deduped(s, OnPair(foldKey)), r)
    ensures forall i, j :: 0 <= i < j < |emitted| ==> foldKey(emitted[i].0, emitted[i].1) != foldKey(emitted[j].0, emitted[j].1)
    ensures pulled <= |s|
    ensures !Stopped(Deduped(s, OnPair(foldKey)), r) ==> pulled == |s|
    ensures Stopped(Deduped(s, OnPair(foldKey)), r) ==>
              0 < pulled && emitted == Deduped(s[..pulled], OnPair(foldKey)) &&
              foldKey(s[pulled - 1].0, s[pulled - 1].1) !in KeySet(s[..pulled - 1], OnPair(foldKey))
  {
    emitted, pulled := FoldFunc(s, OnPair(foldKey), r);
  }
}
