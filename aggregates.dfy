/** The aggregate operations of iters.go: Reduce, Count, CountFunc, Count2,
    CountFunc2, Contains, Equal, EqualFunc, Merge, Merge2, Group and
    GroupFunc. Except for Merge these consume a sequence instead of producing
    one; Contains and EqualFunc stop their sources early. */
module Aggregates {
  import opened Protocol
  import opened Elementwise

  // ---------------------------------------------------------------------
  // Reduce and counting

  /** The left fold of `s` from `acc` with `f`. */
  function FoldLeft<T, R>(s: seq<T>, acc: R, f: (R, T) -> R): R {
    if s == [] then acc else FoldLeft(s[1..], f(acc, s[0]), f)
  }

  /** Folding a concatenation folds the second part from the result of the first. */
  lemma {:induction false} FoldLeftAppend<T, R>(a: seq<T>, b: seq<T>, acc: R, f: (R, T) -> R)
    ensures FoldLeft(a + b, acc, f) == FoldLeft(b, FoldLeft(a, acc, f), f)
  {
    if a != [] {
      assert (a + b)[0] == a[0] && (a + b)[1..] == a[1..] + b;
      FoldLeftAppend(a[1..], b, f(acc, a[0]), f);
    } else {
      assert a + b == b;
    }
  }

  /** Reduce: the left fold of the whole sequence, starting from `initializer`. */
  method Reduce<T, R>(s: seq<T>, initializer: R, f: (R, T) -> R) returns (result: R)
    ensures result == FoldLeft(s, initializer, f)
    ensures s == [] ==> result == initializer
    ensures s != [] ==> result == f(FoldLeft(s[..|s| - 1], initializer, f), s[|s| - 1])
  {
    result := initializer;
    var i := 0;
    while i < |s|
      invariant i <= |s|
      invariant FoldLeft(s[i..], result, f) == FoldLeft(s, initializer, f)
    {
      assert s[i..][1..] == s[i + 1..];
      result := f(result, s[i]);
      i := i + 1;
    }
    if s != [] {
      var init := s[..|s| - 1];
      assert s == init + [s[|s| - 1]];
      FoldLeftAppend(init, [s[|s| - 1]], initializer, f);
    }
  }

  /** Counting is the fold that adds one per value. */
  lemma {:induction false} CountIsFold<T>(s: seq<T>, acc: int)
    ensures FoldLeft(s, acc, (c: int, v: T) => c + 1) == acc + |s|
  {
    if s != [] {
      CountIsFold(s[1..], acc + 1);
    }
  }

  /** Reduce over 0, 1, 0, 1, ... (ten values) from 100 with + is 105. */
  lemma ReduceExample()
    ensures FoldLeft([0, 1, 0, 1, 0, 1, 0, 1, 0, 1], 100, (r: int, v: int) => r + v) == 105
  {
  }

  /** Count: the number of values of the sequence. */
  method Count<V>(s: seq<V>) returns (count: int)
    ensures count == |s|
  {
    count := 0;
    var i := 0;
    while i < |s|
      invariant i <= |s|
      invariant count == i
    {
      count := count + 1;
      i := i + 1;
    }
  }

  /** CountFunc: the number of values satisfying `f`. */
  method CountFunc<V>(s: seq<V>, f: V -> bool) returns (count: int)
    ensures count == |Filtered(s, f)|
    ensures 0 <= count <= |s|
  {
    count := 0;
    var i := 0;
    while i < |s|
      invariant i <= |s|
      invariant count + |Filtered(s[i..], f)| == |Filtered(s, f)|
    {
      assert s[i..][1..] == s[i + 1..];
      if f(s[i]) {
        count := count + 1;
      }
      i := i + 1;
    }
  }

  /** Count2: the number of pairs of a key/value sequence. */
  method Count2<K, V>(s: seq<(K, V)>) returns (count: int)
    ensures count == |s|
  {
    count := Count(s);
  }

  /** CountFunc2: the number of pairs satisfying `f`. */
  method CountFunc2<K, V>(s: seq<(K, V)>, f: (K, V) -> bool) returns (count: int)
    ensures count == |Filtered(s, OnPair(f))|
    ensures 0 <= count <= |s|
  {
    count := CountFunc(s, OnPair(f));
  }

  /** Contains: whether some value equals `x`; stops the source at the first match. */
  method Contains<T(==)>(x: T, s: seq<T>) returns (found: bool, pulled: nat)
    ensures found <==> x in s
    ensures found ==> 0 < pulled <= |s| && s[pulled - 1] == x && x !in s[..pulled - 1]
    ensures !found ==> pulled == |s|
  {
    pulled := 0;
    while pulled < |s|
      invariant pulled <= |s|
      invariant x !in s[..pulled]
    {
      var v := s[pulled];
      assert s[..pulled + 1] == s[..pulled] + [v];
      pulled := pulled + 1;
      if x == v {
        return true, pulled;
      }
    }
    assert s[..pulled] == s;
    return false, pulled;
  }

  // ---------------------------------------------------------------------
  // EqualFunc and its pull adapters

  /** A pull adapter (`iter.Pull`) over a finite sequence: `Next` hands out the
      values one at a time, `Stop` releases it; a released or exhausted
      adapter answers `None`. */
  class Cursor<T> {
    const items: seq<T>
    var pos: nat
    var released: bool

    constructor (items: seq<T>)
      ensures this.items == items && pos == 0 && !released
    {
      this.items := items;
      pos := 0;
      released := false;
    }

    method Next() returns (v: Option<T>)
      modifies this
      ensures released == old(released)
      ensures old(released) || old(pos) >= |items| ==> v == None && pos == old(pos)
      ensures !old(released) && old(pos) < |items| ==> v == Some(items[old(pos)]) && pos == old(pos) + 1
    {
      if released || pos >= |items| {
        v := None;
      } else {
        v := Some(items[pos]);
        pos := pos + 1;
      }
    }

    method Stop()
      modifies this
      ensures released && pos == old(pos)
    {
      released := true;
    }
  }

  /** Two sequences are equal under `equal` when they have the same length and
      `equal` holds position by position. */
  predicate SameUnder<T1, T2>(s1: seq<T1>, s2: seq<T2>, equal: (T1, T2) -> bool) {
    |s1| == |s2| && forall i :: 0 <= i < |s1| ==> equal(s1[i], s2[i])
  }

  /** EqualFunc: pulls both sequences in lockstep and compares them with
      `equal`; it returns at the first length or value mismatch, or when both
      end together, and releases both adapters on every path. `rounds` is the
      number of times it pulled both adapters; `c1` and `c2` are the adapters
      it created, returned so that their final state can be stated. */
  method EqualFunc<T1, T2>(s1: seq<T1>, s2: seq<T2>, equal: (T1, T2) -> bool)
    returns (eq: bool, rounds: nat, c1: Cursor<T1>, c2: Cursor<T2>)
    ensures eq == SameUnder(s1, s2, equal)
    ensures fresh(c1) && fresh(c2)
    ensures c1.items == s1 && c2.items == s2
    ensures c1.released && c2.released
    ensures c1.pos == (if rounds <= |s1| then rounds else |s1|)
    ensures c2.pos == (if rounds <= |s2| then rounds else |s2|)
    ensures 0 < rounds <= |s1| + 1 && rounds <= |s2| + 1
    ensures forall i :: 0 <= i < rounds - 1 ==> equal(s1[i], s2[i])
    ensures || rounds - 1 == |s1| || rounds - 1 == |s2|
            || !equal(s1[rounds - 1], s2[rounds - 1])
  {
    c1 := new Cursor(s1);
    c2 := new Cursor(s2);
    rounds := 0;
    while true
      invariant fresh(c1) && fresh(c2)
      invariant c1.items == s1 && c2.items == s2
      invariant c1.pos == rounds == c2.pos
      invariant rounds <= |s1| && rounds <= |s2|
      invariant !c1.released && !c2.released
      invariant forall i :: 0 <= i < rounds ==> equal(s1[i], s2[i])
      decreases |s1| - rounds
    {
      var v1 := c1.Next();
      var v2 := c2.Next();
      rounds := rounds + 1;
      if v1.Some? != v2.Some? || (v1.Some? && v2.Some? && !equal(v1.value, v2.value)) {
        c1.Stop();
        c2.Stop();
        return false, rounds, c1, c2;
      }
      if v1.None? {
        c1.Stop();
        c2.Stop();
        return true, rounds, c1, c2;
      }
    }
  }

  /** Equal: EqualFunc with `==`; true exactly when the sequences are equal. */
  method Equal<T(==)>(s1: seq<T>, s2: seq<T>) returns (eq: bool)
    ensures eq <==> s1 == s2
  {
    var rounds, c1, c2;
    eq, rounds, c1, c2 := EqualFunc(s1, s2, (a: T, b: T) => a == b);
  }

  /** Equality under a reflexive `equal` is reflexive, the empty sequence included. */
  lemma SameUnderReflexive<T>(s: seq<T>, equal: (T, T) -> bool)
    requires forall x :: equal(x, x)
    ensures SameUnder(s, s, equal)
  {
  }

  // ---------------------------------------------------------------------
  // Merge

  /** The values of all sequences of `ss`, source by source. */
  function Flatten<V>(ss: seq<seq<V>>): seq<V> {
    if ss == [] then [] else Flatten(ss[..|ss| - 1]) + ss[|ss| - 1]
  }

  /** Flattening distributes over concatenation of the list of sources. */
  lemma {:induction false} FlattenAppend<V>(a: seq<seq<V>>, b: seq<seq<V>>)
    ensures Flatten(a + b) == Flatten(a) + Flatten(b)
    decreases |b|
  {
    if b == [] {
      assert a + b == a;
    } else {
      var init := b[..|b| - 1];
      assert (a + b)[..|a + b| - 1] == a + init;
      FlattenAppend(a, init);
    }
  }

  /** Merging no sources gives nothing; merging two gives their concatenation. */
  lemma MergeExamples<V>(s1: seq<V>, s2: seq<V>)
    ensures Flatten<V>([]) == []
    ensures Flatten([s1]) == s1
    ensures Flatten([s1, s2]) == s1 + s2
  {
  }

  /** Merge: offers the values of every source, source after source in
      argument order; a refusal ends it without starting the next source.
      `started` is the number of sources it began to range over. */
  method Merge<V>(seqs: seq<seq<V>>, r: Receiver) returns (emitted: seq<V>, started: nat)
    ensures emitted == Deliver(Flatten(seqs), r)
    ensures started <= |seqs|
    ensures !Stopped(Flatten(seqs), r) ==> started == |seqs|
    ensures Stopped(Flatten(seqs), r) ==>
              0 < started && |Flatten(seqs[..started - 1])| < |emitted| <= |Flatten(seqs[..started])|
  {
    emitted, started := [], 0;
    while started < |seqs|
      invariant started <= |seqs|
      invariant emitted == Flatten(seqs[..started])
      invariant |emitted| <= r.accepts
    {
      var src := seqs[started];
      var done := Flatten(seqs[..started]);
      assert seqs[..started + 1] == seqs[..started] + [src];
      assert seqs[..started + 1][..started] == seqs[..started];
      started := started + 1;
      var j := 0;
      while j < |src|
        invariant j <= |src|
        invariant emitted == done + src[..j]
        invariant |emitted| <= r.accepts
      {
        var more := r.Answer(|emitted|);
        emitted := emitted + [src[j]];
        j := j + 1;
        if !more {
          assert emitted == done + src[..j];
          FlattenAppend(seqs[..started], seqs[started..]);
          assert seqs[..started] + seqs[started..] == seqs;
          assert Flatten(seqs[..started]) == done + src;
          DeliverRefused(emitted, Flatten(seqs), r);
          return;
        }
      }
      assert src[..j] == src;
    }
    assert seqs[..started] == seqs;
    DeliverAll(emitted, r);
  }

  /** Merge2: the same concatenation for key/value sequences. */
  method Merge2<K, V>(seqs: seq<seq<(K, V)>>, r: Receiver) returns (emitted: seq<(K, V)>, started: nat)
    ensures emitted == Deliver(Flatten(seqs), r)
    ensures started <= |seqs|
    ensures !Stopped(Flatten(seqs), r) ==> started == |seqs|
    ensures Stopped(Flatten(seqs), r) ==>
              0 < started && |Flatten(seqs[..started - 1])| < |emitted| <= |Flatten(seqs[..started])|
  {
    emitted, started := Merge(seqs, r);
  }

  // ---------------------------------------------------------------------
  // Group

  /** The values of the pairs of `s` whose key is `k`, in input order. */
  function ValuesWithKey<K(==), V>(s: seq<(K, V)>, k: K): seq<V> {
    if s == [] then []
    else
      var last := s[|s| - 1];
      ValuesWithKey(s[..|s| - 1], k) + (if last.0 == k then [last.1] else [])
  }

  /** Grouping agrees with filtering the pairs on the key and keeping their values. */
  lemma {:induction false} ValuesWithKeyIsFilter<K, V>(s: seq<(K, V)>, k: K)
    ensures ValuesWithKey(s, k) == Mapped(Filtered(s, (p: (K, V)) => p.0 == k), (p: (K, V)) => p.1)
    decreases |s|
  {
    if s != [] {
      var init, last := s[..|s| - 1], s[|s| - 1];
      var f := (p: (K, V)) => p.0 == k;
      ValuesWithKeyIsFilter(init, k);
      assert s == init + [last];
      FilteredAppend(init, [last], f);
      assert Filtered([last], f) == if last.0 == k then [last] else [];
      assert Mapped(Filtered(s, f), (p: (K, V)) => p.1)
          == Mapped(Filtered(init, f), (p: (K, V)) => p.1) + Mapped(Filtered([last], f), (p: (K, V)) => p.1);
    }
  }

  /** A key gets values exactly when it occurs in the input. */
  lemma {:induction false} ValuesWithKeyNonEmpty<K, V>(s: seq<(K, V)>, k: K)
    ensures ValuesWithKey(s, k) != [] <==> exists i :: 0 <= i < |s| && s[i].0 == k
    decreases |s|
  {
    if s != [] {
      var init := s[..|s| - 1];
      ValuesWithKeyNonEmpty(init, k);
      if exists i :: 0 <= i < |init| && init[i].0 == k {
        var i :| 0 <= i < |init| && init[i].0 == k;
        assert s[i] == init[i];
      }
      if exists i :: 0 <= i < |s| && s[i].0 == k {
        var i :| 0 <= i < |s| && s[i].0 == k;
        if i < |init| {
          assert init[i] == s[i];
        }
      }
    }
  }

  /** Group: maps every key of the input to the values paired with it, in input order. */
  method Group<K(==), V>(s: seq<(K, V)>) returns (m: map<K, seq<V>>)
    ensures forall k :: k in m <==> exists i :: 0 <= i < |s| && s[i].0 == k
    ensures forall k :: k in m ==> m[k] == ValuesWithKey(s, k)
  {
    m := map[];
    var i := 0;
    while i < |s|
      invariant i <= |s|
      invariant forall k :: k in m <==> ValuesWithKey(s[..i], k) != []
      invariant forall k :: k in m ==> m[k] == ValuesWithKey(s[..i], k)
    {
      var (k, v) := s[i];
      assert s[..i + 1][..i] == s[..i];
      m := m[k := (if k in m then m[k] else []) + [v]];
      i := i + 1;
    }
    assert s[..i] == s;
    forall k
      ensures k in m <==> exists j :: 0 <= j < |s| && s[j].0 == k
    {
      ValuesWithKeyNonEmpty(s, k);
    }
  }

  /** Appending a pair adds its value to the values of its key only. */
  lemma ValuesWithKeySnoc<K, V>(s: seq<(K, V)>, p: (K, V), k: K)
    ensures ValuesWithKey(s + [p], k) == ValuesWithKey(s, k) + (if p.0 == k then [p.1] else [])
  {
  }

  /** Group over ("a", 1), ("b", 2), ("a", 3), ("c", 4), ("b", 5) gives
      a: [1, 3], b: [2, 5], c: [4]. */
  lemma GroupExample()
    ensures var s := [("a", 1), ("b", 2), ("a", 3), ("c", 4), ("b", 5)];
            ValuesWithKey(s, "a") == [1, 3] && ValuesWithKey(s, "b") == [2, 5] && ValuesWithKey(s, "c") == [4]
  {
    var s0: seq<(string, int)> := [];
    var s1 := s0 + [("a", 1)];
    var s2 := s1 + [("b", 2)];
    var s3 := s2 + [("a", 3)];
    var s4 := s3 + [("c", 4)];
    var s5 := s4 + [("b", 5)];
    forall k
      ensures ValuesWithKey(s5, k) == ValuesWithKey(s0, k)
        + (if "a" == k then [1] else []) + (if "b" == k then [2] else []) + (if "a" == k then [3] else [])
        + (if "c" == k then [4] else []) + (if "b" == k then [5] else [])
    {
      ValuesWithKeySnoc(s0, ("a", 1), k);
      ValuesWithKeySnoc(s1, ("b", 2), k);
      ValuesWithKeySnoc(s2, ("a", 3), k);
      ValuesWithKeySnoc(s3, ("c", 4), k);
      ValuesWithKeySnoc(s4, ("b", 5), k);
    }
    assert s5 == [("a", 1), ("b", 2), ("a", 3), ("c", 4), ("b", 5)];
    assert "a" != "b" && "a" != "c" && "b" != "c";
  }

  /** GroupFunc: groups the values by the key `key` derives from each. */
  method GroupFunc<K(==), V>(s: seq<V>, key: V -> K) returns (m: map<K, seq<V>>)
    ensures forall k :: k in m <==> exists i :: 0 <= i < |s| && key(s[i]) == k
    ensures forall k :: k in m ==> m[k] == Filtered(s, (v: V) => key(v) == k)
  {
    var pairs, pulled := WithKeys(s, key, Receiver(|s|));
    assert pairs == Mapped(s, (v: V) => (key(v), v));
    m := Group(pairs);
    forall k | k in m
      ensures m[k] == Filtered(s, (v: V) => key(v) == k)
    {
      var hasKey := (v: V) => key(v) == k;
      ValuesWithKeyIsFilter(pairs, k);
      FilterMapCommute(s, (v: V) => (key(v), v), (p: (K, V)) => p.0 == k, hasKey);
      var kept := Filtered(s, hasKey);
      assert Mapped(Mapped(kept, (v: V) => (key(v), v)), (p: (K, V)) => p.1) == kept;
    }
    forall k
      ensures k in m <==> exists i :: 0 <= i < |s| && key(s[i]) == k
    {
      if k in m {
        var i :| 0 <= i < |pairs| && pairs[i].0 == k;
      }
      if exists i :: 0 <= i < |s| && key(s[i]) == k {
        var i :| 0 <= i < |s| && key(s[i]) == k;
        assert pairs[i].0 == k;
      }
    }
  }
}
