/** Generic facts about sequences, stated once so that proofs about sequences of strings need not unfold string equality. */
module Seqs {
  lemma ConcatAssoc<T>(a: seq<T>, b: seq<T>, c: seq<T>)
    ensures a + (b + c) == (a + b) + c
  {
  }

  lemma ConcatIndex<T>(a: seq<T>, b: seq<T>, i: nat)
    requires i < |a| + |b|
    ensures (a + b)[i] == if i < |a| then a[i] else b[i - |a|]
  {
  }

  /** Two sequences with the same length and the same elements are equal. */
  lemma Pointwise<T>(a: seq<T>, b: seq<T>)
    requires |a| == |b|
    requires forall i :: 0 <= i < |a| ==> a[i] == b[i]
    ensures a == b
  {
  }

  /** Two maps with the same keys and the same value at each key are equal. */
  lemma MapsEqual<K, V>(a: map<K, V>, b: map<K, V>)
    requires forall k :: k in a <==> k in b
    requires forall k :: k in a ==> a[k] == b[k]
    ensures a == b
  {
  }

  /** `f` applied to every element, in order. */
  function Map<A, B>(f: A -> B, xs: seq<A>): (ys: seq<B>)
    ensures |ys| == |xs|
  {
    seq(|xs|, i requires 0 <= i < |xs| => f(xs[i]))
  }

  lemma MapCons<A, B>(f: A -> B, x: A, xs: seq<A>)
    ensures Map(f, [x] + xs) == [f(x)] + Map(f, xs)
  {
    var a, b := Map(f, [x] + xs), [f(x)] + Map(f, xs);
    forall i | 0 <= i < |a|
      ensures a[i] == b[i]
    {
      if i > 0 {
        assert ([x] + xs)[i] == xs[i - 1];
      }
    }
  }

  lemma MapConcat<A, B>(f: A -> B, xs: seq<A>, ys: seq<A>)
    ensures Map(f, xs + ys) == Map(f, xs) + Map(f, ys)
  {
    var a, b := Map(f, xs + ys), Map(f, xs) + Map(f, ys);
    forall i | 0 <= i < |a|
      ensures a[i] == b[i]
    {
      if i >= |xs| {
        assert (xs + ys)[i] == ys[i - |xs|];
      }
    }
  }

  /** No element occurs twice. */
  predicate Distinct<T(==)>(s: seq<T>) {
    forall i, j :: 0 <= i < j < |s| ==> s[i] != s[j]
  }

  /** The elements of `s`, each once, in the order they are first seen. */
  function Dedup<T(==)>(s: seq<T>): seq<T>
    decreases |s|
  {
    if s == [] then []
    else
      var d := Dedup(s[..|s| - 1]);
      if s[|s| - 1] in d then d else d + [s[|s| - 1]]
  }

  lemma {:induction false} DedupMembers<T>(s: seq<T>)
    ensures forall x :: x in Dedup(s) <==> x in s
    decreases |s|
  {
    if s != [] {
      var init := s[..|s| - 1];
      DedupMembers(init);
      assert s == init + [s[|s| - 1]];
    }
  }

  lemma DedupMember<T>(s: seq<T>, x: T)
    ensures x in Dedup(s) <==> x in s
  {
    DedupMembers(s);
  }

  lemma {:induction false} DedupDistinct<T>(s: seq<T>)
    ensures Distinct(Dedup(s))
    decreases |s|
  {
    if s != [] {
      DedupDistinct(s[..|s| - 1]);
    }
  }

  /** The first element is seen first. */
  lemma {:induction false} DedupHead<T>(s: seq<T>)
    ensures s != [] ==> Dedup(s) != [] && Dedup(s)[0] == s[0]
    decreases |s|
  {
    if |s| > 1 {
      var init := s[..|s| - 1];
      DedupHead(init);
      assert init[0] == s[0];
    } else if s != [] {
      assert s[..|s| - 1] == [];
    }
  }

  lemma DedupSnoc<T>(s: seq<T>, x: T)
    ensures Dedup(s + [x]) == if x in s then Dedup(s) else Dedup(s) + [x]
  {
    assert (s + [x])[..|s|] == s;
    DedupMember(s, x);
  }

  /** A sequence without repetitions is its own deduplication. */
  lemma {:induction false} DedupOfDistinct<T>(s: seq<T>)
    requires Distinct(s)
    ensures Dedup(s) == s
    decreases |s|
  {
    if s != [] {
      var init := s[..|s| - 1];
      DedupOfDistinct(init);
      assert s[|s| - 1] !in init;
      assert s == init + [s[|s| - 1]];
    }
  }

  /** Where `x` first occurs in `s`. */
  function FirstIndex<T(==)>(s: seq<T>, x: T): (k: nat)
    requires x in s
    ensures k < |s| && s[k] == x
    ensures forall j :: 0 <= j < k ==> s[j] != x
  {
    if s[0] == x then 0 else 1 + FirstIndex(s[1..], x)
  }

  lemma FirstIndexPrefix<T>(s: seq<T>, n: nat, x: T)
    requires n <= |s| && x in s[..n]
    ensures x in s && FirstIndex(s, x) == FirstIndex(s[..n], x)
  {
    var k := FirstIndex(s[..n], x);
    assert s[k] == s[..n][k];
    var f := FirstIndex(s, x);
    assert s[..n][f] == x;
  }

  /** Dedup keeps first-seen order: earlier elements of the result were seen first. */
  lemma {:induction false} DedupOrder<T>(s: seq<T>)
    ensures forall i, j :: 0 <= i < j < |Dedup(s)| ==> Dedup(s)[i] in s && Dedup(s)[j] in s && FirstIndex(s, Dedup(s)[i]) < FirstIndex(s, Dedup(s)[j])
    decreases |s|
  {
    if s == [] {
      assert Dedup(s) == [];
    } else {
      var init, x := s[..|s| - 1], s[|s| - 1];
      var d0, d := Dedup(init), Dedup(s);
      DedupOrder(init);
      forall y | y in d0
        ensures y in init && y in s && FirstIndex(s, y) == FirstIndex(init, y) < |s| - 1
      {
        DedupMember(init, y);
        FirstIndexPrefix(s, |s| - 1, y);
      }
      forall i, j | 0 <= i < j < |d|
        ensures d[i] in s && d[j] in s && FirstIndex(s, d[i]) < FirstIndex(s, d[j])
      {
        assert d[i] == d0[i] && d[i] in d0;
        if j < |d0| {
          assert d[j] == d0[j] && d[j] in d0;
        } else {
          DedupMember(init, x);
          assert d[j] == x && x !in init;
        }
      }
    }
  }

  /** The indices at which `m` holds, in increasing order. */
  function TrueIndices(m: seq<bool>): (r: seq<nat>)
    ensures |r| <= |m|
    decreases |m|
  {
    if m == [] then []
    else TrueIndices(m[..|m| - 1]) + (if m[|m| - 1] then [|m| - 1] else [])
  }

  lemma TrueIndicesSnoc(m: seq<bool>, b: bool)
    ensures TrueIndices(m + [b]) == TrueIndices(m) + (if b then [|m|] else [])
  {
    assert (m + [b])[..|m|] == m;
  }

  /** Every index listed is one where `m` holds, and every such index is listed. */
  lemma {:induction false} TrueIndicesExact(m: seq<bool>)
    ensures forall k :: 0 <= k < |TrueIndices(m)| ==> TrueIndices(m)[k] < |m| && m[TrueIndices(m)[k]]
    ensures forall i :: 0 <= i < |m| && m[i] ==> i in TrueIndices(m)
    decreases |m|
  {
    if m != [] {
      var init := m[..|m| - 1];
      TrueIndicesExact(init);
      var r0, r := TrueIndices(init), TrueIndices(m);
      forall k | 0 <= k < |r|
        ensures r[k] < |m| && m[r[k]]
      {
        if k < |r0| {
          assert r[k] == r0[k] && init[r0[k]] == m[r0[k]];
        }
      }
      forall i | 0 <= i < |m| && m[i]
        ensures i in r
      {
        if i < |m| - 1 {
          assert init[i];
          assert i in r0;
        }
      }
    }
  }

  /** The indices are listed in strictly increasing order. */
  lemma {:induction false} TrueIndicesIncreasing(m: seq<bool>)
    ensures forall a, b :: 0 <= a < b < |TrueIndices(m)| ==> TrueIndices(m)[a] < TrueIndices(m)[b]
    decreases |m|
  {
    if m != [] {
      var init := m[..|m| - 1];
      TrueIndicesIncreasing(init);
      TrueIndicesExact(init);
    }
  }
}
