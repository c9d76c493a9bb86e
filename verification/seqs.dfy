/**
 * A loop that visits a sequence in order, skips some elements and emits a
 * transformed copy of the others: a filter and a map in one pass.
 */
module Seqs {
  import opened Wrappers

  /** Visits `xs` in order and appends `f(x).value` for every `x` where `f(x)` is `Some`. */
  function FilterMap<T, U>(xs: seq<T>, f: T -> Option<U>): (out: seq<U>)
    ensures |out| <= |xs|
  {
    if |xs| == 0 then []
    else
      var prefix := FilterMap(xs[..|xs| - 1], f);
      match f(xs[|xs| - 1])
      case None => prefix
      case Some(y) => prefix + [y]
  }

  /** The positions of `xs` that `FilterMap` keeps, in increasing order. */
  function KeptIndices<T, U>(xs: seq<T>, f: T -> Option<U>): (ks: seq<nat>)
    ensures forall j :: 0 <= j < |ks| ==> ks[j] < |xs|
    ensures forall j, k :: 0 <= j < k < |ks| ==> ks[j] < ks[k]
    ensures forall i :: 0 <= i < |xs| ==> (i in ks <==> f(xs[i]).Some?)
  {
    if |xs| == 0 then []
    else
      var ks := KeptIndices(xs[..|xs| - 1], f);
      assert forall i :: 0 <= i < |xs| - 1 ==> xs[..|xs| - 1][i] == xs[i];
      if f(xs[|xs| - 1]).Some? then ks + [|xs| - 1] else ks
  }

  /**
   * The output lines up with the kept positions: its `j`-th element comes
   * from the element at the `j`-th kept position, and there are no others.
   */
  lemma {:induction false} FilterMapAlignment<T, U>(xs: seq<T>, f: T -> Option<U>)
    ensures |FilterMap(xs, f)| == |KeptIndices(xs, f)|
    ensures forall j :: 0 <= j < |KeptIndices(xs, f)| ==>
      f(xs[KeptIndices(xs, f)[j]]) == Some(FilterMap(xs, f)[j])
  {
    if |xs| > 0 {
      var init := xs[..|xs| - 1];
      FilterMapAlignment(init, f);
      var ks, out := KeptIndices(init, f), FilterMap(init, f);
      forall j | 0 <= j < |ks| ensures xs[ks[j]] == init[ks[j]] {
      }
      if f(xs[|xs| - 1]).Some? {
        assert KeptIndices(xs, f) == ks + [|xs| - 1];
        assert FilterMap(xs, f) == out + [f(xs[|xs| - 1]).value];
      }
    }
  }

  /** The pass treats elements one at a time: it distributes over concatenation. */
  lemma {:induction false} FilterMapAppend<T, U>(a: seq<T>, b: seq<T>, f: T -> Option<U>)
    ensures FilterMap(a + b, f) == FilterMap(a, f) + FilterMap(b, f)
    decreases |b|
  {
    if |b| == 0 {
      assert a + b == a;
    } else {
      var b' := b[..|b| - 1];
      assert (a + b)[..|a + b| - 1] == a + b';
      FilterMapAppend(a, b', f);
    }
  }

  /** When nothing is skipped, every position is kept. */
  lemma {:induction false} KeptAll<T, U>(xs: seq<T>, f: T -> Option<U>)
    requires forall i :: 0 <= i < |xs| ==> f(xs[i]).Some?
    ensures |KeptIndices(xs, f)| == |xs|
    ensures forall j :: 0 <= j < |xs| ==> KeptIndices(xs, f)[j] == j
  {
    if |xs| > 0 {
      var init := xs[..|xs| - 1];
      forall i | 0 <= i < |init| ensures f(init[i]).Some? {
        assert init[i] == xs[i];
      }
      KeptAll(init, f);
    }
  }

  /** The last element of a non-empty sequence. */
  function Last<T>(xs: seq<T>): T
    requires |xs| >= 1
  {
    xs[|xs| - 1]
  }

  /** A suffix of a sequence without `x` has no `x` either. */
  lemma SuffixFree<T>(s: seq<T>, x: T, i: nat, j: nat)
    requires i <= j <= |s| && x !in s[i..]
    ensures x !in s[j..]
  {
    forall k | j <= k < |s| ensures s[k] != x {
      assert s[k] == s[i..][k - i];
    }
  }
}
