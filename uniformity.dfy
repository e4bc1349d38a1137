/** The `allthesame` predicate: whether every element an iterable produces is
    equal to the first one. */
module Uniformity {
  import opened Sources

  // ---------------------------------------------------------------------
  // Specification on finite sequences
  // ---------------------------------------------------------------------

  /** Every element equals the first; vacuously true of the empty sequence. */
  predicate Uniform<T(==)>(xs: seq<T>) {
    forall i :: 0 <= i < |xs| ==> xs[i] == xs[0]
  }

  /** Every element of `xs` equals the reference value `x0`, checked one
      element at a time from the left, as the loop of `allthesame` does. */
  predicate AllMatch<T(==)>(x0: T, xs: seq<T>) {
    xs == [] || (xs[0] == x0 && AllMatch(x0, xs[1..]))
  }

  /** Every element equals the one before it. */
  predicate Chained<T(==)>(xs: seq<T>) {
    forall i :: 0 < i < |xs| ==> xs[i] == xs[i - 1]
  }

  /** Taking the first element as the reference and matching the rest against
      it decides uniformity. */
  lemma {:induction false} UniformIffAllMatchFirst<T>(xs: seq<T>)
    ensures Uniform(xs) <==> (xs == [] || AllMatch(xs[0], xs[1..]))
  {
    if xs != [] {
      AllMatchAll(xs[0], xs[1..]);
      assert forall i :: 0 < i < |xs| ==> xs[i] == xs[1..][i - 1];
    }
  }

  /** `AllMatch(x0, xs)` says that every element of `xs` is `x0`. */
  lemma {:induction false} AllMatchAll<T>(x0: T, xs: seq<T>)
    ensures AllMatch(x0, xs) <==> forall i :: 0 <= i < |xs| ==> xs[i] == x0
  {
    if xs != [] {
      AllMatchAll(x0, xs[1..]);
      assert forall i :: 0 < i < |xs| ==> xs[i] == xs[1..][i - 1];
    }
  }

  /** Under equality, comparing each element with the first and comparing
      each element with its predecessor give the same answer. */
  lemma {:induction false} ChainedIffUniform<T>(xs: seq<T>)
    ensures Chained(xs) <==> Uniform(xs)
  {
    if |xs| > 1 {
      var ys := xs[..|xs| - 1];
      ChainedIffUniform(ys);
      assert forall i :: 0 <= i < |ys| ==> ys[i] == xs[i];
      if Chained(xs) {
        assert Chained(ys);
        assert xs[|xs| - 1] == ys[|ys| - 1];
      }
    }
  }

  // ---------------------------------------------------------------------
  // Specification on series read from a starting index
  // ---------------------------------------------------------------------

  /** Index `k`, read after the reference element at index `p`, differs from it. */
  ghost predicate IsMismatch<T>(s: Series<T>, p: nat, k: nat) {
    p < k && s.Has(k) && s.At(k) != s.At(p)
  }

  /** No element read after index `p` differs from the element at `p`. */
  ghost predicate UniformFrom<T>(s: Series<T>, p: nat) {
    forall k :: !IsMismatch(s, p, k)
  }

  /** `k` is the earliest mismatch after the reference at `p`. */
  ghost predicate IsFirstMismatch<T>(s: Series<T>, p: nat, k: nat) {
    IsMismatch(s, p, k) && forall j :: p < j < k ==> !IsMismatch(s, p, j)
  }

  /** Reading from `p` comes to an end: the series is finite, or it
      eventually produces an element different from the one at `p`. */
  ghost predicate Terminates<T>(s: Series<T>, p: nat) {
    s.Finite? || exists k :: IsMismatch(s, p, k)
  }

  /** On a finite series read from its start, the two specifications agree. */
  lemma FiniteUniformFrom<T>(xs: seq<T>)
    ensures UniformFrom(Finite(xs), 0) <==> Uniform(xs)
  {
    if !Uniform(xs) {
      var i :| 0 <= i < |xs| && xs[i] != xs[0];
      assert IsMismatch(Finite(xs), 0, i);
    }
  }

  /** There is at most one earliest mismatch. */
  lemma FirstMismatchUnique<T>(s: Series<T>, p: nat, k1: nat, k2: nat)
    requires IsFirstMismatch(s, p, k1) && IsFirstMismatch(s, p, k2)
    ensures k1 == k2
  {
  }

  /** Any mismatch is preceded by (or is) the earliest one. */
  lemma {:induction false} EarliestMismatch<T>(s: Series<T>, p: nat, k: nat) returns (m: nat)
    requires IsMismatch(s, p, k)
    ensures m <= k && IsFirstMismatch(s, p, m)
    decreases k
  {
    if j :| p < j < k && IsMismatch(s, p, j) {
      m := EarliestMismatch(s, p, j);
    } else {
      m := k;
    }
  }

  /** The first `n` elements read from index `p` of an infinite series. */
  ghost function Prefix<T>(s: Series<T>, p: nat, n: nat): (r: seq<T>)
    requires s.Infinite?
    ensures |r| == n && forall i :: 0 <= i < n ==> r[i] == s.At(p + i)
  {
    seq(n, i requires 0 <= i < n => s.gen(p + i))
  }

  /** On an infinite series that never changes value, no finite prefix
      contains a mismatch: the loop never returns `False`, however far it
      reads. */
  lemma {:induction false} UniformStreamPrefixes<T>(s: Series<T>, p: nat, n: nat)
    requires s.Infinite? && UniformFrom(s, p)
    ensures Uniform(Prefix(s, p, n))
  {
    var r := Prefix(s, p, n);
    forall i | 0 <= i < n
      ensures r[i] == r[0]
    {
      assert !IsMismatch(s, p, p + i);
    }
  }

  // ---------------------------------------------------------------------
  // The predicate
  // ---------------------------------------------------------------------

  /** Reads `it` once, left to right. The first element pulled is the
      reference `x0`; each later element is compared with `x0` and the first
      one that differs ends the call with `false`. Exhaustion, before or
      after the first element, ends it with `true`. Only the cursor of `it`
      moves: when the answer is `false` it has pulled exactly up to and
      including the first mismatch. */
  method AllTheSameFrom<T(==)>(it: Iterator<T>) returns (r: bool)
    requires it.Valid() && Terminates(it.data, it.pos)
    modifies it`pos
    ensures it.Valid()
    ensures r == UniformFrom(it.data, old(it.pos))
    ensures r ==> it.Exhausted()
    ensures !r ==> it.pos > 0 && IsFirstMismatch(it.data, old(it.pos), it.pos - 1)
  {
    ghost var s, p0 := it.data, it.pos;
    var first := it.Next();
    if first.None? {
      return true;
    }
    var x0 := first.value;
    ghost var bound: nat;
    if s.Finite? {
      bound := |s.elems|;
    } else {
      bound :| IsMismatch(s, p0, bound);
    }
    while true
      invariant it.Valid()
      invariant p0 < it.pos <= bound
      invariant x0 == s.At(p0)
      invariant forall j :: p0 < j < it.pos ==> !IsMismatch(s, p0, j)
      decreases bound - it.pos
    {
      var x := it.Next();
      if x.None? {
        return true;
      }
      if x.value != x0 {
        assert IsMismatch(s, p0, it.pos - 1);
        return false;
      }
    }
  }

  /** `allthesame(iterable)`: a fresh iterator over the series, read from its
      start. */
  method AllTheSame<T(==)>(iterable: Series<T>) returns (r: bool)
    requires Terminates(iterable, 0)
    ensures r == UniformFrom(iterable, 0)
    ensures iterable.Finite? ==> r == Uniform(iterable.elems)
  {
    var it := new Iterator(iterable);
    r := AllTheSameFrom(it);
    if iterable.Finite? {
      FiniteUniformFrom(iterable.elems);
    }
  }
}
