/**
 * Index permutations: the predicate reordering produced along the Z-order
 * curve, the sort permutations built with iota + sort, and the views that
 * read one sequence through another.
 */
module Permutations {

  /** The consecutive indices lo, lo + 1, ..., hi - 1 (what std::iota writes). */
  function Interval(lo: int, hi: int): seq<int>
    requires lo <= hi
  {
    seq(hi - lo, t => lo + t)
  }

  /** p is a permutation of [0, n): it holds every index of [0, n) exactly once. */
  ghost predicate IsPermutation(p: seq<int>, n: nat)
  {
    multiset(p) == multiset(Interval(0, n))
  }

  /** All entries of p index into a sequence of length n. */
  ghost predicate InBounds(p: seq<int>, n: int)
  {
    forall j :: 0 <= j < |p| ==> 0 <= p[j] < n
  }

  /** Reading `f` through the index view `p` (Kokkos' permuted views and
      the `x(permutation(j))` accesses). */
  function Apply<T>(p: seq<int>, f: seq<T>): seq<T>
    requires InBounds(p, |f|)
  {
    seq(|p|, j requires 0 <= j < |p| => f[p[j]])
  }

  lemma {:induction false} IntervalCount(lo: int, hi: int, x: int)
    requires lo <= hi
    ensures multiset(Interval(lo, hi))[x] == if lo <= x < hi then 1 else 0
    decreases hi - lo
  {
    if lo < hi {
      assert Interval(lo, hi) == [lo] + Interval(lo + 1, hi);
      IntervalCount(lo + 1, hi, x);
    } else {
      assert Interval(lo, hi) == [];
    }
  }

  /** A permutation of [0, n) has n entries, all in [0, n), and every index
      of [0, n) occurs in it. */
  lemma PermutationFacts(p: seq<int>, n: nat)
    requires IsPermutation(p, n)
    ensures |p| == n
    ensures InBounds(p, n)
    ensures forall x :: 0 <= x < n ==> x in p
  {
    calc {
      |p|;
      |multiset(p)|;
      |multiset(Interval(0, n))|;
      n;
    }
    forall j | 0 <= j < |p|
      ensures 0 <= p[j] < n
    {
      assert p[j] in multiset(p);
      IntervalCount(0, n, p[j]);
    }
    forall x | 0 <= x < n
      ensures x in p
    {
      IntervalCount(0, n, x);
      assert x in multiset(p);
    }
  }

  /** A permutation never holds the same index twice. */
  lemma PermutationInjective(p: seq<int>, n: nat, i: int, k: int)
    requires IsPermutation(p, n)
    requires 0 <= i < k < |p|
    ensures p[i] != p[k]
  {
    if p[i] == p[k] {
      var x := p[i];
      assert p == p[..i] + [x] + p[i + 1..k] + [x] + p[k + 1..];
      assert multiset(p)[x] >= 2;
      IntervalCount(0, n, x);
      assert false;
    }
  }

  /** Appending the sentinel n to a permutation of [0, n) gives a permutation
      of [0, n] that fixes n. */
  lemma ExtendedPermutation(p: seq<int>, n: nat)
    requires IsPermutation(p, n)
    ensures IsPermutation(p + [n], n + 1)
    ensures (p + [n])[|p|] == n
  {
    PermutationFacts(p, n);
    assert Interval(0, n + 1) == Interval(0, n) + [n];
  }

  /** Conversely, a permutation of [0, n] that fixes n is a permutation of
      [0, n) followed by n. */
  lemma RestrictedPermutation(q: seq<int>, n: nat)
    requires IsPermutation(q, n + 1)
    requires |q| == n + 1 && q[n] == n
    ensures IsPermutation(q[..n], n)
  {
    assert q == q[..n] + [n];
    assert Interval(0, n + 1) == Interval(0, n) + [n];
    assert multiset(q[..n]) + multiset{n} == multiset(Interval(0, n)) + multiset{n};
    assert multiset(q[..n]) == multiset(q[..n]) + multiset{n} - multiset{n};
  }

  lemma ApplyAppend<T>(p: seq<int>, q: seq<int>, f: seq<T>)
    requires InBounds(p, |f|) && InBounds(q, |f|)
    ensures InBounds(p + q, |f|)
    ensures Apply(p + q, f) == Apply(p, f) + Apply(q, f)
  {
  }

  /** Reading through index sequences that hold the same indices gives the
      same values, up to order. */
  lemma {:induction false} ApplyPreservesMultiset<T>(p: seq<int>, q: seq<int>, f: seq<T>)
    requires InBounds(p, |f|) && InBounds(q, |f|)
    requires multiset(p) == multiset(q)
    ensures multiset(Apply(p, f)) == multiset(Apply(q, f))
  {
    if p == [] {
      assert |q| == |multiset(q)| == 0;
    } else {
      var x := p[|p| - 1];
      var p' := p[..|p| - 1];
      assert p == p' + [x];
      var a, b := SplitAt(q, x);
      ApplyAfterRemoval(p, q, a, b, x);
      ApplyOfSplit(p', [x], f);
      ApplyOfSplit(a + [x], b, f);
      ApplyOfSplit(a, [x], f);
      InBoundsAppend(a, b, |f|);
      ApplyOfSplit(a, b, f);
      ApplyPreservesMultiset(p', a + b, f);
    }
  }

  lemma SplitAt(q: seq<int>, x: int) returns (a: seq<int>, b: seq<int>)
    requires x in multiset(q)
    ensures q == a + [x] + b
  {
    var idx :| 0 <= idx < |q| && q[idx] == x;
    a, b := q[..idx], q[idx + 1..];
  }

  lemma ApplyAfterRemoval(p: seq<int>, q: seq<int>, a: seq<int>, b: seq<int>, x: int)
    requires p != [] && p[|p| - 1] == x
    requires multiset(p) == multiset(q)
    requires q == a + [x] + b
    ensures multiset(p[..|p| - 1]) == multiset(a + b)
  {
    assert p == p[..|p| - 1] + [x];
    assert multiset(p) == multiset(p[..|p| - 1]) + multiset{x};
    assert multiset(q) == multiset(a + b) + multiset{x};
    assert multiset(p[..|p| - 1]) == multiset(p) - multiset{x};
    assert multiset(a + b) == multiset(q) - multiset{x};
  }

  lemma InBoundsAppend(p: seq<int>, q: seq<int>, n: int)
    requires InBounds(p, n) && InBounds(q, n)
    ensures InBounds(p + q, n)
  {
    forall j | 0 <= j < |p + q|
      ensures 0 <= (p + q)[j] < n
    {
      if j >= |p| {
        assert (p + q)[j] == q[j - |p|];
      }
    }
  }

  lemma ApplyOfSplit<T>(p: seq<int>, q: seq<int>, f: seq<T>)
    requires InBounds(p + q, |f|)
    ensures InBounds(p, |f|) && InBounds(q, |f|)
    ensures multiset(Apply(p + q, f)) == multiset(Apply(p, f)) + multiset(Apply(q, f))
  {
    assert forall j :: 0 <= j < |p| ==> p[j] == (p + q)[j];
    assert forall j :: 0 <= j < |q| ==> q[j] == (p + q)[|p| + j];
    assert Apply(p + q, f) == Apply(p, f) + Apply(q, f);
  }

  /** If two sequences with the same multiset are split into three parts
      whose entries lie below lo, in [lo, hi), and at or above hi
      respectively, then their middle parts hold the same multiset. */
  lemma MiddleMultiset(a: seq<int>, b: seq<int>, c: seq<int>, a': seq<int>, b': seq<int>, c': seq<int>, lo: int, hi: int)
    requires multiset(a + b + c) == multiset(a' + b' + c')
    requires forall x :: x in a ==> x < lo
    requires forall x :: x in a' ==> x < lo
    requires forall x :: x in b ==> lo <= x < hi
    requires forall x :: x in b' ==> lo <= x < hi
    requires forall x :: x in c ==> hi <= x
    requires forall x :: x in c' ==> hi <= x
    ensures multiset(b) == multiset(b')
  {
    forall x
      ensures multiset(b)[x] == multiset(b')[x]
    {
      assert multiset(a + b + c)[x] == multiset(a)[x] + multiset(b)[x] + multiset(c)[x];
      assert multiset(a' + b' + c')[x] == multiset(a')[x] + multiset(b')[x] + multiset(c')[x];
      if x < lo {
        assert x !in b && x !in b';
      } else if x < hi {
        assert x !in a && x !in a' && x !in c && x !in c';
      } else {
        assert x !in b && x !in b';
      }
    }
  }

  /** A permutation of [0, n) that maps the positions before, inside and
      after [lo, hi) to indices before, inside and after [lo, hi) restricts
      to a permutation of [lo, hi) on that block. */
  lemma BlockPermutation(p: seq<int>, n: nat, lo: int, hi: int)
    requires IsPermutation(p, n) && |p| == n
    requires 0 <= lo <= hi <= n
    requires forall j :: 0 <= j < n ==>
      && (j < lo ==> p[j] < lo)
      && (lo <= j < hi ==> lo <= p[j] < hi)
      && (hi <= j ==> hi <= p[j])
    ensures multiset(p[lo..hi]) == multiset(Interval(lo, hi))
  {
    var below, inside, above := p[..lo], p[lo..hi], p[hi..];
    forall x | x in below
      ensures x < lo
    {
      var t :| 0 <= t < |below| && below[t] == x;
      assert p[t] == x;
    }
    forall x | x in inside
      ensures lo <= x < hi
    {
      var t :| 0 <= t < |inside| && inside[t] == x;
      assert p[lo + t] == x;
    }
    forall x | x in above
      ensures hi <= x
    {
      var t :| 0 <= t < |above| && above[t] == x;
      assert p[hi + t] == x;
    }
    assert p == below + inside + above;
    assert Interval(0, n) == Interval(0, lo) + Interval(lo, hi) + Interval(hi, n);
    MiddleMultiset(below, inside, above, Interval(0, lo), Interval(lo, hi), Interval(hi, n), lo, hi);
  }
}
