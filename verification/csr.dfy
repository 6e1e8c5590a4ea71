/**
 * The compressed-sparse-row (CSR) layout that every query stage exchanges:
 * an `offset` array of n + 1 non-decreasing integers starting at 0 and a flat
 * `values` array of length offset[n]; the results of predicate i are
 * values[offset[i] .. offset[i + 1]).
 */
module Csr {

  /** Sum of a sequence, folded from the right end so that it grows one
      element at a time, like the running total of a scan. */
  function Sum(s: seq<int>): int
  {
    if s == [] then 0 else Sum(s[..|s| - 1]) + s[|s| - 1]
  }

  /** Exclusive prefix sums: element i is the sum of the elements before i.
      The last input element never contributes to the result. */
  function PrefixSums(s: seq<int>): seq<int>
  {
    seq(|s|, i requires 0 <= i < |s| => Sum(s[..i]))
  }

  /** A well-formed CSR offset array addressing `size` values. */
  ghost predicate IsCsr(offset: seq<int>, size: int)
  {
    && |offset| > 0
    && offset[0] == 0
    && offset[|offset| - 1] == size
    && forall i, j :: 0 <= i <= j < |offset| ==> offset[i] <= offset[j]
  }

  /** Number of results of each predicate. */
  function Counts<T>(hits: seq<seq<T>>): seq<int>
  {
    seq(|hits|, i requires 0 <= i < |hits| => |hits[i]|)
  }

  /** The results of all predicates laid end to end, predicate 0 first. */
  function Flatten<T>(hits: seq<seq<T>>): seq<T>
  {
    if hits == [] then [] else Flatten(hits[..|hits| - 1]) + hits[|hits| - 1]
  }

  /** The in-place exclusive scan used on every offset array
      (ArborX's exclusivePrefixSum). */
  method ExclusivePrefixSum(a: array<int>)
    modifies a
    ensures a[..] == PrefixSums(old(a[..]))
  {
    ghost var s := a[..];
    var acc := 0;
    var i := 0;
    while i < a.Length
      invariant 0 <= i <= a.Length
      invariant acc == Sum(s[..i])
      invariant forall t :: 0 <= t < i ==> a[t] == Sum(s[..t])
      invariant forall t :: i <= t < a.Length ==> a[t] == s[t]
    {
      var x := a[i];
      a[i] := acc;
      assert s[..i + 1][..i] == s[..i];
      acc := acc + x;
      i := i + 1;
    }
  }

  lemma {:induction false} SumOfConstant(n: nat, b: int)
    ensures Sum(seq(n, _ => b)) == n * b
  {
    if n > 0 {
      assert seq(n, _ => b)[..n - 1] == seq(n - 1, _ => b);
      SumOfConstant(n - 1, b);
    }
  }

  /** Scanning n + 1 copies of b gives offset[i] = i * b: predicate i owns
      the speculative slots [i * b, (i + 1) * b). */
  lemma PrefixSumsOfConstant(n: nat, b: int)
    ensures |PrefixSums(seq(n + 1, _ => b))| == n + 1
    ensures forall i :: 0 <= i <= n ==> PrefixSums(seq(n + 1, _ => b))[i] == i * b
  {
    forall i | 0 <= i <= n
      ensures PrefixSums(seq(n + 1, _ => b))[i] == i * b
    {
      assert seq(n + 1, _ => b)[..i] == seq(i, _ => b);
      SumOfConstant(i, b);
    }
  }

  lemma {:induction false} SumOfNonNegative(s: seq<int>)
    requires forall i :: 0 <= i < |s| ==> s[i] >= 0
    ensures Sum(s) >= 0
  {
    if s != [] {
      SumOfNonNegative(s[..|s| - 1]);
    }
  }

  /** Sums are monotone in every term. */
  lemma {:induction false} SumBelow(a: seq<int>, b: seq<int>)
    requires |a| == |b|
    requires forall i :: 0 <= i < |a| ==> a[i] <= b[i]
    ensures Sum(a) <= Sum(b)
  {
    if a != [] {
      SumBelow(a[..|a| - 1], b[..|b| - 1]);
    }
  }

  /** The scan of n counts followed by any last element: it starts at 0,
      step i is exactly count i, and the last entry is the total. */
  lemma {:induction false} PrefixSumsSteps(counts: seq<int>, last: int)
    ensures |PrefixSums(counts + [last])| == |counts| + 1
    ensures PrefixSums(counts + [last])[0] == 0
    ensures forall i :: 0 <= i < |counts| ==>
      PrefixSums(counts + [last])[i + 1] - PrefixSums(counts + [last])[i] == counts[i]
    ensures PrefixSums(counts + [last])[|counts|] == Sum(counts)
  {
    var s := counts + [last];
    forall i | 0 <= i < |counts|
      ensures PrefixSums(s)[i + 1] - PrefixSums(s)[i] == counts[i]
    {
      assert s[..i + 1][..i] == s[..i];
    }
    assert s[..|counts|] == counts;
  }

  /** With non-negative counts the scan is a well-formed CSR offset array. */
  lemma {:induction false} PrefixSumsIsCsr(counts: seq<int>, last: int)
    requires forall i :: 0 <= i < |counts| ==> counts[i] >= 0
    ensures IsCsr(PrefixSums(counts + [last]), Sum(counts))
  {
    var off := PrefixSums(counts + [last]);
    PrefixSumsSteps(counts, last);
    forall i, j | 0 <= i <= j < |off|
      ensures off[i] <= off[j]
    {
      var k := i;
      while k < j
        invariant i <= k <= j
        invariant off[i] <= off[k]
      {
        k := k + 1;
      }
    }
  }

  lemma {:induction false} FlattenAppend<T>(a: seq<seq<T>>, b: seq<seq<T>>)
    ensures Flatten(a + b) == Flatten(a) + Flatten(b)
  {
    if b != [] {
      assert (a + b)[..|a + b| - 1] == a + b[..|b| - 1];
      FlattenAppend(a, b[..|b| - 1]);
    } else {
      assert a + b == a;
    }
  }

  lemma {:induction false} FlattenLength<T>(hits: seq<seq<T>>)
    ensures |Flatten(hits)| == Sum(Counts(hits))
  {
    if hits != [] {
      assert Counts(hits)[..|hits| - 1] == Counts(hits[..|hits| - 1]);
      FlattenLength(hits[..|hits| - 1]);
    }
  }

  /** `offset` and `values` are the CSR encoding of the per-predicate
      results `hits`: the slice of predicate i is exactly hits[i]. */
  ghost predicate IsCsrOf<T>(offset: seq<int>, values: seq<T>, hits: seq<seq<T>>)
  {
    && |offset| == |hits| + 1
    && IsCsr(offset, |values|)
    && forall i {:trigger hits[i]} :: 0 <= i < |hits| ==> values[offset[i]..offset[i + 1]] == hits[i]
  }

  lemma {:induction false} SegmentOfFlatten<T>(hits: seq<seq<T>>, i: nat)
    requires i < |hits|
    ensures |Flatten(hits[..i])| == Sum(Counts(hits)[..i])
    ensures |Flatten(hits[..i])| + |hits[i]| <= |Flatten(hits)|
    ensures Flatten(hits)[|Flatten(hits[..i])|..|Flatten(hits[..i])| + |hits[i]|] == hits[i]
  {
    assert hits == hits[..i] + [hits[i]] + hits[i + 1..];
    FlattenAppend(hits[..i] + [hits[i]], hits[i + 1..]);
    FlattenAppend(hits[..i], [hits[i]]);
    assert Flatten([hits[i]]) == hits[i] by {
      assert [hits[i]][..0] == [];
    }
    FlattenLength(hits[..i]);
    assert Counts(hits[..i]) == Counts(hits)[..i];
  }

  /** The scan of the counts is the CSR layout of the flattened results:
      the segment of predicate i in Flatten(hits) is exactly hits[i]. */
  lemma {:induction false} CsrOfHits<T>(hits: seq<seq<T>>, last: int)
    ensures IsCsrOf(PrefixSums(Counts(hits) + [last]), Flatten(hits), hits)
  {
    var off := PrefixSums(Counts(hits) + [last]);
    FlattenLength(hits);
    PrefixSumsIsCsr(Counts(hits), last);
    forall i | 0 <= i < |hits|
      ensures Flatten(hits)[off[i]..off[i + 1]] == hits[i]
    {
      SegmentOfHits(hits, last, i);
    }
  }

  /** Offsets i and i + 1 of the scan of the counts delimit hits[i] in
      Flatten(hits). */
  lemma SegmentOfHits<T>(hits: seq<seq<T>>, last: int, i: nat)
    requires i < |hits|
    ensures |PrefixSums(Counts(hits) + [last])| == |hits| + 1
    ensures var off := PrefixSums(Counts(hits) + [last]);
      && 0 <= off[i] <= off[i + 1] <= |Flatten(hits)|
      && Flatten(hits)[off[i]..off[i + 1]] == hits[i]
  {
    var off := PrefixSums(Counts(hits) + [last]);
    PrefixSumsSteps(Counts(hits), last);
    assert off[i + 1] - off[i] == Counts(hits)[i] == |hits[i]|;
    assert (Counts(hits) + [last])[..i] == Counts(hits)[..i];
    assert off[i] == Sum(Counts(hits)[..i]);
    SegmentOfFlatten(hits, i);
  }

  /** The offsets of the exact CSR layout of `hits`. */
  function CsrOffsets<T>(hits: seq<seq<T>>): seq<int>
  {
    PrefixSums(Counts(hits) + [0])
  }

  /** An exclusive scan never reads its last input element. */
  lemma PrefixSumsIgnoreLast(s: seq<int>, x: int, y: int)
    ensures PrefixSums(s + [x]) == PrefixSums(s + [y])
  {
    forall i | 0 <= i < |s| + 1
      ensures (s + [x])[..i] == (s + [y])[..i]
    {
      assert (s + [x])[..i] == s[..i] == (s + [y])[..i];
    }
  }

  /** The CSR encoding of a batch of results is unique: its offsets are
      determined by the per-predicate result counts. */
  lemma {:induction false} CsrOffsetsUnique<T>(offset: seq<int>, values: seq<T>, hits: seq<seq<T>>)
    requires IsCsrOf(offset, values, hits)
    ensures offset == CsrOffsets(hits)
  {
    var expected := CsrOffsets(hits);
    PrefixSumsSteps(Counts(hits), 0);
    var i := 0;
    while i < |hits|
      invariant 0 <= i <= |hits|
      invariant forall t :: 0 <= t <= i ==> offset[t] == expected[t]
    {
      assert |values[offset[i]..offset[i + 1]]| == |hits[i]|;
      i := i + 1;
    }
  }
}
