/**
 * The order in which a ray meets what it intersects: the sort key shared by
 * IntersectedCellForSorting and IntersectedRankForSorting, the sort
 * permutation built with iota + sort, and the fact that sorting tagged CSR
 * results by that key keeps every ray's results inside the ray's own segment,
 * in ascending entry length.
 */
module IntersectionOrder {
  import opened Csr
  import opened Permutations

  /** A float length along a ray; +inf marks "no entry". */
  datatype Length = Finite(value: real) | Infinite

  /** `<` on floats, extended with +inf above every finite length. */
  predicate LengthLess(a: Length, b: Length)
  {
    match a
    case Infinite => false
    case Finite(x) => b.Infinite? || x < b.value
  }

  /** The sorting part of an intersection record. */
  datatype SortKey = SortKey(entryLength: Length, rayId: int)

  /** operator< of both sorting records: by ray id, then by entry length. */
  predicate Less(l: SortKey, r: SortKey)
  {
    if l.rayId == r.rayId then LengthLess(l.entryLength, r.entryLength) else l.rayId < r.rayId
  }

  /** `l` does not come after `r`. */
  predicate NotAfter(l: SortKey, r: SortKey)
  {
    !Less(r, l)
  }

  /** Less is a strict total order: irreflexive, transitive, and any two
      distinct keys are ordered one way or the other. */
  lemma LessIsStrictTotalOrder(a: SortKey, b: SortKey, c: SortKey)
    ensures !Less(a, a)
    ensures Less(a, b) && Less(b, c) ==> Less(a, c)
    ensures a != b ==> Less(a, b) || Less(b, a)
    ensures !(Less(a, b) && Less(b, a))
  {
  }

  /** A key never comes before a key of a smaller ray, so sorting by Less
      groups the records by ray id in ascending order; within one ray the
      entry lengths decide. */
  lemma LessGroupsByRay(a: SortKey, b: SortKey)
    ensures NotAfter(a, b) ==> a.rayId <= b.rayId
    ensures a.rayId < b.rayId ==> Less(a, b)
    ensures a.rayId == b.rayId ==> (Less(a, b) <==> LengthLess(a.entryLength, b.entryLength))
  {
  }

  lemma NotAfterTransitive(a: SortKey, b: SortKey, c: SortKey)
    requires NotAfter(a, b) && NotAfter(b, c)
    ensures NotAfter(a, c)
  {
  }

  /** Reading `keys` through `p` gives a sequence that never decreases. */
  ghost predicate SortedBy(keys: seq<SortKey>, p: seq<int>)
    requires InBounds(p, |keys|)
  {
    forall a, b :: 0 <= a < b < |p| ==> NotAfter(keys[p[a]], keys[p[b]])
  }

  lemma SwapPreservesMultiset(s: seq<int>, i: int, j: int)
    requires 0 <= i < j < |s|
    ensures multiset(s[i := s[j]][j := s[i]]) == multiset(s)
  {
    var t := s[i := s[j]][j := s[i]];
    assert s == s[..i] + [s[i]] + s[i + 1..j] + [s[j]] + s[j + 1..];
    assert t == s[..i] + [s[j]] + s[i + 1..j] + [s[i]] + s[j + 1..];
  }

  /** Along p, the keys at positions [0, hi) never decrease. */
  ghost predicate SortedBelow(keys: seq<SortKey>, p: seq<int>, hi: int)
    requires InBounds(p, |keys|)
  {
    forall a, b :: 0 <= a < b < hi && b < |p| ==> NotAfter(keys[p[a]], keys[p[b]])
  }

  /** Along p, the keys at positions [0, hi] never decrease, except that
      position j is not constrained. */
  ghost predicate SortedExcept(keys: seq<SortKey>, p: seq<int>, hi: int, j: int)
    requires InBounds(p, |keys|)
  {
    forall a, b :: 0 <= a < b <= hi && b < |p| && a != j && b != j ==> NotAfter(keys[p[a]], keys[p[b]])
  }

  /** Along p, the key at position j does not come after those at (j, hi]. */
  ghost predicate BelowFollowers(keys: seq<SortKey>, p: seq<int>, hi: int, j: int)
    requires InBounds(p, |keys|) && 0 <= j < |p|
  {
    forall b :: j < b <= hi && b < |p| ==> NotAfter(keys[p[j]], keys[p[b]])
  }

  /** Swapping the sinking entry with its left neighbour, which it precedes,
      keeps both insertion invariants one position further left. */
  lemma SinkStep(keys: seq<SortKey>, p: seq<int>, hi: int, j: int)
    requires InBounds(p, |keys|) && 0 < j <= hi < |p|
    requires SortedExcept(keys, p, hi, j) && BelowFollowers(keys, p, hi, j)
    requires Less(keys[p[j]], keys[p[j - 1]])
    ensures InBounds(p[j - 1 := p[j]][j := p[j - 1]], |keys|)
    ensures SortedExcept(keys, p[j - 1 := p[j]][j := p[j - 1]], hi, j - 1)
    ensures BelowFollowers(keys, p[j - 1 := p[j]][j := p[j - 1]], hi, j - 1)
  {
  }

  /** When the sinking entry stops, positions [0, hi] are sorted. */
  lemma SinkDone(keys: seq<SortKey>, p: seq<int>, hi: int, j: int)
    requires InBounds(p, |keys|) && 0 <= j <= hi < |p|
    requires SortedExcept(keys, p, hi, j) && BelowFollowers(keys, p, hi, j)
    requires j > 0 ==> NotAfter(keys[p[j - 1]], keys[p[j]])
    ensures SortedBelow(keys, p, hi + 1)
  {
    forall a, b | 0 <= a < b <= hi
      ensures NotAfter(keys[p[a]], keys[p[b]])
    {
      if b == j && a < j - 1 {
        NotAfterTransitive(keys[p[a]], keys[p[j - 1]], keys[p[j]]);
      }
    }
  }

  /** The state of an insertion step while the entry from position i sinks
      and is at position j: p is a reordering of p0 inside the bounds of
      keys, and around position j the keys of [0, i] are in order. */
  ghost predicate Sinking(keys: seq<SortKey>, p: seq<int>, p0: seq<int>, i: int, j: int)
  {
    && 0 <= j <= i < |p|
    && InBounds(p, |keys|)
    && multiset(p) == multiset(p0)
    && SortedExcept(keys, p, i, j)
    && BelowFollowers(keys, p, i, j)
  }

  /** Swapping the sinking entry with its left neighbour keeps the state. */
  lemma SinkingStep(keys: seq<SortKey>, p: seq<int>, p0: seq<int>, i: int, j: int)
    requires Sinking(keys, p, p0, i, j) && j > 0
    requires Less(keys[p[j]], keys[p[j - 1]])
    ensures Sinking(keys, p[j - 1 := p[j]][j := p[j - 1]], p0, i, j - 1)
  {
    SwapPreservesMultiset(p, j - 1, j);
    SinkStep(keys, p, i, j);
  }

  /** One insertion step: the entry at position i sinks left past every
      entry whose key it precedes, so that positions [0, i] become sorted. */
  method InsertLast(keys: seq<SortKey>, perm: array<int>, i: int)
    requires 0 <= i < perm.Length == |keys|
    requires InBounds(perm[..], |keys|)
    requires SortedBelow(keys, perm[..], i)
    modifies perm
    ensures InBounds(perm[..], |keys|)
    ensures multiset(perm[..]) == multiset(old(perm[..]))
    ensures SortedBelow(keys, perm[..], i + 1)
  {
    var j := i;
    while j > 0 && Less(keys[perm[j]], keys[perm[j - 1]])
      invariant Sinking(keys, perm[..], old(perm[..]), i, j)
    {
      ghost var before := perm[..];
      assert Less(keys[before[j]], keys[before[j - 1]]);
      SinkingStep(keys, before, old(perm[..]), i, j);
      SwapWithLeft(perm, j);
      j := j - 1;
    }
    SinkDone(keys, perm[..], i, j);
  }

  /** Exchange the entry at position j with its left neighbour. */
  method SwapWithLeft(perm: array<int>, j: int)
    requires 0 < j < perm.Length
    modifies perm
    ensures perm[..] == old(perm[..])[j - 1 := old(perm[..])[j]][j := old(perm[..])[j - 1]]
  {
    perm[j - 1], perm[j] := perm[j], perm[j - 1];
  }

  /** The host sort of the intersection records: std::iota writes the
      identity, then std::sort orders the indices by the keys they point to.
      The result is a permutation of [0, |keys|) along which the keys never
      decrease. */
  method SortPermutation(keys: seq<SortKey>) returns (perm: array<int>)
    ensures perm.Length == |keys|
    ensures InBounds(perm[..], |keys|)
    ensures IsPermutation(perm[..], |keys|)
    ensures SortedBy(keys, perm[..])
  {
    var m := |keys|;
    perm := new int[m];
    var t := 0;
    while t < m
      invariant 0 <= t <= m
      invariant forall s :: 0 <= s < t ==> perm[s] == s
    {
      perm[t] := t;
      t := t + 1;
    }
    assert perm[..] == Interval(0, m);
    var i := 0;
    while i < m
      invariant 0 <= i <= m
      invariant InBounds(perm[..], m)
      invariant multiset(perm[..]) == multiset(Interval(0, m))
      invariant SortedBelow(keys, perm[..], i)
    {
      InsertLast(keys, perm, i);
      i := i + 1;
    }
  }

  /** Records whose positions lie in segment i of `offset` all carry ray id i,
      as the evaluation loop writes them. */
  ghost predicate TaggedSegments(keys: seq<SortKey>, offset: seq<int>)
  {
    && IsCsr(offset, |keys|)
    && forall i, j :: 0 <= i < |offset| - 1 && offset[i] <= j < offset[i + 1] ==> keys[j].rayId == i
  }

  /** Every position of a CSR layout lies in exactly one segment. */
  lemma FindSegment(offset: seq<int>, size: int, x: int) returns (s: int)
    requires IsCsr(offset, size)
    requires 0 <= x < size
    ensures 0 <= s < |offset| - 1
    ensures offset[s] <= x < offset[s + 1]
  {
    s := 0;
    while offset[s + 1] <= x
      invariant 0 <= s < |offset| - 1
      invariant offset[s] <= x
      decreases |offset| - s
    {
      s := s + 1;
    }
  }

  ghost predicate NonDecreasing(s: seq<int>)
  {
    forall a, b :: 0 <= a < b < |s| ==> s[a] <= s[b]
  }

  lemma LastIsMaximum(a: seq<int>, x: int)
    requires NonDecreasing(a) && x in a
    ensures x <= a[|a| - 1]
  {
  }

  /** Two non-decreasing sequences holding the same multiset are equal. */
  lemma {:induction false} SortedUnique(a: seq<int>, b: seq<int>)
    requires NonDecreasing(a) && NonDecreasing(b)
    requires multiset(a) == multiset(b)
    ensures a == b
  {
    assert |a| == |multiset(a)| == |multiset(b)| == |b|;
    if a != [] {
      var n := |a| - 1;
      assert b[n] in multiset(a) && a[n] in multiset(b);
      LastIsMaximum(a, b[n]);
      LastIsMaximum(b, a[n]);
      assert a[n] == b[n];
      DropLast(a);
      DropLast(b);
      SortedUnique(a[..n], b[..n]);
      SameFrontAndLast(a, b);
    }
  }

  lemma SameFrontAndLast(a: seq<int>, b: seq<int>)
    requires |a| == |b| > 0
    requires a[..|a| - 1] == b[..|b| - 1] && a[|a| - 1] == b[|b| - 1]
    ensures a == b
  {
    assert a == a[..|a| - 1] + [a[|a| - 1]];
    assert b == b[..|b| - 1] + [b[|b| - 1]];
  }

  /** Dropping the last element keeps a sequence non-decreasing and removes
      one occurrence of that element from its multiset. */
  lemma DropLast(a: seq<int>)
    requires NonDecreasing(a) && a != []
    ensures NonDecreasing(a[..|a| - 1])
    ensures multiset(a[..|a| - 1]) == multiset(a) - multiset{a[|a| - 1]}
  {
    assert a == a[..|a| - 1] + [a[|a| - 1]];
  }

  /** The ray ids of the records, in storage order. */
  function RayIds(keys: seq<SortKey>): seq<int>
  {
    seq(|keys|, j requires 0 <= j < |keys| => keys[j].rayId)
  }

  /** With tagged segments, a record's ray id says where it is stored:
      before segment i, inside it, or after it. */
  lemma RayIdLocatesRecord(keys: seq<SortKey>, offset: seq<int>, i: int, x: int)
    requires TaggedSegments(keys, offset)
    requires 0 <= i < |offset| - 1 && 0 <= x < |keys|
    ensures keys[x].rayId < i <==> x < offset[i]
    ensures keys[x].rayId == i <==> offset[i] <= x < offset[i + 1]
  {
    var s := FindSegment(offset, |keys|, x);
    if s < i {
      assert offset[s + 1] <= offset[i];
    } else if s > i {
      assert offset[i + 1] <= offset[s];
    }
  }

  lemma RayIdsNonDecreasing(keys: seq<SortKey>, offset: seq<int>)
    requires TaggedSegments(keys, offset)
    ensures NonDecreasing(RayIds(keys))
  {
    var ids := RayIds(keys);
    forall a, b | 0 <= a < b < |keys|
      ensures ids[a] <= ids[b]
    {
      var sb := FindSegment(offset, |keys|, b);
      RayIdLocatesRecord(keys, offset, sb, a);
    }
  }

  /** The ray ids seen along a sort permutation are exactly the ray ids in
      storage order: sorting only reorders records within rays. */
  lemma SortedRayIds(keys: seq<SortKey>, offset: seq<int>, perm: seq<int>)
    requires TaggedSegments(keys, offset)
    requires |perm| == |keys| && InBounds(perm, |keys|) && IsPermutation(perm, |keys|)
    requires SortedBy(keys, perm)
    ensures forall j :: 0 <= j < |perm| ==> keys[perm[j]].rayId == keys[j].rayId
  {
    var ids := RayIds(keys);
    var m := |keys|;
    RayIdsNonDecreasing(keys, offset);
    var sorted := Apply(perm, ids);
    assert NonDecreasing(sorted) by {
      forall a, b | 0 <= a < b < m
        ensures sorted[a] <= sorted[b]
      {
        LessGroupsByRay(keys[perm[a]], keys[perm[b]]);
      }
    }
    assert Apply(Interval(0, m), ids) == ids;
    ApplyPreservesMultiset(perm, Interval(0, m), ids);
    SortedUnique(sorted, ids);
    forall j | 0 <= j < m
      ensures keys[perm[j]].rayId == keys[j].rayId
    {
      assert sorted[j] == ids[j];
    }
  }

  /** Along the sort permutation, positions before, inside and after
      segment i read records stored before, inside and after it. */
  lemma PermutationKeepsSides(keys: seq<SortKey>, offset: seq<int>, perm: seq<int>, i: int)
    requires TaggedSegments(keys, offset)
    requires |perm| == |keys| && InBounds(perm, |keys|) && IsPermutation(perm, |keys|)
    requires SortedBy(keys, perm)
    requires 0 <= i < |offset| - 1
    ensures 0 <= offset[i] <= offset[i + 1] <= |perm|
    ensures forall j :: 0 <= j < |perm| ==>
      && (j < offset[i] ==> perm[j] < offset[i])
      && (offset[i] <= j < offset[i + 1] ==> offset[i] <= perm[j] < offset[i + 1])
      && (offset[i + 1] <= j ==> offset[i + 1] <= perm[j])
  {
    SortedRayIds(keys, offset, perm);
    forall j | 0 <= j < |perm|
      ensures j < offset[i] ==> perm[j] < offset[i]
      ensures offset[i] <= j < offset[i + 1] ==> offset[i] <= perm[j] < offset[i + 1]
      ensures offset[i + 1] <= j ==> offset[i + 1] <= perm[j]
    {
      RayIdLocatesRecord(keys, offset, i, j);
      RayIdLocatesRecord(keys, offset, i, perm[j]);
    }
  }

  /** The key invariant of the ordered accumulation: along the sort
      permutation, segment i of the CSR layout still holds exactly the
      records of segment i (a permutation of its positions), now in
      ascending entry length. */
  lemma SegmentMapsOntoItself(keys: seq<SortKey>, offset: seq<int>, perm: seq<int>, i: int)
    requires TaggedSegments(keys, offset)
    requires |perm| == |keys| && InBounds(perm, |keys|) && IsPermutation(perm, |keys|)
    requires SortedBy(keys, perm)
    requires 0 <= i < |offset| - 1
    ensures forall j :: offset[i] <= j < offset[i + 1] ==> offset[i] <= perm[j] < offset[i + 1]
    ensures multiset(perm[offset[i]..offset[i + 1]]) == multiset(Interval(offset[i], offset[i + 1]))
    ensures forall a, b :: offset[i] <= a < b < offset[i + 1] ==>
      !LengthLess(keys[perm[b]].entryLength, keys[perm[a]].entryLength)
  {
    var lo, hi := offset[i], offset[i + 1];
    PermutationKeepsSides(keys, offset, perm, i);
    BlockPermutation(perm, |keys|, lo, hi);
    forall a, b | lo <= a < b < hi
      ensures !LengthLess(keys[perm[b]].entryLength, keys[perm[a]].entryLength)
    {
      assert NotAfter(keys[perm[a]], keys[perm[b]]);
    }
  }

  /** In a non-empty segment, the record the sort puts first has the
      smallest entry length of all the records of that segment. */
  lemma FirstOfSegmentIsNearest(keys: seq<SortKey>, offset: seq<int>, perm: seq<int>, i: int)
    requires TaggedSegments(keys, offset)
    requires |perm| == |keys| && InBounds(perm, |keys|) && IsPermutation(perm, |keys|)
    requires SortedBy(keys, perm)
    requires 0 <= i < |offset| - 1 && offset[i] < offset[i + 1]
    ensures forall j :: offset[i] <= j < offset[i + 1] ==>
      !LengthLess(keys[j].entryLength, keys[perm[offset[i]]].entryLength)
  {
    var lo, hi := offset[i], offset[i + 1];
    SegmentMapsOntoItself(keys, offset, perm, i);
    forall j | lo <= j < hi
      ensures !LengthLess(keys[j].entryLength, keys[perm[lo]].entryLength)
    {
      IntervalCount(lo, hi, j);
      assert j in multiset(perm[lo..hi]);
      var t :| lo <= t < hi && perm[t] == j;
      if t != lo {
        assert perm[lo..hi][t - lo] == perm[t];
      }
    }
  }
}
