/**
 * The post-processing callback of the distributed raytracing example
 * (AccumulateRayRankIntersections): for every ray forwarded to this rank it
 * orders the ray's intersections with the rank's cells by entry length,
 * accumulates the optical depth through the rank and the rank's intensity
 * contribution, and collapses the CSR result to one record per ray.
 *
 * Float arithmetic is modelled over `real`. The ray-box geometry is the
 * parameter `overlap` (path length and entry length of ray i through box
 * b), the absorption coefficient is `kappa`, the attenuation exp(-x) is the
 * function parameter `E`, and the emission weight sigma * T^4 / pi is `w`.
 */
module RayRankAccumulation {
  import opened Csr
  import opened Permutations
  import opened IntersectionOrder

  /** What overlapDistance reports for a ray and a box. */
  datatype Overlap = Overlap(length: real, entryLength: Length)

  /** IntersectedRank: one record per ray and rank. */
  datatype IntersectedRank = IntersectedRank(
    entryLength: Length,
    opticalPathLength: real,
    intensityContribution: real,
    rayId: int)

  datatype Option<T> = None | Some(value: T)

  /** Sum of reals, folded from the right end like a running total. */
  function SumR(s: seq<real>): real
  {
    if s == [] then 0.0 else SumR(s[..|s| - 1]) + s[|s| - 1]
  }

  lemma {:induction false} SumRAppend(a: seq<real>, b: seq<real>)
    ensures SumR(a + b) == SumR(a) + SumR(b)
  {
    if b != [] {
      assert (a + b)[..|a + b| - 1] == a + b[..|b| - 1];
      SumRAppend(a, b[..|b| - 1]);
    } else {
      assert a + b == a;
    }
  }

  /** Taking one term out of a sum. */
  lemma {:induction false} SumRRemove(b: seq<real>, k: int)
    requires 0 <= k < |b|
    ensures SumR(b) == SumR(b[..k] + b[k + 1..]) + b[k]
  {
    assert b == b[..k] + [b[k]] + b[k + 1..];
    SumRAppend(b[..k] + [b[k]], b[k + 1..]);
    SumRAppend(b[..k], [b[k]]);
    SumRAppend(b[..k], b[k + 1..]);
    assert SumR([b[k]]) == b[k] by {
      assert [b[k]][..0] == [];
    }
  }

  /** The accumulated depth does not depend on the order of the terms. */
  lemma {:induction false} SumRPermutation(a: seq<real>, b: seq<real>)
    requires multiset(a) == multiset(b)
    ensures SumR(a) == SumR(b)
  {
    if a == [] {
      assert |b| == |multiset(b)| == 0;
    } else {
      var x := a[|a| - 1];
      var a' := a[..|a| - 1];
      assert a == a' + [x];
      assert x in multiset(b);
      var k :| 0 <= k < |b| && b[k] == x;
      var b' := b[..k] + b[k + 1..];
      assert b == b[..k] + [x] + b[k + 1..];
      assert multiset(a') == multiset(a) - multiset{x};
      assert multiset(b') == multiset(b) - multiset{x};
      SumRPermutation(a', b');
      SumRRemove(b, k);
    }
  }

  /** The intensity a ray gathers crossing cells of optical depths `ds` in
      order: each cell adds w * (E(depth before it) - E(depth after it)). */
  function Contribution(E: real -> real, w: real, ds: seq<real>): real
  {
    if ds == [] then 0.0
    else
      var before := ds[..|ds| - 1];
      Contribution(E, w, before) + w * (E(SumR(before)) - E(SumR(ds)))
  }

  /** The intensity gathered between entering the rank (depth 0) and
      leaving it at the given depth. */
  function Gathered(E: real -> real, w: real, depth: real): real
  {
    w * (E(0.0) - E(depth))
  }

  /** The contributions telescope: only the attenuation at the entry and at
      the exit of the rank remain. */
  lemma {:induction false} Telescoping(E: real -> real, w: real, ds: seq<real>)
    ensures Contribution(E, w, ds) == Gathered(E, w, SumR(ds))
  {
    if ds != [] {
      Telescoping(E, w, ds[..|ds| - 1]);
    }
  }

  /** The smaller of two lengths. */
  function MinLength(a: Length, b: Length): Length
  {
    if LengthLess(b, a) then b else a
  }

  /** The smallest entry length, +inf when there is none. */
  function NearestEntry(ls: seq<Length>): (r: Length)
    ensures forall x :: x in ls ==> !LengthLess(x, r)
    ensures ls != [] ==> r in ls
    ensures ls == [] ==> r == Infinite
  {
    if ls == [] then Infinite
    else
      var init := ls[..|ls| - 1];
      assert forall x :: x in ls ==> x in init || x == ls[|ls| - 1];
      MinLength(NearestEntry(init), ls[|ls| - 1])
  }

  /** A length that no member of `ls` undercuts is the nearest entry. */
  lemma {:induction false} NearestEntryUnique(ls: seq<Length>, y: Length)
    requires y in ls
    requires forall x :: x in ls ==> !LengthLess(x, y)
    ensures NearestEntry(ls) == y
  {
    var r := NearestEntry(ls);
    assert !LengthLess(y, r) && !LengthLess(r, y);
  }

  /** What overlapDistance reports for the hits of ray i, stored at
      positions [lo, hi) of `cells`. */
  function RayHits(overlap: (int, int) -> Overlap, cells: seq<int>, i: int, lo: int, hi: int): seq<Overlap>
    requires 0 <= lo <= hi <= |cells|
  {
    seq(hi - lo, t requires 0 <= t < hi - lo => overlap(i, cells[lo + t]))
  }

  function Depths(kappa: real, hits: seq<Overlap>): seq<real>
  {
    seq(|hits|, t requires 0 <= t < |hits| => hits[t].length * kappa)
  }

  function Entries(hits: seq<Overlap>): seq<Length>
  {
    seq(|hits|, t requires 0 <= t < |hits| => hits[t].entryLength)
  }

  /** The record this rank should report for a ray with the given hits: it
      enters the rank at its nearest entry length, accumulates the optical
      depth of all the cells it crosses, and gathers the intensity
      w * (E(0) - E(total depth)). The originating ray id is applied later,
      so it is 0 here. */
  function ExpectedRecord(E: real -> real, w: real, kappa: real, hits: seq<Overlap>): IntersectedRank
  {
    var depth := SumR(Depths(kappa, hits));
    IntersectedRank(NearestEntry(Entries(hits)), depth, Gathered(E, w, depth), 0)
  }

  /** Position j of the evaluation arrays holds the optical distance and
      the sort key of hit j of ray r. */
  ghost predicate EvaluatedHit(od: real, key: SortKey, r: int, cell: int, overlap: (int, int) -> Overlap, kappa: real)
  {
    od == overlap(r, cell).length * kappa && key == SortKey(overlap(r, cell).entryLength, r)
  }

  /** A position lies in one segment of a CSR layout only. */
  lemma SegmentsDisjoint(offset: seq<int>, size: int, r: int, i: int, j: int)
    requires IsCsr(offset, size)
    requires 0 <= r < |offset| - 1 && 0 <= i < |offset| - 1
    requires offset[r] <= j < offset[r + 1] && offset[i] <= j < offset[i + 1]
    ensures r == i
  {
  }

  /** The first loop of the callback: for every ray i and every hit j of its
      segment, the optical distance through the box (path length times
      kappa) and the sort key (entry length, ray i). */
  method EvaluateRayCellInteractions(offset: seq<int>, cells: seq<int>, overlap: (int, int) -> Overlap, kappa: real)
    returns (opticalDistances: array<real>, sortArray: array<SortKey>)
    requires IsCsr(offset, |cells|)
    ensures opticalDistances.Length == sortArray.Length == |cells|
    ensures forall i, j :: 0 <= i < |offset| - 1 && offset[i] <= j < offset[i + 1] ==>
      EvaluatedHit(opticalDistances[j], sortArray[j], i, cells[j], overlap, kappa)
  {
    var n := |offset| - 1;
    var m := |cells|;
    opticalDistances := new real[m];
    sortArray := new SortKey[m](_ => SortKey(Infinite, 0));
    var i := 0;
    while i < n
      invariant 0 <= i <= n
      invariant forall j :: 0 <= j < offset[i] ==>
        var r := sortArray[j].rayId;
        && 0 <= r < i && offset[r] <= j < offset[r + 1]
        && EvaluatedHit(opticalDistances[j], sortArray[j], r, cells[j], overlap, kappa)
    {
      assert offset[i] <= offset[i + 1] <= m;
      var j := offset[i];
      while j < offset[i + 1]
        invariant offset[i] <= j <= offset[i + 1]
        invariant forall j' :: 0 <= j' < j ==>
          var r := sortArray[j'].rayId;
          && 0 <= r <= i && offset[r] <= j' < offset[r + 1]
          && EvaluatedHit(opticalDistances[j'], sortArray[j'], r, cells[j'], overlap, kappa)
      {
        EvaluateHit(opticalDistances, sortArray, i, j, cells, overlap, kappa);
        j := j + 1;
      }
      i := i + 1;
    }
    forall i, j | 0 <= i < n && offset[i] <= j < offset[i + 1]
      ensures EvaluatedHit(opticalDistances[j], sortArray[j], i, cells[j], overlap, kappa)
    {
      assert offset[i + 1] <= offset[n];
      SegmentsDisjoint(offset, m, sortArray[j].rayId, i, j);
    }
  }

  /** The body of the inner loop: evaluate hit j of ray i. */
  method EvaluateHit(
    opticalDistances: array<real>, sortArray: array<SortKey>, i: int, j: int,
    cells: seq<int>, overlap: (int, int) -> Overlap, kappa: real)
    requires 0 <= j < opticalDistances.Length == sortArray.Length == |cells|
    modifies opticalDistances, sortArray
    ensures EvaluatedHit(opticalDistances[j], sortArray[j], i, cells[j], overlap, kappa)
    ensures forall t :: 0 <= t < |cells| && t != j ==>
      opticalDistances[t] == old(opticalDistances[t]) && sortArray[t] == old(sortArray[t])
  {
    var hit := overlap(i, cells[j]);
    opticalDistances[j] := hit.length * kappa;
    sortArray[j] := SortKey(hit.entryLength, i);
  }

  /** The rank entry length as line 307 of the example computes it: the entry
      length of whatever record the sort permutation puts at position lo,
      even when the ray's segment [lo, hi) is empty. None stands for a read
      past the end of the array. */
  function EntryLengthAsWritten(keys: seq<SortKey>, perm: seq<int>, lo: int): Option<Length>
    requires InBounds(perm, |keys|) && 0 <= lo
  {
    if lo < |perm| then Some(keys[perm[lo]].entryLength) else None
  }

  /** With an empty segment the computation as written does not give +inf:
      ray 0 has no hit and ray 1 one hit at entry length 2, so ray 0 is
      reported entering the rank at ray 1's entry length; and when the last
      ray's segment is empty the read goes past the end. */
  lemma EntryLengthAsWrittenMisreadsEmptySegments()
    ensures var keys, offset, perm := [SortKey(Finite(2.0), 1)], [0, 0, 1], [0];
      && TaggedSegments(keys, offset)
      && EntryLengthAsWritten(keys, perm, offset[0]) == Some(Finite(2.0))
      && NearestEntry(Entries([])) == Infinite
    ensures var keys, offset, perm := [SortKey(Finite(2.0), 0)], [0, 1, 1], [0];
      && TaggedSegments(keys, offset)
      && EntryLengthAsWritten(keys, perm, offset[1]) == None
  {
    var keys, offset := [SortKey(Finite(2.0), 1)], [0, 0, 1];
    forall i, j | 0 <= i < |offset| - 1 && offset[i] <= j < offset[i + 1]
      ensures keys[j].rayId == i
    {
      assert i == 1 && j == 0;
    }
    var keys', offset' := [SortKey(Finite(2.0), 0)], [0, 1, 1];
    forall i, j | 0 <= i < |offset'| - 1 && offset'[i] <= j < offset'[i + 1]
      ensures keys'[j].rayId == i
    {
      assert i == 0 && j == 0;
    }
  }

  /** The record of a walk along the sort permutation over positions
      [lo, hi): the entry length of the first record visited (+inf when
      none is), the depth accumulated over the visited cells and the
      intensity gathered cell by cell in that order. */
  function WalkRecord(E: real -> real, w: real, od: seq<real>, keys: seq<SortKey>, perm: seq<int>, lo: int, hi: int): IntersectedRank
    requires |od| == |keys| && InBounds(perm, |keys|)
    requires 0 <= lo <= hi <= |perm|
  {
    var ds := Apply(perm[lo..hi], od);
    IntersectedRank(if lo < hi then keys[perm[lo]].entryLength else Infinite, SumR(ds), Contribution(E, w, ds), 0)
  }

  /** The per-ray accumulation loop: walk the ray's segment [lo, hi) along
      the sort permutation, adding each cell's optical distance to the
      running depth and its w * (E(before) - E(after)) to the intensity.
      The entry length is that of the first record in sorted order, or +inf
      for an empty segment (the evidently intended value of line 307). */
  method AccumulateRay(E: real -> real, w: real, od: seq<real>, keys: seq<SortKey>, perm: seq<int>, lo: int, hi: int)
    returns (r: IntersectedRank)
    requires |od| == |keys| && InBounds(perm, |keys|)
    requires 0 <= lo <= hi <= |perm|
    ensures r == WalkRecord(E, w, od, keys, perm, lo, hi)
  {
    ghost var ds := Apply(perm[lo..hi], od);
    var accum := 0.0;
    var intensity := 0.0;
    var j := lo;
    while j < hi
      invariant lo <= j <= hi
      invariant accum == SumR(ds[..j - lo])
      invariant intensity == Contribution(E, w, ds[..j - lo])
    {
      assert ds[j - lo] == od[perm[j]];
      var lengthIn := accum;
      accum := accum + od[perm[j]];
      AccumulateStep(E, w, ds, j - lo, lengthIn, accum);
      intensity := intensity + w * (E(lengthIn) - E(accum));
      j := j + 1;
    }
    assert ds[..hi - lo] == ds;
    var entry := if lo < hi then keys[perm[lo]].entryLength else Infinite;
    r := IntersectedRank(entry, accum, intensity, 0);
  }

  /** One more cell of a walk adds its optical distance to the depth and
      w * (E(before) - E(after)) to the intensity. */
  lemma AccumulateStep(E: real -> real, w: real, ds: seq<real>, k: int, before: real, after: real)
    requires 0 <= k < |ds|
    requires before == SumR(ds[..k]) && after == before + ds[k]
    ensures SumR(ds[..k + 1]) == after
    ensures Contribution(E, w, ds[..k + 1]) == Contribution(E, w, ds[..k]) + w * (E(before) - E(after))
  {
    assert ds[..k + 1][..k] == ds[..k];
  }

  /** Reading a block of `od` through a permutation of the block's own
      positions gives the same sum. */
  lemma SegmentSum(od: seq<real>, perm: seq<int>, lo: int, hi: int)
    requires 0 <= lo <= hi <= |perm| && hi <= |od|
    requires InBounds(perm, |od|)
    requires multiset(perm[lo..hi]) == multiset(Interval(lo, hi))
    ensures InBounds(perm[lo..hi], |od|)
    ensures SumR(Apply(perm[lo..hi], od)) == SumR(od[lo..hi])
  {
    assert Apply(Interval(lo, hi), od) == od[lo..hi];
    ApplyPreservesMultiset(perm[lo..hi], Interval(lo, hi), od);
    SumRPermutation(Apply(perm[lo..hi], od), od[lo..hi]);
  }

  /** The depth accumulated along the sorted walk of ray i's segment is
      the sum of the optical distances of the ray's hits, whatever their
      order, and the intensity telescopes. */
  lemma SortedWalkDepth(
    E: real -> real, w: real, kappa: real, overlap: (int, int) -> Overlap, cells: seq<int>,
    offset: seq<int>, od: seq<real>, keys: seq<SortKey>, perm: seq<int>, i: int)
    requires TaggedSegments(keys, offset) && |keys| == |cells| == |od|
    requires |perm| == |keys| && InBounds(perm, |keys|) && IsPermutation(perm, |keys|)
    requires SortedBy(keys, perm)
    requires 0 <= i < |offset| - 1
    requires forall j :: offset[i] <= j < offset[i + 1] ==> od[j] == overlap(i, cells[j]).length * kappa
    ensures 0 <= offset[i] <= offset[i + 1] <= |cells|
    ensures InBounds(perm[offset[i]..offset[i + 1]], |od|)
    ensures SumR(Apply(perm[offset[i]..offset[i + 1]], od))
      == SumR(Depths(kappa, RayHits(overlap, cells, i, offset[i], offset[i + 1])))
    ensures Contribution(E, w, Apply(perm[offset[i]..offset[i + 1]], od))
      == Gathered(E, w, SumR(Depths(kappa, RayHits(overlap, cells, i, offset[i], offset[i + 1]))))
  {
    var lo, hi := offset[i], offset[i + 1];
    PermutationKeepsSides(keys, offset, perm, i);
    SegmentMapsOntoItself(keys, offset, perm, i);
    var ds := Apply(perm[lo..hi], od);
    SegmentSum(od, perm, lo, hi);
    SegmentIsDepths(kappa, overlap, cells, od, i, lo, hi);
    Telescoping(E, w, ds);
  }

  /** The optical distances stored for ray i's segment are the depths of
      its hits. */
  lemma SegmentIsDepths(kappa: real, overlap: (int, int) -> Overlap, cells: seq<int>, od: seq<real>, i: int, lo: int, hi: int)
    requires 0 <= lo <= hi <= |cells| == |od|
    requires forall j :: lo <= j < hi ==> od[j] == overlap(i, cells[j]).length * kappa
    ensures od[lo..hi] == Depths(kappa, RayHits(overlap, cells, i, lo, hi))
  {
    forall t | 0 <= t < hi - lo
      ensures od[lo..hi][t] == Depths(kappa, RayHits(overlap, cells, i, lo, hi))[t]
    {
      assert od[lo + t] == overlap(i, cells[lo + t]).length * kappa;
    }
  }

  /** The first record of a non-empty segment in sorted order carries the
      nearest entry length of the ray's hits. */
  lemma SortedWalkEntry(
    overlap: (int, int) -> Overlap, cells: seq<int>,
    offset: seq<int>, keys: seq<SortKey>, perm: seq<int>, i: int)
    requires TaggedSegments(keys, offset) && |keys| == |cells|
    requires |perm| == |keys| && InBounds(perm, |keys|) && IsPermutation(perm, |keys|)
    requires SortedBy(keys, perm)
    requires 0 <= i < |offset| - 1 && offset[i] < offset[i + 1]
    requires forall j :: offset[i] <= j < offset[i + 1] ==> keys[j].entryLength == overlap(i, cells[j]).entryLength
    ensures offset[i + 1] <= |cells|
    ensures keys[perm[offset[i]]].entryLength == NearestEntry(Entries(RayHits(overlap, cells, i, offset[i], offset[i + 1])))
  {
    var lo, hi := offset[i], offset[i + 1];
    PermutationKeepsSides(keys, offset, perm, i);
    FirstOfSegmentIsNearest(keys, offset, perm, i);
    var entries := Entries(RayHits(overlap, cells, i, lo, hi));
    assert entries[perm[lo] - lo] == keys[perm[lo]].entryLength;
    forall x | x in entries
      ensures !LengthLess(x, keys[perm[lo]].entryLength)
    {
      var t :| 0 <= t < |entries| && entries[t] == x;
      assert x == keys[lo + t].entryLength;
    }
    NearestEntryUnique(entries, keys[perm[lo]].entryLength);
  }

  /** Walking ray i's segment along the sort permutation yields the
      expected record of the ray's hits. */
  lemma SortedWalkIsExpected(
    E: real -> real, w: real, kappa: real, overlap: (int, int) -> Overlap, cells: seq<int>,
    offset: seq<int>, od: seq<real>, keys: seq<SortKey>, perm: seq<int>, i: int)
    requires TaggedSegments(keys, offset) && |keys| == |cells| == |od|
    requires |perm| == |keys| && InBounds(perm, |keys|) && IsPermutation(perm, |keys|)
    requires SortedBy(keys, perm)
    requires 0 <= i < |offset| - 1
    requires forall j :: offset[i] <= j < offset[i + 1] ==>
      EvaluatedHit(od[j], keys[j], i, cells[j], overlap, kappa)
    ensures 0 <= offset[i] <= offset[i + 1] <= |cells|
    ensures WalkRecord(E, w, od, keys, perm, offset[i], offset[i + 1])
      == ExpectedRecord(E, w, kappa, RayHits(overlap, cells, i, offset[i], offset[i + 1]))
  {
    var lo, hi := offset[i], offset[i + 1];
    SortedWalkDepth(E, w, kappa, overlap, cells, offset, od, keys, perm, i);
    var hits := RayHits(overlap, cells, i, lo, hi);
    if lo < hi {
      SortedWalkEntry(overlap, cells, offset, keys, perm, i);
    } else {
      assert Entries(hits) == [];
    }
  }

  /** The records of a collapsed rank result: record i is the expected record
      of ray i's hits, stored in segment i of the original offsets. */
  ghost predicate ExpectedRecords(
    out: seq<IntersectedRank>, offset: seq<int>, cells: seq<int>,
    overlap: (int, int) -> Overlap, kappa: real, w: real, E: real -> real)
  {
    && |out| < |offset|
    && forall i :: 0 <= i < |out| ==> IsExpectedRecord(out[i], i, offset, cells, overlap, kappa, w, E)
  }

  /** `r` is the expected record of ray i, whose hits are stored in segment i. */
  ghost predicate IsExpectedRecord(
    r: IntersectedRank, i: int, offset: seq<int>, cells: seq<int>,
    overlap: (int, int) -> Overlap, kappa: real, w: real, E: real -> real)
  {
    && 0 <= i < |offset| - 1
    && 0 <= offset[i] <= offset[i + 1] <= |cells|
    && r == ExpectedRecord(E, w, kappa, RayHits(overlap, cells, i, offset[i], offset[i + 1]))
  }

  /** The evaluation loop tags every segment with its ray. */
  lemma EvaluationTagsSegments(
    offset: seq<int>, cells: seq<int>, od: seq<real>, keys: seq<SortKey>,
    overlap: (int, int) -> Overlap, kappa: real)
    requires IsCsr(offset, |cells|) && |od| == |keys| == |cells|
    requires forall i, j :: 0 <= i < |offset| - 1 && offset[i] <= j < offset[i + 1] ==>
      EvaluatedHit(od[j], keys[j], i, cells[j], overlap, kappa)
    ensures TaggedSegments(keys, offset)
  {
    forall i, j | 0 <= i < |offset| - 1 && offset[i] <= j < offset[i + 1]
      ensures keys[j].rayId == i
    {
      assert EvaluatedHit(od[j], keys[j], i, cells[j], overlap, kappa);
    }
  }

  /** `r` is the record of the sorted walk over segment i. */
  ghost predicate IsWalkRecord(
    r: IntersectedRank, i: int, offset: seq<int>,
    E: real -> real, w: real, od: seq<real>, keys: seq<SortKey>, perm: seq<int>)
  {
    && |od| == |keys| && InBounds(perm, |keys|)
    && 0 <= i < |offset| - 1
    && 0 <= offset[i] <= offset[i + 1] <= |perm|
    && r == WalkRecord(E, w, od, keys, perm, offset[i], offset[i + 1])
  }

  /** The accumulation loop and the offset reset (run sequentially): record
      i is the sorted walk over ray i's original segment, and afterwards
      `offset` is [0, 1, ..., n], one record per ray. Iteration i reads
      offset(i + 1) before iteration i + 1 overwrites it. */
  method CollapseToRecords(offset: array<int>, E: real -> real, w: real, od: seq<real>, keys: seq<SortKey>, perm: seq<int>)
    returns (out: array<IntersectedRank>)
    requires IsCsr(offset[..], |perm|)
    requires |od| == |keys| && InBounds(perm, |keys|)
    modifies offset
    ensures out.Length == offset.Length - 1
    ensures offset[..] == Interval(0, offset.Length)
    ensures forall i :: 0 <= i < out.Length ==> IsWalkRecord(out[i], i, old(offset[..]), E, w, od, keys, perm)
  {
    var n := offset.Length - 1;
    ghost var off0 := offset[..];
    out := new IntersectedRank[n];
    var i := 0;
    while i < n
      invariant 0 <= i <= n
      invariant forall t :: 0 <= t <= n ==> offset[t] == ResetOffset(off0, n, i, t)
      invariant forall t :: 0 <= t < i ==> IsWalkRecord(out[t], t, off0, E, w, od, keys, perm)
    {
      assert offset[i] == off0[i] && offset[i + 1] == off0[i + 1];
      assert off0[i] <= off0[i + 1] <= |perm|;
      CollapseRay(offset, out, i, E, w, od, keys, perm);
      i := i + 1;
    }
    forall t | 0 <= t <= n
      ensures offset[t] == Interval(0, n + 1)[t]
    {
    }
  }

  /** One iteration of the accumulation loop: record i is the sorted walk
      over segment i, then offset(i) is reset to i, and offset(n) to n by
      the last ray. */
  method CollapseRay(
    offset: array<int>, out: array<IntersectedRank>, i: int,
    E: real -> real, w: real, od: seq<real>, keys: seq<SortKey>, perm: seq<int>)
    requires out.Length == offset.Length - 1 && 0 <= i < out.Length
    requires 0 <= offset[i] <= offset[i + 1] <= |perm|
    requires |od| == |keys| && InBounds(perm, |keys|)
    modifies offset, out
    ensures out[..] == old(out[..])[i := WalkRecord(E, w, od, keys, perm, old(offset[i]), old(offset[i + 1]))]
    ensures offset[..] == if i == out.Length - 1 then old(offset[..])[i := i][i + 1 := i + 1]
                          else old(offset[..])[i := i]
  {
    var n := out.Length;
    var lo, hi := offset[i], offset[i + 1];
    var r := AccumulateRay(E, w, od, keys, perm, lo, hi);
    out[i] := r;
    offset[i] := i;
    if i == n - 1 {
      offset[n] := n;
    }
  }

  /** Entry t of the offsets once the first i rays are collapsed: reset to
      t for those rays, and the final entry reset with the last one. */
  function ResetOffset(off0: seq<int>, n: int, i: int, t: int): int
    requires 0 <= t < |off0|
  {
    if t < i || (t == n && i == n) then t else off0[t]
  }

  /** Every sorted walk yields the expected record of its ray. */
  lemma AllWalksExpected(
    E: real -> real, w: real, kappa: real, overlap: (int, int) -> Overlap, cells: seq<int>,
    offset: seq<int>, od: seq<real>, keys: seq<SortKey>, perm: seq<int>, out: seq<IntersectedRank>)
    requires TaggedSegments(keys, offset) && |keys| == |cells| == |od|
    requires |perm| == |keys| && InBounds(perm, |keys|) && IsPermutation(perm, |keys|)
    requires SortedBy(keys, perm)
    requires forall i, j :: 0 <= i < |offset| - 1 && offset[i] <= j < offset[i + 1] ==>
      EvaluatedHit(od[j], keys[j], i, cells[j], overlap, kappa)
    requires |out| == |offset| - 1
    requires forall i :: 0 <= i < |out| ==> IsWalkRecord(out[i], i, offset, E, w, od, keys, perm)
    ensures ExpectedRecords(out, offset, cells, overlap, kappa, w, E)
  {
    forall i | 0 <= i < |out|
      ensures IsExpectedRecord(out[i], i, offset, cells, overlap, kappa, w, E)
    {
      SortedWalkIsExpected(E, w, kappa, overlap, cells, offset, od, keys, perm, i);
    }
  }

  /** The whole callback, run sequentially. `offset`/`cells` arrive as the
      CSR result of the rank's local query (cells[j] is the box of hit j).
      Afterwards `out` holds one record per ray, each the expected record of
      the ray's hits, and `offset` is [0, 1, ..., n] so that every ray owns
      exactly its one record. Iteration i reads offset(i + 1) before
      iteration i + 1 overwrites it, so every ray sees its original
      segment. */
  method AccumulateRayRankIntersections(
    offset: array<int>, cells: seq<int>, overlap: (int, int) -> Overlap,
    kappa: real, w: real, E: real -> real)
    returns (out: array<IntersectedRank>)
    requires IsCsr(offset[..], |cells|)
    modifies offset
    ensures out.Length == offset.Length - 1
    ensures offset[..] == Interval(0, offset.Length)
    ensures ExpectedRecords(out[..], old(offset[..]), cells, overlap, kappa, w, E)
  {
    ghost var off0 := offset[..];
    var od, sortArray := EvaluateRayCellInteractions(offset[..], cells, overlap, kappa);
    var perm := SortPermutation(sortArray[..]);
    var ods, keys, ps := od[..], sortArray[..], perm[..];
    EvaluationTagsSegments(off0, cells, ods, keys, overlap, kappa);
    out := CollapseToRecords(offset, E, w, ods, keys, ps);
    AllWalksExpected(E, w, kappa, overlap, cells, off0, ods, keys, ps, out[..]);
  }
}
