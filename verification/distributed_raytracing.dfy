/**
 * The driver of the distributed raytracing example: the grid and ray
 * numbering, the split of boxes and rays among MPI ranks, and what every
 * rank does with the per-rank records that come back from the distributed
 * query: tag them with the id of the ray they belong to, sort them by
 * (ray, entry length), walk each ray's records front to back attenuating
 * each rank's contribution by the optical depth in front of it, and
 * deposit the ray's intensity into the box the ray was shot from.
 *
 * Float arithmetic is modelled over `real`; exp(-x) is the function
 * parameter `E`, and the weighting x * 4 * pi * kappa / rays_per_box of
 * every deposit is the parameter `Weight`.
 */
module DistributedRaytracing {
  import opened Csr
  import opened Permutations
  import opened IntersectionOrder
  import opened RayRankAccumulation

  // ---------------------------------------------------------------------
  // Integer division facts (all operands non-negative, where Dafny's
  // Euclidean division agrees with C++'s truncating division)
  // ---------------------------------------------------------------------

  lemma MulMonotone(d: int, a: int, b: int)
    requires d >= 0 && a <= b
    ensures d * a <= d * b
  {
    assert d * b - d * a == d * (b - a);
  }

  lemma MulSign(a: int, d: int)
    requires d > 0
    ensures a >= 1 ==> a * d >= d
    ensures a <= -1 ==> a * d <= -d
  {
    if a >= 1 {
      MulMonotone(d, 1, a);
    }
    if a <= -1 {
      MulMonotone(d, a, -1);
    }
  }

  /** Division is determined by any quotient and remainder that fit. */
  lemma DivUnique(x: int, d: int, q: int, r: int)
    requires d > 0 && 0 <= r < d && x == q * d + r
    ensures x / d == q && x % d == r
  {
    var q', r' := x / d, x % d;
    assert x == q' * d + r';
    assert (q - q') * d == r' - r;
    MulSign(q - q', d);
  }

  /** A non-negative number below m * d has a quotient below m. */
  lemma DivBelow(k: int, d: int, m: int)
    requires d > 0 && 0 <= k < m * d
    ensures 0 <= k / d < m
  {
    var q, r := k / d, k % d;
    assert k == q * d + r;
    MulSign(q, d);
    assert (m - q) * d == m * d - q * d;
    MulSign(m - q, d);
  }

  // ---------------------------------------------------------------------
  // Grid and ray numbering
  // ---------------------------------------------------------------------

  /** The id of box (i, j, k) of an nx * ny * nz grid, x fastest. */
  function BoxId(i: int, j: int, k: int, nx: int, ny: int): int
  {
    i + nx * j + nx * ny * k
  }

  /** The grid coordinates of a box id. */
  function BoxCoordinates(id: int, nx: int, ny: int): (int, int, int)
    requires nx > 0 && ny > 0
  {
    (id % nx, (id / nx) % ny, (id / nx) / ny)
  }

  /** Box ids number the grid cells one to one: every cell gets an id in
      [0, nx * ny * nz) from which its coordinates are recovered. */
  lemma BoxIdNumbersCells(i: int, j: int, k: int, nx: int, ny: int, nz: int)
    requires 0 <= i < nx && 0 <= j < ny && 0 <= k < nz
    ensures 0 <= BoxId(i, j, k, nx, ny) < nx * ny * nz
    ensures BoxCoordinates(BoxId(i, j, k, nx, ny), nx, ny) == (i, j, k)
  {
    var id := BoxId(i, j, k, nx, ny);
    var row := j + ny * k;
    assert nx * ny * k == nx * (ny * k);
    assert nx * row == nx * j + nx * (ny * k);
    assert id == row * nx + i;
    DivUnique(id, nx, row, i);
    assert row == k * ny + j;
    DivUnique(row, ny, k, j);
    MulMonotone(ny, 0, k);
    MulMonotone(ny, k + 1, nz);
    assert ny * (k + 1) == ny * k + ny;
    assert 0 <= row < ny * nz;
    MulMonotone(nx, 0, row);
    MulMonotone(nx, row + 1, ny * nz);
    assert nx * (row + 1) == nx * row + nx;
    assert nx * (ny * nz) == nx * ny * nz;
  }

  /** Every id of the grid is the id of the cell its coordinates name. */
  lemma BoxCoordinatesInverse(id: int, nx: int, ny: int, nz: int)
    requires nx > 0 && ny > 0 && 0 <= id < nx * ny * nz
    ensures var (i, j, k) := BoxCoordinates(id, nx, ny);
      && 0 <= i < nx && 0 <= j < ny && 0 <= k < nz
      && BoxId(i, j, k, nx, ny) == id
  {
    var row := id / nx;
    assert id == row * nx + id % nx;
    assert nx * ny * nz == (ny * nz) * nx;
    DivBelow(id, nx, ny * nz);
    DivBelow(row, ny, nz);
    assert row == (row / ny) * ny + row % ny;
    assert nx * row == nx * (row % ny) + nx * ny * (row / ny);
  }

  /** Ray j of box b is stored at index j + b * rays_per_box. */
  function RayIndex(b: int, j: int, raysPerBox: int): int
  {
    j + b * raysPerBox
  }

  /** Ray indices number the rays one to one: ray j of box b gets an index
      in [0, num_boxes * rays_per_box) from which b and j are recovered. */
  lemma RayIndexNumbersRays(b: int, j: int, numBoxes: int, raysPerBox: int)
    requires 0 <= b < numBoxes && 0 <= j < raysPerBox
    ensures 0 <= RayIndex(b, j, raysPerBox) < numBoxes * raysPerBox
    ensures RayIndex(b, j, raysPerBox) / raysPerBox == b
    ensures RayIndex(b, j, raysPerBox) % raysPerBox == j
  {
    DivUnique(RayIndex(b, j, raysPerBox), raysPerBox, b, j);
    MulMonotone(raysPerBox, b + 1, numBoxes);
    MulMonotone(raysPerBox, 0, b);
    assert raysPerBox * (b + 1) == raysPerBox * b + raysPerBox;
  }

  /** Every index below num_boxes * rays_per_box is the index of one ray of
      one box. */
  lemma RayIndexInverse(g: int, numBoxes: int, raysPerBox: int)
    requires raysPerBox > 0 && 0 <= g < numBoxes * raysPerBox
    ensures 0 <= g / raysPerBox < numBoxes && 0 <= g % raysPerBox < raysPerBox
    ensures RayIndex(g / raysPerBox, g % raysPerBox, raysPerBox) == g
  {
    DivBelow(g, raysPerBox, numBoxes);
  }

  // ---------------------------------------------------------------------
  // The split among ranks
  // ---------------------------------------------------------------------

  /** Every rank owns num_boxes / nranks boxes (the rest is dropped, with a
      warning, when the division is not exact). */
  function NumBoxesPerRank(numBoxes: int, nranks: int): int
    requires nranks > 0
  {
    numBoxes / nranks
  }

  /** Box b lies in the slice [nbpr * rank, nbpr * (rank + 1)) of a rank. */
  predicate OwnsBox(numBoxesPerRank: int, rank: int, b: int)
  {
    numBoxesPerRank * rank <= b < numBoxesPerRank * (rank + 1)
  }

  /** The slices of the ranks lie inside the grid and never overlap. */
  lemma RankSlicesDisjoint(numBoxes: int, nranks: int, r1: int, r2: int, b: int)
    requires numBoxes >= 0 && nranks > 0
    requires 0 <= r1 < nranks && 0 <= r2 < nranks
    requires OwnsBox(NumBoxesPerRank(numBoxes, nranks), r1, b)
    requires OwnsBox(NumBoxesPerRank(numBoxes, nranks), r2, b)
    ensures r1 == r2
    ensures 0 <= b < numBoxes
  {
    var nbpr := NumBoxesPerRank(numBoxes, nranks);
    assert numBoxes == nbpr * nranks + numBoxes % nranks;
    MulMonotone(nbpr, r1 + 1, nranks);
    MulMonotone(nbpr, 0, r1);
    if r1 < r2 {
      MulMonotone(nbpr, r1 + 1, r2);
    } else if r2 < r1 {
      MulMonotone(nbpr, r2 + 1, r1);
    }
  }

  /** Some rank owns box b. */
  ghost predicate Owned(numBoxesPerRank: int, nranks: int, b: int)
  {
    exists r :: 0 <= r < nranks && OwnsBox(numBoxesPerRank, r, b)
  }

  /** Every box of the grid is owned by some rank exactly when the number of
      boxes is divisible by the number of ranks; otherwise the last
      num_boxes % nranks boxes belong to nobody. */
  lemma RankSlicesCoverIffDivisible(numBoxes: int, nranks: int)
    requires numBoxes >= 0 && nranks > 0
    ensures (forall b :: 0 <= b < numBoxes ==> Owned(NumBoxesPerRank(numBoxes, nranks), nranks, b))
            <==> numBoxes % nranks == 0
  {
    var nbpr := NumBoxesPerRank(numBoxes, nranks);
    assert numBoxes == nranks * nbpr + numBoxes % nranks;
    if numBoxes % nranks == 0 {
      forall b | 0 <= b < numBoxes
        ensures Owned(nbpr, nranks, b)
      {
        var r := b / nbpr;
        DivBelow(b, nbpr, nranks);
        assert b == r * nbpr + b % nbpr;
        assert nbpr * (r + 1) == nbpr * r + nbpr;
        assert OwnsBox(nbpr, r, b);
      }
    } else {
      var b := numBoxes - 1;
      forall r | 0 <= r < nranks
        ensures !OwnsBox(nbpr, r, b)
      {
        MulMonotone(nbpr, r + 1, nranks);
      }
      assert !Owned(nbpr, nranks, b);
    }
  }

  /** Local ray i of a rank is the ray at global index
      nbpr * rays_per_box * rank + i. The box that the intensity loop credits
      it to, i / rays_per_box + nbpr * rank, is the box that ray was shot
      from, and it is one of the rank's own boxes. */
  lemma BoxOfLocalRay(numBoxesPerRank: int, rank: int, raysPerBox: int, i: int)
    requires raysPerBox > 0 && numBoxesPerRank >= 0 && rank >= 0
    requires 0 <= i < numBoxesPerRank * raysPerBox
    ensures var g := numBoxesPerRank * raysPerBox * rank + i;
      && g / raysPerBox == i / raysPerBox + numBoxesPerRank * rank
      && RayIndex(g / raysPerBox, g % raysPerBox, raysPerBox) == g
      && OwnsBox(numBoxesPerRank, rank, i / raysPerBox + numBoxesPerRank * rank)
  {
    var g := numBoxesPerRank * raysPerBox * rank + i;
    var q, r := i / raysPerBox, i % raysPerBox;
    assert i == q * raysPerBox + r;
    assert g == (numBoxesPerRank * rank + q) * raysPerBox + r;
    DivUnique(g, raysPerBox, numBoxesPerRank * rank + q, r);
    DivBelow(i, raysPerBox, numBoxesPerRank);
    assert numBoxesPerRank * (rank + 1) == numBoxesPerRank * rank + numBoxesPerRank;
  }

  // ---------------------------------------------------------------------
  // Tagging and sorting the per-rank records
  // ---------------------------------------------------------------------

  /** The part of a record the sort looks at (IntersectedRankForSorting). */
  function SortKeys(values: seq<IntersectedRank>): (keys: seq<SortKey>)
    ensures |keys| == |values|
    ensures forall j :: 0 <= j < |values| ==>
      keys[j].entryLength == values[j].entryLength && keys[j].rayId == values[j].rayId
  {
    seq(|values|, j requires 0 <= j < |values| => SortKey(values[j].entryLength, values[j].rayId))
  }

  /** The inner loop of the tagging pass: positions [lo, hi) get ray id i. */
  method TagSegment(values: array<IntersectedRank>, lo: int, hi: int, i: int)
    requires 0 <= lo <= hi <= values.Length
    modifies values
    ensures forall j :: lo <= j < hi ==> values[j] == old(values[j]).(rayId := i)
    ensures forall j :: 0 <= j < lo || hi <= j < values.Length ==> values[j] == old(values[j])
  {
    var j := lo;
    while j < hi
      invariant lo <= j <= hi
      invariant forall j' :: lo <= j' < j ==> values[j'] == old(values[j']).(rayId := i)
      invariant forall j' :: 0 <= j' < lo || j <= j' < values.Length ==> values[j'] == old(values[j'])
    {
      values[j] := values[j].(rayId := i);
      j := j + 1;
    }
  }

  /** Position j was tagged with the ray of the segment holding it. */
  ghost predicate TaggedAt(v: IntersectedRank, v0: IntersectedRank, offsets: seq<int>, bound: int, j: int)
  {
    var r := v.rayId;
    0 <= r < bound && r + 1 < |offsets| && offsets[r] <= j < offsets[r + 1] && v == v0.(rayId := r)
  }

  /** Every record in segment i of the query result gets ray id i; nothing
      else about any record changes. */
  method TagRayIds(values: array<IntersectedRank>, offsets: seq<int>)
    requires IsCsr(offsets, values.Length)
    modifies values
    ensures forall i, j :: 0 <= i < |offsets| - 1 && offsets[i] <= j < offsets[i + 1] ==>
      values[j] == old(values[j]).(rayId := i)
    ensures TaggedSegments(SortKeys(values[..]), offsets)
  {
    ghost var v0 := values[..];
    var n := |offsets| - 1;
    var i := 0;
    while i < n
      invariant 0 <= i <= n
      invariant forall j :: 0 <= j < offsets[i] ==> TaggedAt(values[j], v0[j], offsets, i, j)
      invariant forall j :: offsets[i] <= j < values.Length ==> values[j] == v0[j]
    {
      assert offsets[i] <= offsets[i + 1] <= offsets[n];
      TagSegment(values, offsets[i], offsets[i + 1], i);
      assert forall j :: 0 <= j < offsets[i + 1] ==> TaggedAt(values[j], v0[j], offsets, i + 1, j);
      i := i + 1;
    }
    TaggedEverywhere(values[..], v0, offsets);
  }

  /** Once every position is tagged with the ray of its segment, segment i
      holds exactly the records tagged i. */
  lemma TaggedEverywhere(vs: seq<IntersectedRank>, v0: seq<IntersectedRank>, offsets: seq<int>)
    requires IsCsr(offsets, |vs|) && |v0| == |vs|
    requires forall j :: 0 <= j < offsets[|offsets| - 1] ==> TaggedAt(vs[j], v0[j], offsets, |offsets| - 1, j)
    ensures forall i, j :: 0 <= i < |offsets| - 1 && offsets[i] <= j < offsets[i + 1] ==>
      vs[j] == v0[j].(rayId := i)
    ensures TaggedSegments(SortKeys(vs), offsets)
  {
    var n := |offsets| - 1;
    forall i, j | 0 <= i < n && offsets[i] <= j < offsets[i + 1]
      ensures vs[j] == v0[j].(rayId := i)
    {
      assert offsets[i + 1] <= offsets[n];
      assert TaggedAt(vs[j], v0[j], offsets, n, j);
      SegmentsDisjoint(offsets, |vs|, vs[j].rayId, i, j);
    }
  }

  /** The copy of the records into the sort array. */
  method CopySortKeys(values: array<IntersectedRank>) returns (sortArray: array<SortKey>)
    ensures sortArray.Length == values.Length
    ensures forall j :: 0 <= j < values.Length ==>
      sortArray[j].entryLength == values[j].entryLength && sortArray[j].rayId == values[j].rayId
  {
    sortArray := new SortKey[values.Length](_ => SortKey(Infinite, 0));
    var i := 0;
    while i < values.Length
      invariant 0 <= i <= values.Length
      invariant forall j :: 0 <= j < i ==>
        sortArray[j].entryLength == values[j].entryLength && sortArray[j].rayId == values[j].rayId
    {
      sortArray[i] := SortKey(values[i].entryLength, values[i].rayId);
      i := i + 1;
    }
  }

  // ---------------------------------------------------------------------
  // The intensity of a ray across ranks
  // ---------------------------------------------------------------------

  /** The records of one ray in the order the intensity loop reads them:
      positions [lo, hi) of the permutation. */
  function SegmentWalk(values: seq<IntersectedRank>, perm: seq<int>, lo: int, hi: int): seq<IntersectedRank>
    requires 0 <= lo <= hi <= |perm| && InBounds(perm, |values|)
  {
    Apply(perm[lo..hi], values)
  }

  /** Optical depth accumulated over a run of rank records. */
  function Depth(rs: seq<IntersectedRank>): real
  {
    if rs == [] then 0.0 else Depth(rs[..|rs| - 1]) + rs[|rs| - 1].opticalPathLength
  }

  /** The intensity a ray collects from a run of rank records, front to
      back: each rank's contribution is attenuated by E of the optical depth
      of all the ranks in front of it. */
  function RayIntensity(E: real -> real, rs: seq<IntersectedRank>): real
  {
    if rs == [] then 0.0
    else
      var front := rs[..|rs| - 1];
      RayIntensity(E, front) + E(Depth(front)) * rs[|rs| - 1].intensityContribution
  }

  /** The inner loop of the intensity pass for one ray. */
  method RayIntensityOf(E: real -> real, values: seq<IntersectedRank>, perm: seq<int>, lo: int, hi: int)
    returns (intensity: real)
    requires 0 <= lo <= hi <= |perm| && InBounds(perm, |values|)
    ensures intensity == RayIntensity(E, SegmentWalk(values, perm, lo, hi))
  {
    ghost var rs := SegmentWalk(values, perm, lo, hi);
    var accum := 0.0;
    intensity := 0.0;
    var j := lo;
    while j < hi
      invariant lo <= j <= hi
      invariant accum == Depth(rs[..j - lo])
      invariant intensity == RayIntensity(E, rs[..j - lo])
    {
      var v := values[perm[j]];
      assert rs[..j + 1 - lo][..j - lo] == rs[..j - lo];
      assert v == rs[j - lo];
      intensity := intensity + E(accum) * v.intensityContribution;
      accum := accum + v.opticalPathLength;
      j := j + 1;
    }
    assert rs[..hi - lo] == rs;
  }

  /** Attenuation over depth a followed by depth b is the product of the two. */
  ghost predicate Composes(E: real -> real, a: real, b: real)
  {
    E(a + b) == E(a) * E(b)
  }

  /** E is an exponential: attenuations over consecutive depths multiply. */
  ghost predicate Multiplicative(E: real -> real)
  {
    forall a: real, b: real :: Composes(E, a, b)
  }

  lemma Distribute(w: real, x: real, y: real, z: real)
    requires x * z == x
    ensures w * (z - x) + x * (w * (z - y)) == w * (z - x * y)
  {
    assert x * (w * (z - y)) == w * (x * z) - w * (x * y);
  }

  /** One step of the composition: a rank gathering w * (E(0) - E(d)) behind
      depth D adds exactly what a single medium would between D and D + d. */
  lemma ComposeStep(E: real -> real, w: real, depth: real, d: real)
    requires Multiplicative(E)
    ensures Gathered(E, w, depth) + E(depth) * Gathered(E, w, d) == Gathered(E, w, depth + d)
  {
    assert Composes(E, depth, 0.0);
    assert Composes(E, depth, d);
    var same := depth + 0.0;
    assert same == depth;
    Distribute(w, E(depth), E(d), E(0.0));
  }

  /** When every rank reports w * (E(0) - E(d)) for its own optical depth d,
      attenuating and summing the ranks front to back gives exactly the
      intensity of one walk through the whole depth of the ray. */
  lemma {:induction false} CrossRankComposition(E: real -> real, w: real, rs: seq<IntersectedRank>)
    requires Multiplicative(E)
    requires forall k :: 0 <= k < |rs| ==>
      rs[k].intensityContribution == Gathered(E, w, rs[k].opticalPathLength)
    ensures RayIntensity(E, rs) == Gathered(E, w, Depth(rs))
  {
    if rs == [] {
      assert Gathered(E, w, 0.0) == 0.0;
    } else {
      var front := rs[..|rs| - 1];
      CrossRankComposition(E, w, front);
      ComposeStep(E, w, Depth(front), rs[|rs| - 1].opticalPathLength);
    }
  }

  function OpticalPaths(rs: seq<IntersectedRank>): seq<real>
  {
    seq(|rs|, k requires 0 <= k < |rs| => rs[k].opticalPathLength)
  }

  lemma {:induction false} DepthIsSum(rs: seq<IntersectedRank>)
    ensures Depth(rs) == SumR(OpticalPaths(rs))
  {
    if rs != [] {
      DepthIsSum(rs[..|rs| - 1]);
      assert OpticalPaths(rs)[..|rs| - 1] == OpticalPaths(rs[..|rs| - 1]);
    }
  }

  /** No record of the run enters after a later one. */
  ghost predicate AscendingEntries(rs: seq<IntersectedRank>)
  {
    forall a, b :: 0 <= a < b < |rs| ==> !LengthLess(rs[b].entryLength, rs[a].entryLength)
  }

  /** Walking a block of positions through a permutation of that block
      reads the block's records, in another order but with the same total
      depth. */
  lemma WalkOfBlock(values: seq<IntersectedRank>, perm: seq<int>, lo: int, hi: int)
    requires 0 <= lo <= hi <= |perm| && hi <= |values| && InBounds(perm, |values|)
    requires multiset(perm[lo..hi]) == multiset(Interval(lo, hi))
    ensures multiset(SegmentWalk(values, perm, lo, hi)) == multiset(values[lo..hi])
    ensures Depth(SegmentWalk(values, perm, lo, hi)) == Depth(values[lo..hi])
  {
    var walk := SegmentWalk(values, perm, lo, hi);
    var own := values[lo..hi];
    assert Apply(Interval(lo, hi), values) == own;
    ApplyPreservesMultiset(perm[lo..hi], Interval(lo, hi), values);
    var paths := OpticalPaths(values);
    assert OpticalPaths(walk) == Apply(perm[lo..hi], paths);
    assert OpticalPaths(own) == Apply(Interval(lo, hi), paths);
    ApplyPreservesMultiset(perm[lo..hi], Interval(lo, hi), paths);
    SumRPermutation(OpticalPaths(walk), OpticalPaths(own));
    DepthIsSum(walk);
    DepthIsSum(own);
  }

  lemma AscendingWalk(values: seq<IntersectedRank>, perm: seq<int>, lo: int, hi: int)
    requires 0 <= lo <= hi <= |perm| && InBounds(perm, |values|)
    requires forall a, b :: lo <= a < b < hi ==>
      !LengthLess(values[perm[b]].entryLength, values[perm[a]].entryLength)
    ensures AscendingEntries(SegmentWalk(values, perm, lo, hi))
  {
    var walk := SegmentWalk(values, perm, lo, hi);
    forall a, b | 0 <= a < b < hi - lo
      ensures !LengthLess(walk[b].entryLength, walk[a].entryLength)
    {
      assert walk[a] == values[perm[lo + a]] && walk[b] == values[perm[lo + b]];
    }
  }

  /** After tagging and sorting, the intensity loop of ray i reads exactly
      the records of segment i, in ascending entry length, so the depth it
      accumulates is the total optical depth of those records. */
  lemma SortedWalkReadsOwnRecords(values: seq<IntersectedRank>, offsets: seq<int>, perm: seq<int>, i: int)
    requires TaggedSegments(SortKeys(values), offsets)
    requires |perm| == |values| && InBounds(perm, |values|) && IsPermutation(perm, |values|)
    requires SortedBy(SortKeys(values), perm)
    requires 0 <= i < |offsets| - 1
    ensures multiset(SegmentWalk(values, perm, offsets[i], offsets[i + 1])) ==
      multiset(values[offsets[i]..offsets[i + 1]])
    ensures AscendingEntries(SegmentWalk(values, perm, offsets[i], offsets[i + 1]))
    ensures Depth(SegmentWalk(values, perm, offsets[i], offsets[i + 1])) ==
      Depth(values[offsets[i]..offsets[i + 1]])
  {
    var lo, hi := offsets[i], offsets[i + 1];
    var keys := SortKeys(values);
    SegmentMapsOntoItself(keys, offsets, perm, i);
    WalkOfBlock(values, perm, lo, hi);
    forall a, b | lo <= a < b < hi
      ensures !LengthLess(values[perm[b]].entryLength, values[perm[a]].entryLength)
    {
      assert !LengthLess(keys[perm[b]].entryLength, keys[perm[a]].entryLength);
    }
    AscendingWalk(values, perm, lo, hi);
  }


  /** End to end for one ray: with every rank reporting w * (E(0) - E(d)),
      the intensity the loop computes for ray i is the intensity of a single
      walk through the total optical depth of all of the ray's records. */
  lemma RayIntensityIsSingleWalk(
    E: real -> real, w: real, values: seq<IntersectedRank>, offsets: seq<int>, perm: seq<int>, i: int)
    requires Multiplicative(E)
    requires forall k :: 0 <= k < |values| ==>
      values[k].intensityContribution == Gathered(E, w, values[k].opticalPathLength)
    requires TaggedSegments(SortKeys(values), offsets)
    requires |perm| == |values| && InBounds(perm, |values|) && IsPermutation(perm, |values|)
    requires SortedBy(SortKeys(values), perm)
    requires 0 <= i < |offsets| - 1
    ensures RayIntensity(E, SegmentWalk(values, perm, offsets[i], offsets[i + 1])) ==
      Gathered(E, w, Depth(values[offsets[i]..offsets[i + 1]]))
  {
    var walk := SegmentWalk(values, perm, offsets[i], offsets[i + 1]);
    SortedWalkReadsOwnRecords(values, offsets, perm, i);
    CrossRankComposition(E, w, walk);
  }

  // ---------------------------------------------------------------------
  // Depositing the intensities
  // ---------------------------------------------------------------------

  /** The box every local ray deposits into: local ray i of a rank whose
      first box is startBox goes to box startBox + i / rays_per_box. */
  function LocalRayBoxes(n: nat, startBox: int, raysPerBox: int): (boxes: seq<int>)
    requires raysPerBox > 0
    ensures |boxes| == n
  {
    seq(n, i requires 0 <= i < n => i / raysPerBox + startBox)
  }

  /** Every local ray of a rank deposits into one of the rank's own boxes,
      and the rays of local box q are exactly the local rays
      [q * rays_per_box, (q + 1) * rays_per_box). */
  lemma LocalRayBoxesOwned(numBoxesPerRank: int, rank: int, raysPerBox: int, n: nat)
    requires raysPerBox > 0 && numBoxesPerRank >= 0 && rank >= 0
    requires n == numBoxesPerRank * raysPerBox
    ensures forall i :: 0 <= i < n ==>
      OwnsBox(numBoxesPerRank, rank, LocalRayBoxes(n, numBoxesPerRank * rank, raysPerBox)[i])
  {
    forall i | 0 <= i < n
      ensures OwnsBox(numBoxesPerRank, rank, LocalRayBoxes(n, numBoxesPerRank * rank, raysPerBox)[i])
    {
      BoxOfLocalRay(numBoxesPerRank, rank, raysPerBox, i);
    }
  }

  /** A quotient is q exactly on the block [q * d, q * d + d). */
  lemma QuotientBlock(i: int, d: int, q: int)
    requires d > 0 && i >= 0
    ensures i / d == q <==> q * d <= i < q * d + d
  {
    assert i == (i / d) * d + i % d;
    if q * d <= i < q * d + d {
      DivUnique(i, d, q, i - q * d);
    }
  }

  /** Exactly the positions [lo, hi) of boxes address box b. */
  ghost predicate AddressesBlock(boxes: seq<int>, b: int, lo: int, hi: int)
  {
    forall i :: 0 <= i < |boxes| ==> (boxes[i] == b <==> lo <= i < hi)
  }

  /** Local ray i deposits into startBox + q exactly when it is one of the
      rays of local box q. */
  lemma LocalRayBoxesOfBox(n: nat, startBox: int, raysPerBox: int, q: int)
    requires raysPerBox > 0
    ensures AddressesBlock(LocalRayBoxes(n, startBox, raysPerBox), startBox + q,
                           q * raysPerBox, q * raysPerBox + raysPerBox)
  {
    forall i | 0 <= i < n
      ensures LocalRayBoxes(n, startBox, raysPerBox)[i] == startBox + q <==>
              q * raysPerBox <= i < q * raysPerBox + raysPerBox
    {
      QuotientBlock(i, raysPerBox, q);
    }
  }

  /** The energy after amount k has been added to box boxes[k], for every k
      in order (the atomic adds of the intensity pass). */
  function Deposit(energy: seq<real>, amounts: seq<real>, boxes: seq<int>): (r: seq<real>)
    requires |amounts| == |boxes| && InBounds(boxes, |energy|)
    ensures |r| == |energy|
  {
    if amounts == [] then energy
    else
      var k := |amounts| - 1;
      var before := Deposit(energy, amounts[..k], boxes[..k]);
      before[boxes[k] := before[boxes[k]] + amounts[k]]
  }

  lemma {:induction false} SumRUpdate(s: seq<real>, b: int, x: real)
    requires 0 <= b < |s|
    ensures SumR(s[b := s[b] + x]) == SumR(s) + x
  {
    var t := s[b := s[b] + x];
    if b == |s| - 1 {
      assert t[..|t| - 1] == s[..|s| - 1];
    } else {
      assert t[..|t| - 1] == s[..|s| - 1][b := s[b] + x];
      SumRUpdate(s[..|s| - 1], b, x);
    }
  }

  /** Depositing conserves energy: the grid gains exactly the sum of the
      deposited amounts. */
  lemma {:induction false} DepositConservesEnergy(energy: seq<real>, amounts: seq<real>, boxes: seq<int>)
    requires |amounts| == |boxes| && InBounds(boxes, |energy|)
    ensures SumR(Deposit(energy, amounts, boxes)) == SumR(energy) + SumR(amounts)
  {
    if amounts != [] {
      var k := |amounts| - 1;
      DepositConservesEnergy(energy, amounts[..k], boxes[..k]);
      SumRUpdate(Deposit(energy, amounts[..k], boxes[..k]), boxes[k], amounts[k]);
    }
  }

  /** The amounts addressed to box b, in order. */
  function AmountsTo(amounts: seq<real>, boxes: seq<int>, b: int): seq<real>
    requires |amounts| == |boxes|
  {
    if amounts == [] then []
    else
      var k := |amounts| - 1;
      AmountsTo(amounts[..k], boxes[..k], b) + (if boxes[k] == b then [amounts[k]] else [])
  }

  /** Every box receives exactly the amounts addressed to it. */
  lemma {:induction false} DepositPerBox(energy: seq<real>, amounts: seq<real>, boxes: seq<int>, b: int)
    requires |amounts| == |boxes| && InBounds(boxes, |energy|)
    requires 0 <= b < |energy|
    ensures Deposit(energy, amounts, boxes)[b] == energy[b] + SumR(AmountsTo(amounts, boxes, b))
  {
    if amounts != [] {
      var k := |amounts| - 1;
      DepositPerBox(energy, amounts[..k], boxes[..k], b);
      var front := AmountsTo(amounts[..k], boxes[..k], b);
      if boxes[k] == b {
        SumRAppend(front, [amounts[k]]);
        assert SumR([amounts[k]]) == amounts[k] by {
          assert [amounts[k]][..0] == [];
        }
      } else {
        assert front + [] == front;
      }
    }
  }

  function Min(a: int, b: int): int
  {
    if a < b then a else b
  }

  /** When exactly the positions [lo, hi) address box b, box b receives the
      amounts of that block (cut at the end of the sequence). */
  lemma {:induction false} AmountsToBlock(amounts: seq<real>, boxes: seq<int>, b: int, lo: int, hi: int)
    requires |amounts| == |boxes| && 0 <= lo <= hi
    requires AddressesBlock(boxes, b, lo, hi)
    ensures AmountsTo(amounts, boxes, b) == amounts[Min(lo, |amounts|)..Min(hi, |amounts|)]
  {
    if amounts != [] {
      var k := |amounts| - 1;
      var front := amounts[..k];
      AmountsToBlock(front, boxes[..k], b, lo, hi);
      if lo <= k < hi {
        assert amounts[lo..k + 1] == front[lo..k] + [amounts[k]];
      } else if k < lo {
        assert amounts[k + 1..k + 1] == [] == front[k..k];
      } else {
        assert amounts[lo..hi] == front[lo..hi];
      }
    }
  }

  lemma BlockFits(q: int, d: int, m: int)
    requires d > 0 && 0 <= q < m
    ensures 0 <= q * d && q * d + d <= m * d
  {
    MulMonotone(d, 0, q);
    MulMonotone(d, q + 1, m);
    assert d * (q + 1) == q * d + d;
  }

  /** With the boxes of the intensity pass, box startBox + q of a rank that
      shoots num_boxes_per_rank * rays_per_box rays receives the amounts of
      its own rays [q * rays_per_box, (q + 1) * rays_per_box), and nothing
      else. */
  lemma {:induction false} LocalBoxReceivesItsRays(
    energy: seq<real>, amounts: seq<real>, numBoxesPerRank: int, startBox: int, raysPerBox: int, q: int)
    requires raysPerBox > 0 && 0 <= q < numBoxesPerRank
    requires |amounts| == numBoxesPerRank * raysPerBox
    requires InBounds(LocalRayBoxes(|amounts|, startBox, raysPerBox), |energy|)
    requires 0 <= startBox + q < |energy|
    ensures 0 <= q * raysPerBox && q * raysPerBox + raysPerBox <= |amounts|
    ensures Deposit(energy, amounts, LocalRayBoxes(|amounts|, startBox, raysPerBox))[startBox + q] ==
      energy[startBox + q] + SumR(amounts[q * raysPerBox..q * raysPerBox + raysPerBox])
  {
    BlockFits(q, raysPerBox, numBoxesPerRank);
    LocalRayBoxesOfBox(|amounts|, startBox, raysPerBox, q);
    BoxReceivesBlock(energy, amounts, LocalRayBoxes(|amounts|, startBox, raysPerBox),
                     startBox + q, q * raysPerBox, q * raysPerBox + raysPerBox);
  }

  /** A box addressed by exactly the block [lo, hi) of deposits receives
      the sum of that block. */
  lemma {:induction false} BoxReceivesBlock(energy: seq<real>, amounts: seq<real>, boxes: seq<int>, b: int, lo: int, hi: int)
    requires |amounts| == |boxes| && InBounds(boxes, |energy|) && 0 <= b < |energy|
    requires 0 <= lo <= hi <= |amounts|
    requires AddressesBlock(boxes, b, lo, hi)
    ensures Deposit(energy, amounts, boxes)[b] == energy[b] + SumR(amounts[lo..hi])
  {
    AmountsToBlock(amounts, boxes, b, lo, hi);
    assert Min(lo, |amounts|) == lo && Min(hi, |amounts|) == hi;
    DepositPerBox(energy, amounts, boxes, b);
  }

  /** The energy deposited for every intensity: `Weight` applied to each. */
  function Weighted(Weight: real -> real, xs: seq<real>): (r: seq<real>)
    ensures |r| == |xs|
    ensures forall i {:trigger r[i]} :: 0 <= i < |xs| ==> r[i] == Weight(xs[i])
  {
    seq(|xs|, i requires 0 <= i < |xs| => Weight(xs[i]))
  }

  /** With the example's weight, a constant factor c, the energy deposited
      in total is c times the total intensity. */
  lemma {:induction false} WeightedSum(Weight: real -> real, c: real, xs: seq<real>)
    requires forall x :: Weight(x) == x * c
    ensures SumR(Weighted(Weight, xs)) == c * SumR(xs)
  {
    if xs != [] {
      var k := |xs| - 1;
      forall i | 0 <= i < k
        ensures Weighted(Weight, xs)[..k][i] == Weighted(Weight, xs[..k])[i]
      {
        assert xs[..k][i] == xs[i];
      }
      assert Weighted(Weight, xs)[..k] == Weighted(Weight, xs[..k]);
      WeightedSum(Weight, c, xs[..k]);
      assert c * SumR(xs) == c * SumR(xs[..k]) + c * xs[k];
    }
  }

  /** The deposits of the first k rays, one ray at a time, as the loop of
      the intensity pass makes them. */
  function DepositFirst(energy: seq<real>, amounts: seq<real>, boxes: seq<int>, k: nat): (r: seq<real>)
    requires k <= |amounts| && |amounts| == |boxes| && InBounds(boxes, |energy|)
    ensures |r| == |energy|
  {
    if k == 0 then energy
    else
      var before := DepositFirst(energy, amounts, boxes, k - 1);
      before[boxes[k - 1] := before[boxes[k - 1]] + amounts[k - 1]]
  }

  lemma {:induction false} DepositFirstStep(energy: seq<real>, amounts: seq<real>, boxes: seq<int>, k: nat)
    requires k < |amounts| && |amounts| == |boxes| && InBounds(boxes, |energy|)
    ensures 0 <= boxes[k] < |energy|
    ensures
      var before := DepositFirst(energy, amounts, boxes, k);
      DepositFirst(energy, amounts, boxes, k + 1) == before[boxes[k] := before[boxes[k]] + amounts[k]]
  {
  }

  /** Depositing the first k rays one at a time is the deposit of the first
      k amounts into the first k boxes. */
  lemma {:induction false} DepositFirstIsDeposit(energy: seq<real>, amounts: seq<real>, boxes: seq<int>, k: nat)
    requires k <= |amounts| && |amounts| == |boxes| && InBounds(boxes, |energy|)
    ensures InBounds(boxes[..k], |energy|)
    ensures DepositFirst(energy, amounts, boxes, k) == Deposit(energy, amounts[..k], boxes[..k])
  {
    if k > 0 {
      DepositFirstIsDeposit(energy, amounts, boxes, k - 1);
      assert amounts[..k][..k - 1] == amounts[..k - 1] && amounts[..k][k - 1] == amounts[k - 1];
      assert boxes[..k][..k - 1] == boxes[..k - 1] && boxes[..k][k - 1] == boxes[k - 1];
    }
  }

  /** The intensity of every local ray, as the loop computes it. */
  function RayIntensities(E: real -> real, offsets: seq<int>, values: seq<IntersectedRank>, perm: seq<int>): (r: seq<real>)
    requires IsCsr(offsets, |perm|) && InBounds(perm, |values|)
    ensures |r| == |offsets| - 1
    ensures forall i {:trigger r[i]} :: 0 <= i < |offsets| - 1 ==>
      r[i] == RayIntensity(E, SegmentWalk(values, perm, offsets[i], offsets[i + 1]))
  {
    seq(|offsets| - 1, i requires 0 <= i < |offsets| - 1 =>
      RayIntensity(E, SegmentWalk(values, perm, offsets[i], offsets[i + 1])))
  }

  /** Every box a rank's intensity pass writes exists when the rank's slice
      of boxes fits in the energy array. */
  lemma LocalRayBoxesInBounds(numBoxesPerRank: int, rank: int, raysPerBox: int, n: nat, size: int)
    requires raysPerBox > 0 && numBoxesPerRank >= 0 && rank >= 0
    requires n == numBoxesPerRank * raysPerBox && numBoxesPerRank * (rank + 1) <= size
    ensures InBounds(LocalRayBoxes(n, numBoxesPerRank * rank, raysPerBox), size)
  {
    LocalRayBoxesOwned(numBoxesPerRank, rank, raysPerBox, n);
    MulMonotone(numBoxesPerRank, 0, rank);
  }

  /** The intensity pass: every local ray walks its records along the
      permutation and adds the weight of its intensity to its box. */
  method EvaluateRayIntensities(
    E: real -> real, offsets: seq<int>, values: seq<IntersectedRank>, perm: seq<int>,
    numBoxesPerRank: int, rank: int, raysPerBox: int, Weight: real -> real, energy: array<real>)
    requires IsCsr(offsets, |perm|) && InBounds(perm, |values|)
    requires raysPerBox > 0 && numBoxesPerRank >= 0 && rank >= 0
    requires |offsets| - 1 == numBoxesPerRank * raysPerBox
    requires numBoxesPerRank * (rank + 1) <= energy.Length
    modifies energy
    ensures InBounds(LocalRayBoxes(|offsets| - 1, numBoxesPerRank * rank, raysPerBox), energy.Length)
    ensures energy[..] == Deposit(old(energy[..]), Weighted(Weight, RayIntensities(E, offsets, values, perm)),
                                  LocalRayBoxes(|offsets| - 1, numBoxesPerRank * rank, raysPerBox))
  {
    var startBox := numBoxesPerRank * rank;
    LocalRayBoxesInBounds(numBoxesPerRank, rank, raysPerBox, |offsets| - 1, energy.Length);
    DepositRayIntensities(E, offsets, values, perm, startBox, raysPerBox, Weight, energy);
  }

  /** Kokkos::atomic_add on one entry of an array of reals. */
  method AtomicAdd(a: array<real>, k: int, x: real)
    requires 0 <= k < a.Length
    modifies a
    ensures a[..] == old(a[..])[k := old(a[..])[k] + x]
  {
    a[k] := a[k] + x;
  }

  /** Deposit number k, made with an atomic add, extends the deposits of
      the first k amounts to the first k + 1. */
  method DepositNext(
    energy: array<real>, bid: int, amount: real,
    ghost e0: seq<real>, ghost amounts: seq<real>, ghost boxes: seq<int>, ghost k: nat)
    requires k < |amounts| && |amounts| == |boxes| && InBounds(boxes, |e0|)
    requires boxes[k] == bid && amounts[k] == amount
    requires energy[..] == DepositFirst(e0, amounts, boxes, k)
    modifies energy
    ensures energy[..] == DepositFirst(e0, amounts, boxes, k + 1)
  {
    DepositFirstStep(e0, amounts, boxes, k);
    AtomicAdd(energy, bid, amount);
  }

  /** The body of the intensity pass for local ray i (the lambda of the
      parallel loop): walk the ray's records along the permutation, then add
      the weight of the ray's intensity to the ray's box. */
  method DepositRay(
    E: real -> real, Weight: real -> real, offsets: seq<int>, values: seq<IntersectedRank>, perm: seq<int>,
    startBox: int, raysPerBox: int, energy: array<real>, i: int, ghost e0: seq<real>)
    requires IsCsr(offsets, |perm|) && InBounds(perm, |values|) && raysPerBox > 0 && 0 <= i < |offsets| - 1
    requires InBounds(LocalRayBoxes(|offsets| - 1, startBox, raysPerBox), |e0|)
    requires energy[..] == DepositFirst(e0, Weighted(Weight, RayIntensities(E, offsets, values, perm)),
                                        LocalRayBoxes(|offsets| - 1, startBox, raysPerBox), i)
    modifies energy
    ensures energy[..] == DepositFirst(e0, Weighted(Weight, RayIntensities(E, offsets, values, perm)),
                                       LocalRayBoxes(|offsets| - 1, startBox, raysPerBox), i + 1)
  {
    ghost var boxes := LocalRayBoxes(|offsets| - 1, startBox, raysPerBox);
    ghost var amounts := Weighted(Weight, RayIntensities(E, offsets, values, perm));
    assert offsets[i] <= offsets[i + 1] <= offsets[|offsets| - 1];
    var intensity := RayIntensityOf(E, values, perm, offsets[i], offsets[i + 1]);
    assert energy[..] == old(energy[..]);
    var amount := Weight(intensity);
    var bid := i / raysPerBox + startBox;
    assert bid == boxes[i] && amount == amounts[i];
    DepositNext(energy, bid, amount, e0, amounts, boxes, i);
  }

  /** The intensity pass over the local rays of a rank whose first box is
      startBox. */
  method DepositRayIntensities(
    E: real -> real, offsets: seq<int>, values: seq<IntersectedRank>, perm: seq<int>,
    startBox: int, raysPerBox: int, Weight: real -> real, energy: array<real>)
    requires IsCsr(offsets, |perm|) && InBounds(perm, |values|) && raysPerBox > 0
    requires InBounds(LocalRayBoxes(|offsets| - 1, startBox, raysPerBox), energy.Length)
    modifies energy
    ensures energy[..] == Deposit(old(energy[..]), Weighted(Weight, RayIntensities(E, offsets, values, perm)),
                                  LocalRayBoxes(|offsets| - 1, startBox, raysPerBox))
  {
    var n := |offsets| - 1;
    ghost var boxes := LocalRayBoxes(n, startBox, raysPerBox);
    ghost var amounts := Weighted(Weight, RayIntensities(E, offsets, values, perm));
    ghost var e0 := energy[..];
    var i := 0;
    while i < n
      invariant 0 <= i <= n
      invariant energy[..] == DepositFirst(e0, amounts, boxes, i)
    {
      DepositRay(E, Weight, offsets, values, perm, startBox, raysPerBox, energy, i, e0);
      i := i + 1;
    }
    DepositFirstIsDeposit(e0, amounts, boxes, n);
    assert amounts[..n] == amounts && boxes[..n] == boxes;
  }

  /** What a rank does with the records of the distributed query: tag them
      with their ray ids, sort a copy of their keys, and deposit every local
      ray's intensity into a fresh zeroed energy array of num_boxes entries.
      Returns the sort permutation together with the energy. */
  method ProcessRankRecords(
    E: real -> real, values: array<IntersectedRank>, offsets: seq<int>,
    numBoxes: int, numBoxesPerRank: int, rank: int, raysPerBox: int, Weight: real -> real)
    returns (perm: array<int>, energy: array<real>)
    requires IsCsr(offsets, values.Length)
    requires raysPerBox > 0 && numBoxesPerRank >= 0 && rank >= 0
    requires |offsets| - 1 == numBoxesPerRank * raysPerBox
    requires numBoxesPerRank * (rank + 1) <= numBoxes
    modifies values
    ensures forall i, j :: 0 <= i < |offsets| - 1 && offsets[i] <= j < offsets[i + 1] ==>
      values[j] == old(values[j]).(rayId := i)
    ensures TaggedSegments(SortKeys(values[..]), offsets)
    ensures perm.Length == values.Length && InBounds(perm[..], values.Length)
    ensures IsPermutation(perm[..], values.Length) && SortedBy(SortKeys(values[..]), perm[..])
    ensures energy.Length == numBoxes
    ensures InBounds(LocalRayBoxes(|offsets| - 1, numBoxesPerRank * rank, raysPerBox), numBoxes)
    ensures energy[..] == Deposit(seq(numBoxes, _ => 0.0), Weighted(Weight, RayIntensities(E, offsets, values[..], perm[..])),
                                  LocalRayBoxes(|offsets| - 1, numBoxesPerRank * rank, raysPerBox))
  {
    TagRayIds(values, offsets);
    var sortArray := CopySortKeys(values);
    assert sortArray[..] == SortKeys(values[..]);
    perm := SortPermutation(sortArray[..]);
    energy := new real[numBoxes](_ => 0.0);
    assert energy[..] == seq(numBoxes, _ => 0.0);
    EvaluateRayIntensities(E, offsets, values[..], perm[..], numBoxesPerRank, rank, raysPerBox, Weight, energy);
  }
}
