# ArborX query dispatch and distributed raytracing, modelled in Dafny

This project models two parts of ArborX, a library of geometric search
(bounding volume hierarchies) built on Kokkos.

1. **The query dispatch of the bounding volume hierarchy**
   (`src/details/ArborX_DetailsBoundingVolumeHierarchyImpl.hpp`):
   - `TraversalPolicy` and its chained setters.
   - How a spatial query sizes and pre-fills its compressed-sparse-row
     (CSR) `offset` and `out` arrays. This includes the speculative
     buffer of `|buffer_size|` slots per predicate.
   - How the Z-order permutation of the predicates gets the sentinel `n`,
     so that the permuted offset view still reaches `offset[n]`.
   - How a nearest query reserves `k` slots per predicate.
   - The overloads that run a default query and then post-process it: the
     post-callback overloads and the overload that splits
     (index, distance) pairs.

   The tree traversal itself is not modelled. What the tree finds for
   predicate `i` is the parameter `hits[i]`. `QueryImpl` stands in for
   the traversal driver: it counts, scans and fills, and it fails when a
   negative buffer size is exceeded.

2. **The distributed raytracing example**
   (`examples/distributed_raytracing/example_distributed_raytracing.cpp`):
   - The `operator<` of the two sorting records.
   - The post-processing callback `AccumulateRayRankIntersections`:
     - the evaluation loop;
     - the iota and sort of the hits;
     - the per-ray accumulation of optical depth and intensity in order of
       entry;
     - the collapse of the CSR result to one record per ray.
   - The grid and ray numbering, and the split of boxes and rays among
     ranks.
   - The tagging of the per-rank records with their ray ids and the sort of
     those records.
   - The intensity pass that deposits every ray's intensity into the box
     the ray was shot from.

The proved properties cover three areas.

CSR layout and query dispatch:
- Every CSR offset array the dispatch builds is well formed, and it is the
  unique encoding of the per-predicate results.
- The sentinel keeps the extended permutation a permutation that fixes `n`.
- Speculative slots never overlap.
- A query with a negative buffer size fails exactly when some predicate
  has more results than the buffer.

Sorting and per-rank accumulation:
- `operator<` is a strict total order that groups records by ray.
- The sort permutation maps every ray's segment onto itself in ascending
  entry length.
- The accumulated intensity telescopes to `w * (E(0) - E(depth))`.

Cross-rank intensity and deposits:
- Composed across ranks front to back, the attenuated contributions
  equal the intensity of one walk through the ray's whole depth.
- Every box receives exactly the rays shot from it, and depositing
  conserves energy.

Float arithmetic is modelled over `real`. `exp(-x)` is the function
parameter `E`. The emission weight `sigma * T^4 / pi` is `w`, the
absorption coefficient is `kappa`, and the ray-box geometry
(`overlapDistance`) is the function parameter `overlap`. The weighting
`x * 4 * pi * kappa / rays_per_box` of every deposit is the function
parameter `Weight`.

Files:
- `csr.dfy`: CSR offsets, exclusive scan, flattening.
- `permutations.dfy`: permutations and permuted views.
- `traversal_policy.dfy`: `TraversalPolicy`.
- `query_dispatch.dfy`: query dispatch and overloads.
- `intersection_order.dfy`: sort keys, sort permutation, segments under
  sorting.
- `rank_accumulation.dfy`: the post-processing callback.
- `distributed_raytracing.dfy`: numbering, rank split, tagging, intensity
  pass.

## Model

| member | source | states |
|---|---|---|
| TraversalPolicies.TraversalPolicy.constructor | src/details/ArborX_DetailsBoundingVolumeHierarchyImpl.hpp:55-66 | A default policy has the buffer disabled (0), predicate sorting on and the stack-based nearest traversal |
| TraversalPolicies.TraversalPolicy.SetBufferSize | src/details/ArborX_DetailsBoundingVolumeHierarchyImpl.hpp:68-72 | Sets the buffer size, returns the same policy object, and leaves the other two options unchanged |
| TraversalPolicies.TraversalPolicy.SetTraversalAlgorithm | src/details/ArborX_DetailsBoundingVolumeHierarchyImpl.hpp:73-78 | Sets the nearest traversal algorithm, returns the same policy object, and leaves the other two options unchanged |
| TraversalPolicies.TraversalPolicy.SetPredicateSorting | src/details/ArborX_DetailsBoundingVolumeHierarchyImpl.hpp:79-83 | Sets predicate sorting, returns the same policy object, and leaves the other two options unchanged |
| TraversalPolicies.ChainedPolicy | src/details/ArborX_DetailsBoundingVolumeHierarchyImpl.hpp:55-83 | A chain of setters on a default policy yields exactly the chosen buffer size and sorting flag, with the default algorithm kept |
| Csr.ExclusivePrefixSum | src/details/ArborX_DetailsBoundingVolumeHierarchyImpl.hpp:130 | The in-place scan leaves entry i holding the sum of the input entries before i |
| Csr.PrefixSumsOfConstant | src/details/ArborX_DetailsBoundingVolumeHierarchyImpl.hpp:129-130 | Scanning n + 1 copies of b gives offset[i] = i * b: predicate i owns slots [i*b, (i+1)*b) |
| Csr.PrefixSumsSteps | src/details/ArborX_DetailsBoundingVolumeHierarchyImpl.hpp:214-219 | The scan of n counts starts at 0, steps by each count, and ends at their sum |
| Csr.PrefixSumsIsCsr | src/details/ArborX_DetailsBoundingVolumeHierarchyImpl.hpp:214-219 | The scan of non-negative counts is a well-formed CSR offset array (starts at 0, non-decreasing, ends at the total) |
| Csr.PrefixSumsIgnoreLast | src/details/ArborX_DetailsBoundingVolumeHierarchyImpl.hpp:212-219 | The scan never reads the extra last slot, so its unset content does not matter |
| Csr.FlattenLength | src/details/ArborX_DetailsBoundingVolumeHierarchyImpl.hpp:219-221 | The flattened results have as many entries as the counts sum to, which sizes `out` |
| Csr.SumBelow | src/details/ArborX_DetailsBoundingVolumeHierarchyImpl.hpp:217-221 | When each predicate finds at most k_i results, the total found is at most the sum of the k_i reserved |
| Csr.CsrOfHits | src/details/ArborX_DetailsBoundingVolumeHierarchyImpl.hpp:214-221 | The scan of the result counts with the flattened results is a CSR encoding in which segment i holds exactly the results of predicate i |
| Csr.SegmentOfHits | src/details/ArborX_DetailsBoundingVolumeHierarchyImpl.hpp:214-221 | Offsets i and i+1 of the scanned counts delimit the results of predicate i inside the flattened results |
| Csr.CsrOffsetsUnique | src/details/ArborX_DetailsBoundingVolumeHierarchyImpl.hpp:108-161 | A CSR encoding of a batch of results is unique: its offsets are the scanned counts |
| BoundingVolumeHierarchyImpl.CsrOffsetsValues | src/details/ArborX_DetailsBoundingVolumeHierarchyImpl.hpp:108-161 | In any CSR encoding of the results, the values are the results laid end to end in predicate order |
| BoundingVolumeHierarchyImpl.Fill | src/details/ArborX_DetailsBoundingVolumeHierarchyImpl.hpp:129 | deep_copy of a scalar sets every entry of the view to it |
| BoundingVolumeHierarchyImpl.PrepareSpatialOutput | src/details/ArborX_DetailsBoundingVolumeHierarchyImpl.hpp:124-139 | offset has n+1 entries. With b = abs(buffer_size) > 0, offset[i] = i*b and out has n*b slots. With b = 0, every offset is 0 and out is untouched |
| BoundingVolumeHierarchyImpl.ExtendWithSentinel | src/details/ArborX_DetailsBoundingVolumeHierarchyImpl.hpp:149-151 | The resized permutation is the old one followed by the sentinel n |
| Permutations.ExtendedPermutation | src/details/ArborX_DetailsBoundingVolumeHierarchyImpl.hpp:149-152 | Appending the sentinel n to a permutation of [0,n) gives a permutation of [0,n] that maps n to n |
| Permutations.RestrictedPermutation | src/details/ArborX_DetailsBoundingVolumeHierarchyImpl.hpp:149-152 | Conversely, a permutation of [0,n] that fixes n is a permutation of [0,n) once the sentinel is dropped |
| Permutations.PermutationFacts | src/details/ArborX_DetailsBoundingVolumeHierarchyImpl.hpp:143-148 | A permutation of [0,n) has n entries, all in range, and every index occurs in it |
| Permutations.PermutationInjective | src/details/ArborX_DetailsBoundingVolumeHierarchyImpl.hpp:152 | Two positions of the permuted view never address the same entry |
| BoundingVolumeHierarchyImpl.SpeculativeSlotsDisjoint | src/details/ArborX_DetailsBoundingVolumeHierarchyImpl.hpp:149-154 | Through the extended permutation, the speculative slot blocks of two different predicates do not overlap, and every block lies inside out |
| BoundingVolumeHierarchyImpl.QueryImpl | src/details/ArborX_DetailsBoundingVolumeHierarchyImpl.hpp:152-159 | Writing through the offset view, the traversal either fails (exactly when the buffer size is negative and some predicate exceeds its pre-filled slots) or leaves the exact CSR offsets and flattened results |
| BoundingVolumeHierarchyImpl.OverflowsIffExceeds | src/details/ArborX_DetailsBoundingVolumeHierarchyImpl.hpp:126-135 | With slots of b > 0 pre-filled, some predicate overflows its slots exactly when it has more than b results |
| BoundingVolumeHierarchyImpl.SpatialQueryDispatch | src/details/ArborX_DetailsBoundingVolumeHierarchyImpl.hpp:108-161 | With or without predicate sorting, the query fails exactly when buffer_size < 0 and some predicate has more than -buffer_size results. Otherwise offset/out are the CSR encoding of every predicate's results, in the original predicate order |
| BoundingVolumeHierarchyImpl.SpatialQueryWithPostCallback | src/details/ArborX_DetailsBoundingVolumeHierarchyImpl.hpp:163-190 | Same failure condition. On success the output is the post-callback applied to the exact CSR offsets and values of the default query |
| BoundingVolumeHierarchyImpl.PrepareNearestOffsets | src/details/ArborX_DetailsBoundingVolumeHierarchyImpl.hpp:212-219 | offset starts at 0 and steps by k_i for predicate i, and n_results is the last offset, equal to the sum of the k_i |
| BoundingVolumeHierarchyImpl.NearestQueryDispatch | src/details/ArborX_DetailsBoundingVolumeHierarchyImpl.hpp:192-243 | When every predicate finds at most its k results, the reserved slots suffice (buffer_size -1 never fails), offset/out are the CSR encoding of every predicate's results, and the results fit in the n_results = sum of k slots reserved at line 221 |
| BoundingVolumeHierarchyImpl.NearestQueryWithPostCallback | src/details/ArborX_DetailsBoundingVolumeHierarchyImpl.hpp:245-274 | The output is the post-callback applied to the exact CSR offsets and values of the default nearest query |
| BoundingVolumeHierarchyImpl.SplitPairs | src/details/ArborX_DetailsBoundingVolumeHierarchyImpl.hpp:293-301 | indices and distances have one entry per pair and hold its first and second component |
| BoundingVolumeHierarchyImpl.NearestQueryWithDistances | src/details/ArborX_DetailsBoundingVolumeHierarchyImpl.hpp:276-302 | offset is the exact CSR offsets, and entry j of indices and distances are the two halves of the j-th (index, distance) result |
| IntersectionOrder.LessIsStrictTotalOrder | examples/distributed_raytracing/example_distributed_raytracing.cpp:89-95 | operator< on the sorting records is irreflexive, transitive, asymmetric and total on distinct keys, so std::sort is well defined on it |
| IntersectionOrder.LessGroupsByRay | examples/distributed_raytracing/example_distributed_raytracing.cpp:178-184 | Records of smaller rays come first. Within one ray, operator< is exactly "enters earlier" (with +inf last) |
| IntersectionOrder.NotAfterTransitive | examples/distributed_raytracing/example_distributed_raytracing.cpp:89-95 | "Does not come after" is transitive |
| IntersectionOrder.SinkingStep | examples/distributed_raytracing/example_distributed_raytracing.cpp:264-277 | One swap of an insertion step keeps the permutation in bounds, a rearrangement of the old one, and sorted apart from the sinking entry |
| IntersectionOrder.InsertLast | examples/distributed_raytracing/example_distributed_raytracing.cpp:264-277 | One insertion step extends the sorted prefix by one position without changing the multiset of indices |
| IntersectionOrder.SortPermutation | examples/distributed_raytracing/example_distributed_raytracing.cpp:553-567 | iota + sort yields a permutation of [0,n) along which the keys never decrease |
| IntersectionOrder.FindSegment | examples/distributed_raytracing/example_distributed_raytracing.cpp:531-538 | Every position of a CSR result lies in a segment of some ray |
| IntersectionOrder.SortedUnique | examples/distributed_raytracing/example_distributed_raytracing.cpp:553-567 | Two non-decreasing sequences with the same elements are equal, so sorted ray ids are determined |
| IntersectionOrder.RayIdLocatesRecord | examples/distributed_raytracing/example_distributed_raytracing.cpp:531-538 | After tagging, a record's ray id is i exactly when it is stored in segment i, and is below i exactly when it is stored before it |
| IntersectionOrder.RayIdsNonDecreasing | examples/distributed_raytracing/example_distributed_raytracing.cpp:531-538 | Tagged records have non-decreasing ray ids in storage order |
| IntersectionOrder.SortedRayIds | examples/distributed_raytracing/example_distributed_raytracing.cpp:248-277 | Along the sort permutation, position j sees the same ray id as storage position j |
| IntersectionOrder.PermutationKeepsSides | examples/distributed_raytracing/example_distributed_raytracing.cpp:296-300 | The sort permutation maps positions before, inside and after ray i's segment to positions before, inside and after it |
| IntersectionOrder.SegmentMapsOntoItself | examples/distributed_raytracing/example_distributed_raytracing.cpp:296-300 | Along the sort permutation, ray i's segment is a rearrangement of that same segment, in ascending entry length |
| IntersectionOrder.FirstOfSegmentIsNearest | examples/distributed_raytracing/example_distributed_raytracing.cpp:307 | In a non-empty segment, the record the sort puts first has the smallest entry length of the ray |
| RayRankAccumulation.SumRAppend | examples/distributed_raytracing/example_distributed_raytracing.cpp:296-303 | A running total over two runs is the sum of their totals |
| RayRankAccumulation.SumRPermutation | examples/distributed_raytracing/example_distributed_raytracing.cpp:296-303 | The accumulated optical depth does not depend on the order in which the cells are visited |
| RayRankAccumulation.Telescoping | examples/distributed_raytracing/example_distributed_raytracing.cpp:299-303 | The cell-by-cell contributions w*(E(before)-E(after)) sum to w*(E(0)-E(total depth)) |
| RayRankAccumulation.NearestEntry | examples/distributed_raytracing/example_distributed_raytracing.cpp:291 | The nearest entry is undercut by no entry, is one of them, and is +inf when there is none |
| RayRankAccumulation.NearestEntryUnique | examples/distributed_raytracing/example_distributed_raytracing.cpp:307 | An entry that no other undercuts is the nearest entry |
| RayRankAccumulation.SegmentsDisjoint | examples/distributed_raytracing/example_distributed_raytracing.cpp:244-256 | A position of a CSR result belongs to one ray only |
| RayRankAccumulation.EvaluateRayCellInteractions | examples/distributed_raytracing/example_distributed_raytracing.cpp:244-256 | For every hit j of ray i, the optical distance is overlap length times kappa, and the sort key holds the hit's entry length and ray id i |
| RayRankAccumulation.EvaluateHit | examples/distributed_raytracing/example_distributed_raytracing.cpp:248-254 | Evaluating hit j writes position j of both arrays and no other |
| RayRankAccumulation.EvaluationTagsSegments | examples/distributed_raytracing/example_distributed_raytracing.cpp:244-256 | After the evaluation loop, every segment's keys carry the segment's ray id |
| RayRankAccumulation.AccumulateRay | examples/distributed_raytracing/example_distributed_raytracing.cpp:291-307 | The per-ray loop returns the walk record along the sort permutation: the first entry length (+inf for no hits), the summed depth and the summed contributions |
| RayRankAccumulation.AccumulateStep | examples/distributed_raytracing/example_distributed_raytracing.cpp:299-303 | One loop iteration adds the cell's optical distance to the depth and w*(E(before)-E(after)) to the intensity |
| RayRankAccumulation.SegmentSum | examples/distributed_raytracing/example_distributed_raytracing.cpp:296-300 | Reading a segment through a rearrangement of itself gives the same total depth |
| RayRankAccumulation.SegmentIsDepths | examples/distributed_raytracing/example_distributed_raytracing.cpp:248-254 | The optical distances of ray i's segment are the depths of its hits |
| RayRankAccumulation.SortedWalkDepth | examples/distributed_raytracing/example_distributed_raytracing.cpp:296-303 | The depth the sorted walk accumulates is the total depth of the ray's hits, and its intensity is w*(E(0)-E(that depth)) |
| RayRankAccumulation.SortedWalkEntry | examples/distributed_raytracing/example_distributed_raytracing.cpp:307 | For a ray with hits, the first record of the sorted walk has the ray's nearest entry length |
| RayRankAccumulation.SortedWalkIsExpected | examples/distributed_raytracing/example_distributed_raytracing.cpp:291-315 | The sorted walk of ray i yields the expected record: nearest entry (+inf if none), total depth, and w*(E(0)-E(total depth)) |
| RayRankAccumulation.CollapseRay | examples/distributed_raytracing/example_distributed_raytracing.cpp:307-323 | One iteration writes record i as the sorted walk of segment i, and resets offset(i) to i (and offset(n) to n for the last ray) |
| RayRankAccumulation.CollapseToRecords | examples/distributed_raytracing/example_distributed_raytracing.cpp:282-323 | out has one record per ray, record i is the sorted walk of ray i's original segment, and offset ends as 0,1,...,n (one output per ray) |
| RayRankAccumulation.AllWalksExpected | examples/distributed_raytracing/example_distributed_raytracing.cpp:282-323 | With tagged, sorted records, every walk record is the expected record of its ray |
| RayRankAccumulation.AccumulateRayRankIntersections | examples/distributed_raytracing/example_distributed_raytracing.cpp:217-323 | The whole callback leaves one record per ray, namely the expected record computed from the ray's hits, and resets offset to 0,1,...,n |
| RayRankAccumulation.EntryLengthAsWrittenMisreadsEmptySegments | examples/distributed_raytracing/example_distributed_raytracing.cpp:307 | Line 307 as written reports a ray without hits as entering at another ray's entry length, or reads past the end of the array |
| DistributedRaytracing.BoxIdNumbersCells | examples/distributed_raytracing/example_distributed_raytracing.cpp:426 | Box ids of an nx*ny*nz grid lie in [0, nx*ny*nz), and the cell's coordinates are recovered from its id |
| DistributedRaytracing.BoxCoordinatesInverse | examples/distributed_raytracing/example_distributed_raytracing.cpp:426 | Every id in range is the id of the in-grid cell its coordinates name |
| DistributedRaytracing.RayIndexNumbersRays | examples/distributed_raytracing/example_distributed_raytracing.cpp:477 | Ray j of box b is stored at an index in [0, num_boxes*rays_per_box) whose quotient and remainder give back b and j |
| DistributedRaytracing.RayIndexInverse | examples/distributed_raytracing/example_distributed_raytracing.cpp:477 | Every index in range is the index of exactly the ray its quotient and remainder name |
| DistributedRaytracing.RankSlicesDisjoint | examples/distributed_raytracing/example_distributed_raytracing.cpp:502-509 | No box lies in the slices of two ranks, and every owned box is inside the grid |
| DistributedRaytracing.RankSlicesCoverIffDivisible | examples/distributed_raytracing/example_distributed_raytracing.cpp:497-509 | Every box is owned by some rank exactly when num_boxes is divisible by the number of ranks |
| DistributedRaytracing.BoxOfLocalRay | examples/distributed_raytracing/example_distributed_raytracing.cpp:515-518 | Local ray i of a rank is the global ray whose box is i/rays_per_box + start box, and that box belongs to the rank |
| DistributedRaytracing.LocalRayBoxesOwned | examples/distributed_raytracing/example_distributed_raytracing.cpp:587-588 | Every box the intensity pass of a rank writes belongs to that rank |
| DistributedRaytracing.LocalRayBoxesOfBox | examples/distributed_raytracing/example_distributed_raytracing.cpp:587-588 | Local ray i deposits into start box + q exactly when it is one of the rays [q*rpb, (q+1)*rpb) of local box q |
| DistributedRaytracing.TagSegment | examples/distributed_raytracing/example_distributed_raytracing.cpp:535-537 | Positions [lo,hi) get ray id i, and nothing else changes |
| DistributedRaytracing.TagRayIds | examples/distributed_raytracing/example_distributed_raytracing.cpp:531-538 | Every record of segment i gets ray id i with its other fields unchanged, so segment i holds exactly the records tagged i |
| DistributedRaytracing.TaggedEverywhere | examples/distributed_raytracing/example_distributed_raytracing.cpp:531-538 | Once every position carries the ray of its segment, the records are tagged segment by segment |
| DistributedRaytracing.CopySortKeys | examples/distributed_raytracing/example_distributed_raytracing.cpp:545-548 | The sort array holds each record's entry length and ray id |
| DistributedRaytracing.RayIntensityOf | examples/distributed_raytracing/example_distributed_raytracing.cpp:580-586 | The inner loop returns the ray's intensity: each rank's contribution attenuated by E of the depth in front of it, front to back |
| DistributedRaytracing.ComposeStep | examples/distributed_raytracing/example_distributed_raytracing.cpp:583-585 | With an exponential E, one rank behind depth D adds exactly what a single medium adds between D and D+d |
| DistributedRaytracing.CrossRankComposition | examples/distributed_raytracing/example_distributed_raytracing.cpp:581-586 | With every rank reporting w*(E(0)-E(d)), attenuated contributions sum to w*(E(0)-E(total depth)) |
| DistributedRaytracing.DepthIsSum | examples/distributed_raytracing/example_distributed_raytracing.cpp:581-586 | The depth accumulated over a ray's records is the sum of their optical path lengths |
| DistributedRaytracing.WalkOfBlock | examples/distributed_raytracing/example_distributed_raytracing.cpp:581-586 | Walking a segment through a rearrangement of it reads the same records with the same total depth |
| DistributedRaytracing.AscendingWalk | examples/distributed_raytracing/example_distributed_raytracing.cpp:581-586 | A walk along positions in ascending entry order reads records in ascending entry order |
| DistributedRaytracing.SortedWalkReadsOwnRecords | examples/distributed_raytracing/example_distributed_raytracing.cpp:553-586 | After tagging and sorting, ray i's loop reads exactly the records of its segment, in ascending entry length, with their total depth |
| DistributedRaytracing.RayIntensityIsSingleWalk | examples/distributed_raytracing/example_distributed_raytracing.cpp:531-586 | End to end, the intensity computed for ray i equals one walk through the total optical depth of all its rank records |
| DistributedRaytracing.SumRUpdate | examples/distributed_raytracing/example_distributed_raytracing.cpp:589-590 | Adding x to one box adds x to the total |
| DistributedRaytracing.DepositConservesEnergy | examples/distributed_raytracing/example_distributed_raytracing.cpp:587-590 | The deposits add exactly the sum of the deposited amounts to the grid's energy |
| DistributedRaytracing.DepositPerBox | examples/distributed_raytracing/example_distributed_raytracing.cpp:587-590 | Each box gains exactly the sum of the amounts addressed to it |
| DistributedRaytracing.AmountsToBlock | examples/distributed_raytracing/example_distributed_raytracing.cpp:587-590 | When exactly a block of rays addresses a box, the amounts addressed to it are those of the block |
| DistributedRaytracing.BoxReceivesBlock | examples/distributed_raytracing/example_distributed_raytracing.cpp:587-590 | A box addressed by exactly the block [lo,hi) gains the sum of that block's amounts |
| DistributedRaytracing.LocalBoxReceivesItsRays | examples/distributed_raytracing/example_distributed_raytracing.cpp:587-590 | Local box q of a rank receives the amounts of its own rays [q*rpb, (q+1)*rpb) and nothing else |
| DistributedRaytracing.WeightedSum | examples/distributed_raytracing/example_distributed_raytracing.cpp:589-590 | With a constant factor c, the total deposited energy is c times the total intensity |
| DistributedRaytracing.DepositFirstIsDeposit | examples/distributed_raytracing/example_distributed_raytracing.cpp:572-591 | Depositing the first k rays one at a time is the deposit of the first k amounts into their boxes |
| DistributedRaytracing.LocalRayBoxesInBounds | examples/distributed_raytracing/example_distributed_raytracing.cpp:587-590 | Every box a rank writes exists when the rank's slice fits in the energy array |
| DistributedRaytracing.AtomicAdd | examples/distributed_raytracing/example_distributed_raytracing.cpp:589-590 | atomic_add adds x to entry k and changes nothing else |
| DistributedRaytracing.DepositNext | examples/distributed_raytracing/example_distributed_raytracing.cpp:587-590 | Deposit k extends the deposits of the first k rays to the first k+1 |
| DistributedRaytracing.DepositRay | examples/distributed_raytracing/example_distributed_raytracing.cpp:578-590 | The body for ray i walks its records and extends the deposits of rays [0,i) to [0,i] |
| DistributedRaytracing.DepositRayIntensities | examples/distributed_raytracing/example_distributed_raytracing.cpp:572-591 | The pass leaves energy equal to the old energy with every ray's weighted intensity added to the ray's box |
| DistributedRaytracing.EvaluateRayIntensities | examples/distributed_raytracing/example_distributed_raytracing.cpp:572-591 | Every box written belongs to the grid, and energy is the old energy plus every local ray's weighted intensity in its own box |
| DistributedRaytracing.ProcessRankRecords | examples/distributed_raytracing/example_distributed_raytracing.cpp:531-591 | Records are tagged segment by segment, the permutation sorts their keys, and the fresh energy array holds every local ray's weighted intensity in its box |

## Left out

- 32-bit `int` and `float` widths: integers are unbounded and floats are `real`. The index products (`nx * ny * k`, `num_boxes * rays_per_box`) are not checked for overflow.
- `exp`, `pow`, `sigma`, `temp`, `pi` and `kappa` enter only through the parameters `E`, `w`, `kappa` and `Weight`. Where a property needs `E` to be exponential, the lemma assumes `E(a + b) == E(a) * E(b)` (`Multiplicative`).
- BoundingVolumeHierarchyImpl.NearestQueryDispatch, BoundingVolumeHierarchyImpl.NearestQueryWithPostCallback and BoundingVolumeHierarchyImpl.NearestQueryWithDistances require every predicate to find at most k_i neighbours (`|hits[i]| <= ks[i]`). That also excludes a negative k_i. The source puts `getK` into the scan and the size of `out` unchecked (lines 217-221), so a negative k would give negative offsets and overlapping slots. The model says nothing about that case. `PrepareNearestOffsets` itself takes any k.
- The weight `x * 4 * pi * kappa / rays_per_box` is an arbitrary function parameter. `WeightedSum` covers the case where it is a constant factor.
- Kokkos parallelism: every `parallel_for` is modelled as a sequential loop, and `atomic_add` as a plain add.
  - The offset reset at lines 321-323 of the example races with the reads of `offset(i + 1)` by a neighbouring iteration when run in parallel. The model only captures the sequential order.
  - Nothing is said about memory spaces or execution spaces.
- The tree traversal (`queryImpl`, `traverse`, the bounding volume hierarchy's nodes) is not part of this model. The tree's answer per predicate is the parameter `hits`, and BoundingVolumeHierarchyImpl.QueryImpl stands in for the driver. The post-processing callbacks take only the offsets and values (`callback(predicates, offset, indices, out)` at lines 189 and 261 also takes the predicates). The predicates are fixed for the call, so the modelled callback closes over them.
- `sortQueriesAlongZOrderCurve` and `applyPermutation` are not modelled. The Z-order permutation is the parameter `zOrder`.
- `overlapDistance` and the ray-box geometry are the parameter `overlap`. Random ray generation and the trigonometry of ray directions are not part of this model.
- MPI is not modelled: `MPI_Init`, the `DistributedTree` query that forwards rays between ranks and sends results back, and the final `MPI_Reduce` of the energy.
  - Each rank's processing is modelled on the records it receives.
  - The cross-rank sum is the sum of the per-rank deposits, which `DepositConservesEnergy` accounts for.
- The GPU path of `sortObjects` is not modelled. Both sorts are modelled as the host `iota` + `std::sort`, whose result is characterised up to order among equal keys.
- `check_valid_callback` is a compile-time check and is not modelled. The nearest dispatch computes `use_deprecated_nearest_query_algorithm` but never uses it, so the model ignores it. Its sorted branch is disabled by `&& false` at line 223, so the model has only the unsorted call with buffer size -1.
- The callback runs both of its loops over `nrays = queries.extent(0)` (lines 221, 245 and 283 of the example), but it sizes `out` to `n = offset.extent(0) - 1` (lines 220 and 224). The model has a single ray count, n = |offset| - 1, for both the evaluation loop and the accumulation loop. The spatial post-callback dispatch (src/details/ArborX_DetailsBoundingVolumeHierarchyImpl.hpp:175-190) guarantees that the two agree: it passes the same predicates together with the `offset` it sized to `n_queries + 1` at line 124.
- Printing, command-line parsing and the `lost_energy` diagnostic are not modelled.

## Findings

| source | as written | input that shows it | evidently intended | confidence | as-written member | corrected member |
|---|---|---|---|---|---|---|
| examples/distributed_raytracing/example_distributed_raytracing.cpp:307 | `rankentrylength` is read from `sort_array(permutation(offset(i)))` even when ray i has no hit on the rank (`offset(i) == offset(i + 1)`), overwriting the `inf` set at line 291 | Offsets [0, 0, 1] with one hit for ray 1 at entry length 2: ray 0 is reported entering at 2. Offsets [0, 1, 1]: ray 1 reads past the end of the array | Entry length +inf for a ray without hits on the rank | not executed | RayRankAccumulation.EntryLengthAsWrittenMisreadsEmptySegments | RayRankAccumulation.SortedWalkIsExpected |
