/**
 * Query dispatch of the bounding volume hierarchy: how the CSR `offset` and
 * `out` arrays are sized and pre-filled before a traversal, how the predicate
 * permutation is extended with a sentinel so that the permuted offset view
 * still ends at offset[n], and the convenience overloads that run a default
 * query and post-process its results.
 *
 * The tree traversal itself is outside this model. Its answer is a parameter:
 * `hits[i]` is what the tree finds for predicate i (original order), and
 * QueryImpl stands in for the buffer-optimised traversal driver.
 */
module BoundingVolumeHierarchyImpl {
  import opened Csr
  import opened Permutations
  import opened TraversalPolicies

  function Abs(x: int): nat
  {
    if x < 0 then -x else x
  }

  /** Some predicate found more results than the slots reserved for it by the
      pre-filled offsets (offset[i + 1] - offset[i]). */
  predicate Overflows<T>(offset: seq<int>, hits: seq<seq<T>>)
    requires |offset| == |hits| + 1
  {
    exists i :: 0 <= i < |hits| && |hits[i]| > offset[i + 1] - offset[i]
  }

  /** Kokkos::deep_copy of a scalar into a whole view. */
  method Fill(a: array<int>, v: int)
    modifies a
    ensures a[..] == seq(a.Length, _ => v)
  {
    var i := 0;
    while i < a.Length
      invariant 0 <= i <= a.Length
      invariant forall t :: 0 <= t < i ==> a[t] == v
    {
      a[i] := v;
      i := i + 1;
    }
  }

  /** Sizing and pre-filling of the spatial query's output before the
      traversal. With b = |bufferSize| > 0, predicate i is given the
      speculative slots [i * b, (i + 1) * b) and `out` is reallocated to
      n * b entries; with b = 0 every offset is zero and `out` is left as it
      was. */
  method PrepareSpatialOutput<T(0)>(nQueries: nat, bufferSize: int, out: array<T>)
    returns (offset: array<int>, out': array<T>)
    ensures fresh(offset)
    ensures offset.Length == nQueries + 1
    ensures Abs(bufferSize) > 0 ==>
      && (forall i :: 0 <= i <= nQueries ==> offset[i] == i * Abs(bufferSize))
      && out'.Length == nQueries * Abs(bufferSize)
    ensures Abs(bufferSize) == 0 ==>
      && (forall i :: 0 <= i <= nQueries ==> offset[i] == 0)
      && out' == out
  {
    offset := new int[nQueries + 1];
    var b := Abs(bufferSize);
    if b > 0 {
      Fill(offset, b);
      ExclusivePrefixSum(offset);
      PrefixSumsOfConstant(nQueries, b);
      out' := new T[nQueries * b];
    } else {
      Fill(offset, 0);
      out' := out;
    }
  }

  /** Kokkos::resize of the permutation by one entry followed by writing the
      sentinel n into the new last slot. */
  method ExtendWithSentinel(permute: array<int>) returns (extended: array<int>)
    ensures extended[..] == permute[..] + [permute.Length]
  {
    var n := permute.Length;
    extended := new int[n + 1];
    var i := 0;
    while i < n
      invariant 0 <= i <= n
      invariant forall t :: 0 <= t < i ==> extended[t] == permute[t]
    {
      extended[i] := permute[i];
      i := i + 1;
    }
    extended[n] := n;
  }

  /** Through the extended permutation, the speculative slots of the
      traversal positions are pairwise disjoint and lie inside the n * b
      entries of `out`; the sentinel position n addresses offset[n]. */
  lemma SpeculativeSlotsDisjoint(extended: seq<int>, n: nat, b: nat, s: int, t: int)
    requires IsPermutation(extended, n + 1) && |extended| == n + 1 && extended[n] == n
    requires b > 0
    requires 0 <= s < t < n
    ensures extended[s] * b + b <= extended[t] * b || extended[t] * b + b <= extended[s] * b
    ensures 0 <= extended[s] * b && extended[s] * b + b <= n * b
  {
    PermutationFacts(extended, n + 1);
    PermutationInjective(extended, n + 1, s, t);
    PermutationInjective(extended, n + 1, s, n);
    var x, y := extended[s], extended[t];
    if x < y {
      ScaleMonotone(x + 1, y, b);
    } else {
      ScaleMonotone(y + 1, x, b);
    }
    ScaleMonotone(0, x, b);
    ScaleMonotone(x + 1, n, b);
  }

  lemma ScaleMonotone(x: int, y: int, b: nat)
    requires x <= y
    ensures x * b <= y * b
  {
    assert y * b - x * b == (y - x) * b;
  }

  /** Stand-in for the traversal driver queryImpl, which is not part of this
      model. `slots` is the index map of the offset view the driver writes
      through: traversal position t handles original predicate slots[t] and
      its result count lands in offset[slots[t]], so the counts end up in
      original predicate order whatever the permutation. With a negative
      buffer size and a predicate that found more results than its
      pre-filled slots hold, the call fails; otherwise the result is the exact
      CSR layout of the hits. */
  method QueryImpl<T(0)>(offset: array<int>, hits: seq<seq<T>>, slots: seq<int>, bufferSize: int)
    returns (out: array<T>, ok: bool)
    requires offset.Length == |hits| + 1
    requires |slots| == |hits| + 1 && IsPermutation(slots, |hits| + 1) && slots[|hits|] == |hits|
    modifies offset
    ensures ok <==> !(bufferSize < 0 && Overflows(old(offset[..]), hits))
    ensures ok ==> offset[..] == CsrOffsets(hits) && out[..] == Flatten(hits)
  {
    var n := |hits|;
    if bufferSize < 0 && Overflows(offset[..], hits) {
      out := new T[0];
      ok := false;
      return;
    }
    RestrictedPermutation(slots, n);
    PermutationFacts(slots[..n], n);
    // Counting pass, written through the offset view.
    var t := 0;
    while t < n
      invariant 0 <= t <= n
      invariant offset[n] == old(offset[n])
      invariant forall s :: 0 <= s < t ==> offset[slots[s]] == |hits[slots[s]]|
    {
      offset[slots[t]] := |hits[slots[t]]|;
      t := t + 1;
    }
    forall j | 0 <= j < n
      ensures offset[j] == |hits[j]|
    {
      assert j in slots[..n];
    }
    assert offset[..] == Counts(hits) + [old(offset[n])];
    ExclusivePrefixSum(offset);
    PrefixSumsIgnoreLast(Counts(hits), old(offset[n]), 0);
    var values := Flatten(hits);
    out := new T[|values|](i requires 0 <= i < |values| => values[i]);
    ok := true;
  }

  /** With the speculative slots of size b > 0 pre-filled, a predicate
      overflows its slots exactly when it found more than b results. */
  lemma OverflowsIffExceeds<T>(prefill: seq<int>, hits: seq<seq<T>>, b: nat)
    requires b > 0 && |prefill| == |hits| + 1
    requires forall i :: 0 <= i <= |hits| ==> prefill[i] == i * b
    ensures Overflows(prefill, hits) <==> exists i :: 0 <= i < |hits| && |hits[i]| > b
  {
    forall i | 0 <= i < |hits|
      ensures prefill[i + 1] - prefill[i] == b
    {
      assert (i + 1) * b == i * b + b;
    }
    if exists i :: 0 <= i < |hits| && |hits[i]| > b {
      var i :| 0 <= i < |hits| && |hits[i]| > b;
      assert |hits[i]| > prefill[i + 1] - prefill[i];
    }
    if Overflows(prefill, hits) {
      var i :| 0 <= i < |hits| && |hits[i]| > prefill[i + 1] - prefill[i];
      assert |hits[i]| > b;
    }
  }

  /** Spatial query dispatch with an inline callback: size and pre-fill the
      offsets, reorder the predicates along the Z-order curve when the policy
      asks for it (the permutation extended with the sentinel n), and hand
      the signed buffer size on to the traversal driver. The call fails
      exactly when the buffer size is negative and some predicate found more
      than |bufferSize| results; otherwise `offset`/`out'` are the CSR layout
      of the hits in original predicate order, with or without reordering.
      The driver reallocates `out`, so the speculative buffer sized here is
      never read back. */
  method SpatialQueryDispatch<T(0)>(hits: seq<seq<T>>, zOrder: array<int>, policy: TraversalPolicy, out: array<T>)
    returns (offset: array<int>, out': array<T>, ok: bool)
    requires IsPermutation(zOrder[..], |hits|)
    ensures offset.Length == |hits| + 1
    ensures ok <==> !(policy.bufferSize < 0 && exists i :: 0 <= i < |hits| && |hits[i]| > -policy.bufferSize)
    ensures ok ==> IsCsrOf(offset[..], out'[..], hits)
  {
    var n := |hits|;
    // The speculative buffer is only a reservation: the driver reallocates
    // `out` to the number of results it finds.
    var reserved;
    offset, reserved := PrepareSpatialOutput(n, policy.bufferSize, out);
    ghost var prefill := offset[..];
    var slots: seq<int>;
    if policy.sortPredicates {
      var extended := ExtendWithSentinel(zOrder);
      ExtendedPermutation(zOrder[..], n);
      PermutationFacts(zOrder[..], n);
      slots := extended[..];
    } else {
      slots := Interval(0, n + 1);
    }
    if policy.bufferSize < 0 {
      OverflowsIffExceeds(prefill, hits, Abs(policy.bufferSize));
    }
    assert offset[..] == prefill;
    out', ok := QueryImpl(offset, hits, slots, policy.bufferSize);
    if ok {
      CsrOfHits(hits, 0);
    }
  }

  /** The spatial overload with a post-processing callback: run the default
      query, whose values are the matching primitive indices, then call the
      callback exactly once on the complete CSR result. */
  method SpatialQueryWithPostCallback<U>(
    hits: seq<seq<int>>, zOrder: array<int>, policy: TraversalPolicy,
    callback: (seq<int>, seq<int>) -> (seq<int>, seq<U>))
    returns (offset: seq<int>, out: seq<U>, ok: bool)
    requires IsPermutation(zOrder[..], |hits|)
    ensures ok <==> !(policy.bufferSize < 0 && exists i :: 0 <= i < |hits| && |hits[i]| > -policy.bufferSize)
    ensures ok ==> (offset, out) == callback(CsrOffsets(hits), Flatten(hits))
  {
    var indices := new int[0];
    var offsetView, indicesView;
    offsetView, indicesView, ok := SpatialQueryDispatch(hits, zOrder, policy, indices);
    if ok {
      CsrOffsetsUnique(offsetView[..], indicesView[..], hits);
      CsrOfHits(hits, 0);
      CsrOffsetsValues(offsetView[..], indicesView[..], hits);
      var result := callback(offsetView[..], indicesView[..]);
      offset, out := result.0, result.1;
    } else {
      offset, out := [], [];
    }
  }

  /** In a CSR encoding of `hits` the values are the flattened hits. */
  lemma {:induction false} CsrOffsetsValues<T>(offset: seq<int>, values: seq<T>, hits: seq<seq<T>>)
    requires IsCsrOf(offset, values, hits)
    ensures values == Flatten(hits)
  {
    if hits == [] {
      assert |values| == offset[0] == 0;
    } else {
      var n := |hits| - 1;
      var prefix := values[..offset[n]];
      assert IsCsrOf(offset[..n + 1], prefix, hits[..n]) by {
        forall i | 0 <= i < n
          ensures prefix[offset[i]..offset[i + 1]] == hits[..n][i]
        {
          assert prefix[offset[i]..offset[i + 1]] == values[offset[i]..offset[i + 1]];
          assert hits[..n][i] == hits[i];
        }
      }
      CsrOffsetsValues(offset[..n + 1], prefix, hits[..n]);
      assert values == prefix + values[offset[n]..offset[n + 1]];
      assert values[offset[n]..offset[n + 1]] == hits[n];
    }
  }

  /** Offsets of the nearest query: offset(i) = k_i for every predicate,
      then the exclusive scan; the last entry is the number of results. */
  method PrepareNearestOffsets(ks: seq<int>) returns (offset: array<int>, nResults: int)
    ensures fresh(offset)
    ensures offset.Length == |ks| + 1
    ensures offset[0] == 0
    ensures forall i :: 0 <= i < |ks| ==> offset[i + 1] - offset[i] == ks[i]
    ensures nResults == offset[|ks|] == Sum(ks)
  {
    var n := |ks|;
    offset := new int[n + 1];
    var i := 0;
    while i < n
      invariant 0 <= i <= n
      invariant forall t :: 0 <= t < i ==> offset[t] == ks[t]
    {
      offset[i] := ks[i];
      i := i + 1;
    }
    ghost var last := offset[n];
    assert offset[..] == ks + [last];
    ExclusivePrefixSum(offset);
    PrefixSumsSteps(ks, last);
    nResults := offset[n];
  }

  /** Nearest query dispatch with an inline callback. The offsets reserve
      exactly k_i slots for predicate i, n_results = sum of the k_i; the
      reordering branch is disabled in the source (`_sort_predicates && false`)
      so the predicates always go to the driver in their own order, with
      buffer size -1. Since the tree returns at most k_i neighbours for
      predicate i, the reserved slots always suffice and the call never
      fails: the result is the CSR layout of the neighbours found, and it
      fits in the n_results slots reserved for it. The
      policy's traversal algorithm is read but does not reach the driver.
      `out` is the caller's view, which the source reallocates to n_results
      and the driver reallocates again to the neighbours found, so its old
      contents are never read. */
  method NearestQueryDispatch<T(0)>(ks: seq<int>, hits: seq<seq<T>>, policy: TraversalPolicy, out: array<T>)
    returns (offset: array<int>, out': array<T>)
    requires |hits| == |ks|
    requires forall i :: 0 <= i < |hits| ==> |hits[i]| <= ks[i]
    ensures IsCsrOf(offset[..], out'[..], hits)
    ensures out'.Length <= Sum(ks)
  {
    var n := |ks|;
    var useDeprecatedAlgorithm := policy.traversalAlgorithm == PriorityQueueBasedDeprecated;
    var nResults;
    offset, nResults := PrepareNearestOffsets(ks);
    var ok;
    out', ok := QueryImpl(offset, hits, Interval(0, n + 1), -1);
    CsrOfHits(hits, 0);
    FlattenLength(hits);
    SumBelow(Counts(hits), ks);
    assert out'.Length <= nResults;
  }

  /** The nearest overload with a post-processing callback: the default
      query yields (index, distance) pairs, then the callback runs once on
      the complete CSR result. */
  method NearestQueryWithPostCallback<U>(
    ks: seq<int>, hits: seq<seq<(int, real)>>, policy: TraversalPolicy,
    callback: (seq<int>, seq<(int, real)>) -> (seq<int>, seq<U>))
    returns (offset: seq<int>, out: seq<U>)
    requires |hits| == |ks|
    requires forall i :: 0 <= i < |hits| ==> |hits[i]| <= ks[i]
    ensures (offset, out) == callback(CsrOffsets(hits), Flatten(hits))
  {
    var pairs := new (int, real)[0];
    var offsetView, pairsView := NearestQueryDispatch(ks, hits, policy, pairs);
    CsrOffsetsUnique(offsetView[..], pairsView[..], hits);
    CsrOffsetsValues(offsetView[..], pairsView[..], hits);
    var result := callback(offsetView[..], pairsView[..]);
    offset, out := result.0, result.1;
  }

  /** Splits (index, distance) pairs into two parallel arrays. */
  method SplitPairs(out: array<(int, real)>) returns (indices: array<int>, distances: array<real>)
    ensures indices.Length == out.Length && distances.Length == out.Length
    ensures forall i :: 0 <= i < out.Length ==> indices[i] == out[i].0 && distances[i] == out[i].1
  {
    var n := out.Length;
    indices := new int[n];
    distances := new real[n];
    var i := 0;
    while i < n
      invariant 0 <= i <= n
      invariant forall t :: 0 <= t < i ==> indices[t] == out[t].0 && distances[t] == out[t].1
    {
      indices[i] := out[i].0;
      distances[i] := out[i].1;
      i := i + 1;
    }
  }

  /** The nearest overload returning indices and distances separately: the
      offsets are the CSR layout of the neighbours found, and entry j of
      `indices` and `distances` is the index and the distance of the j-th
      neighbour in that layout. */
  method NearestQueryWithDistances(ks: seq<int>, hits: seq<seq<(int, real)>>, policy: TraversalPolicy)
    returns (indices: array<int>, offset: array<int>, distances: array<real>)
    requires |hits| == |ks|
    requires forall i :: 0 <= i < |hits| ==> |hits[i]| <= ks[i]
    ensures offset[..] == CsrOffsets(hits)
    ensures indices.Length == distances.Length == |Flatten(hits)|
    ensures forall j :: 0 <= j < indices.Length ==>
      indices[j] == Flatten(hits)[j].0 && distances[j] == Flatten(hits)[j].1
  {
    var pairs := new (int, real)[0];
    var out;
    offset, out := NearestQueryDispatch(ks, hits, policy, pairs);
    CsrOffsetsUnique(offset[..], out[..], hits);
    CsrOffsetsValues(offset[..], out[..], hits);
    indices, distances := SplitPairs(out);
  }
}
