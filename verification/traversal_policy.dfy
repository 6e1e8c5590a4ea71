/**
 * ArborX's TraversalPolicy: the per-call options of a query, built with
 * chained setters that each update one field and hand back the same object.
 */
module TraversalPolicies {

  /** The two nearest-neighbour traversal algorithms; the stack-based one is
      the default, the priority-queue one is deprecated. */
  datatype NearestQueryAlgorithm = StackBasedDefault | PriorityQueueBasedDeprecated

  class TraversalPolicy {
    /** Speculative number of results per query: 0 disables the buffer
        optimisation; the sign selects what happens when the buffer is too
        small (positive: fall back to a second pass, negative: fail). */
    var bufferSize: int
    /** Whether predicates are reordered along a space-filling curve. */
    var sortPredicates: bool
    /** Which nearest-neighbour traversal is used. */
    var traversalAlgorithm: NearestQueryAlgorithm

    /** The default policy: buffer disabled, predicate sorting on, stack-based
        nearest traversal. */
    constructor ()
      ensures bufferSize == 0
      ensures sortPredicates
      ensures traversalAlgorithm == StackBasedDefault
    {
      bufferSize := 0;
      sortPredicates := true;
      traversalAlgorithm := StackBasedDefault;
    }

    method SetBufferSize(size: int) returns (self: TraversalPolicy)
      modifies this
      ensures self == this
      ensures bufferSize == size
      ensures sortPredicates == old(sortPredicates)
      ensures traversalAlgorithm == old(traversalAlgorithm)
    {
      bufferSize := size;
      self := this;
    }

    method SetTraversalAlgorithm(algorithm: NearestQueryAlgorithm) returns (self: TraversalPolicy)
      modifies this
      ensures self == this
      ensures traversalAlgorithm == algorithm
      ensures bufferSize == old(bufferSize)
      ensures sortPredicates == old(sortPredicates)
    {
      traversalAlgorithm := algorithm;
      self := this;
    }

    method SetPredicateSorting(sort: bool) returns (self: TraversalPolicy)
      modifies this
      ensures self == this
      ensures sortPredicates == sort
      ensures bufferSize == old(bufferSize)
      ensures traversalAlgorithm == old(traversalAlgorithm)
    {
      sortPredicates := sort;
      self := this;
    }
  }

  /** A policy configured by a chain of setter calls on a fresh default
      policy, as in `TraversalPolicy().setBufferSize(b).setPredicateSorting(s)`:
      because every setter returns the object it was called on, each call in
      the chain updates the same policy, and fields no setter names keep their
      defaults. */
  method ChainedPolicy(size: int, sort: bool) returns (policy: TraversalPolicy)
    ensures policy.bufferSize == size
    ensures policy.sortPredicates == sort
    ensures policy.traversalAlgorithm == StackBasedDefault
  {
    var p := new TraversalPolicy();
    var q := p.SetBufferSize(size);
    policy := q.SetPredicateSorting(sort);
  }
}
