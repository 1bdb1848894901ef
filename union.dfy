/**
 * Unions of two set shapes (src/implementations/union/bounded_set.rs, lower_bounded_set.rs,
 * upper_bounded_set.rs). A union takes the right operand's set, or the left one, and feeds the
 * other's parts into it through the normalising `add_*` operations, so the result holds the
 * values of either operand (src/lib.rs:179).
 *
 * BoundedSet ∪ BoundedSet is `BoundedSets.WithSet`, and BoundedSet ∪ an extremal set is that
 * set's `WithSet` of the BoundedSet (union/bounded_set.rs:12-15,24-28,37-41,50-54); they need no
 * function of their own. The UnboundedSet-on-the-left impls are not part of this model; the
 * unions below call `UnboundedSets.WithSet` where the source calls `UnboundedSet ∪ BoundedSet`.
 */
module Unions {
  import opened Bounds
  import opened Ranges
  import BoundedSets
  import LowerBoundedSets
  import UpperBoundedSets
  import UnboundedSets

  /**
   * LowerBoundedSet ∪ LowerBoundedSet (union/lower_bounded_set.rs:23-27): take the earlier
   * tail, then add the other's pieces.
   */
  function LbsLbs(a: LowerBoundedSets.LowerBoundedSet, b: LowerBoundedSets.LowerBoundedSet): (r: LowerBoundedSets.LowerBoundedSet)
    ensures forall t :: LowerBoundedSets.Contains(r, t) <==> LowerBoundedSets.Contains(a, t) || LowerBoundedSets.Contains(b, t)
    ensures LowerBoundedSets.Valid(a) ==> LowerBoundedSets.Valid(r) && LowerBoundedSets.Settled(r)
  {
    LowerBoundedSets.WithSet(LowerBoundedSets.WithLower(a, b.tail), b.ranges)
  }

  /**
   * LowerBoundedSet ∪ UpperBoundedSet (union/lower_bounded_set.rs:36-40): a new UnboundedSet
   * from the head and the tail, then both sets of pieces. The result is always valid.
   */
  function LbsUbs(a: LowerBoundedSets.LowerBoundedSet, b: UpperBoundedSets.UpperBoundedSet): (r: UnboundedSets.UnboundedSet)
    ensures forall t :: UnboundedSets.Contains(r, t) <==> LowerBoundedSets.Contains(a, t) || UpperBoundedSets.Contains(b, t)
    ensures UnboundedSets.Valid(r)
    ensures a.ranges.ranges != [] || b.ranges.ranges != [] || !Abuts(b.head.end, a.tail.start) ==>
      UnboundedSets.Settled(r)
  {
    UnboundedSets.WithSet(UnboundedSets.WithSet(UnboundedSets.New(b.head, a.tail), a.ranges), b.ranges)
  }

  /**
   * LowerBoundedSet ∪ UnboundedSet (union/lower_bounded_set.rs:49-53): the UnboundedSet takes
   * the tail, then the pieces.
   */
  function LbsUs(a: LowerBoundedSets.LowerBoundedSet, b: UnboundedSets.UnboundedSet): (r: UnboundedSets.UnboundedSet)
    ensures forall t :: UnboundedSets.Contains(r, t) <==> LowerBoundedSets.Contains(a, t) || UnboundedSets.Contains(b, t)
    ensures UnboundedSets.Valid(b) ==> UnboundedSets.Valid(r)
    ensures UnboundedSets.Settled(r)
    ensures b.Full? ==> r.Full?
  {
    UnboundedSets.WithSet(UnboundedSets.WithLower(b, a.tail), a.ranges)
  }

  /**
   * UpperBoundedSet ∪ UpperBoundedSet (union/upper_bounded_set.rs:34-38): take the later
   * head, then add the other's pieces.
   */
  function UbsUbs(a: UpperBoundedSets.UpperBoundedSet, b: UpperBoundedSets.UpperBoundedSet): (r: UpperBoundedSets.UpperBoundedSet)
    ensures forall t :: UpperBoundedSets.Contains(r, t) <==> UpperBoundedSets.Contains(a, t) || UpperBoundedSets.Contains(b, t)
    ensures UpperBoundedSets.Valid(a) ==> UpperBoundedSets.Valid(r) && UpperBoundedSets.Settled(r)
  {
    UpperBoundedSets.WithSet(UpperBoundedSets.WithUpper(a, b.head), b.ranges)
  }

  /**
   * UpperBoundedSet ∪ UnboundedSet (union/upper_bounded_set.rs:47-51): the UnboundedSet takes
   * the head, then the pieces.
   */
  function UbsUs(a: UpperBoundedSets.UpperBoundedSet, b: UnboundedSets.UnboundedSet): (r: UnboundedSets.UnboundedSet)
    ensures forall t :: UnboundedSets.Contains(r, t) <==> UpperBoundedSets.Contains(a, t) || UnboundedSets.Contains(b, t)
    ensures UnboundedSets.Valid(b) ==> UnboundedSets.Valid(r)
    ensures UnboundedSets.Settled(r)
    ensures b.Full? ==> r.Full?
  {
    UnboundedSets.WithSet(UnboundedSets.WithUpper(b, a.head), a.ranges)
  }
}
