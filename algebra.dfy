/**
 * The `Rangetools` operations over every operand (src/lib.rs:107-197): intersection, disjoint,
 * intersects and union. The source picks an impl by the operands' static types;
 * the model picks it by their constructors. Intersection goes through each operand's
 * `to_inner` shape, union through its `to_set` shape, as the trait bounds at
 * src/lib.rs:121 and src/lib.rs:194 say.
 */
module Algebra {
  import opened Bounds
  import opened Ranges
  import opened RangeMeets
  import opened SetMeets
  import opened Shapes
  import BoundedSets
  import LowerBoundedSets
  import UpperBoundedSets
  import UnboundedSets
  import Unions
  import Intersections

  /** BoundedRange ∩ an inner shape (intersection/bounded_range.rs). */
  function BoundedMeet(r: BoundedRange, b: Shape): (x: Shape)
  {
    match b
    case EmptyShape => EmptyShape
    case UnboundedShape => BoundedShape(r)
    case BoundedShape(o) => BoundedShape(MeetBounded(r, o))
    case LowerShape(o) => BoundedShape(MeetBoundedLower(r, o))
    case UpperShape(o) => BoundedShape(MeetBoundedUpper(r, o))
    case BoundedSetShape(o) => BoundedSetShape(SetClip(o, ByBounded(r)))
    case LowerSetShape(o) => BoundedSetShape(Intersections.LbsBr(o, r))
    case UpperSetShape(o) => BoundedSetShape(Intersections.UbsBr(o, r))
    case UnboundedSetShape(o) => BoundedSetShape(Intersections.BsUs(BoundedSets.FromRange(r), o))
  }

  /** BoundedRange ∩ a shape holds exactly the values in both, and keeps the set invariant. */
  lemma BoundedMeetSound(r: BoundedRange, b: Shape, t: int)
    ensures ShapeContains(BoundedMeet(r, b), t) <==> Ranges.Contains(r, t) && ShapeContains(b, t)
    ensures ShapeValid(b) ==> ShapeValid(BoundedMeet(r, b))
  {
    match b
    case EmptyShape =>
    case UnboundedShape =>
    case BoundedShape(_) =>
    case LowerShape(_) =>
    case UpperShape(_) =>
    case BoundedSetShape(_) =>
    case LowerSetShape(_) =>
    case UpperSetShape(_) =>
    case UnboundedSetShape(_) =>
  }

  /** LowerBoundedRange ∩ an inner shape (intersection/lower_bounded_range.rs). */
  function LowerMeet(l: LowerBoundedRange, b: Shape): (x: Shape)
  {
    match b
    case EmptyShape => EmptyShape
    case UnboundedShape => LowerShape(l)
    case BoundedShape(o) => BoundedShape(MeetBoundedLower(o, l))
    case LowerShape(o) => LowerShape(MeetLower(l, o))
    case UpperShape(o) => BoundedShape(MeetLowerUpper(l, o))
    case BoundedSetShape(o) => BoundedSetShape(SetClip(o, ByLower(l)))
    case LowerSetShape(o) => LowerSetShape(Intersections.LbsLbr(o, l))
    case UpperSetShape(o) => BoundedSetShape(Intersections.UbsLbr(o, l))
    case UnboundedSetShape(o) => LowerSetShape(Intersections.LbsUs(LowerBoundedSets.FromLower(l), o))
  }

  /** LowerBoundedRange ∩ a shape holds exactly the values in both, and keeps the set invariant. */
  lemma LowerMeetSound(l: LowerBoundedRange, b: Shape, t: int)
    ensures ShapeContains(LowerMeet(l, b), t) <==> LowerContains(l, t) && ShapeContains(b, t)
    ensures ShapeValid(b) ==> ShapeValid(LowerMeet(l, b))
  {
    match b
    case EmptyShape =>
    case UnboundedShape =>
    case BoundedShape(_) =>
    case LowerShape(_) =>
    case UpperShape(_) =>
    case BoundedSetShape(_) =>
    case LowerSetShape(_) =>
    case UpperSetShape(_) =>
    case UnboundedSetShape(_) =>
  }

  /** UpperBoundedRange ∩ an inner shape (intersection/upper_bounded_range.rs). */
  function UpperMeet(u: UpperBoundedRange, b: Shape): (x: Shape)
  {
    match b
    case EmptyShape => EmptyShape
    case UnboundedShape => UpperShape(u)
    case BoundedShape(o) => BoundedShape(MeetBoundedUpper(o, u))
    case LowerShape(o) => BoundedShape(MeetLowerUpper(o, u))
    case UpperShape(o) => UpperShape(MeetUpper(u, o))
    case BoundedSetShape(o) => BoundedSetShape(SetClip(o, ByUpper(u)))
    case LowerSetShape(o) => BoundedSetShape(Intersections.LbsUbr(o, u))
    case UpperSetShape(o) => UpperSetShape(Intersections.UbsUbr(o, u))
    case UnboundedSetShape(o) => UpperSetShape(Intersections.UbsUs(UpperBoundedSets.FromUpper(u), o))
  }

  /** UpperBoundedRange ∩ a shape holds exactly the values in both, and keeps the set invariant. */
  lemma UpperMeetSound(u: UpperBoundedRange, b: Shape, t: int)
    ensures ShapeContains(UpperMeet(u, b), t) <==> UpperContains(u, t) && ShapeContains(b, t)
    ensures ShapeValid(b) ==> ShapeValid(UpperMeet(u, b))
  {
    match b
    case EmptyShape =>
    case UnboundedShape =>
    case BoundedShape(_) =>
    case LowerShape(_) =>
    case UpperShape(_) =>
    case BoundedSetShape(_) =>
    case LowerSetShape(_) =>
    case UpperSetShape(_) =>
    case UnboundedSetShape(_) =>
  }

  /** BoundedSet ∩ an inner shape (intersection/bounded_set.rs). */
  function BoundedSetMeet(s: BoundedSets.BoundedSet, b: Shape): (x: Shape)
  {
    match b
    case EmptyShape => EmptyShape
    case UnboundedShape => BoundedSetShape(s)
    case BoundedShape(o) => BoundedSetShape(SetClip(s, ByBounded(o)))
    case LowerShape(o) => BoundedSetShape(SetClip(s, ByLower(o)))
    case UpperShape(o) => BoundedSetShape(SetClip(s, ByUpper(o)))
    case BoundedSetShape(o) => BoundedSetShape(Intersections.BsBs(s, o))
    case LowerSetShape(o) => BoundedSetShape(Intersections.BsLbs(s, o))
    case UpperSetShape(o) => BoundedSetShape(Intersections.BsUbs(s, o))
    case UnboundedSetShape(o) => BoundedSetShape(Intersections.BsUs(s, o))
  }

  /** BoundedSet ∩ a shape holds exactly the values in both, and keeps the set invariant. */
  lemma BoundedSetMeetSound(s: BoundedSets.BoundedSet, b: Shape, t: int)
    ensures ShapeContains(BoundedSetMeet(s, b), t) <==> BoundedSets.Contains(s, t) && ShapeContains(b, t)
    ensures BoundedSets.Valid(s) ==> ShapeValid(BoundedSetMeet(s, b))
  {
    match b
    case EmptyShape =>
    case UnboundedShape =>
    case BoundedShape(_) =>
    case LowerShape(_) =>
    case UpperShape(_) =>
    case BoundedSetShape(_) =>
    case LowerSetShape(_) =>
    case UpperSetShape(_) =>
    case UnboundedSetShape(_) =>
  }

  /** LowerBoundedSet ∩ an inner shape (intersection/lower_bounded_set.rs). */
  function LowerSetMeet(s: LowerBoundedSets.LowerBoundedSet, b: Shape): (x: Shape)
  {
    match b
    case EmptyShape => EmptyShape
    case UnboundedShape => LowerSetShape(s)
    case BoundedShape(o) => BoundedSetShape(Intersections.LbsBr(s, o))
    case LowerShape(o) => LowerSetShape(Intersections.LbsLbr(s, o))
    case UpperShape(o) => BoundedSetShape(Intersections.LbsUbr(s, o))
    case BoundedSetShape(o) => BoundedSetShape(Intersections.BsLbs(o, s))
    case LowerSetShape(o) => LowerSetShape(Intersections.LbsLbs(s, o))
    case UpperSetShape(o) => BoundedSetShape(Intersections.LbsUbs(s, o))
    case UnboundedSetShape(o) => LowerSetShape(Intersections.LbsUs(s, o))
  }

  /** LowerBoundedSet ∩ a shape holds exactly the values in both, and keeps the set invariant. */
  lemma LowerSetMeetSound(s: LowerBoundedSets.LowerBoundedSet, b: Shape, t: int)
    ensures ShapeContains(LowerSetMeet(s, b), t) <==> LowerBoundedSets.Contains(s, t) && ShapeContains(b, t)
    ensures LowerBoundedSets.Valid(s) && ShapeValid(b) ==> ShapeValid(LowerSetMeet(s, b))
  {
    match b
    case EmptyShape =>
    case UnboundedShape =>
    case BoundedShape(_) =>
    case LowerShape(_) =>
    case UpperShape(_) =>
    case BoundedSetShape(_) =>
    case LowerSetShape(_) =>
    case UpperSetShape(_) =>
    case UnboundedSetShape(_) =>
  }

  /** UpperBoundedSet ∩ an inner shape (intersection/upper_bounded_set.rs). */
  function UpperSetMeet(s: UpperBoundedSets.UpperBoundedSet, b: Shape): (x: Shape)
  {
    match b
    case EmptyShape => EmptyShape
    case UnboundedShape => UpperSetShape(s)
    case BoundedShape(o) => BoundedSetShape(Intersections.UbsBr(s, o))
    case LowerShape(o) => BoundedSetShape(Intersections.UbsLbr(s, o))
    case UpperShape(o) => UpperSetShape(Intersections.UbsUbr(s, o))
    case BoundedSetShape(o) => BoundedSetShape(Intersections.BsUbs(o, s))
    case LowerSetShape(o) => BoundedSetShape(Intersections.LbsUbs(o, s))
    case UpperSetShape(o) => UpperSetShape(Intersections.UbsUbs(s, o))
    case UnboundedSetShape(o) => UpperSetShape(Intersections.UbsUs(s, o))
  }

  /** UpperBoundedSet ∩ a shape holds exactly the values in both, and keeps the set invariant. */
  lemma UpperSetMeetSound(s: UpperBoundedSets.UpperBoundedSet, b: Shape, t: int)
    ensures ShapeContains(UpperSetMeet(s, b), t) <==> UpperBoundedSets.Contains(s, t) && ShapeContains(b, t)
    ensures UpperBoundedSets.Valid(s) && ShapeValid(b) ==> ShapeValid(UpperSetMeet(s, b))
  {
    match b
    case EmptyShape =>
    case UnboundedShape =>
    case BoundedShape(_) =>
    case LowerShape(_) =>
    case UpperShape(_) =>
    case BoundedSetShape(_) =>
    case LowerSetShape(_) =>
    case UpperSetShape(_) =>
    case UnboundedSetShape(_) =>
  }

  /**
   * UnboundedSet ∩ an inner shape (intersection/unbounded_set.rs): a range is first turned into
   * its set (`to_set`, lines 7-16, 29-38, 51-60), whose table row then applies.
   */
  function UnboundedSetMeet(s: UnboundedSets.UnboundedSet, b: Shape): (x: Shape)
    decreases if IsSetShape(b) then 0 else 1
  {
    match b
    case EmptyShape => EmptyShape
    case UnboundedShape => UnboundedSetShape(s)
    case BoundedShape(_) => UnboundedSetMeet(s, ShapeToSet(b))
    case LowerShape(_) => UnboundedSetMeet(s, ShapeToSet(b))
    case UpperShape(_) => UnboundedSetMeet(s, ShapeToSet(b))
    case BoundedSetShape(o) => BoundedSetShape(Intersections.BsUs(o, s))
    case LowerSetShape(o) => LowerSetShape(Intersections.LbsUs(o, s))
    case UpperSetShape(o) => UpperSetShape(Intersections.UbsUs(o, s))
    case UnboundedSetShape(o) => UnboundedSetShape(Intersections.UsUs(s, o))
  }

  /** UnboundedSet ∩ a shape holds exactly the values in both. */
  lemma UnboundedSetMeetSound(s: UnboundedSets.UnboundedSet, b: Shape, t: int)
    ensures ShapeContains(UnboundedSetMeet(s, b), t) <==> UnboundedSets.Contains(s, t) && ShapeContains(b, t)
    decreases if IsSetShape(b) then 0 else 1
  {
    match b
    case EmptyShape =>
    case UnboundedShape =>
    case BoundedShape(_) => UnboundedSetMeetSound(s, ShapeToSet(b), t);
    case LowerShape(_) => UnboundedSetMeetSound(s, ShapeToSet(b), t);
    case UpperShape(_) => UnboundedSetMeetSound(s, ShapeToSet(b), t);
    case BoundedSetShape(_) =>
    case LowerSetShape(_) =>
    case UpperSetShape(_) =>
    case UnboundedSetShape(_) =>
  }

  /** UnboundedSet ∩ a valid shape keeps the set invariant. */
  lemma UnboundedSetMeetValid(s: UnboundedSets.UnboundedSet, b: Shape)
    ensures UnboundedSets.Valid(s) && ShapeValid(b) ==> ShapeValid(UnboundedSetMeet(s, b))
    decreases if IsSetShape(b) then 0 else 1
  {
    match b
    case EmptyShape =>
    case UnboundedShape =>
    case BoundedShape(_) => UnboundedSetMeetValid(s, ShapeToSet(b));
    case LowerShape(_) => UnboundedSetMeetValid(s, ShapeToSet(b));
    case UpperShape(_) => UnboundedSetMeetValid(s, ShapeToSet(b));
    case BoundedSetShape(_) =>
    case LowerSetShape(_) =>
    case UpperSetShape(_) =>
    case UnboundedSetShape(_) =>
  }

  /**
   * Intersection of two inner shapes: EmptyRange absorbs (intersection/empty_range.rs:7-10),
   * UnboundedRange gives the other (intersection/unbounded_range.rs:47-73), and the other
   * shapes go to their own table.
   */
  function Meet(a: Shape, b: Shape): (x: Shape)
    ensures a.EmptyShape? || b.EmptyShape? ==> x == EmptyShape
    ensures a.UnboundedShape? ==> x == b
  {
    match a
    case EmptyShape => EmptyShape
    case UnboundedShape => b
    case BoundedShape(r) => BoundedMeet(r, b)
    case LowerShape(l) => LowerMeet(l, b)
    case UpperShape(u) => UpperMeet(u, b)
    case BoundedSetShape(s) => BoundedSetMeet(s, b)
    case LowerSetShape(s) => LowerSetMeet(s, b)
    case UpperSetShape(s) => UpperSetMeet(s, b)
    case UnboundedSetShape(s) => UnboundedSetMeet(s, b)
  }

  /** The meet of two shapes holds exactly the values in both, and keeps the set invariant. */
  lemma MeetSound(a: Shape, b: Shape, t: int)
    ensures ShapeContains(Meet(a, b), t) <==> ShapeContains(a, t) && ShapeContains(b, t)
    ensures ShapeValid(a) && ShapeValid(b) ==> ShapeValid(Meet(a, b))
  {
    match a
    case EmptyShape =>
    case UnboundedShape =>
    case BoundedShape(r) => BoundedMeetSound(r, b, t);
    case LowerShape(l) => LowerMeetSound(l, b, t);
    case UpperShape(u) => UpperMeetSound(u, b, t);
    case BoundedSetShape(s) => BoundedSetMeetSound(s, b, t);
    case LowerSetShape(s) => LowerSetMeetSound(s, b, t);
    case UpperSetShape(s) => UpperSetMeetSound(s, b, t);
    case UnboundedSetShape(s) => UnboundedSetMeetSound(s, b, t); UnboundedSetMeetValid(s, b);
  }

  /**
   * `intersection` (src/lib.rs:107-124): a standard range on either side is first converted to
   * its inner shape (intersection/range.rs, range_from.rs, range_inclusive.rs,
   * range_to_inclusive.rs, range_full.rs). The result holds exactly the values in both
   * operands and keeps the set invariant.
   */
  function Intersection(a: Value, b: Value): (x: Shape)
    ensures forall t :: ShapeContains(x, t) <==> Shapes.Contains(a, t) && Shapes.Contains(b, t)
    ensures Shapes.Valid(a) && Shapes.Valid(b) ==> ShapeValid(x)
    ensures a == Shaped(EmptyShape) || b == Shaped(EmptyShape) ==> x == EmptyShape
    ensures a == StdRangeFull ==> x == ToInner(b)
  {
    var x := Meet(ToInner(a), ToInner(b));
    assert forall t :: ShapeContains(x, t) <==> Shapes.Contains(a, t) && Shapes.Contains(b, t) by {
      forall t ensures ShapeContains(x, t) <==> Shapes.Contains(a, t) && Shapes.Contains(b, t) {
        MeetSound(ToInner(a), ToInner(b), t);
      }
    }
    MeetSound(ToInner(a), ToInner(b), 0);
    x
  }

  /**
   * `disjoint` (src/lib.rs:126-142): the intersection is empty. Operands it calls disjoint
   * share no value.
   */
  function Disjoint(a: Value, b: Value): (d: bool)
    ensures d ==> forall t :: !(Shapes.Contains(a, t) && Shapes.Contains(b, t))
  {
    ShapeIsEmpty(Intersection(a, b))
  }

  /**
   * `intersects` (src/lib.rs:144-160): not disjoint. Operands that share a value intersect.
   */
  function Intersects(a: Value, b: Value): (i: bool)
    ensures (exists t :: Shapes.Contains(a, t) && Shapes.Contains(b, t)) ==> i
    ensures i == !Disjoint(a, b)
  {
    !Disjoint(a, b)
  }

  /**
   * Union of two set shapes (union/bounded_set.rs, lower_bounded_set.rs, upper_bounded_set.rs):
   * EmptyRange gives the other, UnboundedRange absorbs, and each pair of set types has its
   * own rule.
   */
  function SetUnion(a: Shape, b: Shape): (x: Shape)
    requires IsSetShape(a) && IsSetShape(b)
    ensures a.EmptyShape? ==> x == b
    ensures b.EmptyShape? ==> x == a
    ensures (a.UnboundedShape? || b.UnboundedShape?) && !a.EmptyShape? && !b.EmptyShape? ==> x == UnboundedShape
  {
    match (a, b)
    case (EmptyShape, _) => b
    case (_, EmptyShape) => a
    case (UnboundedShape, _) => UnboundedShape
    case (_, UnboundedShape) => UnboundedShape
    case (BoundedSetShape(x), BoundedSetShape(y)) => BoundedSetShape(BoundedSets.WithSet(x, y))
    case (BoundedSetShape(x), LowerSetShape(y)) => LowerSetShape(LowerBoundedSets.WithSet(y, x))
    case (BoundedSetShape(x), UpperSetShape(y)) => UpperSetShape(UpperBoundedSets.WithSet(y, x))
    case (BoundedSetShape(x), UnboundedSetShape(y)) => UnboundedSetShape(UnboundedSets.WithSet(y, x))
    case (LowerSetShape(x), BoundedSetShape(y)) => LowerSetShape(LowerBoundedSets.WithSet(x, y))
    case (LowerSetShape(x), LowerSetShape(y)) => LowerSetShape(Unions.LbsLbs(x, y))
    case (LowerSetShape(x), UpperSetShape(y)) => UnboundedSetShape(Unions.LbsUbs(x, y))
    case (LowerSetShape(x), UnboundedSetShape(y)) => UnboundedSetShape(Unions.LbsUs(x, y))
    case (UpperSetShape(x), BoundedSetShape(y)) => UpperSetShape(UpperBoundedSets.WithSet(x, y))
    case (UpperSetShape(x), LowerSetShape(y)) => UnboundedSetShape(Unions.LbsUbs(y, x))
    case (UpperSetShape(x), UpperSetShape(y)) => UpperSetShape(Unions.UbsUbs(x, y))
    case (UpperSetShape(x), UnboundedSetShape(y)) => UnboundedSetShape(Unions.UbsUs(x, y))
    case (UnboundedSetShape(x), BoundedSetShape(y)) => UnboundedSetShape(UnboundedSets.WithSet(x, y))
    case (UnboundedSetShape(x), LowerSetShape(y)) => UnboundedSetShape(Unions.LbsUs(y, x))
    case (UnboundedSetShape(x), UpperSetShape(y)) => UnboundedSetShape(Unions.UbsUs(y, x))
    case (UnboundedSetShape(x), UnboundedSetShape(y)) => UnboundedSetShape(UnboundedSets.WithUnboundedSet(x, y))
    case _ => assert false; EmptyShape
  }

  /** The union of two set shapes holds the values of either, and keeps the set invariant. */
  lemma SetUnionSound(a: Shape, b: Shape, t: int)
    requires IsSetShape(a) && IsSetShape(b)
    ensures ShapeContains(SetUnion(a, b), t) <==> ShapeContains(a, t) || ShapeContains(b, t)
    ensures ShapeValid(a) && ShapeValid(b) ==> ShapeValid(SetUnion(a, b))
  {
    match a
    case EmptyShape =>
    case UnboundedShape =>
    case BoundedSetShape(_) =>
    case LowerSetShape(_) =>
    case UpperSetShape(_) =>
    case UnboundedSetShape(_) =>
  }

  /**
   * `union` (src/lib.rs:178-197): EmptyRange on the left gives the right operand unchanged
   * (union/empty_range.rs:3-11); UnboundedRange, and `..` against anything but EmptyRange,
   * give UnboundedRange (union/unbounded_range.rs:43-48, union/range_full.rs:6-54); an
   * operand whose set is EmptyRange gives the left operand unchanged
   * (union/lower_bounded_range.rs:61-71, union/range_to_inclusive.rs:61-71); otherwise both
   * operands become sets (`to_set`, union/bounded_range.rs:6-48) and are united. The result
   * holds the values of either operand.
   */
  function Union(a: Value, b: Value): (x: Value)
    ensures forall t :: Shapes.Contains(x, t) <==> Shapes.Contains(a, t) || Shapes.Contains(b, t)
    ensures Shapes.Valid(a) && Shapes.Valid(b) ==> Shapes.Valid(x)
    ensures a == Shaped(EmptyShape) ==> x == b
    ensures b == Shaped(EmptyShape) ==> x == a
    ensures a == Shaped(UnboundedShape) ==> x == Shaped(UnboundedShape)
  {
    if a == Shaped(EmptyShape) then b
    else if ToSet(a) == UnboundedShape then
      if a == StdRangeFull && b == Shaped(EmptyShape) then a else Shaped(UnboundedShape)
    else if b == Shaped(EmptyShape) then a
    else if ToSet(b) == UnboundedShape then Shaped(UnboundedShape)
    else
      var x := SetUnion(ToSet(a), ToSet(b));
      assert forall t :: ShapeContains(x, t) <==> Shapes.Contains(a, t) || Shapes.Contains(b, t) by {
        forall t ensures ShapeContains(x, t) <==> Shapes.Contains(a, t) || Shapes.Contains(b, t) {
          SetUnionSound(ToSet(a), ToSet(b), t);
        }
      }
      SetUnionSound(ToSet(a), ToSet(b), 0);
      Shaped(x)
  }
}
