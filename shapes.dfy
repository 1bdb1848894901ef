/**
 * Every type the `Rangetools` trait is implemented for (src/lib.rs:77-198), as one sum type,
 * with what the trait gives each of them: `is_empty`, `to_inner` and `to_set`
 * (src/implementations/rangetools/). The library picks the impl by the static type; the
 * model picks it by the constructor.
 */
module Shapes {
  import opened Bounds
  import opened Ranges
  import BoundedSets
  import LowerBoundedSets
  import UpperBoundedSets
  import UnboundedSets

  /** The library's own range and set types: what `to_inner` and `to_set` return. */
  datatype Shape =
    | EmptyShape
    | UnboundedShape
    | BoundedShape(r: BoundedRange)
    | LowerShape(l: LowerBoundedRange)
    | UpperShape(u: UpperBoundedRange)
    | BoundedSetShape(bs: BoundedSets.BoundedSet)
    | LowerSetShape(ls: LowerBoundedSets.LowerBoundedSet)
    | UpperSetShape(us: UpperBoundedSets.UpperBoundedSet)
    | UnboundedSetShape(s: UnboundedSets.UnboundedSet)

  /** A library shape, or one of the standard library's range types. */
  datatype Value =
    | Shaped(shape: Shape)
    | StdRange(a: int, b: int)
    | StdRangeInclusive(a: int, b: int)
    | StdRangeFrom(a: int)
    | StdRangeTo(b: int)
    | StdRangeToInclusive(b: int)
    | StdRangeFull

  /** `contains` of each shape: src/empty_range.rs:58-60, src/unbounded_range.rs:11-13, and the shapes' own. */
  predicate ShapeContains(s: Shape, t: int)
  {
    match s
    case EmptyShape => false
    case UnboundedShape => true
    case BoundedShape(r) => Ranges.Contains(r, t)
    case LowerShape(l) => LowerContains(l, t)
    case UpperShape(u) => UpperContains(u, t)
    case BoundedSetShape(x) => BoundedSets.Contains(x, t)
    case LowerSetShape(x) => LowerBoundedSets.Contains(x, t)
    case UpperSetShape(x) => UpperBoundedSets.Contains(x, t)
    case UnboundedSetShape(x) => UnboundedSets.Contains(x, t)
  }

  /** Membership of a value: the standard ranges' own `contains`. */
  predicate Contains(v: Value, t: int)
  {
    match v
    case Shaped(s) => ShapeContains(s, t)
    case StdRange(a, b) => a <= t < b
    case StdRangeInclusive(a, b) => a <= t <= b
    case StdRangeFrom(a) => a <= t
    case StdRangeTo(b) => t < b
    case StdRangeToInclusive(b) => t <= b
    case StdRangeFull => true
  }

  /** The set invariant of the set shapes; a range shape has none. */
  predicate ShapeValid(s: Shape)
  {
    match s
    case BoundedSetShape(x) => BoundedSets.Valid(x)
    case LowerSetShape(x) => LowerBoundedSets.Valid(x)
    case UpperSetShape(x) => UpperBoundedSets.Valid(x)
    case UnboundedSetShape(x) => UnboundedSets.Valid(x)
    case _ => true
  }

  predicate Valid(v: Value)
  {
    v.Shaped? ==> ShapeValid(v.shape)
  }

  /**
   * `is_empty` of each shape (lines 4-6 of each file in src/implementations/rangetools/): the tag-aware rule for a
   * BoundedRange, every piece empty for a BoundedSet, always for EmptyRange, never otherwise.
   * An empty shape holds no value.
   */
  function ShapeIsEmpty(s: Shape): (e: bool)
    ensures e ==> forall t :: !ShapeContains(s, t)
    ensures ShapeValid(s) && s.BoundedSetShape? ==> (e <==> s.bs.ranges == [])
  {
    match s
    case EmptyShape => true
    case BoundedShape(r) => Ranges.IsEmpty(r)
    case BoundedSetShape(x) => BoundedSets.IsEmptySet(x)
    case UpperSetShape(x) => UpperBoundedSets.IsEmptySet(x)
    case _ => false
  }

  /**
   * `is_empty` of a value: `a >= b` for `a..b` (src/implementations/rangetools/range.rs:4-6),
   * `a > b` for `a..=b`, never for the other standard ranges.
   */
  function IsEmpty(v: Value): (e: bool)
    ensures e ==> forall t :: !Contains(v, t)
    ensures !v.Shaped? ==> (e <==> forall t :: !Contains(v, t))
  {
    match v
    case Shaped(s) => ShapeIsEmpty(s)
    case StdRange(a, b) => assert !(a >= b) ==> Contains(v, a); a >= b
    case StdRangeInclusive(a, b) => assert !(a > b) ==> Contains(v, a); a > b
    case StdRangeFrom(_) => assert Contains(v, v.a); false
    case StdRangeTo(_) => assert Contains(v, v.b - 1); false
    case StdRangeToInclusive(_) => assert Contains(v, v.b); false
    case StdRangeFull => assert Contains(v, 0); false
  }

  /**
   * `to_inner` (lines 8-11 of each file in src/implementations/rangetools/): a standard range becomes the
   * library's range with the matching bounds; a library shape is its own inner value.
   */
  function ToInner(v: Value): (s: Shape)
    ensures forall t :: ShapeContains(s, t) <==> Contains(v, t)
    ensures ShapeIsEmpty(s) <==> IsEmpty(v)
    ensures ShapeValid(s) <==> Valid(v)
    ensures v.Shaped? ==> s == v.shape
    ensures !v.Shaped? ==> s.BoundedShape? || s.LowerShape? || s.UpperShape? || s.UnboundedShape?
  {
    match v
    case Shaped(s) => s
    case StdRange(a, b) => BoundedShape(FromRange(a, b))
    case StdRangeInclusive(a, b) => BoundedShape(FromRangeInclusive(a, b))
    case StdRangeFrom(a) => LowerShape(FromRangeFrom(a))
    case StdRangeTo(b) => UpperShape(FromRangeTo(b))
    case StdRangeToInclusive(b) => UpperShape(FromRangeToInclusive(b))
    case StdRangeFull => UnboundedShape
  }

  /** The shapes `to_set` can return: EmptyRange, UnboundedRange and the four set types. */
  predicate IsSetShape(s: Shape)
  {
    s.EmptyShape? || s.UnboundedShape? || s.BoundedSetShape? || s.LowerSetShape? || s.UpperSetShape? || s.UnboundedSetShape?
  }

  /**
   * `to_set` of a shape (lines 13-16 of those files): a range becomes the set
   * holding just it (an empty BoundedRange the empty set), and the other shapes are their
   * own set. The set holds the same values and is valid.
   */
  function ShapeToSet(s: Shape): (x: Shape)
    ensures IsSetShape(x)
    ensures forall t :: ShapeContains(x, t) <==> ShapeContains(s, t)
    ensures ShapeIsEmpty(x) <==> ShapeIsEmpty(s)
    ensures ShapeValid(s) ==> ShapeValid(x)
    ensures IsSetShape(s) ==> x == s
  {
    match s
    case BoundedShape(r) => BoundedSetShape(BoundedSets.FromRange(r))
    case LowerShape(l) => LowerSetShape(LowerBoundedSets.FromLower(l))
    case UpperShape(u) => UpperSetShape(UpperBoundedSets.FromUpper(u))
    case _ => s
  }

  /** `to_set` of a value: a standard range is converted through `to_inner` first. */
  function ToSet(v: Value): (x: Shape)
    ensures IsSetShape(x)
    ensures forall t :: ShapeContains(x, t) <==> Contains(v, t)
    ensures Valid(v) ==> ShapeValid(x)
  {
    ShapeToSet(ToInner(v))
  }
}
