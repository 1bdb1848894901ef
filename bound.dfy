/**
 * Bounds of a range over the integers (src/bound.rs).
 *
 * A finite bound is `Included(v)` or `Excluded(v)`. The library compares bounds with a
 * single order in which `Included(x)` sits above `Excluded(x)`; that is the right order for
 * the END of a range. For the START of a range the model uses the position-specific order in
 * which `Included(x)` sits below `Excluded(x)` (`StartLe`); `max_start` and `min_end` already
 * are the maximum of the start order and the minimum of the end order.
 */
module Bounds {

  datatype Option<T> = None | Some(value: T)

  /** std::cmp::Ordering */
  datatype Ordering = Less | Equal | Greater

  /** std::ops::Bound, the argument of `From` */
  datatype StdBound = StdUnbounded | StdExcluded(x: int) | StdIncluded(x: int)

  /** FiniteBound (src/bound.rs:26-30) */
  datatype FiniteBound = Excluded(v: int) | Included(v: int)

  /** Bound (src/bound.rs:1-5) */
  datatype Bound = Unbounded | Bounded(finite: FiniteBound)

  /** `From<std::ops::Bound>` keeps the tag and the value (src/bound.rs:7-15). */
  function FromStd(b: StdBound): (r: Bound)
    ensures r.Unbounded? <==> b.StdUnbounded?
    ensures r.Bounded? ==> r.finite.v == b.x && (r.finite.Included? <==> b.StdIncluded?)
  {
    match b
    case StdUnbounded => Unbounded
    case StdExcluded(x) => Bounded(Excluded(x))
    case StdIncluded(x) => Bounded(Included(x))
  }

  /** `Bound::bounded` (src/bound.rs:17-24) */
  function BoundedPart(b: Bound): (r: Option<FiniteBound>)
    ensures r.None? <==> b.Unbounded?
    ensures r.Some? ==> b == Bounded(r.value)
  {
    match b
    case Unbounded => None
    case Bounded(f) => Some(f)
  }

  function CompareInt(a: int, b: int): (o: Ordering)
    ensures o == Less <==> a < b
    ensures o == Greater <==> a > b
  {
    if a < b then Less else if a == b then Equal else Greater
  }

  /**
   * `partial_cmp` and `cmp` (src/bound.rs:32-60): equal tags compare by value; at equal
   * values an Included bound is greater than an Excluded one.
   */
  function Compare(a: FiniteBound, b: FiniteBound): (o: Ordering)
    ensures o == Equal <==> a == b
    ensures o == Less <==> a.v < b.v || (a.v == b.v && a.Excluded? && b.Included?)
    ensures o == Greater <==> a.v > b.v || (a.v == b.v && a.Included? && b.Excluded?)
  {
    match (a, b)
    case (Included(x), Included(y)) => CompareInt(x, y)
    case (Excluded(x), Excluded(y)) => CompareInt(x, y)
    case (Included(x), Excluded(y)) => if x == y then Greater else CompareInt(x, y)
    case (Excluded(x), Included(y)) => if x == y then Less else CompareInt(x, y)
  }

  /** The library's single order on bounds, `a <= b`; the right order for ends. */
  predicate Le(a: FiniteBound, b: FiniteBound)
  {
    Compare(a, b) != Greater
  }

  /** The order on starts: at equal values Included(x) comes before Excluded(x). */
  predicate StartLe(a: FiniteBound, b: FiniteBound)
  {
    a.v < b.v || (a.v == b.v && (a.Included? || b.Excluded?))
  }

  predicate StartLt(a: FiniteBound, b: FiniteBound)
  {
    StartLe(a, b) && a != b
  }

  /** `t()` (src/bound.rs:70-76) is the field `v`; the lower predicate of a start bound: */
  predicate StartAdmits(b: FiniteBound, t: int)
  {
    match b
    case Excluded(s) => t > s
    case Included(s) => t >= s
  }

  /** The upper predicate of an end bound. */
  predicate EndAdmits(b: FiniteBound, t: int)
  {
    match b
    case Excluded(e) => t < e
    case Included(e) => t <= e
  }

  /** `add_assign` adds to the value and keeps the tag (src/bound.rs:62-68). */
  function Shifted(b: FiniteBound, x: int): (r: FiniteBound)
    ensures r.v == b.v + x && (r.Included? <==> b.Included?)
    ensures forall t :: StartAdmits(b, t) <==> StartAdmits(r, t + x)
    ensures forall t :: EndAdmits(b, t) <==> EndAdmits(r, t + x)
  {
    match b
    case Excluded(s) => Excluded(s + x)
    case Included(s) => Included(s + x)
  }

  /** `max_start` (src/bound.rs:77-89): the later of two starts. */
  function MaxStart(a: FiniteBound, b: FiniteBound): (r: FiniteBound)
    ensures r == a || r == b
    ensures StartLe(a, r) && StartLe(b, r)
    ensures forall t :: StartAdmits(r, t) <==> StartAdmits(a, t) && StartAdmits(b, t)
  {
    match (a, b)
    case (Excluded(x), Excluded(y)) => Excluded(if x >= y then x else y)
    case (Included(x), Included(y)) => Included(if x >= y then x else y)
    case (Included(i), Excluded(x)) => if i > x then Included(i) else Excluded(x)
    case (Excluded(x), Included(i)) => if i > x then Included(i) else Excluded(x)
  }

  /** `min_end` (src/bound.rs:90-102): the earlier of two ends. */
  function MinEnd(a: FiniteBound, b: FiniteBound): (r: FiniteBound)
    ensures r == a || r == b
    ensures Le(r, a) && Le(r, b)
    ensures forall t :: EndAdmits(r, t) <==> EndAdmits(a, t) && EndAdmits(b, t)
  {
    match (a, b)
    case (Excluded(x), Excluded(y)) => Excluded(if x <= y then x else y)
    case (Included(x), Included(y)) => Included(if x <= y then x else y)
    case (Included(i), Excluded(x)) => if i < x then Included(i) else Excluded(x)
    case (Excluded(x), Included(i)) => if i < x then Included(i) else Excluded(x)
  }

  /** The earlier of two starts, in the start order (used where starts are merged). */
  function StartMin(a: FiniteBound, b: FiniteBound): (r: FiniteBound)
    ensures r == a || r == b
    ensures StartLe(r, a) && StartLe(r, b)
    ensures forall t :: StartAdmits(r, t) <==> StartAdmits(a, t) || StartAdmits(b, t)
  {
    if StartLe(a, b) then a else b
  }

  /** `Ord::max` in the single order, used where ends are merged. */
  function EndMax(a: FiniteBound, b: FiniteBound): (r: FiniteBound)
    ensures r == a || r == b
    ensures Le(a, r) && Le(b, r)
    ensures forall t :: EndAdmits(r, t) <==> EndAdmits(a, t) || EndAdmits(b, t)
  {
    if Compare(a, b) == Greater then a else b
  }

  /** `Ord::min` in the single order, as the library applies it to starts. */
  function SingleMin(a: FiniteBound, b: FiniteBound): (r: FiniteBound)
    ensures r == a || r == b
    ensures Le(r, a) && Le(r, b)
  {
    if Compare(a, b) == Greater then b else a
  }

  /**
   * `flipped` (used by src/implementations/complement/bounded_range.rs:10): swaps the tag
   * and keeps the value, so a start becomes the end just before it and vice versa.
   */
  function Flip(b: FiniteBound): (r: FiniteBound)
    ensures r.v == b.v && (r.Included? <==> b.Excluded?)
    ensures forall t :: StartAdmits(r, t) <==> !EndAdmits(b, t)
    ensures forall t :: EndAdmits(r, t) <==> !StartAdmits(b, t)
  {
    match b
    case Excluded(x) => Included(x)
    case Included(x) => Excluded(x)
  }

  /**
   * A range ending at `e` and a range starting at `s` overlap or touch at one value. In a
   * dense order no value lies between them; over the integers bounds one apart, such as
   * Included(4) and Included(5), leave no integer between them either, yet do not abut.
   * This is the reading of the comparisons between an end and a start in
   * src/unbounded_set.rs:51,60,151.
   */
  function Abuts(e: FiniteBound, s: FiniteBound): (r: bool)
    ensures r ==> forall t :: EndAdmits(e, t) || StartAdmits(s, t)
  {
    e.v > s.v || (e.v == s.v && (e.Included? || s.Included?))
  }

  /** The single order is a total order (src/bound.rs:56-60). */
  lemma LeIsTotalOrder(a: FiniteBound, b: FiniteBound, c: FiniteBound)
    ensures Le(a, a)
    ensures Le(a, b) && Le(b, a) ==> a == b
    ensures Le(a, b) && Le(b, c) ==> Le(a, c)
    ensures Le(a, b) || Le(b, a)
    ensures Compare(a, b) == Less <==> Compare(b, a) == Greater
  {
  }

  /** The start order is a total order as well. */
  lemma StartLeIsTotalOrder(a: FiniteBound, b: FiniteBound, c: FiniteBound)
    ensures StartLe(a, a)
    ensures StartLe(a, b) && StartLe(b, a) ==> a == b
    ensures StartLe(a, b) && StartLe(b, c) ==> StartLe(a, c)
    ensures StartLe(a, b) || StartLe(b, a)
  {
  }

  lemma StartLtTransitive(a: FiniteBound, b: FiniteBound, c: FiniteBound)
    requires StartLt(a, b) && StartLt(b, c)
    ensures StartLt(a, c)
  {
  }

  /** The two orders differ only on an Included/Excluded tie. */
  lemma StartLeAgreesWithLe(a: FiniteBound, b: FiniteBound)
    ensures a.v != b.v || a.Included? == b.Included? ==> (StartLe(a, b) <==> Le(a, b))
    ensures a.v == b.v && a.Included? != b.Included? ==> (StartLe(a, b) <==> !Le(a, b))
  {
  }

  /** `max_start` and `min_end` are commutative and resolve a tie to the Excluded bound. */
  lemma MaxStartMinEndCommute(a: FiniteBound, b: FiniteBound)
    ensures MaxStart(a, b) == MaxStart(b, a)
    ensures MinEnd(a, b) == MinEnd(b, a)
    ensures a.v == b.v && a.Included? != b.Included? ==> MaxStart(a, b) == Excluded(a.v)
    ensures a.v == b.v && a.Included? != b.Included? ==> MinEnd(a, b) == Excluded(a.v)
  {
  }

  /** `min` of the ends in the single order is `min_end` (used by src/implementations/intersection/upper_bounded_range.rs:56-58). */
  lemma SingleMinIsMinEnd(a: FiniteBound, b: FiniteBound)
    ensures SingleMin(a, b) == MinEnd(a, b)
  {
  }

  /** Flipping twice is the identity. */
  lemma FlipInvolutive(b: FiniteBound)
    ensures Flip(Flip(b)) == b
  {
  }
}
