/**
 * Intersections of two range shapes, built from bound arithmetic
 * (src/implementations/intersection/bounded_range.rs, lower_bounded_range.rs,
 * upper_bounded_range.rs), and the two helpers the finite-set insert relies on:
 * `intersects` (src/lib.rs:132-160) and `combine`, the hull of two overlapping ranges.
 */
module RangeMeets {
  import opened Bounds
  import opened Ranges

  /** BR ∩ BR = (max_start, min_end) (intersection/bounded_range.rs:12-18). */
  function MeetBounded(a: BoundedRange, b: BoundedRange): (r: BoundedRange)
    ensures forall t :: Contains(r, t) <==> Contains(a, t) && Contains(b, t)
  {
    BoundedRange(MaxStart(a.start, b.start), MinEnd(a.end, b.end))
  }

  /** BR ∩ LBR takes max_start and keeps the bounded end (intersection/bounded_range.rs:38-43). */
  function MeetBoundedLower(a: BoundedRange, l: LowerBoundedRange): (r: BoundedRange)
    ensures r.end == a.end
    ensures forall t :: Contains(r, t) <==> Contains(a, t) && LowerContains(l, t)
  {
    BoundedRange(MaxStart(a.start, l.start), a.end)
  }

  /** BR ∩ UBR keeps the bounded start and takes min_end (intersection/bounded_range.rs:63-68). */
  function MeetBoundedUpper(a: BoundedRange, u: UpperBoundedRange): (r: BoundedRange)
    ensures r.start == a.start
    ensures forall t :: Contains(r, t) <==> Contains(a, t) && UpperContains(u, t)
  {
    BoundedRange(a.start, MinEnd(a.end, u.end))
  }

  /** LBR ∩ LBR = LBR(max_start) (intersection/lower_bounded_range.rs:23-28). */
  function MeetLower(a: LowerBoundedRange, b: LowerBoundedRange): (r: LowerBoundedRange)
    ensures forall t :: LowerContains(r, t) <==> LowerContains(a, t) && LowerContains(b, t)
  {
    LowerBoundedRange(MaxStart(a.start, b.start))
  }

  /** LBR ∩ UBR = BR(lower start, upper end) (intersection/lower_bounded_range.rs:37-39). */
  function MeetLowerUpper(l: LowerBoundedRange, u: UpperBoundedRange): (r: BoundedRange)
    ensures forall t :: Contains(r, t) <==> LowerContains(l, t) && UpperContains(u, t)
  {
    BoundedRange(l.start, u.end)
  }

  /** UBR ∩ UBR = UBR(min of the ends, single order) (intersection/upper_bounded_range.rs:56-58). */
  function MeetUpper(a: UpperBoundedRange, b: UpperBoundedRange): (r: UpperBoundedRange)
    ensures r.end == MinEnd(a.end, b.end)
    ensures forall t :: UpperContains(r, t) <==> UpperContains(a, t) && UpperContains(b, t)
  {
    SingleMinIsMinEnd(a.end, b.end);
    UpperBoundedRange(SingleMin(a.end, b.end))
  }

  /** BR ∩ BR is commutative. */
  lemma MeetBoundedCommutes(a: BoundedRange, b: BoundedRange)
    ensures MeetBounded(a, b) == MeetBounded(b, a)
  {
    MaxStartMinEndCommute(a.start, b.start);
    MaxStartMinEndCommute(a.end, b.end);
  }

  /**
   * `intersects` = not `disjoint` = the intersection is not empty (src/lib.rs:132-160),
   * for two bounded ranges.
   */
  predicate Intersects(a: BoundedRange, b: BoundedRange)
  {
    !IsEmpty(MeetBounded(a, b))
  }

  /** Two ranges that intersect are both non-empty. */
  lemma IntersectsNonEmpty(a: BoundedRange, b: BoundedRange)
    requires Intersects(a, b)
    ensures !IsEmpty(a) && !IsEmpty(b)
  {
  }

  lemma IntersectsSymmetric(a: BoundedRange, b: BoundedRange)
    ensures Intersects(a, b) <==> Intersects(b, a)
  {
    MeetBoundedCommutes(a, b);
  }

  /** Two non-empty ranges with the same start intersect. */
  lemma SameStartIntersects(a: BoundedRange, b: BoundedRange)
    requires !IsEmpty(a) && !IsEmpty(b) && a.start == b.start
    ensures Intersects(a, b)
  {
  }

  /** `combine` (used at src/bounded_set.rs:67): the earliest start and the latest end. */
  function Hull(a: BoundedRange, b: BoundedRange): (r: BoundedRange)
    ensures StartLe(r.start, a.start) && StartLe(r.start, b.start)
    ensures Le(a.end, r.end) && Le(b.end, r.end)
    ensures Intersects(a, b) ==> forall t :: Contains(r, t) <==> Contains(a, t) || Contains(b, t)
  {
    var r := BoundedRange(StartMin(a.start, b.start), EndMax(a.end, b.end));
    assert Intersects(a, b) ==> forall t :: Contains(r, t) <==> Contains(a, t) || Contains(b, t) by {
      if Intersects(a, b) {
        forall t ensures Contains(r, t) <==> Contains(a, t) || Contains(b, t) {
          HullCovers(a, b, t);
        }
      }
    }
    r
  }

  /** A value of the hull of two intersecting ranges lies in one of them. */
  lemma HullCovers(a: BoundedRange, b: BoundedRange, t: int)
    requires Intersects(a, b)
    ensures Contains(BoundedRange(StartMin(a.start, b.start), EndMax(a.end, b.end)), t) ==>
      Contains(a, t) || Contains(b, t)
  {
  }
}
