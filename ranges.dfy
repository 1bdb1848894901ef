/**
 * The range shapes: BoundedRange (src/bounded_range.rs), LowerBoundedRange
 * (src/lower_bounded_range.rs), UpperBoundedRange (src/upper_bounded_range.rs); the marker
 * shapes UnboundedRange and EmptyRange carry no data and appear as constructors of
 * `Shapes.Value`.
 */
module Ranges {
  import opened Bounds

  /** Both ends finite (src/bounded_range.rs:3-7). `new` and `start_bound`/`end_bound` are
      the constructor and its fields. */
  datatype BoundedRange = BoundedRange(start: FiniteBound, end: FiniteBound)

  /** Only a start (src/lower_bounded_range.rs:3-6). */
  datatype LowerBoundedRange = LowerBoundedRange(start: FiniteBound)

  /** Only an end (src/upper_bounded_range.rs:3-6). */
  datatype UpperBoundedRange = UpperBoundedRange(end: FiniteBound)

  /** `contains` (src/bounded_range.rs:44-54): the start's and the end's predicates. */
  predicate Contains(r: BoundedRange, t: int)
  {
    StartAdmits(r.start, t) && EndAdmits(r.end, t)
  }

  /** `From<Range>`: `a..b` is (Included a, Excluded b) (src/bounded_range.rs:9-16). */
  function FromRange(a: int, b: int): (r: BoundedRange)
    ensures r.start == Included(a) && r.end == Excluded(b)
    ensures forall t :: Contains(r, t) <==> a <= t < b
  {
    BoundedRange(Included(a), Excluded(b))
  }

  /** `From<RangeInclusive>`: `a..=b` is (Included a, Included b) (src/bounded_range.rs:18-26). */
  function FromRangeInclusive(a: int, b: int): (r: BoundedRange)
    ensures r.start == Included(a) && r.end == Included(b)
    ensures forall t :: Contains(r, t) <==> a <= t <= b
  {
    BoundedRange(Included(a), Included(b))
  }

  /**
   * THE emptiness test of a bounded range (src/implementations/rangetools/bounded_range.rs:4-11):
   * start > end when both bounds are Included, start >= end otherwise. An empty range contains
   * nothing; a non-empty one has its start strictly before its end, or both Included at one value.
   */
  function IsEmpty(r: BoundedRange): (e: bool)
    ensures e ==> forall t :: !Contains(r, t)
    ensures !e <==> r.start.v < r.end.v || (r.start.v == r.end.v && r.start.Included? && r.end.Included?)
  {
    match (r.start, r.end)
    case (Included(s), Included(e)) => s > e
    case (Excluded(s), Included(e)) => s >= e
    case (Included(s), Excluded(e)) => s >= e
    case (Excluded(s), Excluded(e)) => s >= e
  }

  /** The inherent `is_empty` (src/bounded_range.rs:40-42): start > end in the single order. */
  function IsEmptyBySingleOrder(r: BoundedRange): (e: bool)
    ensures e ==> IsEmpty(r)
  {
    Compare(r.start, r.end) == Greater
  }

  /**
   * The single-order test misses (Excluded x, Excluded x) and (Excluded x, Included x), which
   * contain nothing; it agrees with `IsEmpty` everywhere else.
   */
  lemma SingleOrderEmptinessGap(r: BoundedRange)
    ensures IsEmpty(r) && !IsEmptyBySingleOrder(r) <==>
      r.start.v == r.end.v && r.start.Excluded?
  {
  }

  /** The least and the greatest integer a bounded range admits. */
  function First(r: BoundedRange): int
  {
    if r.start.Included? then r.start.v else r.start.v + 1
  }

  function Last(r: BoundedRange): int
  {
    if r.end.Included? then r.end.v else r.end.v - 1
  }

  /** The integers of a bounded range in ascending order. */
  function Elements(r: BoundedRange): (s: seq<int>)
    ensures forall t :: t in s <==> Contains(r, t)
    ensures forall i :: 0 <= i < |s| ==> s[i] == First(r) + i
    ensures |s| == if First(r) <= Last(r) then Last(r) - First(r) + 1 else 0
  {
    var s := if First(r) <= Last(r) then seq(Last(r) - First(r) + 1, i => First(r) + i) else [];
    assert forall t | Contains(r, t) :: 0 <= t - First(r) < |s| && s[t - First(r)] == t;
    s
  }

  /** `From<RangeFrom>`: `a..` starts at Included a (src/lower_bounded_range.rs:8-14). */
  function FromRangeFrom(a: int): (l: LowerBoundedRange)
    ensures l.start == Included(a)
    ensures forall t :: LowerContains(l, t) <==> a <= t
  {
    LowerBoundedRange(Included(a))
  }

  /**
   * `contains` for a lower-bounded range as the library writes it
   * (src/lower_bounded_range.rs:25-27): `t >= start.t()`, whatever the tag.
   */
  predicate LowerContainsAsWritten(l: LowerBoundedRange, t: int)
  {
    t >= l.start.v
  }

  /**
   * Membership of a lower-bounded range as the rest of the library uses it: the start's own
   * predicate, as for the start of a bounded range (src/bounded_range.rs:45-48).
   */
  predicate LowerContains(l: LowerBoundedRange, t: int)
  {
    StartAdmits(l.start, t)
  }

  /** The two readings differ exactly at the value of an Excluded start. */
  lemma LowerContainsReadings(l: LowerBoundedRange, t: int)
    ensures LowerContainsAsWritten(l, t) != LowerContains(l, t) <==> l.start.Excluded? && t == l.start.v
  {
  }

  /** `From<RangeTo>`: `..b` ends at Excluded b (src/upper_bounded_range.rs:8-14). */
  function FromRangeTo(b: int): (u: UpperBoundedRange)
    ensures u.end == Excluded(b)
    ensures forall t :: UpperContains(u, t) <==> t < b
  {
    UpperBoundedRange(Excluded(b))
  }

  /** `From<RangeToInclusive>`: `..=b` ends at Included b (src/upper_bounded_range.rs:16-22). */
  function FromRangeToInclusive(b: int): (u: UpperBoundedRange)
    ensures u.end == Included(b)
    ensures forall t :: UpperContains(u, t) <==> t <= b
  {
    UpperBoundedRange(Included(b))
  }

  /** `contains` (src/upper_bounded_range.rs:33-38). */
  predicate UpperContains(u: UpperBoundedRange, t: int)
  {
    EndAdmits(u.end, t)
  }
}
