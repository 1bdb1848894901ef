/**
 * Iteration over range shapes. A BoundedRange and a LowerBoundedRange are their own
 * iterators: `next` advances the start in place by one (src/bounded_range.rs:57-98,
 * src/lower_bounded_range.rs:34-51). EmptyRange iterates as `std::iter::empty`.
 */
module RangeIterators {
  import opened Bounds
  import opened Ranges

  /** A BoundedRange being iterated; `start` moves, `end` stays. */
  class BoundedRangeIter {
    var start: FiniteBound
    var end: FiniteBound

    constructor (r: BoundedRange)
      ensures start == r.start && end == r.end
    {
      start, end := r.start, r.end;
    }

    function Range(): BoundedRange
      reads this
    {
      BoundedRange(start, end)
    }

    /**
     * `next` (src/bounded_range.rs:62-96): yields the least remaining value and moves the start
     * past it, keeping its tag; once nothing is left it yields None and changes nothing.
     */
    method Next() returns (x: Option<int>)
      modifies this
      ensures end == old(end) && (start.Included? <==> old(start).Included?)
      ensures x.None? <==> Elements(old(Range())) == []
      ensures x.None? ==> start == old(start)
      ensures x.Some? ==> start == Shifted(old(start), 1)
      ensures x.Some? ==> Contains(old(Range()), x.value)
      ensures x.Some? ==> x.value == Elements(old(Range()))[0]
      ensures x.Some? ==> Elements(Range()) == Elements(old(Range()))[1..]
    {
      ghost var before := Range();
      match (start, end)
      case (Included(s), Included(e)) =>
        if s > e {
          x := None;
        } else {
          start := Shifted(start, 1);
          x := Some(s);
        }
      case (Included(s), Excluded(e)) =>
        if s >= e {
          x := None;
        } else {
          start := Shifted(start, 1);
          x := Some(s);
        }
      case (Excluded(s), Included(e)) =>
        if s >= e {
          x := None;
        } else {
          start := Shifted(start, 1);
          x := Some(start.v);
        }
      case (Excluded(s), Excluded(e)) =>
        if s + 1 >= e {
          x := None;
        } else {
          start := Shifted(start, 1);
          x := Some(start.v);
        }
      if x.Some? {
        AdvancedElements(before, Range());
      }
    }
  }

  /** Moving a start up by one drops exactly the first element. */
  lemma AdvancedElements(r: BoundedRange, r': BoundedRange)
    requires Elements(r) != []
    requires r'.end == r.end && r'.start == Shifted(r.start, 1)
    ensures Elements(r') == Elements(r)[1..]
  {
    var a, b := Elements(r), Elements(r');
    assert |b| == |a| - 1;
    forall i | 0 <= i < |b|
      ensures b[i] == a[1..][i]
    {
    }
  }

  /** A LowerBoundedRange being iterated. */
  class LowerBoundedRangeIter {
    var start: FiniteBound

    constructor (l: LowerBoundedRange)
      ensures start == l.start
    {
      start := l.start;
    }

    /**
     * `next` (src/lower_bounded_range.rs:39-50): never None; yields the least value of the
     * range and moves the start past it, keeping its tag.
     */
    method Next() returns (x: Option<int>)
      modifies this
      ensures x.Some? && start == Shifted(old(start), 1)
      ensures x.value == if old(start).Included? then old(start).v else old(start).v + 1
      ensures LowerContains(LowerBoundedRange(old(start)), x.value)
      ensures forall t :: LowerContains(LowerBoundedRange(old(start)), t) ==> x.value <= t
      ensures forall t :: LowerContains(LowerBoundedRange(start), t) <==>
        LowerContains(LowerBoundedRange(old(start)), t) && t != x.value
    {
      match start
      case Excluded(_) =>
        start := Shifted(start, 1);
        x := Some(start.v);
      case Included(t) =>
        start := Shifted(start, 1);
        x := Some(t);
    }
  }
}
