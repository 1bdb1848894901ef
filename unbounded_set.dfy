/**
 * UnboundedSet (src/unbounded_set.rs): either `Full`, or `Piecewise` — an upper-bounded head,
 * finite pieces and a lower-bounded tail, with a gap somewhere between head and tail.
 * `defragment` absorbs pieces into the head or the tail and collapses the set to `Full` once
 * head and tail leave no gap.
 *
 * "A piece starts at or before the head's end" (src/unbounded_set.rs:51), "a piece ends at or
 * after the tail's start" (line 60) and "the head's end reaches the tail's start" (line 151)
 * compare an end with a start. The model reads each as `Abuts(end, start)`: no value lies
 * between the two, so every value is admitted by one of them.
 */
module UnboundedSets {
  import opened Bounds
  import opened Ranges
  import opened RangeMeets
  import BoundedSets

  /** Field names follow the source: `upper_bounded_range`, `ranges`, `lower_bounded_range`. */
  datatype PiecewiseUnboundedSet = PiecewiseUnboundedSet(
    upper: UpperBoundedRange, ranges: BoundedSets.BoundedSet, lower: LowerBoundedRange)

  datatype UnboundedSet = Full | Piecewise(p: PiecewiseUnboundedSet)

  /** `PiecewiseUnboundedSet::contains` (src/unbounded_set.rs:40-44). */
  predicate PiecewiseContains(p: PiecewiseUnboundedSet, t: int)
  {
    UpperContains(p.upper, t) || LowerContains(p.lower, t) || BoundedSets.Contains(p.ranges, t)
  }

  /** `UnboundedSet::contains` (src/unbounded_set.rs:131-136): Full holds every value. */
  predicate Contains(s: UnboundedSet, t: int)
  {
    s.Full? || PiecewiseContains(s.p, t)
  }

  /** The pieces form a valid BoundedSet; that they also stay clear of head and tail is `Settled`. */
  predicate Valid(s: UnboundedSet)
  {
    s.Piecewise? ==> BoundedSets.Valid(s.p.ranges)
  }

  /** No piece reaches the head or the tail (what `defragment` leaves behind). */
  predicate PiecewiseSettled(p: PiecewiseUnboundedSet)
  {
    forall i | 0 <= i < |p.ranges.ranges| ::
      !Abuts(p.upper.end, p.ranges.ranges[i].start) && !Abuts(p.ranges.ranges[i].end, p.lower.start)
  }

  /** Settled, and head and tail leave a gap. */
  predicate Settled(s: UnboundedSet)
  {
    s.Piecewise? ==> PiecewiseSettled(s.p) && !Abuts(s.p.upper.end, s.p.lower.start)
  }

  /** The first piece that starts no later than the head's end (src/unbounded_set.rs:47-52). */
  function ReachingHead(rs: seq<BoundedRange>, e: FiniteBound): (i: nat)
    ensures i <= |rs|
    ensures i < |rs| ==> Abuts(e, rs[i].start)
    ensures forall j | 0 <= j < i :: !Abuts(e, rs[j].start)
  {
    if rs == [] then 0
    else if Abuts(e, rs[0].start) then 0
    else 1 + ReachingHead(rs[1..], e)
  }

  /** The first piece that ends no earlier than the tail's start (src/unbounded_set.rs:56-61). */
  function ReachingTail(rs: seq<BoundedRange>, s: FiniteBound): (i: nat)
    ensures i <= |rs|
    ensures i < |rs| ==> Abuts(rs[i].end, s)
    ensures forall j | 0 <= j < i :: !Abuts(rs[j].end, s)
  {
    if rs == [] then 0
    else if Abuts(rs[0].end, s) then 0
    else 1 + ReachingTail(rs[1..], s)
  }

  /** A head absorbing a piece that reaches it holds exactly the values of both. */
  lemma AbsorbIntoHead(u: UpperBoundedRange, r: BoundedRange, t: int)
    requires Abuts(u.end, r.start)
    ensures UpperContains(UpperBoundedRange(EndMax(u.end, r.end)), t) <==>
      UpperContains(u, t) || Ranges.Contains(r, t)
  {
  }

  /** A tail absorbing a piece that reaches it holds exactly the values of both. */
  lemma AbsorbIntoTail(l: LowerBoundedRange, r: BoundedRange, t: int)
    requires Abuts(r.end, l.start)
    ensures LowerContains(LowerBoundedRange(StartMin(l.start, r.start)), t) <==>
      LowerContains(l, t) || Ranges.Contains(r, t)
  {
  }

  /**
   * `PiecewiseUnboundedSet::defragment` (src/unbounded_set.rs:46-66): remove the first piece
   * that reaches the head and extend the head to the later end; failing that, remove the first
   * piece that reaches the tail and extend the tail to the earlier start; repeat. Each round
   * removes a piece. Membership is unchanged and no piece is left that reaches either side.
   */
  function PiecewiseDefragmented(p: PiecewiseUnboundedSet): (p': PiecewiseUnboundedSet)
    ensures forall t :: PiecewiseContains(p', t) <==> PiecewiseContains(p, t)
    ensures BoundedSets.Valid(p.ranges) ==> BoundedSets.Valid(p'.ranges)
    ensures PiecewiseSettled(p')
    ensures |p'.ranges.ranges| <= |p.ranges.ranges|
    decreases |p.ranges.ranges|
  {
    var rs := p.ranges.ranges;
    var i := ReachingHead(rs, p.upper.end);
    if i < |rs| then
      var next := PiecewiseUnboundedSet(UpperBoundedRange(EndMax(p.upper.end, rs[i].end)),
        BoundedSets.BoundedSet(BoundedSets.Remove(rs, i)), p.lower);
      RemovedPieceKeepsMembers(p, next, i);
      PiecewiseDefragmented(next)
    else
      var j := ReachingTail(rs, p.lower.start);
      if j < |rs| then
        var next := PiecewiseUnboundedSet(p.upper, BoundedSets.BoundedSet(BoundedSets.Remove(rs, j)),
          LowerBoundedRange(StartMin(p.lower.start, rs[j].start)));
        RemovedPieceKeepsMembers(p, next, j);
        PiecewiseDefragmented(next)
      else
        p
  }

  /** One absorption round keeps membership and the piece invariant. */
  lemma RemovedPieceKeepsMembers(p: PiecewiseUnboundedSet, next: PiecewiseUnboundedSet, i: nat)
    requires i < |p.ranges.ranges|
    requires next.ranges.ranges == BoundedSets.Remove(p.ranges.ranges, i)
    requires var r := p.ranges.ranges[i];
      || (Abuts(p.upper.end, r.start) && next.lower == p.lower &&
          next.upper == UpperBoundedRange(EndMax(p.upper.end, r.end)))
      || (Abuts(r.end, p.lower.start) && next.upper == p.upper &&
          next.lower == LowerBoundedRange(StartMin(p.lower.start, r.start)))
    ensures forall t :: PiecewiseContains(next, t) <==> PiecewiseContains(p, t)
    ensures BoundedSets.Valid(p.ranges) ==> BoundedSets.Valid(next.ranges)
  {
    var r := p.ranges.ranges[i];
    forall t ensures PiecewiseContains(next, t) <==> PiecewiseContains(p, t) {
      BoundedSets.RemoveContains(p.ranges, i, t);
      if Abuts(p.upper.end, r.start) && next.upper == UpperBoundedRange(EndMax(p.upper.end, r.end)) {
        AbsorbIntoHead(p.upper, r, t);
      } else {
        AbsorbIntoTail(p.lower, r, t);
      }
    }
    if BoundedSets.Valid(p.ranges) {
      BoundedSets.RemoveValid(p.ranges, i);
    }
  }

  /**
   * `UnboundedSet::defragment` (src/unbounded_set.rs:143-155): defragment the pieces, then
   * become Full when the head reaches the tail. Membership is unchanged.
   */
  function Defragmented(s: UnboundedSet): (s': UnboundedSet)
    ensures forall t :: Contains(s', t) <==> Contains(s, t)
    ensures Valid(s) ==> Valid(s')
    ensures Settled(s')
    ensures s.Full? ==> s'.Full?
  {
    match s
    case Full => Full
    case Piecewise(p) =>
      var q := PiecewiseDefragmented(p);
      if Abuts(q.upper.end, q.lower.start) then Full else Piecewise(q)
  }

  /** `From<UnboundedRange>` (src/unbounded_set.rs:88-92). */
  function FromUnbounded(): (s: UnboundedSet)
    ensures s == Full && forall t :: Contains(s, t)
  {
    Full
  }

  /** A head and a tail that intersect leave no value out. */
  lemma OverlapCoversAll(u: UpperBoundedRange, l: LowerBoundedRange, t: int)
    requires !IsEmpty(MeetLowerUpper(l, u))
    ensures UpperContains(u, t) || LowerContains(l, t)
  {
  }

  /**
   * `new` (src/unbounded_set.rs:103-116): Piecewise with no pieces when head and tail do not
   * intersect, Full otherwise. Either way it holds exactly the values of the two.
   */
  function New(u: UpperBoundedRange, l: LowerBoundedRange): (s: UnboundedSet)
    ensures Valid(s)
    ensures s.Full? <==> !IsEmpty(MeetLowerUpper(l, u))
    ensures s.Piecewise? ==> s.p == PiecewiseUnboundedSet(u, BoundedSets.Empty(), l)
    ensures forall t :: Contains(s, t) <==> UpperContains(u, t) || LowerContains(l, t)
    ensures !Abuts(u.end, l.start) ==> Settled(s)
  {
    if IsEmpty(MeetLowerUpper(l, u)) then Piecewise(PiecewiseUnboundedSet(u, BoundedSets.Empty(), l))
    else
      assert forall t :: UpperContains(u, t) || LowerContains(l, t) by {
        forall t ensures UpperContains(u, t) || LowerContains(l, t) {
          OverlapCoversAll(u, l, t);
        }
      }
      Full
  }

  /** `add_range` (src/unbounded_set.rs:157-160): into the pieces, then defragment. */
  function WithRange(s: UnboundedSet, r: BoundedRange): (s': UnboundedSet)
    ensures forall t :: Contains(s', t) <==> Contains(s, t) || Ranges.Contains(r, t)
    ensures Valid(s) ==> Valid(s')
    ensures Settled(s')
    ensures s.Full? ==> s' == Full
  {
    match s
    case Full => Full
    case Piecewise(p) =>
      Defragmented(Piecewise(PiecewiseUnboundedSet(p.upper, BoundedSets.WithRange(p.ranges, r), p.lower)))
  }

  /** `add_lower_bounded_range` (src/unbounded_set.rs:161-166): the earlier start, then defragment. */
  function WithLower(s: UnboundedSet, l: LowerBoundedRange): (s': UnboundedSet)
    ensures forall t :: Contains(s', t) <==> Contains(s, t) || LowerContains(l, t)
    ensures Valid(s) ==> Valid(s')
    ensures Settled(s')
    ensures s.Full? ==> s' == Full
  {
    match s
    case Full => Full
    case Piecewise(p) =>
      Defragmented(Piecewise(PiecewiseUnboundedSet(p.upper, p.ranges,
        LowerBoundedRange(StartMin(p.lower.start, l.start)))))
  }

  /** `add_upper_bounded_range` (src/unbounded_set.rs:167-172): the later end, then defragment. */
  function WithUpper(s: UnboundedSet, u: UpperBoundedRange): (s': UnboundedSet)
    ensures forall t :: Contains(s', t) <==> Contains(s, t) || UpperContains(u, t)
    ensures Valid(s) ==> Valid(s')
    ensures Settled(s')
    ensures s.Full? ==> s' == Full
  {
    match s
    case Full => Full
    case Piecewise(p) =>
      Defragmented(Piecewise(PiecewiseUnboundedSet(UpperBoundedRange(EndMax(p.upper.end, u.end)),
        p.ranges, p.lower)))
  }

  /** `add_set` (src/unbounded_set.rs:173-177): `add_range` of each piece, in order. */
  function WithSet(s: UnboundedSet, other: BoundedSets.BoundedSet): (s': UnboundedSet)
    ensures forall t :: Contains(s', t) <==> Contains(s, t) || BoundedSets.Contains(other, t)
    ensures Valid(s) ==> Valid(s')
    ensures Settled(s) || other.ranges != [] ==> Settled(s')
    ensures s.Full? ==> s' == Full
    decreases |other.ranges|
  {
    if other.ranges == [] then s
    else
      var rest := BoundedSets.BoundedSet(other.ranges[1..]);
      var s' := WithSet(WithRange(s, other.ranges[0]), rest);
      assert forall t :: BoundedSets.Contains(other, t) <==>
        Ranges.Contains(other.ranges[0], t) || BoundedSets.Contains(rest, t) by {
        assert BoundedSets.Remove(other.ranges, 0) == rest.ranges;
        forall t ensures BoundedSets.Contains(other, t) <==>
          Ranges.Contains(other.ranges[0], t) || BoundedSets.Contains(rest, t)
        {
          BoundedSets.RemoveContains(other, 0, t);
        }
      }
      s'
  }

  /**
   * `add_unbounded_set` (src/unbounded_set.rs:178-192): a Piecewise other adds its tail, its
   * head and its pieces, then defragments; a Full other makes the set Full.
   */
  function WithUnboundedSet(s: UnboundedSet, other: UnboundedSet): (s': UnboundedSet)
    ensures forall t :: Contains(s', t) <==> Contains(s, t) || Contains(other, t)
    ensures Valid(s) ==> Valid(s')
    ensures Settled(s')
    ensures s.Full? || other.Full? ==> s' == Full
  {
    match other
    case Full => Full
    case Piecewise(q) => Defragmented(WithSet(WithUpper(WithLower(s, q.lower), q.upper), q.ranges))
  }

  /** The mutable piecewise set of the source: `&mut PiecewiseUnboundedSet`. */
  class PiecewiseUnboundedSetCell {
    var upper: UpperBoundedRange
    const ranges: BoundedSets.BoundedSetCell
    var lower: LowerBoundedRange

    constructor (p: PiecewiseUnboundedSet)
      ensures Value() == p
    {
      upper := p.upper;
      ranges := new BoundedSets.BoundedSetCell(p.ranges);
      lower := p.lower;
    }

    function Value(): PiecewiseUnboundedSet
      reads this, ranges
    {
      PiecewiseUnboundedSet(upper, ranges.Value(), lower)
    }

    /** `defragment` (src/unbounded_set.rs:46-66), removing pieces in place and recursing. */
    method Defragment()
      modifies this, ranges
      ensures Value() == PiecewiseDefragmented(old(Value()))
      decreases |ranges.ranges|
    {
      var index := ReachingHead(ranges.ranges, upper.end);
      if index < |ranges.ranges| {
        var range := ranges.ranges[index];
        ranges.ranges := BoundedSets.Remove(ranges.ranges, index);
        upper := UpperBoundedRange(EndMax(upper.end, range.end));
        Defragment();
      } else {
        index := ReachingTail(ranges.ranges, lower.start);
        if index < |ranges.ranges| {
          var range := ranges.ranges[index];
          ranges.ranges := BoundedSets.Remove(ranges.ranges, index);
          lower := LowerBoundedRange(StartMin(lower.start, range.start));
          Defragment();
        }
      }
    }
  }

  /**
   * The mutable set of the source: `&mut UnboundedSet`. `full` is the variant; the piecewise
   * fields matter only while it is false, and `*self = Full` sets it.
   */
  class UnboundedSetCell {
    var full: bool
    const piecewise: PiecewiseUnboundedSetCell

    constructor (s: UnboundedSet)
      ensures Value() == s
    {
      full := s.Full?;
      piecewise := new PiecewiseUnboundedSetCell(
        if s.Piecewise? then s.p else PiecewiseUnboundedSet(UpperBoundedRange(Excluded(0)),
          BoundedSets.Empty(), LowerBoundedRange(Excluded(0))));
    }

    function Value(): UnboundedSet
      reads this, piecewise, piecewise.ranges
    {
      if full then Full else Piecewise(piecewise.Value())
    }

    /** `defragment` (src/unbounded_set.rs:143-155). */
    method Defragment()
      modifies this, piecewise, piecewise.ranges
      ensures Value() == Defragmented(old(Value()))
    {
      if !full {
        piecewise.Defragment();
        if Abuts(piecewise.upper.end, piecewise.lower.start) {
          full := true;
        }
      }
    }

    /** `add_range` (src/unbounded_set.rs:157-160). */
    method AddRange(r: BoundedRange)
      modifies this, piecewise, piecewise.ranges
      ensures Value() == WithRange(old(Value()), r)
    {
      if !full {
        piecewise.ranges.AddRange(r);
      }
      Defragment();
    }

    /** `add_lower_bounded_range` (src/unbounded_set.rs:161-166). */
    method AddLowerBoundedRange(l: LowerBoundedRange)
      modifies this, piecewise, piecewise.ranges
      ensures Value() == WithLower(old(Value()), l)
    {
      if !full {
        piecewise.lower := LowerBoundedRange(StartMin(piecewise.lower.start, l.start));
      }
      Defragment();
    }

    /** `add_upper_bounded_range` (src/unbounded_set.rs:167-172). */
    method AddUpperBoundedRange(u: UpperBoundedRange)
      modifies this, piecewise, piecewise.ranges
      ensures Value() == WithUpper(old(Value()), u)
    {
      if !full {
        piecewise.upper := UpperBoundedRange(EndMax(piecewise.upper.end, u.end));
      }
      Defragment();
    }

    /** `add_set` (src/unbounded_set.rs:173-177). */
    method AddSet(other: BoundedSets.BoundedSet)
      modifies this, piecewise, piecewise.ranges
      ensures Value() == WithSet(old(Value()), other)
    {
      for i := 0 to |other.ranges|
        invariant WithSet(Value(), BoundedSets.BoundedSet(other.ranges[i..])) ==
          WithSet(old(Value()), other)
      {
        assert other.ranges[i..][1..] == other.ranges[i + 1..];
        AddRange(other.ranges[i]);
      }
      assert other.ranges[|other.ranges|..] == [];
    }

    /** `add_unbounded_set` (src/unbounded_set.rs:178-192). */
    method AddUnboundedSet(other: UnboundedSet)
      modifies this, piecewise, piecewise.ranges
      ensures Value() == WithUnboundedSet(old(Value()), other)
    {
      match other
      case Piecewise(q) =>
        AddLowerBoundedRange(q.lower);
        AddUpperBoundedRange(q.upper);
        AddSet(q.ranges);
        Defragment();
      case Full =>
        full := true;
    }
  }
}
