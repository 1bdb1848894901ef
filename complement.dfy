/**
 * Complements (src/implementations/complement/). A range's complement flips its bounds
 * (`flipped` swaps the tag and keeps the value); a set's complement folds the intersection
 * with each piece's complement into the complement of its extremal part. Every complement
 * holds exactly the values the operand does not (src/complement.rs:6).
 */
module Complements {
  import opened Bounds
  import opened Ranges
  import opened RangeMeets
  import SetMeets
  import BoundedSets
  import LowerBoundedSets
  import UpperBoundedSets
  import UnboundedSets
  import Unions
  import Intersections

  /**
   * complement(BoundedRange) (complement/bounded_range.rs:9-12): the head up to the flipped
   * start, united with the tail from the flipped end.
   */
  function BrComplement(r: BoundedRange): (s: UnboundedSets.UnboundedSet)
    ensures forall t :: UnboundedSets.Contains(s, t) <==> !Ranges.Contains(r, t)
    ensures UnboundedSets.Valid(s)
  {
    Unions.LbsUbs(
      LowerBoundedSets.FromLower(LowerBoundedRange(Flip(r.end))),
      UpperBoundedSets.FromUpper(UpperBoundedRange(Flip(r.start))))
  }

  /** The union there adds no pieces: it is `UnboundedSet::new` of the two flipped bounds. */
  lemma BrComplementIsNew(r: BoundedRange)
    ensures BrComplement(r) == UnboundedSets.New(UpperBoundedRange(Flip(r.start)), LowerBoundedRange(Flip(r.end)))
  {
    var u := UpperBoundedRange(Flip(r.start));
    var l := LowerBoundedRange(Flip(r.end));
    var n := UnboundedSets.New(u, l);
    assert UnboundedSets.WithSet(n, BoundedSets.Empty()) == n;
  }

  /** complement(LowerBoundedRange) (complement/lower_bounded_range.rs:7-9). */
  function LbrComplement(l: LowerBoundedRange): (u: UpperBoundedRange)
    ensures forall t :: UpperContains(u, t) <==> !LowerContains(l, t)
    ensures u.end.v == l.start.v && (u.end.Included? <==> l.start.Excluded?)
  {
    UpperBoundedRange(Flip(l.start))
  }

  /** complement(UpperBoundedRange) (complement/upper_bounded_range.rs:7-9). */
  function UbrComplement(u: UpperBoundedRange): (l: LowerBoundedRange)
    ensures forall t :: LowerContains(l, t) <==> !UpperContains(u, t)
    ensures l.start.v == u.end.v && (l.start.Included? <==> u.end.Excluded?)
  {
    LowerBoundedRange(Flip(u.end))
  }

  /** Complementing twice gives the range back. */
  lemma LbrComplementInverse(l: LowerBoundedRange)
    ensures UbrComplement(LbrComplement(l)) == l
  {
    FlipInvolutive(l.start);
  }

  /** A value lies in a sequence of pieces exactly when it lies in the first or in the rest. */
  lemma SplitContains(rs: seq<BoundedRange>)
    requires rs != []
    ensures forall t :: BoundedSets.Contains(BoundedSets.BoundedSet(rs), t) <==>
      Ranges.Contains(rs[0], t) || BoundedSets.Contains(BoundedSets.BoundedSet(rs[1..]), t)
  {
    assert rs == [rs[0]] + rs[1..];
    forall t ensures BoundedSets.Contains(BoundedSets.BoundedSet(rs), t) <==>
      Ranges.Contains(rs[0], t) || BoundedSets.Contains(BoundedSets.BoundedSet(rs[1..]), t)
    {
      SetMeets.ConsContains(rs[0], rs[1..], t);
    }
  }

  /** The fold of complement/bounded_set.rs:8-12: `acc ∩ complement(range)` for each piece. */
  function UsFold(acc: UnboundedSets.UnboundedSet, rs: seq<BoundedRange>): (x: UnboundedSets.UnboundedSet)
    ensures forall t :: UnboundedSets.Contains(x, t) <==>
      UnboundedSets.Contains(acc, t) && !BoundedSets.Contains(BoundedSets.BoundedSet(rs), t)
    ensures UnboundedSets.Valid(acc) ==> UnboundedSets.Valid(x)
    decreases |rs|
  {
    if rs == [] then acc
    else
      SplitContains(rs);
      UsFold(Intersections.UsUs(acc, BrComplement(rs[0])), rs[1..])
  }

  /** complement(BoundedSet) (complement/bounded_set.rs:7-13): the fold from Full. */
  function BsComplement(s: BoundedSets.BoundedSet): (x: UnboundedSets.UnboundedSet)
    ensures forall t :: UnboundedSets.Contains(x, t) <==> !BoundedSets.Contains(s, t)
    ensures UnboundedSets.Valid(x)
    ensures s.ranges == [] ==> x.Full?
  {
    UsFold(UnboundedSets.Full, s.ranges)
  }

  /** The fold of complement/lower_bounded_set.rs:8-11, over an UpperBoundedSet. */
  function UbsFold(acc: UpperBoundedSets.UpperBoundedSet, rs: seq<BoundedRange>): (x: UpperBoundedSets.UpperBoundedSet)
    ensures forall t :: UpperBoundedSets.Contains(x, t) <==>
      UpperBoundedSets.Contains(acc, t) && !BoundedSets.Contains(BoundedSets.BoundedSet(rs), t)
    ensures UpperBoundedSets.Valid(acc) ==> UpperBoundedSets.Valid(x)
    ensures UpperBoundedSets.Settled(acc) ==> UpperBoundedSets.Settled(x)
    decreases |rs|
  {
    if rs == [] then acc
    else
      SplitContains(rs);
      UbsFold(Intersections.UbsUs(acc, BrComplement(rs[0])), rs[1..])
  }

  /**
   * complement(LowerBoundedSet) (complement/lower_bounded_set.rs:7-12): the fold from the
   * tail's complement as a set.
   */
  function LbsComplement(s: LowerBoundedSets.LowerBoundedSet): (x: UpperBoundedSets.UpperBoundedSet)
    ensures forall t :: UpperBoundedSets.Contains(x, t) <==> !LowerBoundedSets.Contains(s, t)
    ensures UpperBoundedSets.Valid(x) && UpperBoundedSets.Settled(x)
    ensures s.ranges.ranges == [] ==> x == UpperBoundedSets.FromUpper(LbrComplement(s.tail))
  {
    UbsFold(UpperBoundedSets.FromUpper(LbrComplement(s.tail)), s.ranges.ranges)
  }

  /** The fold of complement/upper_bounded_set.rs:8-11, over a LowerBoundedSet. */
  function LbsFold(acc: LowerBoundedSets.LowerBoundedSet, rs: seq<BoundedRange>): (x: LowerBoundedSets.LowerBoundedSet)
    ensures forall t :: LowerBoundedSets.Contains(x, t) <==>
      LowerBoundedSets.Contains(acc, t) && !BoundedSets.Contains(BoundedSets.BoundedSet(rs), t)
    ensures LowerBoundedSets.Valid(acc) ==> LowerBoundedSets.Valid(x)
    ensures LowerBoundedSets.Valid(acc) && LowerBoundedSets.Settled(acc) ==> LowerBoundedSets.Settled(x)
    decreases |rs|
  {
    if rs == [] then acc
    else
      SplitContains(rs);
      LbsFold(Intersections.LbsUs(acc, BrComplement(rs[0])), rs[1..])
  }

  /**
   * complement(UpperBoundedSet) (complement/upper_bounded_set.rs:7-12): the fold from the
   * head's complement as a set.
   */
  function UbsComplement(s: UpperBoundedSets.UpperBoundedSet): (x: LowerBoundedSets.LowerBoundedSet)
    ensures forall t :: LowerBoundedSets.Contains(x, t) <==> !UpperBoundedSets.Contains(s, t)
    ensures LowerBoundedSets.Valid(x) && LowerBoundedSets.Settled(x)
    ensures s.ranges.ranges == [] ==> x == LowerBoundedSets.FromLower(UbrComplement(s.head))
  {
    LbsFold(LowerBoundedSets.FromLower(UbrComplement(s.head)), s.ranges.ranges)
  }

  /** The fold of complement/unbounded_set.rs:15-20, over a BoundedSet. */
  function BsFold(acc: BoundedSets.BoundedSet, rs: seq<BoundedRange>): (x: BoundedSets.BoundedSet)
    ensures forall t :: BoundedSets.Contains(x, t) <==>
      BoundedSets.Contains(acc, t) && !BoundedSets.Contains(BoundedSets.BoundedSet(rs), t)
    ensures BoundedSets.Valid(acc) ==> BoundedSets.Valid(x)
    decreases |rs|
  {
    if rs == [] then acc
    else
      SplitContains(rs);
      BsFold(Intersections.BsUs(acc, BrComplement(rs[0])), rs[1..])
  }

  /**
   * complement(UnboundedSet) (complement/unbounded_set.rs:7-23): Full has the empty set;
   * otherwise the fold starts from complement(tail) ∩ complement(head), the range between.
   */
  function UsComplement(s: UnboundedSets.UnboundedSet): (x: BoundedSets.BoundedSet)
    ensures forall t :: BoundedSets.Contains(x, t) <==> !UnboundedSets.Contains(s, t)
    ensures BoundedSets.Valid(x)
    ensures s.Full? ==> x == BoundedSets.Empty()
  {
    match s
    case Full => BoundedSets.Empty()
    case Piecewise(p) =>
      var between := MeetLowerUpper(LowerBoundedRange(Flip(p.upper.end)), UpperBoundedRange(Flip(p.lower.start)));
      BsFold(BoundedSets.FromRange(between), p.ranges.ranges)
  }
}
