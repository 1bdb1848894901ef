/**
 * Intersections that involve a set shape (src/implementations/intersection/bounded_set.rs,
 * lower_bounded_set.rs, upper_bounded_set.rs, unbounded_set.rs). Each one splits the operands
 * into their parts, intersects the parts pairwise with the range-level meets, and gathers the
 * pieces with the normalising `add_*` operations. Every function states that its result holds
 * exactly the values in both operands (src/lib.rs:109), and that it keeps the set invariant.
 *
 * Names give the two operand shapes: Bs = BoundedSet, Lbs = LowerBoundedSet,
 * Ubs = UpperBoundedSet, Us = UnboundedSet, Br/Lbr/Ubr = the bounded, lower- and upper-bounded
 * ranges. BoundedSet ∩ a range shape is `SetMeets.SetClip`.
 */
module Intersections {
  import opened Bounds
  import opened Ranges
  import opened RangeMeets
  import opened SetMeets
  import BoundedSets
  import LowerBoundedSets
  import UpperBoundedSets
  import UnboundedSets
  import Unions

  /** LowerBoundedSet ∩ BoundedRange (intersection/lower_bounded_set.rs:13-19). */
  function LbsBr(s: LowerBoundedSets.LowerBoundedSet, r: BoundedRange): (x: BoundedSets.BoundedSet)
    ensures forall t :: BoundedSets.Contains(x, t) <==> LowerBoundedSets.Contains(s, t) && Ranges.Contains(r, t)
    ensures BoundedSets.Valid(x)
  {
    BoundedSets.WithSet(BoundedSets.FromRange(MeetBoundedLower(r, s.tail)), SetClip(s.ranges, ByBounded(r)))
  }

  /** UpperBoundedSet ∩ BoundedRange (intersection/upper_bounded_set.rs:13-19). */
  function UbsBr(s: UpperBoundedSets.UpperBoundedSet, r: BoundedRange): (x: BoundedSets.BoundedSet)
    ensures forall t :: BoundedSets.Contains(x, t) <==> UpperBoundedSets.Contains(s, t) && Ranges.Contains(r, t)
    ensures BoundedSets.Valid(x)
  {
    BoundedSets.WithSet(Retained(BoundedSets.FromRange(MeetBoundedUpper(r, s.head))), SetClip(s.ranges, ByBounded(r)))
  }

  /** The set one piece of a BoundedSet is intersected with. */
  datatype Operand =
    | OfBounded(bs: BoundedSets.BoundedSet)
    | OfLower(ls: LowerBoundedSets.LowerBoundedSet)
    | OfUpper(us: UpperBoundedSets.UpperBoundedSet)

  predicate OperandContains(o: Operand, t: int)
  {
    match o
    case OfBounded(x) => BoundedSets.Contains(x, t)
    case OfLower(x) => LowerBoundedSets.Contains(x, t)
    case OfUpper(x) => UpperBoundedSets.Contains(x, t)
  }

  /**
   * `range ∩ other` for one piece: BoundedRange ∩ a set delegates to the set's own arm
   * (intersection/bounded_range.rs:27-29,52-54,77-79).
   */
  function PieceMeet(r: BoundedRange, o: Operand): (x: BoundedSets.BoundedSet)
    ensures forall t :: BoundedSets.Contains(x, t) <==> Ranges.Contains(r, t) && OperandContains(o, t)
  {
    match o
    case OfBounded(y) => SetClip(y, ByBounded(r))
    case OfLower(y) => LbsBr(y, r)
    case OfUpper(y) => UbsBr(y, r)
  }

  /**
   * The loop `for range in self.ranges { set.add_set(range ∩ other) }` as a fold: the
   * accumulator's values, and the values of the pieces that the operand holds.
   */
  function Gathered(acc: BoundedSets.BoundedSet, rs: seq<BoundedRange>, o: Operand): (x: BoundedSets.BoundedSet)
    ensures forall t :: BoundedSets.Contains(x, t) <==>
      BoundedSets.Contains(acc, t) || (BoundedSets.Contains(BoundedSets.BoundedSet(rs), t) && OperandContains(o, t))
    ensures BoundedSets.Valid(acc) ==> BoundedSets.Valid(x)
    decreases |rs|
  {
    if rs == [] then acc
    else
      var x := Gathered(BoundedSets.WithSet(acc, PieceMeet(rs[0], o)), rs[1..], o);
      assert forall t :: BoundedSets.Contains(BoundedSets.BoundedSet(rs), t) <==>
        Ranges.Contains(rs[0], t) || BoundedSets.Contains(BoundedSets.BoundedSet(rs[1..]), t) by {
        assert rs == [rs[0]] + rs[1..];
        forall t ensures BoundedSets.Contains(BoundedSets.BoundedSet(rs), t) <==>
          Ranges.Contains(rs[0], t) || BoundedSets.Contains(BoundedSets.BoundedSet(rs[1..]), t)
        {
          ConsContains(rs[0], rs[1..], t);
        }
      }
      x
  }

  /**
   * The loop itself (intersection/bounded_set.rs:29-35,60-69,94-103): the accumulator is a
   * mutable set that each piece's meet is added to.
   */
  method Gather(init: BoundedSets.BoundedSet, rs: seq<BoundedRange>, o: Operand) returns (x: BoundedSets.BoundedSet)
    ensures x == Gathered(init, rs, o)
  {
    var acc := new BoundedSets.BoundedSetCell(init);
    for i := 0 to |rs|
      invariant Gathered(acc.Value(), rs[i..], o) == Gathered(init, rs, o)
    {
      assert rs[i..][1..] == rs[i + 1..];
      acc.AddSet(PieceMeet(rs[i], o));
    }
    assert rs[|rs|..] == [];
    x := acc.Value();
  }

  /** BoundedSet ∩ BoundedSet (intersection/bounded_set.rs:29-35): from the empty set. */
  function BsBs(s: BoundedSets.BoundedSet, o: BoundedSets.BoundedSet): (x: BoundedSets.BoundedSet)
    ensures forall t :: BoundedSets.Contains(x, t) <==> BoundedSets.Contains(s, t) && BoundedSets.Contains(o, t)
    ensures BoundedSets.Valid(x)
  {
    Gathered(BoundedSets.Empty(), s.ranges, OfBounded(o))
  }

  /** BoundedSet ∩ LowerBoundedSet (intersection/bounded_set.rs:60-69): from `self ∩ tail`. */
  function BsLbs(s: BoundedSets.BoundedSet, o: LowerBoundedSets.LowerBoundedSet): (x: BoundedSets.BoundedSet)
    ensures forall t :: BoundedSets.Contains(x, t) <==> BoundedSets.Contains(s, t) && LowerBoundedSets.Contains(o, t)
    ensures BoundedSets.Valid(s) ==> BoundedSets.Valid(x)
  {
    Gathered(SetClip(s, ByLower(o.tail)), s.ranges, OfLower(o))
  }

  /** BoundedSet ∩ UpperBoundedSet (intersection/bounded_set.rs:94-103): from `self ∩ head`. */
  function BsUbs(s: BoundedSets.BoundedSet, o: UpperBoundedSets.UpperBoundedSet): (x: BoundedSets.BoundedSet)
    ensures forall t :: BoundedSets.Contains(x, t) <==> BoundedSets.Contains(s, t) && UpperBoundedSets.Contains(o, t)
    ensures BoundedSets.Valid(s) ==> BoundedSets.Valid(x)
  {
    Gathered(SetClip(s, ByUpper(o.head)), s.ranges, OfUpper(o))
  }

  /**
   * BoundedSet ∩ UnboundedSet (intersection/bounded_set.rs:123-139): Full keeps the set;
   * otherwise the meets with the head, the tail and the pieces, added together.
   */
  function BsUs(s: BoundedSets.BoundedSet, o: UnboundedSets.UnboundedSet): (x: BoundedSets.BoundedSet)
    ensures forall t :: BoundedSets.Contains(x, t) <==> BoundedSets.Contains(s, t) && UnboundedSets.Contains(o, t)
    ensures BoundedSets.Valid(s) ==> BoundedSets.Valid(x)
    ensures o.Full? ==> x == s
  {
    match o
    case Full => s
    case Piecewise(p) =>
      BoundedSets.WithSet(BoundedSets.WithSet(SetClip(s, ByUpper(p.upper)), SetClip(s, ByLower(p.lower))), BsBs(s, p.ranges))
  }

  /**
   * LowerBoundedSet ∩ LowerBoundedRange (intersection/lower_bounded_set.rs:39-44): the tail
   * and the pieces are each intersected; the result is still a LowerBoundedSet.
   */
  function LbsLbr(s: LowerBoundedSets.LowerBoundedSet, l: LowerBoundedRange): (x: LowerBoundedSets.LowerBoundedSet)
    ensures forall t :: LowerBoundedSets.Contains(x, t) <==> LowerBoundedSets.Contains(s, t) && LowerContains(l, t)
    ensures LowerBoundedSets.Valid(s) ==> LowerBoundedSets.Valid(x)
    ensures LowerBoundedSets.Valid(s) && LowerBoundedSets.Settled(s) ==> LowerBoundedSets.Settled(x)
  {
    var x := LowerBoundedSets.LowerBoundedSet(SetClip(s.ranges, ByLower(l)), MeetLower(s.tail, l));
    assert LowerBoundedSets.Valid(s) && LowerBoundedSets.Settled(s) ==> LowerBoundedSets.Settled(x) by {
      var rs := x.ranges.ranges;
      if LowerBoundedSets.Valid(s) && LowerBoundedSets.Settled(s) && rs != [] {
        var y := rs[|rs| - 1];
        SetClipWithin(s.ranges, ByLower(l), y);
        var k :| 0 <= k < |s.ranges.ranges| && Within(y, s.ranges.ranges[k]);
        LowerBoundedSets.SettledApart(s, k);
        NarrowedMissesTail(y, s.ranges.ranges[k], s.tail, x.tail);
      }
    }
    x
  }

  /** A piece within p, against a tail that starts no earlier, misses it when p misses the tail. */
  lemma NarrowedMissesTail(y: BoundedRange, p: BoundedRange, tail: LowerBoundedRange, tail': LowerBoundedRange)
    requires Within(y, p) && StartLe(tail.start, tail'.start)
    requires IsEmpty(MeetBoundedLower(p, tail))
    ensures IsEmpty(MeetBoundedLower(y, tail'))
  {
    StartLeIsTotalOrder(p.start, y.start, MaxStart(y.start, tail'.start));
    StartLeIsTotalOrder(tail.start, tail'.start, MaxStart(y.start, tail'.start));
    WithinEmpty(MeetBoundedLower(y, tail'), MeetBoundedLower(p, tail));
  }

  /**
   * LowerBoundedSet ∩ LowerBoundedSet, with the part the source leaves out
   * (intersection/lower_bounded_set.rs:53-60): `self ∩ other.tail`, then `self.pieces ∩ other`,
   * then `self.tail ∩ other.pieces`. The source stops after the second step; see
   * `Findings.LbsLbsAsWritten`.
   */
  function LbsLbs(s: LowerBoundedSets.LowerBoundedSet, o: LowerBoundedSets.LowerBoundedSet): (x: LowerBoundedSets.LowerBoundedSet)
    ensures forall t :: LowerBoundedSets.Contains(x, t) <==> LowerBoundedSets.Contains(s, t) && LowerBoundedSets.Contains(o, t)
    ensures LowerBoundedSets.Valid(s) ==> LowerBoundedSets.Valid(x)
    ensures LowerBoundedSets.Valid(s) && LowerBoundedSets.Settled(s) ==> LowerBoundedSets.Settled(x)
  {
    LowerBoundedSets.WithSet(
      LowerBoundedSets.WithSet(LbsLbr(s, o.tail), BsLbs(s.ranges, o)),
      SetClip(o.ranges, ByLower(s.tail)))
  }

  /**
   * LowerBoundedSet ∩ UpperBoundedRange (intersection/lower_bounded_set.rs:69-76): the tail's
   * meet as a set, then the pieces' meets, with empty ranges dropped after each step.
   */
  function LbsUbr(s: LowerBoundedSets.LowerBoundedSet, u: UpperBoundedRange): (x: BoundedSets.BoundedSet)
    ensures forall t :: BoundedSets.Contains(x, t) <==> LowerBoundedSets.Contains(s, t) && UpperContains(u, t)
    ensures BoundedSets.Valid(x)
  {
    Retained(BoundedSets.WithSet(Retained(BoundedSets.FromRange(MeetLowerUpper(s.tail, u))), SetClip(s.ranges, ByUpper(u))))
  }

  /**
   * LowerBoundedSet ∩ UpperBoundedSet (intersection/lower_bounded_set.rs:85-92): `self ∩ head`,
   * then `self ∩ other.pieces`, which is BoundedSet ∩ LowerBoundedSet.
   */
  function LbsUbs(s: LowerBoundedSets.LowerBoundedSet, o: UpperBoundedSets.UpperBoundedSet): (x: BoundedSets.BoundedSet)
    ensures forall t :: BoundedSets.Contains(x, t) <==> LowerBoundedSets.Contains(s, t) && UpperBoundedSets.Contains(o, t)
    ensures BoundedSets.Valid(x)
  {
    Retained(BoundedSets.WithSet(Retained(LbsUbr(s, o.head)), BsLbs(o.ranges, s)))
  }

  /**
   * LowerBoundedSet ∩ UnboundedSet (intersection/lower_bounded_set.rs:112-129): Full keeps the
   * set; otherwise the meets with the tail, the head and the pieces, added together.
   */
  function LbsUs(s: LowerBoundedSets.LowerBoundedSet, o: UnboundedSets.UnboundedSet): (x: LowerBoundedSets.LowerBoundedSet)
    ensures forall t :: LowerBoundedSets.Contains(x, t) <==> LowerBoundedSets.Contains(s, t) && UnboundedSets.Contains(o, t)
    ensures LowerBoundedSets.Valid(s) ==> LowerBoundedSets.Valid(x)
    ensures LowerBoundedSets.Valid(s) && LowerBoundedSets.Settled(s) ==> LowerBoundedSets.Settled(x)
    ensures o.Full? ==> x == s
  {
    match o
    case Full => s
    case Piecewise(p) =>
      LowerBoundedSets.WithSet(LowerBoundedSets.WithSet(LbsLbr(s, p.lower), LbsUbr(s, p.upper)), BsLbs(p.ranges, s))
  }

  /** UpperBoundedSet ∩ LowerBoundedRange (intersection/upper_bounded_set.rs:39-45). */
  function UbsLbr(s: UpperBoundedSets.UpperBoundedSet, l: LowerBoundedRange): (x: BoundedSets.BoundedSet)
    ensures forall t :: BoundedSets.Contains(x, t) <==> UpperBoundedSets.Contains(s, t) && LowerContains(l, t)
    ensures BoundedSets.Valid(x)
  {
    BoundedSets.WithSet(Retained(BoundedSets.FromRange(MeetLowerUpper(l, s.head))), SetClip(s.ranges, ByLower(l)))
  }

  /**
   * UpperBoundedSet ∩ UpperBoundedRange (intersection/upper_bounded_set.rs:65-70): the earlier
   * head, then the pieces' meets; the result is still an UpperBoundedSet.
   */
  function UbsUbr(s: UpperBoundedSets.UpperBoundedSet, u: UpperBoundedRange): (x: UpperBoundedSets.UpperBoundedSet)
    ensures forall t :: UpperBoundedSets.Contains(x, t) <==> UpperBoundedSets.Contains(s, t) && UpperContains(u, t)
    ensures UpperBoundedSets.Valid(x) && UpperBoundedSets.Settled(x)
  {
    UpperBoundedSets.WithSet(UpperBoundedSets.FromUpper(MeetUpper(s.head, u)), SetClip(s.ranges, ByUpper(u)))
  }

  /**
   * UpperBoundedSet ∩ UpperBoundedSet (intersection/upper_bounded_set.rs:79-84): `self ∩ head`,
   * then `self ∩ other.pieces`, which is BoundedSet ∩ UpperBoundedSet.
   */
  function UbsUbs(s: UpperBoundedSets.UpperBoundedSet, o: UpperBoundedSets.UpperBoundedSet): (x: UpperBoundedSets.UpperBoundedSet)
    ensures forall t :: UpperBoundedSets.Contains(x, t) <==> UpperBoundedSets.Contains(s, t) && UpperBoundedSets.Contains(o, t)
    ensures UpperBoundedSets.Valid(x) && UpperBoundedSets.Settled(x)
  {
    UpperBoundedSets.WithSet(UbsUbr(s, o.head), BsUbs(o.ranges, s))
  }

  /**
   * UpperBoundedSet ∩ UnboundedSet (intersection/upper_bounded_set.rs:103-120): Full keeps the
   * set; otherwise the meets with the head, the tail and the pieces, added together.
   */
  function UbsUs(s: UpperBoundedSets.UpperBoundedSet, o: UnboundedSets.UnboundedSet): (x: UpperBoundedSets.UpperBoundedSet)
    ensures forall t :: UpperBoundedSets.Contains(x, t) <==> UpperBoundedSets.Contains(s, t) && UnboundedSets.Contains(o, t)
    ensures UpperBoundedSets.Valid(s) ==> UpperBoundedSets.Valid(x)
    ensures o.Piecewise? || UpperBoundedSets.Settled(s) ==> UpperBoundedSets.Settled(x)
    ensures o.Full? ==> x == s
  {
    match o
    case Full => s
    case Piecewise(p) =>
      UpperBoundedSets.WithSet(UpperBoundedSets.WithSet(UbsUbr(s, p.upper), UbsLbr(s, p.lower)), BsUbs(p.ranges, s))
  }

  /**
   * UnboundedSet ∩ UnboundedSet (intersection/unbounded_set.rs:89-107): Full on either side
   * gives the other; otherwise the meets with the other's head, tail and pieces, united as
   * `a ∪ (b ∪ c)`. The result is always valid.
   */
  function UsUs(s: UnboundedSets.UnboundedSet, o: UnboundedSets.UnboundedSet): (x: UnboundedSets.UnboundedSet)
    ensures forall t :: UnboundedSets.Contains(x, t) <==> UnboundedSets.Contains(s, t) && UnboundedSets.Contains(o, t)
    ensures UnboundedSets.Valid(s) && UnboundedSets.Valid(o) ==> UnboundedSets.Valid(x)
    ensures s.Full? ==> x == o
    ensures o.Full? ==> x == s
  {
    match (s, o)
    case (Full, _) => o
    case (_, Full) => s
    case (_, Piecewise(q)) =>
      var a := UbsUs(UpperBoundedSets.FromUpper(q.upper), s);
      var b := LbsUs(LowerBoundedSets.FromLower(q.lower), s);
      var c := BsUs(q.ranges, s);
      Unions.LbsUbs(LowerBoundedSets.WithSet(b, c), a)
  }
}
