/**
 * Places where the library, as written, does not keep its own promise that a set holds
 * exactly the values of what went into it. Each function below follows the code as written;
 * each lemma names an input on which it differs from the corrected definition that the rest
 * of the model uses.
 *
 * Three causes recur:
 *  - `Ord` on bounds is one order (src/bound.rs:32-60, Included(x) above Excluded(x)), right
 *    for ends but backwards for starts, and it is used for starts and for end-against-start
 *    comparisons;
 *  - `r.is_empty()` on a concrete `BoundedRange` resolves to the inherent method
 *    (src/bounded_range.rs:40-42), which compares the two bounds in that order and so calls
 *    (Excluded x, Excluded x) and (Excluded x, Included x) non-empty; the trait's
 *    tag-aware test (src/implementations/rangetools/bounded_range.rs:4-11) is only reached
 *    through generic code such as `intersects`;
 *  - `LowerBoundedRange::contains` tests `t >= start` whatever the tag.
 */
module Findings {
  import opened Bounds
  import opened Ranges
  import opened RangeMeets
  import BoundedSets
  import LowerBoundedSets
  import UpperBoundedSets
  import UnboundedSets
  import Intersections
  import Complements

  // ---------------------------------------------------------------------------------------
  // 1. LowerBoundedRange::contains (src/lower_bounded_range.rs:25-27)
  // ---------------------------------------------------------------------------------------

  /**
   * The complement of `..=4` is the range starting at Excluded(4); read as written it still
   * contains 4, so 4 lies in a range and in its complement. The tag-aware `LowerContains`
   * does not contain it.
   */
  lemma LowerContainsCounterexample()
    ensures var u := FromRangeToInclusive(4);
      var l := Complements.UbrComplement(u);
      UpperContains(u, 4) && LowerContainsAsWritten(l, 4) && !LowerContains(l, 4)
  {
  }

  // ---------------------------------------------------------------------------------------
  // 2 and 3. LowerBoundedSet::defragment and add_lower_bounded_range (src/lower_bounded_set.rs)
  // ---------------------------------------------------------------------------------------

  /**
   * `defragment` (src/lower_bounded_set.rs:30-46) as written: the inherent emptiness test on
   * the meet of the last piece and the tail, and `Ord::min` of the two starts. The pieces
   * left are a prefix of the old ones.
   */
  function LbsDefragmentedAsWritten(s: LowerBoundedSets.LowerBoundedSet): (s': LowerBoundedSets.LowerBoundedSet)
    ensures s'.ranges.ranges <= s.ranges.ranges
    ensures s.ranges.ranges == [] ==> s' == s
    decreases |s.ranges.ranges|
  {
    var rs := s.ranges.ranges;
    if rs == [] then s
    else
      var last := rs[|rs| - 1];
      if IsEmptyBySingleOrder(MeetBoundedLower(last, s.tail)) then s
      else
        var s' := LbsDefragmentedAsWritten(LowerBoundedSets.LowerBoundedSet(
          BoundedSets.BoundedSet(rs[..|rs| - 1]), LowerBoundedRange(SingleMin(s.tail.start, last.start))));
        assert rs[..|rs| - 1] <= rs;
        s'
  }

  /**
   * `add_lower_bounded_range` (src/lower_bounded_set.rs:52-55) as written: `Bound::min` of
   * the starts, then the as-written `defragment`.
   */
  function LbsWithLowerAsWritten(s: LowerBoundedSets.LowerBoundedSet, l: LowerBoundedRange): (s': LowerBoundedSets.LowerBoundedSet)
    ensures s'.ranges.ranges <= s.ranges.ranges
    ensures s.ranges.ranges == [] ==> s'.tail.start == SingleMin(s.tail.start, l.start)
  {
    LbsDefragmentedAsWritten(LowerBoundedSets.LowerBoundedSet(s.ranges, LowerBoundedRange(SingleMin(s.tail.start, l.start))))
  }

  /**
   * `5..` gaining the complement of `..=5` (the range from Excluded(5)): `Bound::min` picks
   * Excluded(5), the smaller bound in the single order, and 5 is lost. The corrected
   * `WithLower` keeps it.
   */
  lemma StartMinCounterexample()
    ensures var s := LowerBoundedSets.FromLower(FromRangeFrom(5));
      var l := Complements.UbrComplement(FromRangeToInclusive(5));
      LowerBoundedSets.Contains(s, 5)
      && !LowerBoundedSets.Contains(LbsWithLowerAsWritten(s, l), 5)
      && LowerBoundedSets.Contains(LowerBoundedSets.WithLower(s, l), 5)
  {
  }

  /**
   * The piece `1..3` below the tail from Excluded(3): their meet is (Excluded 3, Excluded 3),
   * which holds nothing but which the inherent test calls non-empty; the piece is absorbed,
   * the tail becomes `1..` and 3, in neither, is added. The corrected `Defragmented` leaves
   * the set as it is.
   */
  lemma LbsEmptinessCounterexample()
    ensures var s := LowerBoundedSets.LowerBoundedSet(BoundedSets.BoundedSet([FromRange(1, 3)]),
        Complements.UbrComplement(FromRangeToInclusive(3)));
      !LowerBoundedSets.Contains(s, 3)
      && LowerBoundedSets.Contains(LbsDefragmentedAsWritten(s), 3)
      && !LowerBoundedSets.Contains(LowerBoundedSets.Defragmented(s), 3)
  {
    var s := LowerBoundedSets.LowerBoundedSet(BoundedSets.BoundedSet([FromRange(1, 3)]),
      Complements.UbrComplement(FromRangeToInclusive(3)));
    assert !BoundedSets.Contains(s.ranges, 3) by {
      assert s.ranges.ranges[0] == BoundedRange(Included(1), Excluded(3));
    }
  }

  // ---------------------------------------------------------------------------------------
  // 3. UpperBoundedSet::defragment (src/upper_bounded_set.rs:25-41)
  // ---------------------------------------------------------------------------------------

  /**
   * `defragment` (src/upper_bounded_set.rs:25-41) as written: the inherent emptiness test on
   * the meet of the first piece and the head. The pieces left are a suffix of the old ones.
   */
  function UbsDefragmentedAsWritten(s: UpperBoundedSets.UpperBoundedSet): (s': UpperBoundedSets.UpperBoundedSet)
    ensures |s'.ranges.ranges| <= |s.ranges.ranges|
    ensures s'.ranges.ranges == s.ranges.ranges[|s.ranges.ranges| - |s'.ranges.ranges|..]
    decreases |s.ranges.ranges|
  {
    var rs := s.ranges.ranges;
    if rs == [] then s
    else if IsEmptyBySingleOrder(MeetBoundedUpper(rs[0], s.head)) then s
    else
      var s' := UbsDefragmentedAsWritten(UpperBoundedSets.UpperBoundedSet(
        UpperBoundedRange(EndMax(s.head.end, rs[0].end)), BoundedSets.BoundedSet(rs[1..])));
      assert rs[1..][|rs| - 1 - |s'.ranges.ranges|..] == rs[|rs| - |s'.ranges.ranges|..];
      s'
  }

  /**
   * `..3` with the piece from Excluded(3) to Included(5) (the complement of `..=3` met with
   * `..=5`): the meet is (Excluded 3, Excluded 3), called non-empty, so the head becomes
   * `..=5` and 3 is added. The corrected `Defragmented` does not add it.
   */
  lemma UbsEmptinessCounterexample()
    ensures var s := UpperBoundedSets.UpperBoundedSet(FromRangeTo(3),
        BoundedSets.BoundedSet([BoundedRange(Excluded(3), Included(5))]));
      !UpperBoundedSets.Contains(s, 3)
      && UpperBoundedSets.Contains(UbsDefragmentedAsWritten(s), 3)
      && !UpperBoundedSets.Contains(UpperBoundedSets.Defragmented(s), 3)
  {
    var s := UpperBoundedSets.UpperBoundedSet(FromRangeTo(3),
      BoundedSets.BoundedSet([BoundedRange(Excluded(3), Included(5))]));
    assert !BoundedSets.Contains(s.ranges, 3) by {
      assert s.ranges.ranges[0] == BoundedRange(Excluded(3), Included(5));
    }
  }

  // ---------------------------------------------------------------------------------------
  // 3. UnboundedSet::new (src/unbounded_set.rs:103-116)
  // ---------------------------------------------------------------------------------------

  /**
   * `UnboundedSet::new` as written: Full unless the inherent test calls the meet of the head
   * and the tail empty. It is Full whenever the corrected `New` is.
   */
  function NewAsWritten(u: UpperBoundedRange, l: LowerBoundedRange): (s: UnboundedSets.UnboundedSet)
    ensures s.Piecewise? ==> s.p == UnboundedSets.PiecewiseUnboundedSet(u, BoundedSets.Empty(), l)
    ensures UnboundedSets.New(u, l).Full? ==> s.Full?
  {
    if IsEmptyBySingleOrder(MeetLowerUpper(l, u)) then
      UnboundedSets.Piecewise(UnboundedSets.PiecewiseUnboundedSet(u, BoundedSets.Empty(), l))
    else UnboundedSets.Full
  }

  /**
   * `new(..5, complement of ..=5)`: neither part holds 5, but the meet (Excluded 5,
   * Excluded 5) is called non-empty and the result is Full.
   */
  lemma NewCounterexample()
    ensures var u := FromRangeTo(5);
      var l := Complements.UbrComplement(FromRangeToInclusive(5));
      !UpperContains(u, 5) && !LowerContains(l, 5)
      && UnboundedSets.Contains(NewAsWritten(u, l), 5)
      && !UnboundedSets.Contains(UnboundedSets.New(u, l), 5)
  {
  }

  // ---------------------------------------------------------------------------------------
  // 3. From<BoundedRange> for BoundedSet and BoundedSet::is_empty
  //    (src/bounded_set.rs:22-30, src/implementations/rangetools/bounded_set.rs:4-6)
  // ---------------------------------------------------------------------------------------

  /** `From<BoundedRange>` as written: a range the inherent test calls non-empty is stored. */
  function BsFromRangeAsWritten(r: BoundedRange): (s: BoundedSets.BoundedSet)
    ensures forall t :: BoundedSets.Contains(s, t) <==> Ranges.Contains(r, t)
    ensures |s.ranges| <= 1
  {
    var s := if IsEmptyBySingleOrder(r) then BoundedSets.Empty() else BoundedSets.BoundedSet([r]);
    assert forall t :: BoundedSets.Contains(s, t) <==> Ranges.Contains(r, t) by {
      if !IsEmptyBySingleOrder(r) {
        forall t | Ranges.Contains(r, t) ensures BoundedSets.Contains(s, t) {
          assert Ranges.Contains(s.ranges[0], t);
        }
      }
    }
    s
  }

  /** `is_empty` of a BoundedSet as written: every piece empty by the inherent test. */
  function BsIsEmptyAsWritten(s: BoundedSets.BoundedSet): (e: bool)
    ensures e ==> forall t :: !BoundedSets.Contains(s, t)
  {
    forall i | 0 <= i < |s.ranges| :: IsEmptyBySingleOrder(s.ranges[i])
  }

  /**
   * The complement of `..=3` met with `..3` is (Excluded 3, Excluded 3): no value. As written
   * its set keeps it as a piece, breaking the set invariant, and reports itself non-empty;
   * the corrected set has no piece and is empty.
   */
  lemma BsEmptinessCounterexample()
    ensures var r := MeetLowerUpper(Complements.UbrComplement(FromRangeToInclusive(3)), FromRangeTo(3));
      (forall t :: !Ranges.Contains(r, t))
      && !BoundedSets.Valid(BsFromRangeAsWritten(r))
      && !BsIsEmptyAsWritten(BsFromRangeAsWritten(r))
      && BoundedSets.IsEmptySet(BoundedSets.FromRange(r))
  {
    var r := MeetLowerUpper(Complements.UbrComplement(FromRangeToInclusive(3)), FromRangeTo(3));
    assert r == BoundedRange(Excluded(3), Excluded(3));
    assert BsFromRangeAsWritten(r).ranges == [r];
    assert IsEmpty(BsFromRangeAsWritten(r).ranges[0]);
  }

  // ---------------------------------------------------------------------------------------
  // 3. BoundedSet::add_range (src/bounded_set.rs:64-79)
  // ---------------------------------------------------------------------------------------

  /** The first piece whose start is `>` the start of r in the single order (src/bounded_set.rs:71-75). */
  function InsertPositionAsWritten(rs: seq<BoundedRange>, r: BoundedRange): (i: nat)
    ensures i <= |rs|
    ensures i < |rs| ==> Compare(rs[i].start, r.start) == Greater
    ensures forall j | 0 <= j < i :: Compare(rs[j].start, r.start) != Greater
  {
    if rs == [] then 0
    else if Compare(rs[0].start, r.start) == Greater then 0
    else 1 + InsertPositionAsWritten(rs[1..], r)
  }

  /**
   * `add_range` as written: the inherent emptiness test guards it (line 65) and the single
   * order picks the insert position (line 74). It still adds exactly the values of r, but the
   * pieces need not stay non-empty and ordered by start.
   */
  function BsWithRangeAsWritten(s: BoundedSets.BoundedSet, r: BoundedRange): (s': BoundedSets.BoundedSet)
    ensures forall t :: BoundedSets.Contains(s', t) <==> BoundedSets.Contains(s, t) || Ranges.Contains(r, t)
    decreases |s.ranges|
  {
    if IsEmptyBySingleOrder(r) then s
    else
      var i := BoundedSets.FindIntersecting(s.ranges, r);
      if i < |s.ranges| then
        var rest := BoundedSets.BoundedSet(BoundedSets.Remove(s.ranges, i));
        var s' := BsWithRangeAsWritten(rest, Hull(r, s.ranges[i]));
        assert forall t :: BoundedSets.Contains(s', t) <==> BoundedSets.Contains(s, t) || Ranges.Contains(r, t) by {
          IntersectsSymmetric(s.ranges[i], r);
          forall t ensures BoundedSets.Contains(s, t) <==>
            Ranges.Contains(s.ranges[i], t) || BoundedSets.Contains(rest, t)
          {
            BoundedSets.RemoveContains(s, i, t);
          }
        }
        s'
      else
        var k := InsertPositionAsWritten(s.ranges, r);
        var s' := BoundedSets.BoundedSet(s.ranges[..k] + [r] + s.ranges[k..]);
        assert forall t :: BoundedSets.Contains(s', t) <==> BoundedSets.Contains(s, t) || Ranges.Contains(r, t) by {
          forall t ensures BoundedSets.Contains(s', t) <==> BoundedSets.Contains(s, t) || Ranges.Contains(r, t) {
            BoundedSets.InsertContains(s, k, r, t);
          }
        }
        s'
  }

  /**
   * `3..=3` plus (Excluded 3, Included 5), which is `(..=3).complement()` met with `0..=5`.
   * The two do not intersect, and as written the new range is inserted first because
   * Included(3) > Excluded(3): the pieces are out of order and the set's iterator, whose
   * `min` is `next`, yields 4 before the member 3. The corrected `WithRange` puts it second.
   */
  lemma InsertOrderCounterexample()
    ensures var a := FromRangeInclusive(3, 3);
      var r := MeetBoundedLower(FromRangeInclusive(0, 5), Complements.UbrComplement(FromRangeToInclusive(3)));
      var w := BsWithRangeAsWritten(BoundedSets.FromRange(a), r);
      && w.ranges == [r, a]
      && !BoundedSets.Valid(w)
      && Elements(w.ranges[0])[0] == 4 && BoundedSets.Contains(w, 3)
      && BoundedSets.WithRange(BoundedSets.FromRange(a), r).ranges == [a, r]
  {
    var a := FromRangeInclusive(3, 3);
    var r := MeetBoundedLower(FromRangeInclusive(0, 5), Complements.UbrComplement(FromRangeToInclusive(3)));
    assert r == BoundedRange(Excluded(3), Included(5));
    var s := BoundedSets.FromRange(a);
    assert s.ranges == [a];
    assert !Intersects(a, r);
    assert BoundedSets.FindIntersecting(s.ranges, r) == 1;
    assert InsertPositionAsWritten(s.ranges, r) == 0;
    assert BoundedSets.InsertPosition(s.ranges, r) == 1;
    var w := BsWithRangeAsWritten(s, r);
    assert w.ranges == [r, a];
    assert !StartLt(w.ranges[0].start, w.ranges[1].start);
    assert First(r) == 4;
    assert Ranges.Contains(w.ranges[1], 3);
  }

  /**
   * The empty set plus (Excluded 3, Excluded 3), which holds no value: the inherent test of
   * line 65 lets it through, and as written it is stored as a piece, breaking the invariant.
   * The corrected `WithRange` leaves the set empty.
   */
  lemma AddEmptyRangeCounterexample()
    ensures var r := MeetLowerUpper(Complements.UbrComplement(FromRangeToInclusive(3)), FromRangeTo(3));
      var w := BsWithRangeAsWritten(BoundedSets.Empty(), r);
      && (forall t :: !Ranges.Contains(r, t))
      && w.ranges == [r] && !BoundedSets.Valid(w)
      && BoundedSets.WithRange(BoundedSets.Empty(), r) == BoundedSets.Empty()
  {
    var r := MeetLowerUpper(Complements.UbrComplement(FromRangeToInclusive(3)), FromRangeTo(3));
    assert r == BoundedRange(Excluded(3), Excluded(3));
    var w := BsWithRangeAsWritten(BoundedSets.Empty(), r);
    assert w.ranges == [r];
    assert IsEmpty(w.ranges[0]);
  }

  // ---------------------------------------------------------------------------------------
  // 4. PiecewiseUnboundedSet::defragment and UnboundedSet::defragment (src/unbounded_set.rs)
  // ---------------------------------------------------------------------------------------

  /** The first piece whose start is `<=` the head's end in the single order (src/unbounded_set.rs:47-52). */
  function ReachingHeadAsWritten(rs: seq<BoundedRange>, e: FiniteBound): (i: nat)
    ensures i <= |rs|
    ensures i < |rs| ==> Le(rs[i].start, e)
    ensures forall j | 0 <= j < i :: !Le(rs[j].start, e)
  {
    if rs == [] then 0
    else if Le(rs[0].start, e) then 0
    else 1 + ReachingHeadAsWritten(rs[1..], e)
  }

  /** The first piece whose end is `>=` the tail's start in the single order (src/unbounded_set.rs:56-61). */
  function ReachingTailAsWritten(rs: seq<BoundedRange>, s: FiniteBound): (i: nat)
    ensures i <= |rs|
    ensures i < |rs| ==> Le(s, rs[i].end)
    ensures forall j | 0 <= j < i :: !Le(s, rs[j].end)
  {
    if rs == [] then 0
    else if Le(s, rs[0].end) then 0
    else 1 + ReachingTailAsWritten(rs[1..], s)
  }

  /**
   * `PiecewiseUnboundedSet::defragment` (src/unbounded_set.rs:46-66) as written: the single
   * order compares starts with the head's end and ends with the tail's start, and `min`
   * picks the tail's new start. Each round removes a piece.
   */
  function PiecewiseDefragmentedAsWritten(p: UnboundedSets.PiecewiseUnboundedSet): (p': UnboundedSets.PiecewiseUnboundedSet)
    ensures |p'.ranges.ranges| <= |p.ranges.ranges|
    ensures p.ranges.ranges == [] ==> p' == p
    decreases |p.ranges.ranges|
  {
    var rs := p.ranges.ranges;
    var i := ReachingHeadAsWritten(rs, p.upper.end);
    if i < |rs| then
      PiecewiseDefragmentedAsWritten(UnboundedSets.PiecewiseUnboundedSet(
        UpperBoundedRange(EndMax(p.upper.end, rs[i].end)), BoundedSets.BoundedSet(BoundedSets.Remove(rs, i)), p.lower))
    else
      var j := ReachingTailAsWritten(rs, p.lower.start);
      if j < |rs| then
        PiecewiseDefragmentedAsWritten(UnboundedSets.PiecewiseUnboundedSet(
          p.upper, BoundedSets.BoundedSet(BoundedSets.Remove(rs, j)), LowerBoundedRange(SingleMin(p.lower.start, rs[j].start))))
      else
        p
  }

  /**
   * `..5` with the piece from Excluded(5) to Included(7) and the tail `10..`: the piece's
   * start Excluded(5) is `<=` the head's end Excluded(5), so the head becomes `..=7` and 5,
   * in no part, is added. The corrected `PiecewiseDefragmented` does not add it.
   */
  lemma ReachingHeadCounterexample()
    ensures var p := UnboundedSets.PiecewiseUnboundedSet(FromRangeTo(5),
        BoundedSets.BoundedSet([BoundedRange(Excluded(5), Included(7))]), FromRangeFrom(10));
      !UnboundedSets.PiecewiseContains(p, 5)
      && UnboundedSets.PiecewiseContains(PiecewiseDefragmentedAsWritten(p), 5)
      && !UnboundedSets.PiecewiseContains(UnboundedSets.PiecewiseDefragmented(p), 5)
  {
    var r := BoundedRange(Excluded(5), Included(7));
    var p := UnboundedSets.PiecewiseUnboundedSet(FromRangeTo(5), BoundedSets.BoundedSet([r]), FromRangeFrom(10));
    assert !BoundedSets.Contains(p.ranges, 5) by {
      assert p.ranges.ranges[0] == r;
    }
    assert ReachingHeadAsWritten(p.ranges.ranges, p.upper.end) == 0;
    assert BoundedSets.Remove(p.ranges.ranges, 0) == [];
  }

  /**
   * `UnboundedSet::defragment` (src/unbounded_set.rs:143-155) as written: Full when the
   * head's end is `>=` the tail's start in the single order.
   */
  function UsDefragmentedAsWritten(s: UnboundedSets.UnboundedSet): (s': UnboundedSets.UnboundedSet)
    ensures s.Full? ==> s'.Full?
    ensures s.Piecewise? && s'.Piecewise? ==> |s'.p.ranges.ranges| <= |s.p.ranges.ranges|
  {
    match s
    case Full => UnboundedSets.Full
    case Piecewise(p) =>
      var q := PiecewiseDefragmentedAsWritten(p);
      if Le(q.lower.start, q.upper.end) then UnboundedSets.Full else UnboundedSets.Piecewise(q)
  }

  /**
   * The head `..5` and the tail from Excluded(5) (what `new(..5, 10..)` becomes on gaining
   * the complement of `..=5`, the tail's start taken as the lower of the two): Excluded(5)
   * `<=` Excluded(5), so the set becomes Full though 5 is in neither part. The corrected
   * `Defragmented` keeps 5 out.
   */
  lemma CollapseCounterexample()
    ensures var s := UnboundedSets.Piecewise(UnboundedSets.PiecewiseUnboundedSet(FromRangeTo(5),
        BoundedSets.Empty(), Complements.UbrComplement(FromRangeToInclusive(5))));
      !UnboundedSets.Contains(s, 5)
      && UsDefragmentedAsWritten(s).Full?
      && !UnboundedSets.Contains(UnboundedSets.Defragmented(s), 5)
  {
  }

  /**
   * `..0`, the piece from Excluded(5) to Included(7) (what `add_range` stores for the meet of
   * `(..=5).complement()` with `0..=7`) and the tail `5..`: the piece's end reaches the tail's
   * start, and `min` at src/unbounded_set.rs:63 picks Excluded(5), the smaller start in the
   * single order, so 5 is lost. The corrected `PiecewiseDefragmented` keeps it.
   */
  lemma TailStartMinCounterexample()
    ensures var r := MeetBoundedLower(FromRangeInclusive(0, 7), Complements.UbrComplement(FromRangeToInclusive(5)));
      var p := UnboundedSets.PiecewiseUnboundedSet(FromRangeTo(0), BoundedSets.BoundedSet([r]), FromRangeFrom(5));
      && BsWithRangeAsWritten(BoundedSets.Empty(), r).ranges == [r]
      && UnboundedSets.PiecewiseContains(p, 5)
      && !UnboundedSets.PiecewiseContains(PiecewiseDefragmentedAsWritten(p), 5)
      && UnboundedSets.PiecewiseContains(UnboundedSets.PiecewiseDefragmented(p), 5)
  {
    var r := MeetBoundedLower(FromRangeInclusive(0, 7), Complements.UbrComplement(FromRangeToInclusive(5)));
    assert r == BoundedRange(Excluded(5), Included(7));
    var p := UnboundedSets.PiecewiseUnboundedSet(FromRangeTo(0), BoundedSets.BoundedSet([r]), FromRangeFrom(5));
    assert ReachingHeadAsWritten(p.ranges.ranges, p.upper.end) == 1;
    assert ReachingTailAsWritten(p.ranges.ranges, p.lower.start) == 0;
    assert BoundedSets.Remove(p.ranges.ranges, 0) == [];
    var q := UnboundedSets.PiecewiseUnboundedSet(FromRangeTo(0), BoundedSets.Empty(), LowerBoundedRange(Excluded(5)));
    assert PiecewiseDefragmentedAsWritten(p) == q;
    assert !BoundedSets.Contains(q.ranges, 5);
  }

  /**
   * `add_lower_bounded_range` of `UnboundedSet` (src/unbounded_set.rs:161-166) as written:
   * `Bound::min` of the tail's start and the new start in the single order, then the
   * as-written `defragment`. Full stays Full, and a set with no pieces whose head ends below
   * the new tail's start in that order keeps its head and takes the new tail.
   */
  function UsWithLowerAsWritten(s: UnboundedSets.UnboundedSet, l: LowerBoundedRange): (s': UnboundedSets.UnboundedSet)
    ensures s.Full? ==> s'.Full?
    ensures s.Piecewise? && s.p.ranges.ranges == [] && Le(s.p.upper.end, SingleMin(s.p.lower.start, l.start))
        && s.p.upper.end != SingleMin(s.p.lower.start, l.start)
      ==> s' == UnboundedSets.Piecewise(UnboundedSets.PiecewiseUnboundedSet(s.p.upper, s.p.ranges,
            LowerBoundedRange(SingleMin(s.p.lower.start, l.start))))
  {
    match s
    case Full => UnboundedSets.Full
    case Piecewise(p) =>
      UsDefragmentedAsWritten(UnboundedSets.Piecewise(UnboundedSets.PiecewiseUnboundedSet(p.upper, p.ranges,
        LowerBoundedRange(SingleMin(p.lower.start, l.start)))))
  }

  /**
   * `new(..0, 5..)` gaining the complement of `..=5` (the range from Excluded(5)): the single
   * order's `min` picks Excluded(5), and 5 is lost. The corrected `WithLower` keeps it.
   */
  lemma UsStartMinCounterexample()
    ensures var s := UnboundedSets.New(FromRangeTo(0), FromRangeFrom(5));
      var l := Complements.UbrComplement(FromRangeToInclusive(5));
      && s.Piecewise?
      && UnboundedSets.Contains(s, 5)
      && !UnboundedSets.Contains(UsWithLowerAsWritten(s, l), 5)
      && UnboundedSets.Contains(UnboundedSets.WithLower(s, l), 5)
  {
    var s := UnboundedSets.New(FromRangeTo(0), FromRangeFrom(5));
    assert IsEmpty(MeetLowerUpper(FromRangeFrom(5), FromRangeTo(0)));
    var l := Complements.UbrComplement(FromRangeToInclusive(5));
    assert l.start == Excluded(5);
    var w := UsWithLowerAsWritten(s, l);
    assert w.Piecewise? && w.p.lower.start == Excluded(5) && w.p.ranges.ranges == [];
    assert !BoundedSets.Contains(w.p.ranges, 5);
  }

  // ---------------------------------------------------------------------------------------
  // 5. LowerBoundedSet ∩ LowerBoundedSet (src/implementations/intersection/lower_bounded_set.rs:47-61)
  // ---------------------------------------------------------------------------------------

  /**
   * The intersection as written: `self ∩ other.tail`, then the pieces of `self ∩ other`
   * added. What it returns is in both operands; the values of `self.tail ∩ other.pieces` are
   * missing.
   */
  function LbsLbsAsWritten(s: LowerBoundedSets.LowerBoundedSet, o: LowerBoundedSets.LowerBoundedSet): (x: LowerBoundedSets.LowerBoundedSet)
    ensures forall t :: LowerBoundedSets.Contains(x, t) ==> LowerBoundedSets.Contains(s, t) && LowerBoundedSets.Contains(o, t)
    ensures forall t :: LowerBoundedSets.Contains(x, t) <==>
      (LowerBoundedSets.Contains(s, t) && LowerContains(o.tail, t)) ||
      (BoundedSets.Contains(s.ranges, t) && LowerBoundedSets.Contains(o, t))
    ensures LowerBoundedSets.Valid(s) ==> LowerBoundedSets.Valid(x)
  {
    LowerBoundedSets.WithSet(Intersections.LbsLbr(s, o.tail), Intersections.BsLbs(s.ranges, o))
  }

  /**
   * `(0..).to_set()`, a LowerBoundedSet with no pieces, met with `(1..2) ∪ 5..`: 1 is in
   * both, but as written the result is `5..`. The corrected `LbsLbs` keeps 1.
   */
  lemma LbsLbsCounterexample()
    ensures var s := LowerBoundedSets.FromLower(FromRangeFrom(0));
      var o := LowerBoundedSets.LowerBoundedSet(BoundedSets.BoundedSet([FromRange(1, 2)]), FromRangeFrom(5));
      LowerBoundedSets.Contains(s, 1) && LowerBoundedSets.Contains(o, 1)
      && !LowerBoundedSets.Contains(LbsLbsAsWritten(s, o), 1)
      && LowerBoundedSets.Contains(Intersections.LbsLbs(s, o), 1)
  {
    var o := LowerBoundedSets.LowerBoundedSet(BoundedSets.BoundedSet([FromRange(1, 2)]), FromRangeFrom(5));
    assert Ranges.Contains(o.ranges.ranges[0], 1);
  }
}
