/**
 * LowerBoundedSet (src/lower_bounded_set.rs): finite pieces below a lower-bounded tail.
 * `defragment` pops the last piece into the tail for as long as the two meet.
 *
 * The value-level functions specify the set; `LowerBoundedSetCell` holds the pieces in a
 * `BoundedSetCell` and the tail in a field, and its methods do what the source's `&mut self`
 * methods do.
 */
module LowerBoundedSets {
  import opened Bounds
  import opened Ranges
  import opened RangeMeets
  import BoundedSets

  /** Field names follow the source: `ranges` and `lower_bounded_range`, here `tail`. */
  datatype LowerBoundedSet = LowerBoundedSet(ranges: BoundedSets.BoundedSet, tail: LowerBoundedRange)

  /** `contains` (src/lower_bounded_set.rs:62-64): the tail or one of the pieces. */
  predicate Contains(s: LowerBoundedSet, t: int)
  {
    LowerContains(s.tail, t) || BoundedSets.Contains(s.ranges, t)
  }

  /** The pieces form a valid BoundedSet; that they also stay clear of the tail is `Settled`. */
  predicate Valid(s: LowerBoundedSet)
  {
    BoundedSets.Valid(s.ranges)
  }

  /** Nothing left for `defragment` to absorb: no pieces, or the last one misses the tail. */
  predicate Settled(s: LowerBoundedSet)
  {
    BoundedSets.IsEmptySet(s.ranges) || IsEmpty(MeetBoundedLower(s.ranges.ranges[|s.ranges.ranges| - 1], s.tail))
  }

  /** `From<LowerBoundedRange>` (src/lower_bounded_set.rs:9-16): the tail alone. */
  function FromLower(l: LowerBoundedRange): (s: LowerBoundedSet)
    ensures s.tail == l && s.ranges.ranges == []
    ensures Valid(s) && Settled(s)
    ensures forall t :: Contains(s, t) <==> LowerContains(l, t)
  {
    LowerBoundedSet(BoundedSets.Empty(), l)
  }

  /**
   * The tail after absorbing a piece that meets it: the earlier of the two starts
   * (src/lower_bounded_set.rs:43), in the start order. It holds exactly the values of both.
   */
  function Absorb(tail: LowerBoundedRange, r: BoundedRange): (l: LowerBoundedRange)
    requires !IsEmpty(MeetBoundedLower(r, tail))
    ensures forall t :: LowerContains(l, t) <==> LowerContains(tail, t) || Ranges.Contains(r, t)
  {
    LowerBoundedRange(StartMin(tail.start, r.start))
  }

  /** Dropping the last piece is `Remove` at the last index. */
  lemma DropLastContains(s: BoundedSets.BoundedSet, t: int)
    requires s.ranges != []
    ensures BoundedSets.Contains(s, t) <==>
      Ranges.Contains(s.ranges[|s.ranges| - 1], t) ||
      BoundedSets.Contains(BoundedSets.BoundedSet(s.ranges[..|s.ranges| - 1]), t)
    ensures BoundedSets.Valid(s) ==> BoundedSets.Valid(BoundedSets.BoundedSet(s.ranges[..|s.ranges| - 1]))
  {
    var n := |s.ranges|;
    assert BoundedSets.Remove(s.ranges, n - 1) == s.ranges[..n - 1];
    BoundedSets.RemoveContains(s, n - 1, t);
    if BoundedSets.Valid(s) {
      BoundedSets.RemoveValid(s, n - 1);
    }
  }

  /**
   * `defragment` (src/lower_bounded_set.rs:30-46): while there are pieces, stop when the last
   * one misses the tail, otherwise pop it into the tail. Membership is unchanged, the pieces
   * left are a prefix of the old ones, and the result is settled.
   */
  function Defragmented(s: LowerBoundedSet): (s': LowerBoundedSet)
    ensures forall t :: Contains(s', t) <==> Contains(s, t)
    ensures Valid(s) ==> Valid(s')
    ensures Settled(s')
    ensures s'.ranges.ranges <= s.ranges.ranges
    decreases |s.ranges.ranges|
  {
    if BoundedSets.IsEmptySet(s.ranges) then s
    else
      var rs := s.ranges.ranges;
      var last := rs[|rs| - 1];
      if IsEmpty(MeetBoundedLower(last, s.tail)) then s
      else
        var next := LowerBoundedSet(BoundedSets.BoundedSet(rs[..|rs| - 1]), Absorb(s.tail, last));
        var s' := Defragmented(next);
        assert forall t :: Contains(next, t) <==> Contains(s, t) by {
          forall t ensures Contains(next, t) <==> Contains(s, t) {
            DropLastContains(s.ranges, t);
          }
        }
        assert Valid(s) ==> Valid(next) by {
          DropLastContains(s.ranges, 0);
        }
        s'
  }

  /** One step of `defragment`, for the loop that performs it. */
  lemma DefragmentedUnfolds(s: LowerBoundedSet)
    ensures BoundedSets.IsEmptySet(s.ranges) ==> Defragmented(s) == s
    ensures !BoundedSets.IsEmptySet(s.ranges) ==>
      var rs := s.ranges.ranges;
      Defragmented(s) == if IsEmpty(MeetBoundedLower(rs[|rs| - 1], s.tail)) then s
        else Defragmented(LowerBoundedSet(BoundedSets.BoundedSet(rs[..|rs| - 1]),
          LowerBoundedRange(StartMin(s.tail.start, rs[|rs| - 1].start))))
  {
  }

  /** A piece below a later piece that misses the tail misses the tail as well. */
  lemma EarlierMissesTail(p: BoundedRange, q: BoundedRange, tail: LowerBoundedRange)
    requires StartLt(p.start, q.start) && !Intersects(p, q) && !IsEmpty(q)
    requires IsEmpty(MeetBoundedLower(q, tail))
    ensures IsEmpty(MeetBoundedLower(p, tail))
  {
  }

  /** In a valid, settled set no piece meets the tail, not only the last one. */
  lemma SettledApart(s: LowerBoundedSet, i: nat)
    requires Valid(s) && Settled(s) && i < |s.ranges.ranges|
    ensures IsEmpty(MeetBoundedLower(s.ranges.ranges[i], s.tail))
  {
    var rs := s.ranges.ranges;
    var n := |rs|;
    if i < n - 1 {
      EarlierMissesTail(rs[i], rs[n - 1], s.tail);
    }
  }

  /** `add_range` (src/lower_bounded_set.rs:48-51): insert into the pieces, then defragment. */
  function WithRange(s: LowerBoundedSet, r: BoundedRange): (s': LowerBoundedSet)
    ensures forall t :: Contains(s', t) <==> Contains(s, t) || Ranges.Contains(r, t)
    ensures Valid(s) ==> Valid(s')
    ensures Settled(s')
  {
    Defragmented(LowerBoundedSet(BoundedSets.WithRange(s.ranges, r), s.tail))
  }

  /**
   * `add_lower_bounded_range` (src/lower_bounded_set.rs:52-55): the earlier start, then
   * defragment.
   */
  function WithLower(s: LowerBoundedSet, l: LowerBoundedRange): (s': LowerBoundedSet)
    ensures forall t :: Contains(s', t) <==> Contains(s, t) || LowerContains(l, t)
    ensures Valid(s) ==> Valid(s') && Settled(s')
  {
    Defragmented(LowerBoundedSet(s.ranges, LowerBoundedRange(StartMin(s.tail.start, l.start))))
  }

  /** `add_set` (src/lower_bounded_set.rs:56-60): `add_range` of each piece, in order. */
  function WithSet(s: LowerBoundedSet, other: BoundedSets.BoundedSet): (s': LowerBoundedSet)
    ensures forall t :: Contains(s', t) <==> Contains(s, t) || BoundedSets.Contains(other, t)
    ensures Valid(s) ==> Valid(s')
    ensures Settled(s) || other.ranges != [] ==> Settled(s')
    decreases |other.ranges|
  {
    if other.ranges == [] then s
    else
      var rest := BoundedSets.BoundedSet(other.ranges[1..]);
      var s' := WithSet(WithRange(s, other.ranges[0]), rest);
      assert forall t :: BoundedSets.Contains(other, t) <==>
        Ranges.Contains(other.ranges[0], t) || BoundedSets.Contains(rest, t) by {
        assert BoundedSets.Remove(other.ranges, 0) == rest.ranges;
        forall t ensures BoundedSets.Contains(other, t) <==>
          Ranges.Contains(other.ranges[0], t) || BoundedSets.Contains(rest, t)
        {
          BoundedSets.RemoveContains(other, 0, t);
        }
      }
      s'
  }

  /** The mutable set of the source: `&mut LowerBoundedSet`. */
  class LowerBoundedSetCell {
    const ranges: BoundedSets.BoundedSetCell
    var tail: LowerBoundedRange

    constructor (s: LowerBoundedSet)
      ensures Value() == s
    {
      ranges := new BoundedSets.BoundedSetCell(s.ranges);
      tail := s.tail;
    }

    function Value(): LowerBoundedSet
      reads this, ranges
    {
      LowerBoundedSet(ranges.Value(), tail)
    }

    /** `defragment` (src/lower_bounded_set.rs:30-46): pops the last piece in place. */
    method Defragment()
      modifies this, ranges
      ensures Value() == Defragmented(old(Value()))
    {
      while !BoundedSets.IsEmptySet(ranges.Value())
        invariant Defragmented(Value()) == Defragmented(old(Value()))
        decreases |ranges.ranges|
      {
        ghost var before := Value();
        DefragmentedUnfolds(before);
        var n := |ranges.ranges|;
        if IsEmpty(MeetBoundedLower(ranges.ranges[n - 1], tail)) {
          return;
        } else {
          var range := ranges.ranges[n - 1];
          ranges.ranges := ranges.ranges[..n - 1];
          tail := LowerBoundedRange(StartMin(tail.start, range.start));
        }
      }
      DefragmentedUnfolds(Value());
    }

    /** `add_range` (src/lower_bounded_set.rs:48-51). */
    method AddRange(r: BoundedRange)
      modifies this, ranges
      ensures Value() == WithRange(old(Value()), r)
    {
      ranges.AddRange(r);
      Defragment();
    }

    /** `add_lower_bounded_range` (src/lower_bounded_set.rs:52-55). */
    method AddLowerBoundedRange(l: LowerBoundedRange)
      modifies this, ranges
      ensures Value() == WithLower(old(Value()), l)
    {
      tail := LowerBoundedRange(StartMin(tail.start, l.start));
      Defragment();
    }

    /** `add_set` (src/lower_bounded_set.rs:56-60). */
    method AddSet(other: BoundedSets.BoundedSet)
      modifies this, ranges
      ensures Value() == WithSet(old(Value()), other)
    {
      for i := 0 to |other.ranges|
        invariant WithSet(Value(), BoundedSets.BoundedSet(other.ranges[i..])) ==
          WithSet(old(Value()), other)
      {
        assert other.ranges[i..][1..] == other.ranges[i + 1..];
        AddRange(other.ranges[i]);
      }
      assert other.ranges[|other.ranges|..] == [];
    }
  }
}
