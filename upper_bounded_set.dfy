/**
 * UpperBoundedSet (src/upper_bounded_set.rs): finite pieces above an upper-bounded head.
 * `defragment` removes the first piece into the head for as long as the two meet.
 *
 * The value-level functions specify the set; `UpperBoundedSetCell` holds the pieces in a
 * `BoundedSetCell` and the head in a field, and its methods do what the source's `&mut self`
 * methods do.
 */
module UpperBoundedSets {
  import opened Bounds
  import opened Ranges
  import opened RangeMeets
  import BoundedSets

  /** Field names follow the source: `upper_bounded_range`, here `head`, and `ranges`. */
  datatype UpperBoundedSet = UpperBoundedSet(head: UpperBoundedRange, ranges: BoundedSets.BoundedSet)

  /** `contains` (src/upper_bounded_set.rs:56-58): the head or one of the pieces. */
  predicate Contains(s: UpperBoundedSet, t: int)
  {
    UpperContains(s.head, t) || BoundedSets.Contains(s.ranges, t)
  }

  /** The pieces form a valid BoundedSet; that they also stay clear of the head is `Settled`. */
  predicate Valid(s: UpperBoundedSet)
  {
    BoundedSets.Valid(s.ranges)
  }

  /** Nothing left for `defragment` to absorb: no pieces, or the first one misses the head. */
  predicate Settled(s: UpperBoundedSet)
  {
    BoundedSets.IsEmptySet(s.ranges) || IsEmpty(MeetBoundedUpper(s.ranges.ranges[0], s.head))
  }

  /** `From<UpperBoundedRange>` (src/upper_bounded_set.rs:9-16): the head alone. */
  function FromUpper(u: UpperBoundedRange): (s: UpperBoundedSet)
    ensures s.head == u && s.ranges.ranges == []
    ensures Valid(s) && Settled(s)
    ensures forall t :: Contains(s, t) <==> UpperContains(u, t)
  {
    UpperBoundedSet(u, BoundedSets.Empty())
  }

  /** `is_empty` (src/upper_bounded_set.rs:18-22): never; the head holds every value below its end. */
  function IsEmptySet(s: UpperBoundedSet): (e: bool)
    ensures !e && Contains(s, s.head.end.v - 1)
  {
    false
  }

  /**
   * The head after absorbing a piece that meets it: the later of the two ends
   * (src/upper_bounded_set.rs:38). It holds exactly the values of both.
   */
  function Absorb(head: UpperBoundedRange, r: BoundedRange): (u: UpperBoundedRange)
    requires !IsEmpty(MeetBoundedUpper(r, head))
    ensures forall t :: UpperContains(u, t) <==> UpperContains(head, t) || Ranges.Contains(r, t)
  {
    UpperBoundedRange(EndMax(head.end, r.end))
  }

  /** Dropping the first piece is `Remove` at index 0. */
  lemma DropFirstContains(s: BoundedSets.BoundedSet, t: int)
    requires s.ranges != []
    ensures BoundedSets.Contains(s, t) <==>
      Ranges.Contains(s.ranges[0], t) || BoundedSets.Contains(BoundedSets.BoundedSet(s.ranges[1..]), t)
    ensures BoundedSets.Valid(s) ==> BoundedSets.Valid(BoundedSets.BoundedSet(s.ranges[1..]))
  {
    assert BoundedSets.Remove(s.ranges, 0) == s.ranges[1..];
    BoundedSets.RemoveContains(s, 0, t);
    if BoundedSets.Valid(s) {
      BoundedSets.RemoveValid(s, 0);
    }
  }

  /** Removing a first piece that meets the head into the head keeps membership and validity. */
  lemma AbsorbFirst(s: UpperBoundedSet)
    requires s.ranges.ranges != [] && !IsEmpty(MeetBoundedUpper(s.ranges.ranges[0], s.head))
    ensures var next := UpperBoundedSet(Absorb(s.head, s.ranges.ranges[0]), BoundedSets.BoundedSet(s.ranges.ranges[1..]));
      (forall t :: Contains(next, t) <==> Contains(s, t)) && (Valid(s) ==> Valid(next))
  {
    var next := UpperBoundedSet(Absorb(s.head, s.ranges.ranges[0]), BoundedSets.BoundedSet(s.ranges.ranges[1..]));
    forall t ensures Contains(next, t) <==> Contains(s, t) {
      DropFirstContains(s.ranges, t);
    }
    DropFirstContains(s.ranges, 0);
  }

  /**
   * `defragment` (src/upper_bounded_set.rs:25-41): while there are pieces, stop when the first
   * one misses the head, otherwise remove it into the head. Each step removes a piece, so the
   * loop ends. Membership is unchanged, the pieces left are a suffix of the old ones, and the
   * result is settled.
   */
  function Defragmented(s: UpperBoundedSet): (s': UpperBoundedSet)
    ensures forall t :: Contains(s', t) <==> Contains(s, t)
    ensures Valid(s) ==> Valid(s')
    ensures Settled(s')
    ensures |s'.ranges.ranges| <= |s.ranges.ranges|
    ensures s'.ranges.ranges == s.ranges.ranges[|s.ranges.ranges| - |s'.ranges.ranges|..]
    decreases |s.ranges.ranges|
  {
    if BoundedSets.IsEmptySet(s.ranges) then s
    else
      var rs := s.ranges.ranges;
      if IsEmpty(MeetBoundedUpper(rs[0], s.head)) then s
      else
        var next := UpperBoundedSet(Absorb(s.head, rs[0]), BoundedSets.BoundedSet(rs[1..]));
        AbsorbFirst(s);
        var s' := Defragmented(next);
        assert s'.ranges.ranges == rs[|rs| - |s'.ranges.ranges|..] by {
          var k := |rs[1..]| - |s'.ranges.ranges|;
          assert rs[1..][k..] == rs[k + 1..];
        }
        s'
  }

  /** One step of `defragment`, for the loop that performs it. */
  lemma DefragmentedUnfolds(s: UpperBoundedSet)
    ensures BoundedSets.IsEmptySet(s.ranges) ==> Defragmented(s) == s
    ensures !BoundedSets.IsEmptySet(s.ranges) ==>
      var rs := s.ranges.ranges;
      Defragmented(s) == if IsEmpty(MeetBoundedUpper(rs[0], s.head)) then s
        else Defragmented(UpperBoundedSet(UpperBoundedRange(EndMax(s.head.end, rs[0].end)),
          BoundedSets.BoundedSet(rs[1..])))
  {
  }

  /** `add_range` (src/upper_bounded_set.rs:42-45): insert into the pieces, then defragment. */
  function WithRange(s: UpperBoundedSet, r: BoundedRange): (s': UpperBoundedSet)
    ensures forall t :: Contains(s', t) <==> Contains(s, t) || Ranges.Contains(r, t)
    ensures Valid(s) ==> Valid(s')
    ensures Settled(s')
  {
    Defragmented(UpperBoundedSet(s.head, BoundedSets.WithRange(s.ranges, r)))
  }

  /**
   * `add_upper_bounded_range` (src/upper_bounded_set.rs:46-49): the later end, then
   * defragment.
   */
  function WithUpper(s: UpperBoundedSet, u: UpperBoundedRange): (s': UpperBoundedSet)
    ensures forall t :: Contains(s', t) <==> Contains(s, t) || UpperContains(u, t)
    ensures Valid(s) ==> Valid(s') && Settled(s')
  {
    Defragmented(UpperBoundedSet(UpperBoundedRange(EndMax(s.head.end, u.end)), s.ranges))
  }

  /** `add_set` (src/upper_bounded_set.rs:50-54): `add_range` of each piece, in order. */
  function WithSet(s: UpperBoundedSet, other: BoundedSets.BoundedSet): (s': UpperBoundedSet)
    ensures forall t :: Contains(s', t) <==> Contains(s, t) || BoundedSets.Contains(other, t)
    ensures Valid(s) ==> Valid(s')
    ensures Settled(s) || other.ranges != [] ==> Settled(s')
    decreases |other.ranges|
  {
    if other.ranges == [] then s
    else
      var rest := BoundedSets.BoundedSet(other.ranges[1..]);
      var s' := WithSet(WithRange(s, other.ranges[0]), rest);
      assert forall t :: BoundedSets.Contains(other, t) <==>
        Ranges.Contains(other.ranges[0], t) || BoundedSets.Contains(rest, t) by {
        forall t ensures BoundedSets.Contains(other, t) <==>
          Ranges.Contains(other.ranges[0], t) || BoundedSets.Contains(rest, t)
        {
          DropFirstContains(other, t);
        }
      }
      s'
  }

  /** The mutable set of the source: `&mut UpperBoundedSet`. */
  class UpperBoundedSetCell {
    var head: UpperBoundedRange
    const ranges: BoundedSets.BoundedSetCell

    constructor (s: UpperBoundedSet)
      ensures Value() == s
    {
      head := s.head;
      ranges := new BoundedSets.BoundedSetCell(s.ranges);
    }

    function Value(): UpperBoundedSet
      reads this, ranges
    {
      UpperBoundedSet(head, ranges.Value())
    }

    /** `defragment` (src/upper_bounded_set.rs:25-41): removes the first piece in place. */
    method Defragment()
      modifies this, ranges
      ensures Value() == Defragmented(old(Value()))
    {
      while !BoundedSets.IsEmptySet(ranges.Value())
        invariant Defragmented(Value()) == Defragmented(old(Value()))
        decreases |ranges.ranges|
      {
        DefragmentedUnfolds(Value());
        if IsEmpty(MeetBoundedUpper(ranges.ranges[0], head)) {
          return;
        } else {
          var range := ranges.ranges[0];
          ranges.ranges := ranges.ranges[1..];
          head := UpperBoundedRange(EndMax(head.end, range.end));
        }
      }
      DefragmentedUnfolds(Value());
    }

    /** `add_range` (src/upper_bounded_set.rs:42-45). */
    method AddRange(r: BoundedRange)
      modifies this, ranges
      ensures Value() == WithRange(old(Value()), r)
    {
      ranges.AddRange(r);
      Defragment();
    }

    /** `add_upper_bounded_range` (src/upper_bounded_set.rs:46-49). */
    method AddUpperBoundedRange(u: UpperBoundedRange)
      modifies this, ranges
      ensures Value() == WithUpper(old(Value()), u)
    {
      head := UpperBoundedRange(EndMax(head.end, u.end));
      Defragment();
    }

    /** `add_set` (src/upper_bounded_set.rs:50-54). */
    method AddSet(other: BoundedSets.BoundedSet)
      modifies this, ranges
      ensures Value() == WithSet(old(Value()), other)
    {
      for i := 0 to |other.ranges|
        invariant WithSet(Value(), BoundedSets.BoundedSet(other.ranges[i..])) ==
          WithSet(old(Value()), other)
      {
        assert other.ranges[i..][1..] == other.ranges[i + 1..];
        AddRange(other.ranges[i]);
      }
      assert other.ranges[|other.ranges|..] == [];
    }
  }
}
