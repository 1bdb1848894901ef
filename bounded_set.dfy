/**
 * BoundedSet (src/bounded_set.rs): a finite union of bounded ranges, kept as a sequence of
 * pieces that are non-empty, pairwise non-intersecting and ordered by start. `add_range` is
 * the normalising insert every set operation is built from.
 *
 * The value-level functions specify the set; `BoundedSetCell` is the mutable set whose
 * methods do what the source's `&mut self` methods do, proved equal to those functions.
 */
module BoundedSets {
  import opened Bounds
  import opened Ranges
  import opened RangeMeets

  datatype BoundedSet = BoundedSet(ranges: seq<BoundedRange>)

  /** `contains` (src/bounded_set.rs:96-98): some stored range contains t. */
  predicate Contains(s: BoundedSet, t: int)
  {
    exists i | 0 <= i < |s.ranges| :: Ranges.Contains(s.ranges[i], t)
  }

  /** The stored ranges are non-empty, pairwise non-intersecting and ordered by start
      (src/bounded_set.rs:18). */
  predicate Valid(s: BoundedSet)
  {
    && (forall i | 0 <= i < |s.ranges| :: !IsEmpty(s.ranges[i]))
    && (forall i, j | 0 <= i < j < |s.ranges| ::
          StartLt(s.ranges[i].start, s.ranges[j].start) && !Intersects(s.ranges[i], s.ranges[j]))
  }

  /** `empty()` (src/bounded_set.rs:56-60). */
  function Empty(): (s: BoundedSet)
    ensures Valid(s) && |s.ranges| == 0
    ensures forall t :: !Contains(s, t)
  {
    BoundedSet([])
  }

  /** `From<BoundedRange>` (src/bounded_set.rs:22-30): an empty range gives the empty set. */
  function FromRange(r: BoundedRange): (s: BoundedSet)
    ensures Valid(s)
    ensures IsEmpty(r) <==> s.ranges == []
    ensures forall t :: Contains(s, t) <==> Ranges.Contains(r, t)
  {
    var s := if IsEmpty(r) then Empty() else BoundedSet([r]);
    assert forall t :: Contains(s, t) <==> Ranges.Contains(r, t) by {
      if !IsEmpty(r) {
        forall t | Ranges.Contains(r, t) ensures Contains(s, t) {
          assert Ranges.Contains(s.ranges[0], t);
        }
      }
    }
    s
  }

  /**
   * `is_empty` (src/implementations/rangetools/bounded_set.rs:4-6): every stored range is
   * empty. Under the invariant that means there are no ranges.
   */
  function IsEmptySet(s: BoundedSet): (e: bool)
    ensures e ==> forall t :: !Contains(s, t)
    ensures Valid(s) ==> (e <==> s.ranges == [])
  {
    assert Valid(s) && s.ranges != [] ==> !IsEmpty(s.ranges[0]);
    forall i | 0 <= i < |s.ranges| :: IsEmpty(s.ranges[i])
  }

  /** The first stored range that intersects r, or |rs| (`position`, src/bounded_set.rs:66). */
  function FindIntersecting(rs: seq<BoundedRange>, r: BoundedRange): (i: nat)
    ensures i <= |rs|
    ensures i < |rs| ==> Intersects(rs[i], r)
    ensures forall j | 0 <= j < i :: !Intersects(rs[j], r)
  {
    if rs == [] then 0
    else if Intersects(rs[0], r) then 0
    else 1 + FindIntersecting(rs[1..], r)
  }

  /** The first stored range that starts after r, or |rs| (src/bounded_set.rs:71-75). */
  function InsertPosition(rs: seq<BoundedRange>, r: BoundedRange): (i: nat)
    ensures i <= |rs|
    ensures i < |rs| ==> StartLt(r.start, rs[i].start)
    ensures forall j | 0 <= j < i :: !StartLt(r.start, rs[j].start)
  {
    if rs == [] then 0
    else if StartLt(r.start, rs[0].start) then 0
    else 1 + InsertPosition(rs[1..], r)
  }

  function Remove(rs: seq<BoundedRange>, i: nat): (rs': seq<BoundedRange>)
    requires i < |rs|
    ensures |rs'| == |rs| - 1
  {
    rs[..i] + rs[i + 1..]
  }

  lemma RemoveContains(s: BoundedSet, i: nat, t: int)
    requires i < |s.ranges|
    ensures Contains(s, t) <==>
      Ranges.Contains(s.ranges[i], t) || Contains(BoundedSet(Remove(s.ranges, i)), t)
  {
    var rs := s.ranges;
    var rest := Remove(rs, i);
    if Contains(s, t) && !Ranges.Contains(rs[i], t) {
      var j :| 0 <= j < |rs| && Ranges.Contains(rs[j], t);
      if j < i {
        assert rest[j] == rs[j];
      } else {
        assert rest[j - 1] == rs[j];
      }
    }
    if Contains(BoundedSet(rest), t) {
      var j :| 0 <= j < |rest| && Ranges.Contains(rest[j], t);
      if j < i {
        assert rest[j] == rs[j];
      } else {
        assert rest[j] == rs[j + 1];
      }
    }
  }

  lemma RemoveValid(s: BoundedSet, i: nat)
    requires Valid(s) && i < |s.ranges|
    ensures Valid(BoundedSet(Remove(s.ranges, i)))
  {
    var rs := s.ranges;
    var rest := Remove(rs, i);
    assert forall j | 0 <= j < |rest| :: rest[j] == rs[if j < i then j else j + 1];
  }

  /** Inserting a non-empty range that meets no stored range, at its start position. */
  lemma InsertValid(s: BoundedSet, r: BoundedRange)
    requires Valid(s) && !IsEmpty(r)
    requires forall j | 0 <= j < |s.ranges| :: !Intersects(s.ranges[j], r)
    ensures var k := InsertPosition(s.ranges, r);
      Valid(BoundedSet(s.ranges[..k] + [r] + s.ranges[k..]))
  {
    var rs := s.ranges;
    var k := InsertPosition(rs, r);
    forall j | 0 <= j < k
      ensures StartLt(rs[j].start, r.start)
    {
      StartLeIsTotalOrder(rs[j].start, r.start, r.start);
      if rs[j].start == r.start {
        SameStartIntersects(rs[j], r);
      }
    }
    forall j | k <= j < |rs|
      ensures StartLt(r.start, rs[j].start) && !Intersects(r, rs[j])
    {
      AfterInsertPosition(s, r, k, j);
    }
    InsertAtValid(s, k, r);
  }

  /** A stored range at or after the insert position starts after r and does not meet it. */
  lemma AfterInsertPosition(s: BoundedSet, r: BoundedRange, k: nat, j: nat)
    requires Valid(s) && k <= j < |s.ranges|
    requires StartLt(r.start, s.ranges[k].start)
    requires !Intersects(s.ranges[j], r)
    ensures StartLt(r.start, s.ranges[j].start) && !Intersects(r, s.ranges[j])
  {
    if j > k {
      StartLtTransitive(r.start, s.ranges[k].start, s.ranges[j].start);
    }
    IntersectsSymmetric(r, s.ranges[j]);
  }

  /** Splicing r in at k keeps the invariant when r sits between the ranges before and after k. */
  lemma InsertAtValid(s: BoundedSet, k: nat, r: BoundedRange)
    requires Valid(s) && !IsEmpty(r) && k <= |s.ranges|
    requires forall j | 0 <= j < k :: StartLt(s.ranges[j].start, r.start) && !Intersects(s.ranges[j], r)
    requires forall j | k <= j < |s.ranges| :: StartLt(r.start, s.ranges[j].start) && !Intersects(r, s.ranges[j])
    ensures Valid(BoundedSet(s.ranges[..k] + [r] + s.ranges[k..]))
  {
    var rs := s.ranges;
    var n := rs[..k] + [r] + rs[k..];
    assert |n| == |rs| + 1;
    assert forall j | 0 <= j < k :: n[j] == rs[j];
    assert n[k] == r;
    assert forall j | k < j < |n| :: n[j] == rs[j - 1];
    forall i, j | 0 <= i < j < |n|
      ensures StartLt(n[i].start, n[j].start) && !Intersects(n[i], n[j])
    {
      if i < k && j > k {
        StartLeIsTotalOrder(rs[i].start, r.start, rs[j - 1].start);
      }
    }
  }

  /**
   * `add_range` (src/bounded_set.rs:64-79). A non-empty r that intersects a stored range is
   * merged with the first such range, which is removed, and the hull is added again; otherwise
   * r is inserted before the first range that starts after it. Each recursive call has one
   * stored range fewer. The result contains a value exactly when the set or r does, and the
   * invariant is kept.
   */
  function WithRange(s: BoundedSet, r: BoundedRange): (s': BoundedSet)
    ensures forall t :: Contains(s', t) <==> Contains(s, t) || Ranges.Contains(r, t)
    ensures Valid(s) ==> Valid(s')
    decreases |s.ranges|
  {
    if IsEmpty(r) then s
    else
      var i := FindIntersecting(s.ranges, r);
      if i < |s.ranges| then
        var merged := Hull(r, s.ranges[i]);
        var rest := BoundedSet(Remove(s.ranges, i));
        var s' := WithRange(rest, merged);
        assert forall t :: Contains(s', t) <==> Contains(s, t) || Ranges.Contains(r, t) by {
          IntersectsSymmetric(s.ranges[i], r);
          forall t ensures Contains(s, t) <==>
            Ranges.Contains(s.ranges[i], t) || Contains(BoundedSet(Remove(s.ranges, i)), t)
          {
            RemoveContains(s, i, t);
          }
        }
        assert Valid(s) ==> Valid(s') by {
          if Valid(s) {
            RemoveValid(s, i);
          }
        }
        s'
      else
        var k := InsertPosition(s.ranges, r);
        var s' := BoundedSet(s.ranges[..k] + [r] + s.ranges[k..]);
        assert forall t :: Contains(s', t) <==> Contains(s, t) || Ranges.Contains(r, t) by {
          forall t ensures Contains(s', t) <==> Contains(s, t) || Ranges.Contains(r, t) {
            InsertContains(s, k, r, t);
          }
        }
        assert Valid(s) ==> Valid(s') by {
          if Valid(s) {
            InsertValid(s, r);
          }
        }
        s'
  }

  lemma InsertContains(s: BoundedSet, k: nat, r: BoundedRange, t: int)
    requires k <= |s.ranges|
    ensures Contains(BoundedSet(s.ranges[..k] + [r] + s.ranges[k..]), t) <==>
      Contains(s, t) || Ranges.Contains(r, t)
  {
    var rs := s.ranges;
    var n := rs[..k] + [r] + rs[k..];
    assert forall j | 0 <= j < |n| :: n[j] == if j < k then rs[j] else if j == k then r else rs[j - 1];
    if Contains(s, t) {
      var j :| 0 <= j < |rs| && Ranges.Contains(rs[j], t);
      assert n[if j < k then j else j + 1] == rs[j];
    }
    if Ranges.Contains(r, t) {
      assert n[k] == r;
    }
  }

  /** `add_set` (src/bounded_set.rs:80-84): `add_range` of each of the other set's ranges, in order. */
  function WithSet(s: BoundedSet, other: BoundedSet): (s': BoundedSet)
    ensures forall t :: Contains(s', t) <==> Contains(s, t) || Contains(other, t)
    ensures Valid(s) ==> Valid(s')
    decreases |other.ranges|
  {
    if other.ranges == [] then s
    else
      var rest := BoundedSet(other.ranges[1..]);
      var s' := WithSet(WithRange(s, other.ranges[0]), rest);
      assert forall t :: Contains(other, t) <==> Ranges.Contains(other.ranges[0], t) || Contains(rest, t) by {
        assert Remove(other.ranges, 0) == rest.ranges;
        forall t ensures Contains(other, t) <==> Ranges.Contains(other.ranges[0], t) || Contains(rest, t) {
          RemoveContains(other, 0, t);
        }
      }
      s'
  }

  /** The mutable set of the source: `&mut BoundedSet`. */
  class BoundedSetCell {
    var ranges: seq<BoundedRange>

    constructor (s: BoundedSet)
      ensures Value() == s
    {
      ranges := s.ranges;
    }

    function Value(): BoundedSet
      reads this
    {
      BoundedSet(ranges)
    }

    /** `add_range` (src/bounded_set.rs:64-79), removing and inserting in place. */
    method AddRange(r: BoundedRange)
      modifies this
      ensures Value() == WithRange(old(Value()), r)
      decreases |ranges|
    {
      if !IsEmpty(r) {
        var index := FindIntersecting(ranges, r);
        if index < |ranges| {
          var newRange := Hull(r, ranges[index]);
          ranges := ranges[..index] + ranges[index + 1..];
          AddRange(newRange);
        } else {
          var k := InsertPosition(ranges, r);
          ranges := ranges[..k] + [r] + ranges[k..];
        }
      }
    }

    /** `add_set` (src/bounded_set.rs:80-84): a loop of `add_range`. */
    method AddSet(other: BoundedSet)
      modifies this
      ensures Value() == WithSet(old(Value()), other)
    {
      for i := 0 to |other.ranges|
        invariant WithSet(Value(), BoundedSet(other.ranges[i..])) ==
          WithSet(old(Value()), other)
      {
        assert other.ranges[i..][1..] == other.ranges[i + 1..];
        AddRange(other.ranges[i]);
      }
      assert other.ranges[|other.ranges|..] == [];
    }
  }
}
