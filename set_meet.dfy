/**
 * BoundedSet ∩ a range shape (src/implementations/intersection/bounded_set.rs:13-20,44-51,78-85):
 * every stored piece is overwritten in place by its intersection with the range, then the empty
 * results are dropped (`retain`). The three arms differ only in the range, which `Clip` names.
 *
 * Narrowing the pieces keeps them ordered and apart: each result lies within the piece it came
 * from, and a range within an empty range is empty.
 */
module SetMeets {
  import opened Bounds
  import opened Ranges
  import opened RangeMeets
  import BoundedSets

  /** The range a BoundedSet is intersected with. */
  datatype Clip = ByBounded(b: BoundedRange) | ByLower(l: LowerBoundedRange) | ByUpper(u: UpperBoundedRange)

  predicate ClipContains(c: Clip, t: int)
  {
    match c
    case ByBounded(b) => Ranges.Contains(b, t)
    case ByLower(l) => LowerContains(l, t)
    case ByUpper(u) => UpperContains(u, t)
  }

  /** a lies within b in the bound orders: it starts no earlier and ends no later. */
  predicate Within(a: BoundedRange, b: BoundedRange)
  {
    StartLe(b.start, a.start) && Le(a.end, b.end)
  }

  /**
   * `*range = range ∩ other` for one piece: BR ∩ BR, BR ∩ LBR or BR ∩ UBR
   * (intersection/bounded_range.rs:12-18,38-43,63-68). The result lies within the piece.
   */
  function MeetClip(r: BoundedRange, c: Clip): (m: BoundedRange)
    ensures Within(m, r)
    ensures forall t :: Ranges.Contains(m, t) <==> Ranges.Contains(r, t) && ClipContains(c, t)
  {
    LeIsTotalOrder(r.end, r.end, r.end);
    StartLeIsTotalOrder(r.start, r.start, r.start);
    match c
    case ByBounded(b) => MeetBounded(r, b)
    case ByLower(l) => MeetBoundedLower(r, l)
    case ByUpper(u) => MeetBoundedUpper(r, u)
  }

  /** A range within an empty range is empty. */
  lemma WithinEmpty(a: BoundedRange, b: BoundedRange)
    requires Within(a, b) && IsEmpty(b)
    ensures IsEmpty(a)
  {
  }

  /** Two stored pieces, each narrowed to a non-empty range, stay ordered and apart. */
  lemma NarrowedApart(a: BoundedRange, b: BoundedRange, a': BoundedRange, b': BoundedRange)
    requires StartLt(a.start, b.start) && !Intersects(a, b) && !IsEmpty(b)
    requires Within(a', a) && Within(b', b) && !IsEmpty(a') && !IsEmpty(b')
    ensures StartLt(a'.start, b'.start) && !Intersects(a', b')
  {
    StartLeIsTotalOrder(a.start, b.start, b.start);
    assert MaxStart(a.start, b.start) == b.start;
    var gap := BoundedRange(b.start, a.end);
    assert MinEnd(a.end, b.end) == a.end;
    assert IsEmpty(gap);
    StartLeIsTotalOrder(b'.start, a'.start, a'.start);
    if StartLe(b'.start, a'.start) {
      StartLeIsTotalOrder(b.start, b'.start, a'.start);
      WithinEmpty(a', gap);
      assert false;
    }
    var m := MeetBounded(a', b');
    StartLeIsTotalOrder(a'.start, b'.start, b'.start);
    assert m.start == b'.start;
    StartLeIsTotalOrder(b.start, b'.start, b'.start);
    LeIsTotalOrder(m.end, a'.end, a.end);
    WithinEmpty(m, gap);
  }

  /** Nothing in between prevents two non-empty ranges from sitting in a valid set. */
  predicate Apart(rs: seq<BoundedRange>)
  {
    forall i, j | 0 <= i < j < |rs| && !IsEmpty(rs[i]) && !IsEmpty(rs[j]) ::
      StartLt(rs[i].start, rs[j].start) && !Intersects(rs[i], rs[j])
  }

  /** A non-empty range before every range of a valid set extends it. */
  lemma ConsValid(r: BoundedRange, s: BoundedSets.BoundedSet)
    requires BoundedSets.Valid(s) && !IsEmpty(r)
    requires forall y | y in s.ranges :: StartLt(r.start, y.start) && !Intersects(r, y)
    ensures BoundedSets.Valid(BoundedSets.BoundedSet([r] + s.ranges))
  {
    var n := [r] + s.ranges;
    assert forall j | 0 < j < |n| :: n[j] == s.ranges[j - 1] && n[j] in s.ranges;
  }

  /** `retain(|r| !r.is_empty())`: the non-empty ranges, in order. */
  function NonEmpty(rs: seq<BoundedRange>): (rs': seq<BoundedRange>)
    ensures forall y | y in rs' :: y in rs && !IsEmpty(y)
    ensures |rs'| <= |rs|
  {
    if rs == [] then []
    else if IsEmpty(rs[0]) then NonEmpty(rs[1..])
    else [rs[0]] + NonEmpty(rs[1..])
  }

  /** `retain` keeps every non-empty piece: with `NonEmpty`'s own contract, it keeps exactly those. */
  lemma {:induction false} NonEmptyKeepsAll(rs: seq<BoundedRange>)
    ensures forall y | y in rs && !IsEmpty(y) :: y in NonEmpty(rs)
  {
    if rs != [] {
      NonEmptyKeepsAll(rs[1..]);
      assert forall y | y in rs :: y == rs[0] || y in rs[1..];
    }
  }

  /** A value lies in a cons exactly when it lies in the head or in the rest. */
  lemma ConsContains(r: BoundedRange, rs: seq<BoundedRange>, t: int)
    ensures BoundedSets.Contains(BoundedSets.BoundedSet([r] + rs), t) <==>
      Ranges.Contains(r, t) || BoundedSets.Contains(BoundedSets.BoundedSet(rs), t)
  {
    var n := [r] + rs;
    assert n[0] == r;
    if BoundedSets.Contains(BoundedSets.BoundedSet(rs), t) {
      var j :| 0 <= j < |rs| && Ranges.Contains(rs[j], t);
      assert n[j + 1] == rs[j];
    }
    if BoundedSets.Contains(BoundedSets.BoundedSet(n), t) {
      var j :| 0 <= j < |n| && Ranges.Contains(n[j], t);
      if j > 0 {
        assert n[j] == rs[j - 1];
      }
    }
  }

  /** Dropping the empty ranges keeps every value: an empty range holds none. */
  lemma {:induction false} NonEmptyContains(rs: seq<BoundedRange>, t: int)
    ensures BoundedSets.Contains(BoundedSets.BoundedSet(NonEmpty(rs)), t) <==>
      BoundedSets.Contains(BoundedSets.BoundedSet(rs), t)
    decreases |rs|
  {
    if rs != [] {
      NonEmptyContains(rs[1..], t);
      assert rs == [rs[0]] + rs[1..];
      ConsContains(rs[0], rs[1..], t);
      if !IsEmpty(rs[0]) {
        ConsContains(rs[0], NonEmpty(rs[1..]), t);
      }
    }
  }

  /** The non-empty ranges of a sequence whose non-empty ranges are apart form a valid set. */
  lemma {:induction false} NonEmptyValid(rs: seq<BoundedRange>)
    requires Apart(rs)
    ensures BoundedSets.Valid(BoundedSets.BoundedSet(NonEmpty(rs)))
    decreases |rs|
  {
    if rs != [] {
      assert Apart(rs[1..]) by {
        assert forall k | 0 <= k < |rs[1..]| :: rs[1..][k] == rs[k + 1];
      }
      NonEmptyValid(rs[1..]);
      if !IsEmpty(rs[0]) {
        var rest := NonEmpty(rs[1..]);
        forall y | y in rest ensures StartLt(rs[0].start, y.start) && !Intersects(rs[0], y) {
          var j :| 0 <= j < |rs[1..]| && rs[1..][j] == y;
          assert rs[j + 1] == y;
        }
        ConsValid(rs[0], BoundedSets.BoundedSet(rest));
      }
    }
  }

  /** Every piece replaced by its meet with c. */
  function Mapped(rs: seq<BoundedRange>, c: Clip): (ms: seq<BoundedRange>)
    ensures |ms| == |rs| && forall k | 0 <= k < |rs| :: ms[k] == MeetClip(rs[k], c)
  {
    seq(|rs|, k requires 0 <= k < |rs| => MeetClip(rs[k], c))
  }

  /** The meets of the pieces of a valid set are apart from each other. */
  lemma MappedApart(s: BoundedSets.BoundedSet, c: Clip)
    requires BoundedSets.Valid(s)
    ensures Apart(Mapped(s.ranges, c))
  {
    var ms := Mapped(s.ranges, c);
    forall i, j | 0 <= i < j < |ms| && !IsEmpty(ms[i]) && !IsEmpty(ms[j])
      ensures StartLt(ms[i].start, ms[j].start) && !Intersects(ms[i], ms[j])
    {
      NarrowedApart(s.ranges[i], s.ranges[j], ms[i], ms[j]);
    }
  }

  /**
   * The value of BoundedSet ∩ c: the values in both, and the invariant is kept
   * (intersection/bounded_set.rs:13-20,44-51,78-85).
   */
  function SetClip(s: BoundedSets.BoundedSet, c: Clip): (s': BoundedSets.BoundedSet)
    ensures forall t :: BoundedSets.Contains(s', t) <==> BoundedSets.Contains(s, t) && ClipContains(c, t)
    ensures BoundedSets.Valid(s) ==> BoundedSets.Valid(s')
    ensures |s'.ranges| <= |s.ranges|
  {
    var ms := Mapped(s.ranges, c);
    assert forall t :: BoundedSets.Contains(BoundedSets.BoundedSet(ms), t) <==>
      BoundedSets.Contains(s, t) && ClipContains(c, t) by {
      forall t ensures BoundedSets.Contains(BoundedSets.BoundedSet(ms), t) <==>
        BoundedSets.Contains(s, t) && ClipContains(c, t)
      {
        if BoundedSets.Contains(s, t) && ClipContains(c, t) {
          var i :| 0 <= i < |s.ranges| && Ranges.Contains(s.ranges[i], t);
          assert Ranges.Contains(ms[i], t);
        }
      }
    }
    var s' := BoundedSets.BoundedSet(NonEmpty(ms));
    assert forall t :: BoundedSets.Contains(s', t) <==> BoundedSets.Contains(BoundedSets.BoundedSet(ms), t) by {
      forall t ensures BoundedSets.Contains(s', t) <==> BoundedSets.Contains(BoundedSets.BoundedSet(ms), t) {
        NonEmptyContains(ms, t);
      }
    }
    assert BoundedSets.Valid(s) ==> BoundedSets.Valid(s') by {
      if BoundedSets.Valid(s) {
        MappedApart(s, c);
        NonEmptyValid(ms);
      }
    }
    s'
  }

  /** Each piece of a clipped set lies within a piece of the set it came from. */
  lemma SetClipWithin(s: BoundedSets.BoundedSet, c: Clip, y: BoundedRange)
    requires y in SetClip(s, c).ranges
    ensures exists k | 0 <= k < |s.ranges| :: Within(y, s.ranges[k])
  {
    var ms := Mapped(s.ranges, c);
    var k :| 0 <= k < |ms| && ms[k] == y;
    assert Within(y, s.ranges[k]);
  }

  /**
   * The three arms as the source runs them: overwrite each piece with its meet, in place,
   * then drop the empty ones.
   */
  method Clipped(s: BoundedSets.BoundedSet, c: Clip) returns (s': BoundedSets.BoundedSet)
    ensures s' == SetClip(s, c)
  {
    var ranges := s.ranges;
    for i := 0 to |ranges|
      invariant |ranges| == |s.ranges|
      invariant forall k | 0 <= k < |ranges| :: ranges[k] == if k < i then MeetClip(s.ranges[k], c) else s.ranges[k]
    {
      ranges := ranges[i := MeetClip(ranges[i], c)];
    }
    assert ranges == Mapped(s.ranges, c);
    s' := BoundedSets.BoundedSet(NonEmpty(ranges));
  }

  /** `retain` on a whole set: keeps membership, and a valid set is unchanged in meaning. */
  function Retained(s: BoundedSets.BoundedSet): (s': BoundedSets.BoundedSet)
    ensures forall t :: BoundedSets.Contains(s', t) <==> BoundedSets.Contains(s, t)
    ensures BoundedSets.Valid(s) ==> BoundedSets.Valid(s')
  {
    var s' := BoundedSets.BoundedSet(NonEmpty(s.ranges));
    assert forall t :: BoundedSets.Contains(s', t) <==> BoundedSets.Contains(s, t) by {
      forall t ensures BoundedSets.Contains(s', t) <==> BoundedSets.Contains(s, t) {
        NonEmptyContains(s.ranges, t);
      }
    }
    assert BoundedSets.Valid(s) ==> BoundedSets.Valid(s') by {
      if BoundedSets.Valid(s) {
        NonEmptyValid(s.ranges);
      }
    }
    s'
  }
}
