/**
 * Iteration over a BoundedSet (src/bounded_set.rs:32-43, 100-213) and over a LowerBoundedSet
 * (src/lower_bounded_set.rs:18-27).
 *
 * `BoundedSetIter` keeps a deque of per-range iterators. The per-range iterator type is not
 * part of this model; each one is represented by the sequence of values it has left, which for
 * a fresh one is `Elements` of its range, and its `len` is the length of that sequence.
 */
module BoundedSetIterators {
  import opened Bounds
  import opened Ranges
  import opened RangeMeets
  import BoundedSets
  import LowerBoundedSets
  import RangeIterators

  /** The values still to come from a deque of per-range iterators, front to back. */
  function Flatten(iters: seq<seq<int>>): seq<int>
  {
    if iters == [] then [] else iters[0] + Flatten(iters[1..])
  }

  lemma {:induction false} FlattenAppend(a: seq<seq<int>>, b: seq<seq<int>>)
    ensures Flatten(a + b) == Flatten(a) + Flatten(b)
    decreases |a|
  {
    if a == [] {
      assert a + b == b;
    } else {
      assert (a + b)[1..] == a[1..] + b;
      FlattenAppend(a[1..], b);
    }
  }

  /** Flatten seen from the back: everything but the last iterator, then the last one. */
  lemma FlattenBack(iters: seq<seq<int>>)
    requires iters != []
    ensures Flatten(iters) == Flatten(iters[..|iters| - 1]) + iters[|iters| - 1]
  {
    var n := |iters|;
    assert iters == iters[..n - 1] + [iters[n - 1]];
    FlattenAppend(iters[..n - 1], [iters[n - 1]]);
  }

  /** The per-range iterators of a set (`into_iter`, src/bounded_set.rs:38-42). */
  function Pieces(s: BoundedSets.BoundedSet): (iters: seq<seq<int>>)
    ensures |iters| == |s.ranges|
    ensures forall i | 0 <= i < |iters| :: iters[i] == Elements(s.ranges[i])
  {
    seq(|s.ranges|, i requires 0 <= i < |s.ranges| => Elements(s.ranges[i]))
  }

  /** Iterating a set yields exactly its members. */
  lemma {:induction false} PiecesYieldMembers(s: BoundedSets.BoundedSet, t: int)
    ensures t in Flatten(Pieces(s)) <==> BoundedSets.Contains(s, t)
    decreases |s.ranges|
  {
    if s.ranges != [] {
      var rest := BoundedSets.BoundedSet(s.ranges[1..]);
      assert Pieces(s)[1..] == Pieces(rest);
      PiecesYieldMembers(rest, t);
      assert BoundedSets.Remove(s.ranges, 0) == rest.ranges;
      BoundedSets.RemoveContains(s, 0, t);
    }
  }

  predicate Ascending(xs: seq<int>)
  {
    forall i, j | 0 <= i < j < |xs| :: xs[i] < xs[j]
  }

  /** Every value of an earlier stored range is below every value of a later one. */
  lemma EarlierPieceBelow(a: BoundedRange, b: BoundedRange, x: int, y: int)
    requires StartLt(a.start, b.start) && !Intersects(a, b)
    requires Ranges.Contains(a, x) && Ranges.Contains(b, y)
    ensures x < y
  {
  }

  /** Two ascending runs, the first wholly below the second, make one ascending run. */
  lemma AscendingConcat(xs: seq<int>, ys: seq<int>)
    requires Ascending(xs) && Ascending(ys)
    requires forall x, y | x in xs && y in ys :: x < y
    ensures Ascending(xs + ys)
  {
    var zs := xs + ys;
    forall i, j | 0 <= i < j < |zs| ensures zs[i] < zs[j] {
      if j < |xs| {
        assert zs[i] == xs[i] && zs[j] == xs[j];
      } else if i < |xs| {
        assert zs[i] == xs[i] && zs[j] == ys[j - |xs|];
        assert xs[i] in xs && ys[j - |xs|] in ys;
      } else {
        assert zs[i] == ys[i - |xs|] && zs[j] == ys[j - |xs|];
      }
    }
  }

  /** The first stored range lies wholly below every value of the later ones. */
  lemma FirstPieceBelowRest(s: BoundedSets.BoundedSet, x: int, y: int)
    requires BoundedSets.Valid(s) && s.ranges != []
    requires Ranges.Contains(s.ranges[0], x)
    requires y in Flatten(Pieces(BoundedSets.BoundedSet(s.ranges[1..])))
    ensures x < y
  {
    var rest := BoundedSets.BoundedSet(s.ranges[1..]);
    PiecesYieldMembers(rest, y);
    var j :| 0 <= j < |rest.ranges| && Ranges.Contains(rest.ranges[j], y);
    EarlierPieceBelow(s.ranges[0], s.ranges[j + 1], x, y);
  }

  /** The values of a valid set come out in strictly ascending order. */
  lemma {:induction false} PiecesAscending(s: BoundedSets.BoundedSet)
    requires BoundedSets.Valid(s)
    ensures Ascending(Flatten(Pieces(s)))
    decreases |s.ranges|
  {
    if s.ranges != [] {
      var rest := BoundedSets.BoundedSet(s.ranges[1..]);
      assert Pieces(s)[1..] == Pieces(rest);
      BoundedSets.RemoveValid(s, 0);
      assert BoundedSets.Remove(s.ranges, 0) == rest.ranges;
      PiecesAscending(rest);
      var head, tail := Elements(s.ranges[0]), Flatten(Pieces(rest));
      assert Flatten(Pieces(s)) == head + tail;
      forall x, y | x in head && y in tail ensures x < y {
        FirstPieceBelowRest(s, x, y);
      }
      AscendingConcat(head, tail);
    }
  }

  /** `BoundedSetIter` (src/bounded_set.rs:100-213). */
  class BoundedSetIter {
    var rangeIters: seq<seq<int>>

    /** `into_iter` (src/bounded_set.rs:38-42). */
    constructor (s: BoundedSets.BoundedSet)
      ensures rangeIters == Pieces(s)
    {
      rangeIters := Pieces(s);
    }

    function Remaining(): seq<int>
      reads this
    {
      Flatten(rangeIters)
    }

    /** `next` (src/bounded_set.rs:123-132): drop exhausted iterators at the front, then step the first. */
    method Next() returns (x: Option<int>)
      modifies this
      ensures old(Remaining()) == [] ==> x == None && Remaining() == []
      ensures old(Remaining()) != [] ==> x == Some(old(Remaining())[0]) && Remaining() == old(Remaining())[1..]
    {
      while |rangeIters| > 0 && |rangeIters[0]| == 0
        invariant Flatten(rangeIters) == old(Remaining())
        decreases |rangeIters|
      {
        rangeIters := rangeIters[1..];
      }
      if |rangeIters| == 0 {
        x := None;
      } else {
        var front := rangeIters[0];
        x := Some(front[0]);
        rangeIters := [front[1..]] + rangeIters[1..];
        assert Flatten(rangeIters) == front[1..] + Flatten(rangeIters[1..]);
      }
    }

    /** `next_back` (src/bounded_set.rs:187-197): drop exhausted iterators at the back, then step the last. */
    method NextBack() returns (x: Option<int>)
      modifies this
      ensures old(Remaining()) == [] ==> x == None && Remaining() == []
      ensures old(Remaining()) != [] ==>
        x == Some(old(Remaining())[|old(Remaining())| - 1]) &&
        Remaining() == old(Remaining())[..|old(Remaining())| - 1]
    {
      while |rangeIters| > 0 && |rangeIters[|rangeIters| - 1]| == 0
        invariant Flatten(rangeIters) == old(Remaining())
        decreases |rangeIters|
      {
        FlattenBack(rangeIters);
        rangeIters := rangeIters[..|rangeIters| - 1];
      }
      if |rangeIters| == 0 {
        x := None;
      } else {
        var n := |rangeIters|;
        var back := rangeIters[n - 1];
        FlattenBack(rangeIters);
        x := Some(back[|back| - 1]);
        rangeIters := rangeIters[..n - 1] + [back[..|back| - 1]];
        FlattenBack(rangeIters);
      }
    }

    /** `size_hint` (src/bounded_set.rs:134-137): the summed lengths, exact in both halves. */
    method SizeHint() returns (lower: nat, upper: Option<nat>)
      ensures lower == |Remaining()| && upper == Some(lower)
    {
      var size := 0;
      for i := 0 to |rangeIters|
        invariant size + |Flatten(rangeIters[i..])| == |Remaining()|
      {
        assert rangeIters[i..][1..] == rangeIters[i + 1..];
        size := size + |rangeIters[i]|;
      }
      assert rangeIters[|rangeIters|..] == [];
      lower, upper := size, Some(size);
    }

    /** `count` (src/bounded_set.rs:139-144): the exact length. */
    method Count() returns (n: nat)
      ensures n == |Remaining()|
    {
      var upper;
      n, upper := SizeHint();
    }

    /** `last` (src/bounded_set.rs:146-159): the back-most value, consuming the iterator. */
    method Last() returns (x: Option<int>)
      modifies this
      ensures old(Remaining()) == [] <==> x == None
      ensures x.Some? ==> x.value == old(Remaining())[|old(Remaining())| - 1]
    {
      while |rangeIters| > 0 && |rangeIters[|rangeIters| - 1]| == 0
        invariant Flatten(rangeIters) == old(Remaining())
        decreases |rangeIters|
      {
        FlattenBack(rangeIters);
        rangeIters := rangeIters[..|rangeIters| - 1];
      }
      if |rangeIters| == 0 {
        x := None;
      } else {
        var back := rangeIters[|rangeIters| - 1];
        FlattenBack(rangeIters);
        x := Some(back[|back| - 1]);
      }
    }

    /**
     * `nth` (src/bounded_set.rs:161-171): drop whole iterators while they are no longer than n,
     * then take the n-th value of the next. Yields the n-th remaining value, and leaves what
     * comes after it.
     */
    method Nth(n: nat) returns (x: Option<int>)
      modifies this
      ensures n < |old(Remaining())| ==> x == Some(old(Remaining())[n]) && Remaining() == old(Remaining())[n + 1..]
      ensures n >= |old(Remaining())| ==> x == None && Remaining() == []
    {
      var k: nat := n;
      while |rangeIters| > 0 && |rangeIters[0]| <= k
        invariant k <= n && n - k <= |old(Remaining())|
        invariant Flatten(rangeIters) == old(Remaining())[n - k..]
        decreases |rangeIters|
      {
        k := k - |rangeIters[0]|;
        rangeIters := rangeIters[1..];
      }
      if |rangeIters| == 0 {
        x := None;
      } else {
        var front := rangeIters[0];
        assert Flatten(rangeIters) == front + Flatten(rangeIters[1..]);
        x := Some(front[k]);
        rangeIters := [front[k + 1..]] + rangeIters[1..];
        assert Flatten(rangeIters) == front[k + 1..] + Flatten(rangeIters[1..]);
      }
    }

    /**
     * `nth_back` (src/bounded_set.rs:199-209): the same from the back. Yields the n-th value
     * counted from the end, and leaves what comes before it.
     */
    method NthBack(n: nat) returns (x: Option<int>)
      modifies this
      ensures n < |old(Remaining())| ==>
        x == Some(old(Remaining())[|old(Remaining())| - 1 - n]) &&
        Remaining() == old(Remaining())[..|old(Remaining())| - 1 - n]
      ensures n >= |old(Remaining())| ==> x == None && Remaining() == []
    {
      var k: nat := n;
      ghost var total := |old(Remaining())|;
      while |rangeIters| > 0 && |rangeIters[|rangeIters| - 1]| <= k
        invariant k <= n && n - k <= total
        invariant Flatten(rangeIters) == old(Remaining())[..total - (n - k)]
        decreases |rangeIters|
      {
        FlattenBack(rangeIters);
        k := k - |rangeIters[|rangeIters| - 1]|;
        rangeIters := rangeIters[..|rangeIters| - 1];
      }
      if |rangeIters| == 0 {
        x := None;
      } else {
        var m := |rangeIters|;
        var back := rangeIters[m - 1];
        FlattenBack(rangeIters);
        x := Some(back[|back| - 1 - k]);
        rangeIters := rangeIters[..m - 1] + [back[..|back| - 1 - k]];
        FlattenBack(rangeIters);
      }
    }

    /** `min` (src/bounded_set.rs:173-175): the first value. */
    method Min() returns (x: Option<int>)
      modifies this
      ensures old(Remaining()) == [] <==> x == None
      ensures x.Some? ==> x.value == old(Remaining())[0]
    {
      x := Next();
    }

    /** `max` (src/bounded_set.rs:177-179): the last value. */
    method Max() returns (x: Option<int>)
      modifies this
      ensures old(Remaining()) == [] <==> x == None
      ensures x.Some? ==> x.value == old(Remaining())[|old(Remaining())| - 1]
    {
      x := NextBack();
    }
  }

  /**
   * Iterating a LowerBoundedSet (src/lower_bounded_set.rs:18-27): the finite pieces first; once
   * they are used up, the tail, which never ends.
   */
  class LowerBoundedSetIter {
    const pieces: BoundedSetIter
    const tail: RangeIterators.LowerBoundedRangeIter

    constructor (s: LowerBoundedSets.LowerBoundedSet)
      ensures pieces.rangeIters == Pieces(s.ranges) && tail.start == s.tail.start
      ensures fresh(pieces) && fresh(tail)
    {
      pieces := new BoundedSetIter(s.ranges);
      tail := new RangeIterators.LowerBoundedRangeIter(s.tail);
    }

    /** `next` (src/lower_bounded_set.rs:22-26). */
    method Next() returns (x: Option<int>)
      modifies pieces, tail
      ensures x.Some?
      ensures old(pieces.Remaining()) != [] ==>
        x.value == old(pieces.Remaining())[0] && pieces.Remaining() == old(pieces.Remaining())[1..] &&
        tail.start == old(tail.start)
      ensures old(pieces.Remaining()) == [] ==>
        pieces.Remaining() == [] && tail.start == Shifted(old(tail.start), 1) &&
        LowerContains(LowerBoundedRange(old(tail.start)), x.value) &&
        x.value == if old(tail.start).Included? then old(tail.start).v else old(tail.start).v + 1
    {
      x := pieces.Next();
      if x.None? {
        x := tail.Next();
      }
    }
  }
}
