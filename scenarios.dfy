/**
 * The library's documented examples (src/lib.rs, src/unbounded_set.rs) and its complement and
 * iterator tests (src/test/complement.rs, src/test/iterator/), stated on the model with the
 * same inputs and the same expected answers.
 */
module Scenarios {
  import opened Bounds
  import opened Ranges
  import opened Shapes
  import BoundedSets
  import LowerBoundedSets
  import UpperBoundedSets
  import UnboundedSets
  import Algebra
  import ShapeComplements
  import BoundedSetIterators

  /** src/lib.rs:23-28: `(0..5) ∩ 3..` contains 4, and `(0..5) ∩ (5..10)` is empty. */
  lemma IntersectionExamples()
    ensures ShapeContains(Algebra.Intersection(StdRange(0, 5), StdRangeFrom(3)), 4)
    ensures ShapeIsEmpty(Algebra.Intersection(StdRange(0, 5), StdRange(5, 10)))
  {
  }

  /** src/lib.rs:84-85: `3..2` is empty and `0..5` is not. */
  lemma IsEmptyExamples()
    ensures Shapes.IsEmpty(StdRange(3, 2)) && !Shapes.IsEmpty(StdRange(0, 5))
  {
  }

  /** src/lib.rs:102-103: `(0..5).to_inner()` runs from Included 0 to Excluded 5. */
  lemma ToInnerExample()
    ensures ToInner(StdRange(0, 5)) == BoundedShape(BoundedRange(Included(0), Excluded(5)))
  {
  }

  /** src/lib.rs:115-116: `(0..5) ∩ (3..7)` runs from Included 3 to Excluded 5. */
  lemma IntersectionValueExample()
    ensures Algebra.Intersection(StdRange(0, 5), StdRange(3, 7)) == BoundedShape(BoundedRange(Included(3), Excluded(5)))
  {
  }

  /** src/lib.rs:132-133 and 150-151: `0..5` and `10..20` are disjoint; `..5` and `3..` intersect. */
  lemma DisjointExamples()
    ensures Algebra.Disjoint(StdRange(0, 5), StdRange(10, 20)) && !Algebra.Intersects(StdRange(0, 5), StdRange(10, 20))
    ensures Algebra.Intersects(StdRangeTo(5), StdRangeFrom(3)) && !Algebra.Disjoint(StdRangeTo(5), StdRangeFrom(3))
  {
    assert Shapes.Contains(StdRangeTo(5), 4) && Shapes.Contains(StdRangeFrom(3), 4);
  }

  /** src/lib.rs:186-189: `(..3) ∪ 5..` contains 0 and 5 but not 4. */
  lemma UnionExample()
    ensures var u := Algebra.Union(StdRangeTo(3), StdRangeFrom(5));
      Shapes.Contains(u, 0) && !Shapes.Contains(u, 4) && Shapes.Contains(u, 5)
  {
  }

  /**
   * src/unbounded_set.rs:13-18: `(..3) ∪ (5..10) ∪ 20..` holds 0, 7 and 42 but not 4 or 15.
   * The operands are fixed by the precondition rather than written in place, so that the
   * proof goes through the contracts of the unions and not their bodies.
   */
  lemma PiecewiseExample(a: Value, b: Value, c: Value)
    requires a == StdRangeTo(3) && b == StdRange(5, 10) && c == StdRangeFrom(20)
    ensures var u := Algebra.Union(Algebra.Union(a, b), c);
      Shapes.Contains(u, 0) && !Shapes.Contains(u, 4) && Shapes.Contains(u, 7)
      && !Shapes.Contains(u, 15) && Shapes.Contains(u, 42)
  {
    var ab := Algebra.Union(a, b);
    assert !Shapes.Contains(ab, 4);
    assert !Shapes.Contains(ab, 15);
  }

  /** src/test/complement.rs:6-24: `5..10` and `5..=10` have the head `..5` and a tail from 10. */
  lemma BoundedComplementExamples()
    ensures ShapeComplements.Complement(StdRange(5, 10)) ==
      UnboundedSetShape(UnboundedSets.New(UpperBoundedRange(Excluded(5)), LowerBoundedRange(Included(10))))
    ensures ShapeComplements.Complement(StdRangeInclusive(5, 10)) ==
      UnboundedSetShape(UnboundedSets.New(UpperBoundedRange(Excluded(5)), LowerBoundedRange(Excluded(10))))
  {
  }

  /** src/test/complement.rs:26-45: `..4` gives `4..`, `..=4` the range from Excluded 4, `2..` gives `..2`. */
  lemma HalfComplementExamples()
    ensures ShapeComplements.Complement(StdRangeTo(4)) == LowerShape(LowerBoundedRange(Included(4)))
    ensures ShapeComplements.Complement(StdRangeToInclusive(4)) == LowerShape(LowerBoundedRange(Excluded(4)))
    ensures ShapeComplements.Complement(StdRangeFrom(2)) == UpperShape(UpperBoundedRange(Excluded(2)))
  {
  }

  /** src/test/complement.rs:47-90: `..` and EmptyRange are each other's complement. */
  lemma FullComplementExamples()
    ensures ShapeComplements.Complement(StdRangeFull) == EmptyShape
    ensures ShapeComplements.Complement(Shaped(UnboundedShape)) == EmptyShape
    ensures ShapeComplements.Complement(Shaped(EmptyShape)) == UnboundedShape
  {
  }

  /**
   * src/test/complement.rs:92-97: the complement of `(1..3) ∪ (5..10)` holds what
   * `(..1) ∪ (3..5) ∪ 10..` holds. The operands are fixed by the precondition, as above.
   */
  lemma BoundedSetComplementExample(a: Value, b: Value, c: Value, d: Value, e: Value, t: int)
    requires a == StdRange(1, 3) && b == StdRange(5, 10)
    requires c == StdRangeTo(1) && d == StdRange(3, 5) && e == StdRangeFrom(10)
    ensures ShapeContains(ShapeComplements.Complement(Algebra.Union(a, b)), t) <==>
      Shapes.Contains(Algebra.Union(Algebra.Union(c, d), e), t)
  {
    var ab := Algebra.Union(a, b);
    ShapeComplements.ComplementSound(ab, t);
    var cd := Algebra.Union(c, d);
    assert Shapes.Contains(cd, t) <==> t < 1 || 3 <= t < 5;
    assert Shapes.Contains(ab, t) <==> 1 <= t < 3 || 5 <= t < 10;
  }

  /**
   * `(0..1) ∪ (3..4)` (src/test/iterator/bounded_set.rs:5): both ranges become sets and are
   * united as BoundedSet ∪ BoundedSet; the result keeps the two pieces in order.
   */
  lemma TwoPieceSet()
    ensures BoundedSets.WithSet(BoundedSets.FromRange(FromRange(0, 1)), BoundedSets.FromRange(FromRange(3, 4))) ==
      BoundedSets.BoundedSet([FromRange(0, 1), FromRange(3, 4)])
  {
  }

  /**
   * src/test/iterator/bounded_set.rs:4-58: iterating `(0..1) ∪ (3..4)` yields 0, 3 and then
   * None; its size hint is (2, Some 2), it counts 2, its last and its element 1 are 3, and
   * its minimum is 0.
   */
  method BoundedSetIterExample() returns (a: Option<int>, b: Option<int>, c: Option<int>,
    hint: (nat, Option<nat>), count: nat, last: Option<int>, nth: Option<int>, min: Option<int>)
    ensures a == Some(0) && b == Some(3) && c == None
    ensures hint == (2, Some(2)) && count == 2 && last == Some(3) && nth == Some(3) && min == Some(0)
  {
    TwoPieceSet();
    var s := BoundedSets.BoundedSet([FromRange(0, 1), FromRange(3, 4)]);
    assert BoundedSetIterators.Flatten(BoundedSetIterators.Pieces(s)) == [0, 3] by {
      var e0, e3 := Elements(FromRange(0, 1)), Elements(FromRange(3, 4));
      assert |e0| == 1 && e0[0] == 0 && |e3| == 1 && e3[0] == 3;
      assert BoundedSetIterators.Pieces(s) == [e0, e3];
      assert BoundedSetIterators.Flatten([e3]) == e3;
    }
    var it := new BoundedSetIterators.BoundedSetIter(s);
    a := it.Next();
    b := it.Next();
    c := it.Next();
    it := new BoundedSetIterators.BoundedSetIter(s);
    var lower, upper := it.SizeHint();
    hint := (lower, upper);
    it := new BoundedSetIterators.BoundedSetIter(s);
    count := it.Count();
    it := new BoundedSetIterators.BoundedSetIter(s);
    last := it.Last();
    it := new BoundedSetIterators.BoundedSetIter(s);
    nth := it.Nth(1);
    it := new BoundedSetIterators.BoundedSetIter(s);
    min := it.Min();
  }

  /** `(1..2) ∪ 4..` (src/test/iterator/lower_bounded_set.rs:10): the piece below the tail. */
  lemma PieceAndTail()
    ensures LowerBoundedSets.WithSet(LowerBoundedSets.FromLower(FromRangeFrom(4)), BoundedSets.FromRange(FromRange(1, 2))) ==
      LowerBoundedSets.LowerBoundedSet(BoundedSets.BoundedSet([FromRange(1, 2)]), FromRangeFrom(4))
  {
  }

  /** src/test/iterator/lower_bounded_set.rs:10-13: iterating `(1..2) ∪ 4..` yields 1, then 4. */
  method LowerBoundedSetIterExample() returns (a: Option<int>, b: Option<int>)
    ensures a == Some(1) && b == Some(4)
  {
    PieceAndTail();
    var s := LowerBoundedSets.LowerBoundedSet(BoundedSets.BoundedSet([FromRange(1, 2)]), FromRangeFrom(4));
    assert BoundedSetIterators.Flatten(BoundedSetIterators.Pieces(s.ranges)) == [1] by {
      var e1 := Elements(FromRange(1, 2));
      assert |e1| == 1 && e1[0] == 1;
      assert BoundedSetIterators.Pieces(s.ranges) == [e1];
    }
    var it := new BoundedSetIterators.LowerBoundedSetIter(s);
    a := it.Next();
    assert it.pieces.Remaining() == [] && it.tail.start == Included(4);
    b := it.Next();
  }

  /**
   * src/lib.rs:37-38: `(1..3) ∪ (5..7)`, collected, is [1, 2, 5, 6]: what a fresh iterator
   * over the united set has to yield.
   */
  lemma CollectExample()
    ensures BoundedSetIterators.Flatten(BoundedSetIterators.Pieces(
      BoundedSets.WithSet(BoundedSets.FromRange(FromRange(1, 3)), BoundedSets.FromRange(FromRange(5, 7))))) == [1, 2, 5, 6]
  {
    var s := BoundedSets.BoundedSet([FromRange(1, 3), FromRange(5, 7)]);
    assert BoundedSets.WithSet(BoundedSets.FromRange(FromRange(1, 3)), BoundedSets.FromRange(FromRange(5, 7))) == s;
    var e1, e5 := Elements(FromRange(1, 3)), Elements(FromRange(5, 7));
    assert e1 == [1, 2] && e5 == [5, 6];
    assert BoundedSetIterators.Pieces(s) == [e1, e5];
    assert BoundedSetIterators.Flatten([e5]) == e5;
  }

  /** `(1..3) ∪ 10..` (src/lib.rs:40): the piece below the tail. */
  lemma PieceBelowTail()
    ensures LowerBoundedSets.WithSet(LowerBoundedSets.FromLower(FromRangeFrom(10)), BoundedSets.FromRange(FromRange(1, 3))) ==
      LowerBoundedSets.LowerBoundedSet(BoundedSets.BoundedSet([FromRange(1, 3)]), FromRangeFrom(10))
  {
  }

  /** src/lib.rs:40-41: the first five values of `(1..3) ∪ 10..` are 1, 2, 10, 11, 12. */
  method TakeExample() returns (xs: seq<Option<int>>)
    ensures xs == [Some(1), Some(2), Some(10), Some(11), Some(12)]
  {
    PieceBelowTail();
    var s := LowerBoundedSets.LowerBoundedSet(BoundedSets.BoundedSet([FromRange(1, 3)]), FromRangeFrom(10));
    assert BoundedSetIterators.Flatten(BoundedSetIterators.Pieces(s.ranges)) == [1, 2] by {
      var e1 := Elements(FromRange(1, 3));
      assert e1 == [1, 2];
      assert BoundedSetIterators.Pieces(s.ranges) == [e1];
    }
    var it := new BoundedSetIterators.LowerBoundedSetIter(s);
    var a := it.Next();
    var b := it.Next();
    assert it.pieces.Remaining() == [] && it.tail.start == Included(10);
    var c := it.Next();
    var d := it.Next();
    var e := it.Next();
    xs := [a, b, c, d, e];
  }
}
