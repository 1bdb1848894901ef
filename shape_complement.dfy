/**
 * `complement` over every operand (src/complement.rs, src/implementations/complement/). A
 * standard range is complemented through its inner shape; EmptyRange and UnboundedRange
 * swap, and each other shape has the complement of its own type.
 */
module ShapeComplements {
  import opened Shapes
  import Complements

  /**
   * `complement` of a value: EmptyRange has UnboundedRange (complement/empty_range.rs),
   * UnboundedRange and `..` have EmptyRange (complement/unbounded_range.rs,
   * complement/range_full.rs), a standard range goes through its inner shape
   * (complement/range.rs and the other standard-range files), and each library shape has the
   * complement of its own type.
   */
  function Complement(v: Value): (x: Shape)
    ensures ToInner(v).EmptyShape? <==> x.UnboundedShape?
    ensures ToInner(v).UnboundedShape? <==> x.EmptyShape?
  {
    match ToInner(v)
    case EmptyShape => UnboundedShape
    case UnboundedShape => EmptyShape
    case BoundedShape(r) => UnboundedSetShape(Complements.BrComplement(r))
    case LowerShape(l) => UpperShape(Complements.LbrComplement(l))
    case UpperShape(u) => LowerShape(Complements.UbrComplement(u))
    case BoundedSetShape(s) => UnboundedSetShape(Complements.BsComplement(s))
    case LowerSetShape(s) => UpperSetShape(Complements.LbsComplement(s))
    case UpperSetShape(s) => LowerSetShape(Complements.UbsComplement(s))
    case UnboundedSetShape(s) => BoundedSetShape(Complements.UsComplement(s))
  }

  /**
   * The complement holds exactly the values the operand does not (src/complement.rs:6), and
   * is a valid set whatever the operand.
   */
  lemma ComplementSound(v: Value, t: int)
    ensures ShapeContains(Complement(v), t) <==> !Shapes.Contains(v, t)
    ensures ShapeValid(Complement(v))
  {
    match ToInner(v)
    case EmptyShape =>
    case UnboundedShape =>
    case BoundedShape(_) =>
    case LowerShape(_) =>
    case UpperShape(_) =>
    case BoundedSetShape(_) =>
    case LowerSetShape(_) =>
    case UpperSetShape(_) =>
    case UnboundedSetShape(_) =>
  }

  /** Complementing twice keeps exactly the values of the operand. */
  lemma ComplementTwice(v: Value, t: int)
    ensures ShapeContains(Complement(Shaped(Complement(v))), t) <==> Shapes.Contains(v, t)
  {
    ComplementSound(v, t);
    ComplementSound(Shaped(Complement(v)), t);
  }
}
