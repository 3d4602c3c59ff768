/** `Point`: an interval endpoint, a value tagged open or closed
    (prml/utilities/random_variable.py, class Point). The source's Point has no
    left/right side; ties between equal values are broken by the left operand alone. */
module Endpoints {
  import opened PyValues
  import opened ExtReals

  /** Anything a Point operator may be handed: another Point, a plain number, or some
      other object. Numbers and other objects behave alike in every operator. */
  datatype Operand = OfPoint(p: Point) | OfNumber(x: ExtReal) | OfOther

  /** `Point(point, is_open=True)`; the object is never mutated, so it is a value. */
  datatype Point = Point(value: ExtReal, isOpen: bool) {

    /** `is_closed`: the negation of `is_open`, which `status` reports as "closed". */
    predicate IsClosed()
      ensures IsClosed() <==> Status() == "closed"
      ensures IsClosed() != isOpen
    {
      !isOpen
    }

    function Status(): (s: string)
      ensures s == "open" <==> isOpen
      ensures s == "closed" <==> !isOpen
    {
      if isOpen then "open" else "closed"
    }

    /** `__eq__`: compares value and openness; any non-Point operand raises. */
    function Eq(other: Operand): (r: Result<bool>)
      ensures r.Ok? <==> other.OfPoint?
      ensures r.Ok? ==> (r.value <==> this == other.p)
    {
      match other
      case OfPoint(q) => Ok(q.value == value && q.isOpen == isOpen)
      case _ => Raised
    }

    /** `__gt__`: any non-Point operand raises. */
    function Gt(other: Operand): (r: Result<bool>)
      ensures r.Ok? <==> other.OfPoint?
      ensures r.Ok? ==> r.value == Greater(this, other.p)
    {
      match other
      case OfPoint(q) => Ok(Greater(this, q))
      case _ => Raised
    }

    /** `__lt__`: any non-Point operand raises. */
    function Lt(other: Operand): (r: Result<bool>)
      ensures r.Ok? <==> other.OfPoint?
      ensures r.Ok? ==> r.value == Less(this, other.p)
    {
      match other
      case OfPoint(q) => Ok(Less(this, q))
      case _ => Raised
    }

    /** `__ge__`: `self > other or self == other`; for a non-Point operand the method
        falls off its end and returns None instead of raising. */
    function Ge(other: Operand): (r: Truthy)
      ensures r.NoneValue? <==> !other.OfPoint?
      ensures other.OfPoint? ==> (r.IsTrue() <==> Greater(this, other.p) || this == other.p)
    {
      match other
      case OfPoint(q) => Bool(Greater(this, q) || this == q)
      case _ => NoneValue
    }

    /** `__le__`: `self < other or self == other`; None for a non-Point operand. */
    function Le(other: Operand): (r: Truthy)
      ensures r.NoneValue? <==> !other.OfPoint?
      ensures other.OfPoint? ==> (r.IsTrue() <==> Less(this, other.p) || this == other.p)
    {
      match other
      case OfPoint(q) => Bool(Less(this, q) || this == q)
      case _ => NoneValue
    }
  }

  /** The Point branch of `__lt__`: at equal values the answer is the left operand's openness. */
  predicate Less(a: Point, b: Point) {
    if b.value == a.value then a.isOpen else ExtReals.Lt(a.value, b.value)
  }

  /** The Point branch of `__gt__`: at equal values the answer is the left operand's closedness. */
  predicate Greater(a: Point, b: Point) {
    if b.value == a.value then a.IsClosed() else ExtReals.Lt(b.value, a.value)
  }

  predicate LessEq(a: Point, b: Point) {
    Less(a, b) || a == b
  }

  predicate GreaterEq(a: Point, b: Point) {
    Greater(a, b) || a == b
  }

  /** `x <= p` where `x` may be any operand: a Point's own `__le__`, or else Python's
      reflected `p.__ge__(x)`, which yields None. */
  function OperandLe(x: Operand, p: Point): (r: Truthy)
    ensures r.NoneValue? <==> !x.OfPoint?
    ensures x.OfPoint? ==> (r.IsTrue() <==> LessEq(x.p, p))
  {
    match x
    case OfPoint(q) => q.Le(OfPoint(p))
    case _ => p.Ge(x)
  }

  // ----- The order on Points, case by case -----

  /** When the values differ, `<`, `>`, `<=` and `>=` are the numeric order of the values,
      and exactly one of `<`, `>` holds. */
  lemma DistinctValuesOrder(a: Point, b: Point)
    requires a.value != b.value
    ensures Less(a, b) <==> ExtReals.Lt(a.value, b.value)
    ensures Greater(a, b) <==> ExtReals.Lt(b.value, a.value)
    ensures LessEq(a, b) <==> Less(a, b)
    ensures GreaterEq(a, b) <==> Greater(a, b)
    ensures Less(a, b) != Greater(a, b)
  {
  }

  /** At a tie `a < b` is `a`'s openness and `a > b` its closedness, whatever `b` is;
      so exactly one of them holds. */
  lemma TieDecidedByLeftOperand(a: Point, b: Point, c: Point)
    requires a.value == b.value == c.value
    ensures Less(a, b) <==> a.isOpen
    ensures Greater(a, b) <==> a.IsClosed()
    ensures Less(a, b) == Less(a, c) && Greater(a, b) == Greater(a, c)
    ensures Less(a, b) != Greater(a, b)
  {
  }

  /** `<` is not a strict order: an open Point is below itself, a closed one above itself. */
  lemma PointComparedWithItself(a: Point)
    ensures Less(a, a) <==> a.isOpen
    ensures Greater(a, a) <==> a.IsClosed()
    ensures LessEq(a, a) && GreaterEq(a, a)
  {
  }

  /** At a tie `<=` fails only for a closed left operand against an open right one,
      and `>=` only for an open left operand against a closed right one. */
  lemma NonStrictAtTie(a: Point, b: Point)
    requires a.value == b.value
    ensures !LessEq(a, b) <==> a.IsClosed() && b.isOpen
    ensures !GreaterEq(a, b) <==> a.isOpen && b.IsClosed()
  {
  }

  /** Equality is Python's field comparison and is symmetric. */
  lemma EqMatchesValueAndOpenness(a: Point, b: Point)
    ensures a.Eq(OfPoint(b)) == Ok(a.value == b.value && a.isOpen == b.isOpen)
    ensures a.Eq(OfPoint(b)) == b.Eq(OfPoint(a))
  {
  }
}
