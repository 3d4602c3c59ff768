/** Python values the interval code produces and passes around: the outcome of a call
    (a value or a propagated exception) and the values used as conditions, which may be None. */
module PyValues {

  /** How a call ends: with a value, or by raising. The source raises NotImplementedError,
      TypeError and AttributeError; none of them is ever caught, so one failure case suffices. */
  datatype Result<T> = Ok(value: T) | Raised

  /** A value used in a boolean context: a bool, or None (which is falsy). */
  datatype Truthy = Bool(b: bool) | NoneValue {
    predicate IsTrue() {
      Bool? && b
    }
  }

  /** Python's `a and b`: `a` when `a` is falsy, otherwise `b`. */
  function And(a: Truthy, b: Truthy): (r: Truthy)
    ensures r.IsTrue() <==> a.IsTrue() && b.IsTrue()
    ensures r == a || r == b
  {
    if a.IsTrue() then b else a
  }

  /** Python's `a or b`: `a` when `a` is truthy, otherwise `b`. */
  function Or(a: Truthy, b: Truthy): (r: Truthy)
    ensures r.IsTrue() <==> a.IsTrue() || b.IsTrue()
    ensures r == a || r == b
  {
    if a.IsTrue() then a else b
  }
}
