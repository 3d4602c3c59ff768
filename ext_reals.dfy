/** The values an endpoint can hold: a real number or one of the two infinities
    (the default interval runs from float("-inf") to float("inf")). */
module ExtReals {

  datatype ExtReal = NegInf | Fin(r: real) | PosInf

  /** Python's `<` on floats, restricted to non-NaN values. */
  predicate Lt(a: ExtReal, b: ExtReal) {
    match a
    case NegInf => !b.NegInf?
    case Fin(x) => b.PosInf? || (b.Fin? && x < b.r)
    case PosInf => false
  }

  /** Exactly one of `a < b`, `a == b`, `b < a` holds. */
  lemma Trichotomy(a: ExtReal, b: ExtReal)
    ensures Lt(a, b) || a == b || Lt(b, a)
    ensures !(Lt(a, b) && Lt(b, a)) && !Lt(a, a)
  {
  }

  lemma Transitive(a: ExtReal, b: ExtReal, c: ExtReal)
    ensures Lt(a, b) && Lt(b, c) ==> Lt(a, c)
    ensures !Lt(b, a) && !Lt(c, b) ==> !Lt(c, a)
  {
  }
}
