/** `Interval`: a pair of Points (prml/utilities/random_variable.py, class Interval).
    Intervals are never mutated; `union` and `intersect` build new ones. */
module Intervals {
  import opened PyValues
  import opened ExtReals
  import opened Endpoints
  import opened Folds

  /** What an Interval operation may be handed: an Interval or any other object. */
  datatype IntervalOperand = OfInterval(i: Interval) | NotInterval

  /** The two lists `split` returns: intervals disjoint from `self`, and those that meet it. */
  datatype Partition = Partition(disjoint: seq<Interval>, overlapping: seq<Interval>)

  /** `Interval(lower_point, upper_point)`; the `empty` attribute is derived, so it is a predicate. */
  datatype Interval = Interval(lower: Point, upper: Point) {

    /** `empty`: `lower >= upper or lower.value == upper.value`, which is the plain numeric
        test `lower.value >= upper.value`; openness plays no part. */
    predicate Empty()
      ensures Empty() <==> !ExtReals.Lt(lower.value, upper.value)
    {
      ExtReals.Trichotomy(lower.value, upper.value);
      GreaterEq(lower, upper) || lower.value == upper.value
    }

    /** `is_closed`: true for an empty interval; an interval with an open endpoint is
        closed only when its values cross. */
    predicate IsClosed()
      ensures IsClosed() <==> !ExtReals.Lt(lower.value, upper.value) || (lower.IsClosed() && upper.IsClosed())
      ensures (lower.isOpen || upper.isOpen) ==> (IsClosed() <==> Empty())
    {
      if Empty() then true else lower.IsClosed() && upper.IsClosed()
    }

    /** `is_open`: true for an empty interval; an interval with a closed endpoint is
        open only when its values cross. */
    predicate IsOpen()
      ensures IsOpen() <==> !ExtReals.Lt(lower.value, upper.value) || (lower.isOpen && upper.isOpen)
      ensures (lower.IsClosed() || upper.IsClosed()) ==> (IsOpen() <==> Empty())
    {
      if Empty() then true else lower.isOpen && upper.isOpen
    }

    /** `state`: how the interval is classified; an empty interval is "true and false". */
    function State(): (s: string)
      ensures s == "true and false" <==> Empty()
      ensures s == "open" <==> !Empty() && lower.isOpen && upper.isOpen
      ensures s == "closed" <==> !Empty() && lower.IsClosed() && upper.IsClosed()
      ensures s == "half open" <==> !Empty() && lower.isOpen != upper.isOpen
    {
      if Empty() then "true and false"
      else if IsOpen() then "open"
      else if IsClosed() then "closed"
      else "half open"
    }

    /** `__eq__`: equal bounds, or both empty; a non-Interval operand raises. */
    function Eq(other: IntervalOperand): (r: Result<bool>)
      ensures r.Ok? <==> other.OfInterval?
      ensures r.Ok? ==> (r.value <==> this == other.i || (Empty() && other.i.Empty()))
    {
      match other
      case OfInterval(o) =>
        var same := lower.Eq(OfPoint(o.lower)).value && upper.Eq(OfPoint(o.upper)).value;
        Ok(same || (Empty() && o.Empty()))
      case NotInterval => Raised
    }

    /** `contains(x)`: the chain `lower <= x <= upper`. For anything but a Point the first
        comparison is None, so the chain is None; the `low_cmp` lambdas are never used. */
    function Contains(x: Operand): (r: Truthy)
      ensures !x.OfPoint? ==> r == NoneValue
      ensures x.OfPoint? ==> r == Bool(LessEq(lower, x.p) && LessEq(x.p, upper))
    {
      var low := lower.Le(x);
      if !low.IsTrue() then low else OperandLe(x, upper)
    }

    /** `_intersects(other)`: the endpoint test, or'ed with four `contains` calls on plain
        numbers. Those calls are None, so the result is True or None, never False. */
    function Intersects(other: IntervalOperand): (r: Result<Truthy>)
      ensures r.Ok? <==> other.OfInterval?
      ensures r.Ok? ==> r.value == if Overlap(this, other.i) then Bool(true) else NoneValue
    {
      match other
      case OfInterval(o) =>
        var endpoints := And(lower.Le(OfPoint(o.upper)), o.lower.Le(OfPoint(upper)));
        Ok(Or(Or(Or(Or(endpoints,
                       o.Contains(OfNumber(lower.value))),
                    o.Contains(OfNumber(upper.value))),
                 Contains(OfNumber(o.lower.value))),
              Contains(OfNumber(o.upper.value))))
      case NotInterval => Raised
    }
  }

  /** The default interval `Interval()`: open at both infinities. */
  const Universal := Interval(Point(NegInf, true), Point(PosInf, true))

  /** The endpoint test that decides `_intersects`, under Point order. */
  predicate Overlap(a: Interval, b: Interval) {
    LessEq(a.lower, b.upper) && LessEq(b.lower, a.upper)
  }

  predicate AllIntervals(ops: seq<IntervalOperand>) {
    forall k :: 0 <= k < |ops| ==> ops[k].OfInterval?
  }

  function Unwrap(ops: seq<IntervalOperand>): (r: seq<Interval>)
    requires AllIntervals(ops)
    ensures |r| == |ops| && forall k :: 0 <= k < |ops| ==> r[k] == ops[k].i
  {
    seq(|ops|, k requires 0 <= k < |ops| => ops[k].i)
  }

  function Lowers(s: seq<Interval>): (r: seq<Point>)
    ensures |r| == |s| && forall k :: 0 <= k < |s| ==> r[k] == s[k].lower
  {
    seq(|s|, k requires 0 <= k < |s| => s[k].lower)
  }

  function Uppers(s: seq<Interval>): (r: seq<Point>)
    ensures |r| == |s| && forall k :: 0 <= k < |s| ==> r[k] == s[k].upper
  {
    seq(|s|, k requires 0 <= k < |s| => s[k].upper)
  }

  /** `split(*others)`: each operand is sent to the second list when `_intersects` is True
      and to the first when it is False; a None answer makes the tuple index raise, and a
      non-Interval operand makes `_intersects` raise. So a `split` that returns has put
      every operand, in order, into the second list. */
  method Split(self: Interval, others: seq<IntervalOperand>) returns (r: Result<Partition>)
    ensures r.Ok? <==> forall k :: 0 <= k < |others| ==> others[k].OfInterval? && Overlap(self, others[k].i)
    ensures r.Ok? ==> r.value.disjoint == [] && r.value.overlapping == Unwrap(others)
  {
    var disjoint, overlapping := [], [];
    var k := 0;
    while k < |others|
      invariant 0 <= k <= |others|
      invariant forall j :: 0 <= j < k ==> others[j].OfInterval? && Overlap(self, others[j].i)
      invariant disjoint == []
      invariant |overlapping| == k && forall j :: 0 <= j < k ==> overlapping[j] == others[j].i
    {
      var answer := self.Intersects(others[k]);
      if answer.Raised? {
        return Raised;
      }
      var interval := others[k].i;
      if answer.value.NoneValue? {
        return Raised;
      } else if answer.value.b {
        overlapping := overlapping + [interval];
      } else {
        disjoint := disjoint + [interval];
      }
      k := k + 1;
    }
    return Ok(Partition(disjoint, overlapping));
  }

  /** `union(*others)`: with no operands, `[self]`; otherwise every operand must pass `split`,
      and the result is one interval from the `min` of the lowers to the `max` of the uppers
      of `others + [self]`. */
  method Union(self: Interval, others: seq<IntervalOperand>) returns (r: Result<seq<Interval>>)
    ensures r.Ok? <==> forall k :: 0 <= k < |others| ==> others[k].OfInterval? && Overlap(self, others[k].i)
    ensures r.Ok? && |others| == 0 ==> r.value == [self]
    ensures r.Ok? && |others| > 0 ==>
      var merged := Unwrap(others) + [self];
      r.value == [Interval(PyMin(Lowers(merged)), PyMax(Uppers(merged)))]
    ensures r.Ok? && |others| > 0 ==>
      var merged := Unwrap(others) + [self];
      forall k :: 0 <= k < |merged| ==>
        !ExtReals.Lt(merged[k].lower.value, r.value[0].lower.value) &&
        !ExtReals.Lt(r.value[0].upper.value, merged[k].upper.value)
  {
    var parts := Split(self, others);
    if parts.Raised? {
      return Raised;
    }
    var nonIntersections, intersections := parts.value.disjoint, parts.value.overlapping;
    if |intersections| > 0 {
      intersections := intersections + [self];
      var lowers, uppers := Lowers(intersections), Uppers(intersections);
      nonIntersections := nonIntersections + [Interval(PyMin(lowers), PyMax(uppers))];
    } else {
      nonIntersections := nonIntersections + [self];
    }
    return Ok(nonIntersections);
  }

  /** `intersect(*others)`: builds `others + [self]`, reads every element's `lower` and `upper`
      (which raises for a non-Interval), and returns the interval from the `max` of the lowers
      to the `min` of the uppers. It always returns an Interval, empty when the bounds cross. */
  method Intersect(self: Interval, others: seq<IntervalOperand>) returns (r: Result<Interval>)
    ensures r.Ok? <==> AllIntervals(others)
    ensures r.Ok? ==>
      var all := Unwrap(others) + [self];
      r.value == Interval(PyMax(Lowers(all)), PyMin(Uppers(all)))
    ensures r.Ok? ==>
      var all := Unwrap(others) + [self];
      (forall k :: 0 <= k < |all| ==>
        !ExtReals.Lt(r.value.lower.value, all[k].lower.value) &&
        !ExtReals.Lt(all[k].upper.value, r.value.upper.value)) &&
      (r.value.Empty() <==>
        exists j, k :: 0 <= j < |all| && 0 <= k < |all| &&
          !ExtReals.Lt(all[j].lower.value, all[k].upper.value))
  {
    var all := others + [OfInterval(self)];
    var lowers, uppers := [], [];
    for k := 0 to |all|
      invariant |lowers| == k && |uppers| == k
      invariant forall j :: 0 <= j < k ==> all[j].OfInterval?
      invariant forall j :: 0 <= j < k ==> lowers[j] == all[j].i.lower && uppers[j] == all[j].i.upper
    {
      if all[k].NotInterval? {
        return Raised;
      }
      lowers := lowers + [all[k].i.lower];
      uppers := uppers + [all[k].i.upper];
    }
    assert forall j :: 0 <= j < |others| ==> others[j] == all[j];
    ghost var ivs := Unwrap(others) + [self];
    assert lowers == Lowers(ivs) && uppers == Uppers(ivs);
    r := Ok(Interval(PyMax(lowers), PyMin(uppers)));
    var lo, hi := PyMax(lowers), PyMin(uppers);
    if r.value.Empty() {
      var j :| 0 <= j < |lowers| && lowers[j] == lo;
      var k :| 0 <= k < |uppers| && uppers[k] == hi;
      assert !ExtReals.Lt(ivs[j].lower.value, ivs[k].upper.value);
    } else {
      forall j, k | 0 <= j < |ivs| && 0 <= k < |ivs|
        ensures ExtReals.Lt(ivs[j].lower.value, ivs[k].upper.value)
      {
        assert lowers[j] == ivs[j].lower && uppers[k] == ivs[k].upper;
        Trichotomy(lowers[j].value, lo.value);
        Transitive(lowers[j].value, lo.value, hi.value);
        Trichotomy(hi.value, uppers[k].value);
        Transitive(lowers[j].value, hi.value, uppers[k].value);
      }
    }
  }
  // ----- Properties of classification and equality -----

  /** Only an empty interval is both open and closed; otherwise each classification
      is the conjunction over the two endpoints. */
  lemma OpenAndClosedExactlyWhenEmpty(a: Interval)
    ensures a.IsOpen() && a.IsClosed() <==> a.Empty()
    ensures !a.Empty() ==> (a.IsOpen() <==> a.lower.isOpen && a.upper.isOpen)
    ensures !a.Empty() ==> (a.IsClosed() <==> a.lower.IsClosed() && a.upper.IsClosed())
  {
  }

  /** Any two empty intervals are equal, whatever their bounds. */
  lemma EmptiesAreEqual(a: Interval, b: Interval)
    requires a.Empty() && b.Empty()
    ensures a.Eq(OfInterval(b)) == Ok(true)
  {
  }

  /** Interval equality is an equivalence relation on Intervals. */
  lemma EqIsEquivalence(a: Interval, b: Interval, c: Interval)
    ensures a.Eq(OfInterval(a)) == Ok(true)
    ensures a.Eq(OfInterval(b)) == b.Eq(OfInterval(a))
    ensures a.Eq(OfInterval(b)) == Ok(true) && b.Eq(OfInterval(c)) == Ok(true) ==>
      a.Eq(OfInterval(c)) == Ok(true)
  {
  }

  /** The default interval is the open, non-empty interval over the whole line. */
  lemma UniversalIsOpen()
    ensures !Universal.Empty() && Universal.State() == "open"
  {
  }
}
