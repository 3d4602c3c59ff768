/** Corrected counterparts of the parts of random_variable.py whose behaviour departs from
    what the code evidently intends, each beside a lemma that exhibits the departure in the
    as-written model. The as-written members in the other modules remain the model of the code. */
module Corrections {
  import opened PyValues
  import opened ExtReals
  import opened Endpoints
  import opened Folds
  import opened Intervals

  // ----- Membership of a plain number -----

  /** `v` is on the inner side of the lower endpoint `p`: above it, or at it when `p` is closed. */
  predicate AdmitsAbove(p: Point, v: ExtReal) {
    if p.isOpen then ExtReals.Lt(p.value, v) else !ExtReals.Lt(v, p.value)
  }

  /** `v` is on the inner side of the upper endpoint `p`: below it, or at it when `p` is closed. */
  predicate AdmitsBelow(p: Point, v: ExtReal) {
    if p.isOpen then ExtReals.Lt(v, p.value) else !ExtReals.Lt(p.value, v)
  }

  /** Membership of a number as `contains` intends it: the unused lambdas at lines 94-97
      compare with `<` against an open lower endpoint and `<=` against a closed one. */
  function ContainsValue(i: Interval, v: ExtReal): (r: bool)
    ensures r ==> !ExtReals.Lt(v, i.lower.value) && !ExtReals.Lt(i.upper.value, v)
  {
    AdmitsAbove(i.lower, v) && AdmitsBelow(i.upper, v)
  }

  /** For an interval whose lower value is below its upper value, a closed endpoint is a member and an open one is
      not, while the as-written `contains` admits neither. */
  lemma EndpointMembership(a: ExtReal, b: ExtReal, lowerOpen: bool, upperOpen: bool)
    requires ExtReals.Lt(a, b)
    ensures var i := Interval(Point(a, lowerOpen), Point(b, upperOpen));
      (ContainsValue(i, a) <==> !lowerOpen) && (ContainsValue(i, b) <==> !upperOpen) &&
      !i.Contains(OfNumber(a)).IsTrue() && !i.Contains(OfNumber(b)).IsTrue()
  {
  }

  /** The closed interval [0, 2] as written does not contain 0. */
  lemma ClosedEndpointNotContained()
    ensures var closed := Interval(Point(Fin(0.0), false), Point(Fin(2.0), false));
      closed.Contains(OfNumber(Fin(0.0))) == NoneValue && ContainsValue(closed, Fin(0.0))
  {
  }
  // ----- Folds over endpoints and the values they admit -----

  /** The order lower endpoints need: an open lower endpoint at `v` admits only values above
      `v`, so it lies above a closed one at `v`. Point's own `<` has no notion of side and
      puts the open one below. */
  predicate LowerBelow(a: Point, b: Point) {
    if a.value == b.value then a.IsClosed() && b.isOpen else ExtReals.Lt(a.value, b.value)
  }

  predicate LowerAbove(a: Point, b: Point) {
    LowerBelow(b, a)
  }

  /** The loosest of a list of lower endpoints. */
  function LowerMin(s: seq<Point>): (r: Point)
    requires |s| > 0
  {
    Reduce(s, LowerBelow)
  }

  /** The tightest of a list of lower endpoints. */
  function LowerMax(s: seq<Point>): (r: Point)
    requires |s| > 0
  {
    Reduce(s, LowerAbove)
  }

  /** One step of each scan: the point kept admits a value exactly when both points do
      (the tightening scans) or when either does (the loosening scans). */
  lemma LowerAboveStep(x: Point, running: Point, v: ExtReal)
    ensures AdmitsAbove(if LowerAbove(x, running) then x else running, v) <==>
      AdmitsAbove(x, v) && AdmitsAbove(running, v)
  {
  }

  lemma LowerBelowStep(x: Point, running: Point, v: ExtReal)
    ensures AdmitsAbove(if LowerBelow(x, running) then x else running, v) <==>
      AdmitsAbove(x, v) || AdmitsAbove(running, v)
  {
  }

  lemma LessStep(x: Point, running: Point, v: ExtReal)
    ensures AdmitsBelow(if Less(x, running) then x else running, v) <==>
      AdmitsBelow(x, v) && AdmitsBelow(running, v)
  {
  }

  lemma GreaterStep(x: Point, running: Point, v: ExtReal)
    ensures AdmitsBelow(if Greater(x, running) then x else running, v) <==>
      AdmitsBelow(x, v) || AdmitsBelow(running, v)
  {
  }

  /** The tightest lower endpoint admits a value exactly when every one of them does. */
  lemma {:induction false} LowerMaxAdmits(s: seq<Point>, v: ExtReal)
    requires |s| > 0
    ensures AdmitsAbove(LowerMax(s), v) <==> forall i :: 0 <= i < |s| ==> AdmitsAbove(s[i], v)
  {
    if |s| > 1 {
      var pre := s[..|s| - 1];
      LowerMaxAdmits(pre, v);
      ReduceStep(s, LowerAbove);
      LowerAboveStep(s[|s| - 1], LowerMax(pre), v);
      assert forall i :: 0 <= i < |pre| ==> s[i] == pre[i];
    }
  }

  /** The loosest lower endpoint admits a value exactly when some one of them does. */
  lemma {:induction false} LowerMinAdmits(s: seq<Point>, v: ExtReal)
    requires |s| > 0
    ensures AdmitsAbove(LowerMin(s), v) <==> exists i :: 0 <= i < |s| && AdmitsAbove(s[i], v)
  {
    if |s| > 1 {
      var pre := s[..|s| - 1];
      LowerMinAdmits(pre, v);
      ReduceStep(s, LowerBelow);
      LowerBelowStep(s[|s| - 1], LowerMin(pre), v);
      assert forall i :: 0 <= i < |pre| ==> s[i] == pre[i];
      if AdmitsAbove(LowerMin(pre), v) {
        var i :| 0 <= i < |pre| && AdmitsAbove(pre[i], v);
        assert AdmitsAbove(s[i], v);
      }
    }
  }

  /** Python's `min` picks an upper endpoint that admits a value exactly when every one does. */
  lemma {:induction false} PyMinAdmits(s: seq<Point>, v: ExtReal)
    requires |s| > 0
    ensures AdmitsBelow(PyMin(s), v) <==> forall i :: 0 <= i < |s| ==> AdmitsBelow(s[i], v)
  {
    if |s| > 1 {
      var pre := s[..|s| - 1];
      PyMinAdmits(pre, v);
      ReduceStep(s, Less);
      LessStep(s[|s| - 1], PyMin(pre), v);
      assert forall i :: 0 <= i < |pre| ==> s[i] == pre[i];
    }
  }

  /** Python's `max` picks an upper endpoint that admits a value exactly when some one does. */
  lemma {:induction false} PyMaxAdmits(s: seq<Point>, v: ExtReal)
    requires |s| > 0
    ensures AdmitsBelow(PyMax(s), v) <==> exists i :: 0 <= i < |s| && AdmitsBelow(s[i], v)
  {
    if |s| > 1 {
      var pre := s[..|s| - 1];
      PyMaxAdmits(pre, v);
      ReduceStep(s, Greater);
      GreaterStep(s[|s| - 1], PyMax(pre), v);
      assert forall i :: 0 <= i < |pre| ==> s[i] == pre[i];
      if AdmitsBelow(PyMax(pre), v) {
        var i :| 0 <= i < |pre| && AdmitsBelow(pre[i], v);
        assert AdmitsBelow(s[i], v);
      }
    }
  }
  // ----- intersect -----

  /** `intersect` with the lower bound taken as the tightest lower endpoint; the upper bound
      is Python's `min` of the uppers, as in the source. */
  function IntersectionOf(ivs: seq<Interval>): (r: Interval)
    requires |ivs| > 0
  {
    Interval(LowerMax(Lowers(ivs)), PyMin(Uppers(ivs)))
  }

  /** The corrected intersection holds a value exactly when every operand holds it. */
  lemma IntersectionOfIsExact(ivs: seq<Interval>, v: ExtReal)
    requires |ivs| > 0
    ensures ContainsValue(IntersectionOf(ivs), v) <==> forall j :: 0 <= j < |ivs| ==> ContainsValue(ivs[j], v)
  {
    LowerMaxAdmits(Lowers(ivs), v);
    PyMinAdmits(Uppers(ivs), v);
  }

  /** The corrected membership counts the degenerate closed interval [1, 1] as holding 1,
      although the program calls it empty and equal to every other empty interval, such as
      [5, 0], which holds nothing. So intersecting [0, 1] with [1, 2] gives an interval that is
      empty by `Empty()` and yet holds 1. */
  lemma DegenerateIntervalHoldsItsValue()
    ensures var point, crossed := Interval(Point(Fin(1.0), false), Point(Fin(1.0), false)),
                                  Interval(Point(Fin(5.0), false), Point(Fin(0.0), false));
      point.Empty() && ContainsValue(point, Fin(1.0)) &&
      point.Eq(OfInterval(crossed)) == Ok(true) && !ContainsValue(crossed, Fin(1.0))
    ensures var left, right := Interval(Point(Fin(0.0), false), Point(Fin(1.0), false)),
                               Interval(Point(Fin(1.0), false), Point(Fin(2.0), false));
      IntersectionOf([left, right]).Empty() && ContainsValue(IntersectionOf([left, right]), Fin(1.0))
  {
    var left, right := Interval(Point(Fin(0.0), false), Point(Fin(1.0), false)),
                       Interval(Point(Fin(1.0), false), Point(Fin(2.0), false));
    IntersectionOfIsExact([left, right], Fin(1.0));
  }

  /** As written, (0, 2) intersected with [0, 2] is [0, 2): Python's `max` keeps the closed
      lower endpoint at the tie, so the result holds 0, which (0, 2) does not. */
  lemma IntersectKeepsClosedLowerAtTie()
    ensures var open, closed := Interval(Point(Fin(0.0), true), Point(Fin(2.0), true)),
                                Interval(Point(Fin(0.0), false), Point(Fin(2.0), false));
      var all := Unwrap([OfInterval(closed)]) + [open];
      var r := Interval(PyMax(Lowers(all)), PyMin(Uppers(all)));
      r == Interval(Point(Fin(0.0), false), Point(Fin(2.0), true)) &&
      ContainsValue(r, Fin(0.0)) && !ContainsValue(open, Fin(0.0)) &&
      IntersectionOf(all) == open
  {
  }

  // ----- union -----

  /** Lower endpoint `lo` and upper endpoint `up` leave no value between them uncovered. */
  predicate NoGap(lo: Point, up: Point) {
    ExtReals.Lt(lo.value, up.value) || (lo.value == up.value && (lo.IsClosed() || up.IsClosed()))
  }

  /** The overlap test `union` needs: `a` and `b` leave no gap, so their union is one interval.
      Touching at a value where one of them is closed counts; touching where both are open does not. */
  predicate Meets(a: Interval, b: Interval) {
    NoGap(a.lower, b.upper) && NoGap(b.lower, a.upper)
  }

  /** The operands that do not meet `self`. */
  function Apart(self: Interval, others: seq<Interval>): (r: seq<Interval>)
    ensures forall x :: x in r ==> x in others && !Meets(self, x)
    ensures forall x :: x in others && !Meets(self, x) ==> x in r
  {
    if others == [] then []
    else (if Meets(self, others[0]) then [] else [others[0]]) + Apart(self, others[1..])
  }

  /** The operands that meet `self`. */
  function Meeting(self: Interval, others: seq<Interval>): (r: seq<Interval>)
    ensures forall x :: x in r ==> x in others && Meets(self, x)
    ensures forall x :: x in others && Meets(self, x) ==> x in r
  {
    if others == [] then []
    else (if Meets(self, others[0]) then [others[0]] else []) + Meeting(self, others[1..])
  }

  /** One interval from the loosest lower endpoint to Python's `max` of the uppers. */
  function MergeOf(ivs: seq<Interval>): (r: Interval)
    requires |ivs| > 0
  {
    Interval(LowerMin(Lowers(ivs)), PyMax(Uppers(ivs)))
  }

  /** `union` as its docstring intends: operands apart from `self` are kept and `self` is
      merged with all the operands it meets. */
  function UnionOf(self: Interval, others: seq<Interval>): (r: seq<Interval>) {
    Apart(self, others) + [MergeOf(Meeting(self, others) + [self])]
  }

  /** A value outside a lower endpoint that leaves no gap to an upper endpoint is inside that upper endpoint. */
  lemma BridgeBelow(lo: Point, up: Point, v: ExtReal)
    requires NoGap(lo, up) && !AdmitsAbove(lo, v)
    ensures AdmitsBelow(up, v)
  {
  }

  /** A value outside an upper endpoint that leaves no gap to a lower endpoint is inside that lower endpoint. */
  lemma BridgeAbove(lo: Point, up: Point, v: ExtReal)
    requires NoGap(lo, up) && !AdmitsBelow(up, v)
    ensures AdmitsAbove(lo, v)
  {
  }

  /** Merging `self` with intervals that all meet it loses no value and adds none. */
  lemma MergeIsExact(self: Interval, ms: seq<Interval>, v: ExtReal)
    requires forall m :: m in ms ==> Meets(self, m)
    ensures ContainsValue(MergeOf(ms + [self]), v) <==>
      ContainsValue(self, v) || exists m :: m in ms && ContainsValue(m, v)
  {
    var all := ms + [self];
    LowerMinAdmits(Lowers(all), v);
    PyMaxAdmits(Uppers(all), v);
    if ContainsValue(MergeOf(all), v) && !ContainsValue(self, v) {
      var i :| 0 <= i < |all| && AdmitsAbove(Lowers(all)[i], v);
      var k :| 0 <= k < |all| && AdmitsBelow(Uppers(all)[k], v);
      if !AdmitsAbove(self.lower, v) {
        assert i < |ms| && all[i] in ms;
        BridgeBelow(self.lower, all[i].upper, v);
        assert ContainsValue(all[i], v);
      } else {
        assert k < |ms| && all[k] in ms;
        BridgeAbove(all[k].lower, self.upper, v);
        assert ContainsValue(all[k], v);
      }
    }
    if exists m :: m in ms && ContainsValue(m, v) {
      var m :| m in ms && ContainsValue(m, v);
      var j :| 0 <= j < |ms| && ms[j] == m;
      assert AdmitsAbove(Lowers(all)[j], v) && AdmitsBelow(Uppers(all)[j], v);
    }
    if ContainsValue(self, v) {
      assert AdmitsAbove(Lowers(all)[|ms|], v) && AdmitsBelow(Uppers(all)[|ms|], v);
    }
  }

  /** The corrected union holds a value exactly when `self` or some operand holds it. */
  lemma UnionOfIsExact(self: Interval, others: seq<Interval>, v: ExtReal)
    ensures (exists r :: r in UnionOf(self, others) && ContainsValue(r, v)) <==>
      ContainsValue(self, v) || exists x :: x in others && ContainsValue(x, v)
  {
    var apart, meeting := Apart(self, others), Meeting(self, others);
    var merged := MergeOf(meeting + [self]);
    MergeIsExact(self, meeting, v);
    assert UnionOf(self, others) == apart + [merged];
    if exists x :: x in others && ContainsValue(x, v) {
      var x :| x in others && ContainsValue(x, v);
      if Meets(self, x) {
        assert merged in UnionOf(self, others);
      } else {
        assert x in UnionOf(self, others);
      }
    }
    if ContainsValue(self, v) {
      assert merged in UnionOf(self, others);
    }
  }

  /** As written, (0, 2) united with [0, 2] is (0, 2]: Python's `min` lets the open lower
      endpoint displace the closed one at the tie, so 0 is lost although [0, 2] holds it. */
  lemma UnionDropsClosedLowerAtTie()
    ensures var open, closed := Interval(Point(Fin(0.0), true), Point(Fin(2.0), true)),
                                Interval(Point(Fin(0.0), false), Point(Fin(2.0), false));
      var merged := Unwrap([OfInterval(closed)]) + [open];
      var r := Interval(PyMin(Lowers(merged)), PyMax(Uppers(merged)));
      Overlap(open, closed) &&
      r == Interval(Point(Fin(0.0), true), Point(Fin(2.0), false)) &&
      ContainsValue(closed, Fin(0.0)) && !ContainsValue(r, Fin(0.0)) &&
      UnionOf(open, [closed]) == [closed]
  {
    var open, closed := Interval(Point(Fin(0.0), true), Point(Fin(2.0), true)),
                        Interval(Point(Fin(0.0), false), Point(Fin(2.0), false));
    var merged := Unwrap([OfInterval(closed)]) + [open];
    assert merged == [closed, open];
    ReduceStep(Lowers(merged), Less);
    ReduceStep(Uppers(merged), Greater);
    ReduceStep(Lowers(merged), LowerBelow);
    assert Meets(open, closed);
    assert Meeting(open, [closed]) == [closed];
    assert Apart(open, [closed]) == [];
  }

  /** As written, (0, 2) and (-1, 0) pass the overlap test although they share no value, and
      their union is (-1, 2), which holds 0, a value neither holds; the corrected union keeps them apart. */
  lemma OpenNeighboursMerged()
    ensures var self, other := Interval(Point(Fin(0.0), true), Point(Fin(2.0), true)),
                               Interval(Point(Fin(-1.0), true), Point(Fin(0.0), true));
      var merged := Unwrap([OfInterval(other)]) + [self];
      var r := Interval(PyMin(Lowers(merged)), PyMax(Uppers(merged)));
      Overlap(self, other) &&
      r == Interval(Point(Fin(-1.0), true), Point(Fin(2.0), true)) &&
      ContainsValue(r, Fin(0.0)) && !ContainsValue(self, Fin(0.0)) && !ContainsValue(other, Fin(0.0)) &&
      UnionOf(self, [other]) == [other, self]
  {
    var self, other := Interval(Point(Fin(0.0), true), Point(Fin(2.0), true)),
                       Interval(Point(Fin(-1.0), true), Point(Fin(0.0), true));
    var merged := Unwrap([OfInterval(other)]) + [self];
    assert merged == [other, self];
    ReduceStep(Lowers(merged), Less);
    ReduceStep(Uppers(merged), Greater);
    assert !Meets(self, other);
    assert Meeting(self, [other]) == [];
    assert Apart(self, [other]) == [other];
  }

  /** As written, an operand that clearly misses `self`, such as (5, 6) against (0, 2), gets
      None from `_intersects`, so `split` and `union` raise instead of keeping it apart. */
  lemma SeparateIntervalRaises()
    ensures var self, other := Interval(Point(Fin(0.0), true), Point(Fin(2.0), true)),
                               Interval(Point(Fin(5.0), true), Point(Fin(6.0), true));
      self.Intersects(OfInterval(other)) == Ok(NoneValue) && !Overlap(self, other) &&
      UnionOf(self, [other]) == [other, self]
  {
    var self, other := Interval(Point(Fin(0.0), true), Point(Fin(2.0), true)),
                       Interval(Point(Fin(5.0), true), Point(Fin(6.0), true));
    assert !Meets(self, other);
    assert Meeting(self, [other]) == [];
    assert Apart(self, [other]) == [other];
  }
  // ----- Disjointness -----

  /** No value is held by two different intervals of `s`. */
  ghost predicate PairwiseDisjoint(s: seq<Interval>) {
    forall x, y, v :: x in s && y in s && x != y ==> !(ContainsValue(x, v) && ContainsValue(y, v))
  }

  /** Intervals that do not meet share no value. */
  lemma ApartIsDisjoint(a: Interval, b: Interval, v: ExtReal)
    requires !Meets(a, b)
    ensures !(ContainsValue(a, v) && ContainsValue(b, v))
  {
    Trichotomy(v, a.lower.value);
    Trichotomy(v, b.lower.value);
    Transitive(b.upper.value, a.lower.value, v);
    Transitive(a.upper.value, b.lower.value, v);
  }

  /** The promise of `union`'s docstring, for the corrected union: if the operands are
      pairwise disjoint, so are the intervals it returns. */
  lemma UnionOfKeepsDisjoint(self: Interval, others: seq<Interval>)
    requires PairwiseDisjoint(others)
    ensures PairwiseDisjoint(UnionOf(self, others))
  {
    var apart, meeting := Apart(self, others), Meeting(self, others);
    var merged := MergeOf(meeting + [self]);
    assert UnionOf(self, others) == apart + [merged];
    forall x, y, v | x in UnionOf(self, others) && y in UnionOf(self, others) && x != y
      ensures !(ContainsValue(x, v) && ContainsValue(y, v))
    {
      if x in apart && y in apart {
      } else if x in apart || y in apart {
        var a := if x in apart then x else y;
        assert a in others && !Meets(self, a);
        MergeIsExact(self, meeting, v);
        ApartIsDisjoint(self, a, v);
      }
    }
  }
}
