/** Python's `min` and `max` over a list of Points (random_variable.py:128-129, 140-141).
    Both are left-to-right scans that keep the running value unless the next element
    compares strictly `<` (for `min`) or `>` (for `max`) to it. Point order is not a
    total order, so these are stated as folds and not as a mathematical minimum. */
module Folds {
  import opened ExtReals
  import opened Endpoints

  /** The scan both builtins perform: start from the first element and move to the
      next element whenever `displaces(next, running)` holds. */
  function Reduce(s: seq<Point>, displaces: (Point, Point) -> bool): (r: Point)
    requires |s| > 0
    ensures r in s
    decreases |s|
  {
    if |s| == 1 then s[0]
    else
      var running := Reduce(s[..|s| - 1], displaces);
      if displaces(s[|s| - 1], running) then s[|s| - 1] else running
  }

  /** `min(s)`: replaces the running value when `next < running`. The result is an element
      of least value, open exactly when some element of least value is open. */
  function PyMin(s: seq<Point>): (r: Point)
    requires |s| > 0
    ensures r in s
    ensures forall i :: 0 <= i < |s| ==> !ExtReals.Lt(s[i].value, r.value)
    ensures r.isOpen <==> exists i :: 0 <= i < |s| && s[i].value == r.value && s[i].isOpen
  {
    PyMinValueAndOpenness(s);
    Reduce(s, Less)
  }

  /** `max(s)`: replaces the running value when `next > running`. The result is an element
      of greatest value, open exactly when every element of greatest value is open. */
  function PyMax(s: seq<Point>): (r: Point)
    requires |s| > 0
    ensures r in s
    ensures forall i :: 0 <= i < |s| ==> !ExtReals.Lt(r.value, s[i].value)
    ensures r.isOpen <==> forall i :: 0 <= i < |s| && s[i].value == r.value ==> s[i].isOpen
  {
    PyMaxValueAndOpenness(s);
    Reduce(s, Greater)
  }

  /** One step of a scan, unfolded. */
  lemma ReduceStep(s: seq<Point>, displaces: (Point, Point) -> bool)
    requires |s| > 1
    ensures Reduce(s, displaces) ==
      (var running := Reduce(s[..|s| - 1], displaces);
       if displaces(s[|s| - 1], running) then s[|s| - 1] else running)
  {
  }

  /** The scan by `<` returns a Point of least value, and that Point is open exactly when some
      element of least value is open (at a tie an open element displaces the running one). */
  lemma {:induction false} PyMinValueAndOpenness(s: seq<Point>)
    requires |s| > 0
    ensures forall i :: 0 <= i < |s| ==> !ExtReals.Lt(s[i].value, Reduce(s, Less).value)
    ensures Reduce(s, Less).isOpen <==>
      exists i :: 0 <= i < |s| && s[i].value == Reduce(s, Less).value && s[i].isOpen
  {
    if |s| > 1 {
      var pre, x, m := s[..|s| - 1], s[|s| - 1], Reduce(s, Less);
      PyMinValueAndOpenness(pre);
      var running := Reduce(pre, Less);
      ReduceStep(s, Less);
      assert forall i :: 0 <= i < |pre| ==> s[i] == pre[i];
      Trichotomy(x.value, running.value);
      if Less(x, running) {
        assert m == x;
        forall i | 0 <= i < |pre|
          ensures ExtReals.Lt(x.value, pre[i].value) || (x.value == pre[i].value && x.isOpen)
        {
          Transitive(x.value, running.value, pre[i].value);
          Trichotomy(running.value, pre[i].value);
        }
      } else {
        assert m == running;
        if m.isOpen {
          var i :| 0 <= i < |pre| && pre[i].value == m.value && pre[i].isOpen;
          assert s[i] == pre[i];
        } else {
          forall i | 0 <= i < |s| && s[i].value == m.value ensures s[i].IsClosed() {
            if i < |pre| { assert s[i] == pre[i]; }
          }
        }
        forall i | 0 <= i < |s| ensures !ExtReals.Lt(s[i].value, m.value) {
          if i < |pre| { assert s[i] == pre[i]; }
        }
      }
    }
  }

  /** The scan by `>` returns a Point of greatest value, and that Point is open exactly when every
      element of greatest value is open (at a tie a closed element displaces the running one). */
  lemma {:induction false} PyMaxValueAndOpenness(s: seq<Point>)
    requires |s| > 0
    ensures forall i :: 0 <= i < |s| ==> !ExtReals.Lt(Reduce(s, Greater).value, s[i].value)
    ensures Reduce(s, Greater).isOpen <==>
      forall i :: 0 <= i < |s| && s[i].value == Reduce(s, Greater).value ==> s[i].isOpen
  {
    if |s| > 1 {
      var pre, x, m := s[..|s| - 1], s[|s| - 1], Reduce(s, Greater);
      PyMaxValueAndOpenness(pre);
      var running := Reduce(pre, Greater);
      ReduceStep(s, Greater);
      assert forall i :: 0 <= i < |pre| ==> s[i] == pre[i];
      Trichotomy(x.value, running.value);
      if Greater(x, running) {
        assert m == x;
        forall i | 0 <= i < |pre|
          ensures ExtReals.Lt(pre[i].value, x.value) || (x.value == pre[i].value && x.IsClosed())
        {
          Transitive(pre[i].value, running.value, x.value);
          Trichotomy(running.value, pre[i].value);
        }
      } else {
        assert m == running;
        if !m.isOpen {
          var i :| 0 <= i < |pre| && pre[i].value == m.value && pre[i].IsClosed();
          assert s[i] == pre[i];
        } else {
          forall i | 0 <= i < |s| && s[i].value == m.value ensures s[i].isOpen {
            if i < |pre| { assert s[i] == pre[i]; }
          }
        }
        forall i | 0 <= i < |s| ensures !ExtReals.Lt(m.value, s[i].value) {
          if i < |pre| { assert s[i] == pre[i]; }
        }
      }
    }
  }
}
