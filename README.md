# Interval algebra with open and closed endpoints

A Dafny model of the endpoint and interval classes of `prml/utilities/random_variable.py`.

- A `Point` is a value tagged open or closed. It has equality and four ordering operators. When two values tie, the order is decided by the left operand's openness alone.
- An `Interval` is a pair of Points. Emptiness is derived from the two values. An interval is classified as open, closed or half open, and an empty interval counts as both open and closed.
- Interval operations: equality (any two empty intervals are equal), `contains`, the overlap test `_intersects`, `split`, `union` and `intersect`.

Values are extended reals (`NegInf | Fin(real) | PosInf`), since the default interval runs from `-inf` to `+inf`. No arithmetic is done on values, only comparisons.

Python behaviour is modelled with a few small types:
- A call either returns a value or raises. `Result<T> = Ok(value) | Raised` stands for every exception the code can propagate.
- A result that may be None is a `Truthy = Bool(b) | NoneValue`. This covers `Point.__le__`/`__ge__` on a non-Point, `contains` on a number, and `_intersects`.
- The operand of a Point operator is an `Operand`: a Point, a number or another object. The operand of an Interval operation is an `IntervalOperand`: an Interval or not.

`split` and `intersect` build lists element by element, so they are methods with loops. `union` is a method that calls `split` and appends to the lists it returns. Python's `min` and `max` are modelled as the left folds they are (`Folds.Reduce`). They are not a mathematical minimum, because Point order is not a total order: an open point is `<` itself.

Modules:
- `PyValues`: Result, Truthy, `and`/`or`.
- `ExtReals`: the values and their order.
- `Endpoints`: Point.
- `Folds`: `min`/`max`.
- `Intervals`: Interval.
- `Corrections`: corrected definitions for the findings below.

The model follows the code in these points, where the class and method names suggest otherwise:
- The code's Point has no left/right side. The tie rule is "left operand's openness" for both `<` and `>`, for lower and upper endpoints alike.
- The four `contains` calls in `_intersects` are not a defensive addition. They are always None, so `_intersects` is exactly the endpoint test, or None.
- `contains` on a plain number never answers True.
- `intersect` always returns an Interval, never None, despite its docstring.

## Model

| member | source | states |
|---|---|---|
| `Endpoints.Point.Status` | prml/utilities/random_variable.py:40-44 | "open" exactly for an open point, "closed" exactly for a closed one |
| `Endpoints.Point.IsClosed` | prml/utilities/random_variable.py:9-11 | closed exactly when not open, which is exactly when `status` reads "closed" |
| `Endpoints.Point.Eq` | prml/utilities/random_variable.py:13-16 | raises unless the operand is a Point; otherwise true exactly when the two Points are the same value with the same openness |
| `Endpoints.Point.Gt` | prml/utilities/random_variable.py:18-23 | raises unless the operand is a Point; otherwise the Point order `>` |
| `Endpoints.Point.Lt` | prml/utilities/random_variable.py:29-34 | raises unless the operand is a Point; otherwise the Point order `<` |
| `Endpoints.Point.Ge` | prml/utilities/random_variable.py:25-27 | None (not an exception) exactly for a non-Point operand; otherwise truthy exactly when `>` or equal |
| `Endpoints.Point.Le` | prml/utilities/random_variable.py:36-38 | None exactly for a non-Point operand; otherwise truthy exactly when `<` or equal |
| `Endpoints.OperandLe` | prml/utilities/random_variable.py:98 | `x <= upper` for any operand: None unless `x` is a Point (Python's reflected `__ge__`), else the Point order `<=` |
| `Endpoints.DistinctValuesOrder` | prml/utilities/random_variable.py:18-38 | for different values, `<`, `>`, `<=`, `>=` are the numeric order, and exactly one of `<`, `>` holds |
| `Endpoints.TieDecidedByLeftOperand` | prml/utilities/random_variable.py:18-34 | at a tie, `a < b` is exactly `a` open and `a > b` exactly `a` closed, whatever `b` is; exactly one holds |
| `Endpoints.PointComparedWithItself` | prml/utilities/random_variable.py:18-38 | an open point is `<` itself, a closed one `>` itself, and every point is `<=` and `>=` itself |
| `Endpoints.NonStrictAtTie` | prml/utilities/random_variable.py:25-38 | at a tie, `<=` fails only for closed `a` against open `b`, and `>=` only for open `a` against closed `b` |
| `Endpoints.EqMatchesValueAndOpenness` | prml/utilities/random_variable.py:13-16 | Point equality is the comparison of value and openness, and it is symmetric |
| `Folds.Reduce` | prml/utilities/random_variable.py:128-129 | the scan behind `min`/`max` returns one of the list's elements |
| `Folds.PyMin` | prml/utilities/random_variable.py:140-141 | `min` returns an element of least value, open exactly when some element of least value is open |
| `Folds.PyMax` | prml/utilities/random_variable.py:128-129 | `max` returns an element of greatest value, open exactly when every element of greatest value is open |
| `Folds.PyMinValueAndOpenness` | prml/utilities/random_variable.py:128 | the scan by `<` behind `min` returns a point of least value, open exactly when some element of least value is open |
| `Folds.PyMaxValueAndOpenness` | prml/utilities/random_variable.py:129 | the scan by `>` behind `max` returns a point of greatest value, open exactly when every element of greatest value is open |
| `Intervals.Interval.Empty` | prml/utilities/random_variable.py:57 | empty exactly when the lower value is not below the upper value, whatever the openness |
| `Intervals.Interval.State` | prml/utilities/random_variable.py:82-91 | "true and false" exactly when empty; otherwise "open", "closed" or "half open" exactly as the two endpoints are both open, both closed or mixed |
| `Intervals.Interval.IsClosed` | prml/utilities/random_variable.py:70-74 | closed exactly when the values cross or both endpoints are closed; with an open endpoint, closed exactly when empty |
| `Intervals.Interval.IsOpen` | prml/utilities/random_variable.py:76-80 | open exactly when the values cross or both endpoints are open; with a closed endpoint, open exactly when empty |
| `Intervals.OpenAndClosedExactlyWhenEmpty` | prml/utilities/random_variable.py:70-80 | an interval is both open and closed exactly when it is empty; else each is the conjunction over its endpoints |
| `Intervals.Interval.Eq` | prml/utilities/random_variable.py:59-63 | raises unless the operand is an Interval; otherwise true exactly when the bounds are equal or both intervals are empty |
| `Intervals.EmptiesAreEqual` | prml/utilities/random_variable.py:59-63 | any two empty intervals are equal, whatever their bounds |
| `Intervals.EqIsEquivalence` | prml/utilities/random_variable.py:59-63 | interval equality is reflexive, symmetric and transitive |
| `Intervals.UniversalIsOpen` | prml/utilities/random_variable.py:54 | the default interval (-inf, +inf) is non-empty and open |
| `Intervals.Interval.Contains` | prml/utilities/random_variable.py:93-98 | None for a number or any non-Point; for a Point, truthy exactly when `lower <= p <= upper` in Point order |
| `Intervals.Interval.Intersects` | prml/utilities/random_variable.py:100-109 | raises for a non-Interval; otherwise True when `lower <= other.upper` and `other.lower <= upper`, and None (never False) when not |
| `Intervals.Split` | prml/utilities/random_variable.py:111-118 | returns exactly when every operand is an Interval passing the overlap test; the first list is then empty and the second holds all operands in order |
| `Intervals.Union` | prml/utilities/random_variable.py:120-132 | fails exactly when `split` does; `[self]` with no operands; otherwise one interval from the `min` of the lowers to the `max` of the uppers of `others + [self]`, at or below every lower value and at or above every upper value |
| `Intervals.Intersect` | prml/utilities/random_variable.py:134-141 | fails exactly when some operand is not an Interval; otherwise one interval from the `max` of the lowers to the `min` of the uppers of `others + [self]`, at or above every lower value and at or below every upper value, empty exactly when some lower value is not below some upper value |
| `Corrections.ContainsValue` | prml/utilities/random_variable.py:93-98 | a number held by the interval lies between the lower and upper values |
| `Corrections.EndpointMembership` | prml/utilities/random_variable.py:93-98 | with lower value below upper value, each endpoint value is held exactly when that endpoint is closed, while the as-written `contains` holds neither |
| `Corrections.ClosedEndpointNotContained` | prml/utilities/random_variable.py:98 | the as-written `contains` does not admit 0 in [0, 2] |
| `Corrections.LowerMaxAdmits` | prml/utilities/random_variable.py:140 | the tightest lower endpoint admits a value exactly when every lower endpoint does |
| `Corrections.LowerMinAdmits` | prml/utilities/random_variable.py:128 | the loosest lower endpoint admits a value exactly when some lower endpoint does |
| `Corrections.PyMinAdmits` | prml/utilities/random_variable.py:141 | Python's `min` of upper endpoints admits a value exactly when every upper endpoint does |
| `Corrections.PyMaxAdmits` | prml/utilities/random_variable.py:129 | Python's `max` of upper endpoints admits a value exactly when some upper endpoint does |
| `Corrections.IntersectionOfIsExact` | prml/utilities/random_variable.py:134-141 | the corrected intersection holds a value exactly when every operand holds it |
| `Corrections.DegenerateIntervalHoldsItsValue` | prml/utilities/random_variable.py:57-63 | [1, 1] is empty and equal to the empty [5, 0], yet the corrected membership holds 1 in it and not in [5, 0]; [0, 1] intersected with [1, 2] is empty yet holds 1 |
| `Corrections.IntersectKeepsClosedLowerAtTie` | prml/utilities/random_variable.py:140 | as written, (0, 2) intersected with [0, 2] is [0, 2), which holds 0; the corrected intersection is (0, 2) |
| `Corrections.Apart` | prml/utilities/random_variable.py:115-118 | the operands that do not meet `self`: all of them and only them |
| `Corrections.Meeting` | prml/utilities/random_variable.py:115-118 | the operands that meet `self`: all of them and only them |
| `Corrections.MergeIsExact` | prml/utilities/random_variable.py:125-129 | merging `self` with operands that all meet it gives an interval holding exactly the values of `self` and those operands |
| `Corrections.UnionOfIsExact` | prml/utilities/random_variable.py:120-132 | the corrected union's intervals hold exactly the values held by `self` or by some operand |
| `Corrections.ApartIsDisjoint` | prml/utilities/random_variable.py:111-118 | two intervals that do not meet share no value |
| `Corrections.UnionOfKeepsDisjoint` | prml/utilities/random_variable.py:121-122 | if the operands are pairwise disjoint, so are the intervals the corrected union returns |
| `Corrections.UnionDropsClosedLowerAtTie` | prml/utilities/random_variable.py:128 | as written, (0, 2) united with [0, 2] is (0, 2], which loses 0; the corrected union is [0, 2] |
| `Corrections.OpenNeighboursMerged` | prml/utilities/random_variable.py:104 | as written, (0, 2) and (-1, 0) pass the overlap test and merge into (-1, 2), which holds 0, a value neither holds; the corrected union keeps them apart |
| `Corrections.SeparateIntervalRaises` | prml/utilities/random_variable.py:117 | as written, (5, 6) against (0, 2) gets None from `_intersects`, so `split` raises; the corrected union keeps both |

## Left out

- `__repr__` and `__str__` (lines 46-50, 65-68) render values with `{:.1f}` float formatting. Only `status` and `state` are modelled, as strings.
- `Set`, `Algebra` and `RandomVariable` (lines 144-166) are unused scaffolding and are not part of this model.
- `prml/linear_regression/basis_functions.py` is floating-point numerics (exp, powers, sigmoids, finite differences) and is not part of this model.
- The different exception classes (NotImplementedError, TypeError from indexing a tuple with None, AttributeError from `intersect`) are one `Raised` outcome.
- NaN is not a value of the model. The default Point objects shared between calls (line 54) are never mutated, so value semantics are faithful.
- `Point`'s default `is_open=True` (line 5) is not modelled as a default: every model `Endpoints.Point` names its openness, and a Point built with the default is a model Point with `isOpen` true.
- The `low_cmp` lambdas (lines 94-97) are built and never called. They have no effect and are not modelled, except as the intent behind `Corrections.ContainsValue`.
- `intersect` on an object that has `lower`/`upper` attributes without being an Interval (duck typing) is not modelled. Every non-Interval operand raises.
- Python's `min`/`max` on an empty list raises, but the lists in `union` and `intersect` always hold `self`. So the fold functions require a non-empty list.
- `Corrections.ContainsValue` counts a closed interval [v, v] as holding v, although `Empty()` holds for it, because emptiness compares values only. So two intervals the program calls equal (any two empty ones) can differ in membership, and `Corrections.IntersectionOfIsExact` is exact under `ContainsValue`, not under `Empty()` and `Eq` (shown by `Corrections.DegenerateIntervalHoldsItsValue`).
- `Corrections.Apart`, `Corrections.Meeting`: state which operands they keep, not that they keep the operands' order.
- `Corrections.UnionOfKeepsDisjoint`: disjointness is stated for distinct interval values; a list holding the same interval twice is not covered.
- The test files are not used as oracles where they disagree with the code. Those disagreements are the findings below.

## Findings

The corrected members live in module `Corrections`. They sit beside the as-written model, which remains the model of the code.

| source | as written | input that shows it | evidently intended | confidence | as-written member | corrected member |
|---|---|---|---|---|---|---|
| prml/utilities/random_variable.py:93-98 | `lower <= x` calls `Point.__le__`, which returns None for a number, so `contains` never answers True | closed [0, 2] with x = 0 gives None; test_interval.py:55-56 expects True | `<` against an open lower endpoint and `<=` against a closed one, as the unused lambdas choose (proved in `Corrections.EndpointMembership`) | high; not executed | `Corrections.ClosedEndpointNotContained` | `Corrections.ContainsValue` |
| prml/utilities/random_variable.py:128 | `min` of the lower endpoints lets an open point displace a closed one at the same value | (0, 2).union([0, 2]) gives (0, 2], losing 0; test_interval.py:87-90 expects [0, 2] | the loosest lower endpoint, closed at a tie, so that no value of an operand is lost (proved in `Corrections.UnionOfIsExact`) | high; not executed | `Corrections.UnionDropsClosedLowerAtTie` | `Corrections.UnionOf` |
| prml/utilities/random_variable.py:140 | `max` of the lower endpoints lets a closed point displace an open one at the same value | (0, 2).intersect([0, 2]) gives [0, 2), holding 0; test_interval.py:102-105 expects (0, 2) | the tightest lower endpoint, open at a tie, so that the result holds exactly the common values (proved in `Corrections.IntersectionOfIsExact`) | high; not executed | `Corrections.IntersectKeepsClosedLowerAtTie` | `Corrections.IntersectionOf` |
| prml/utilities/random_variable.py:104 | `lower <= other.upper` holds when an open lower endpoint meets an open upper endpoint at one value | (0, 2).union((-1, 0)) gives (-1, 2), which holds 0; test_interval.py:80-82 expects both intervals kept | merge only intervals that leave no gap: touching counts only where one side is closed (proved in `Corrections.UnionOfIsExact`) | high; not executed | `Corrections.OpenNeighboursMerged` | `Corrections.UnionOf` |
| prml/utilities/random_variable.py:117 | `_intersects` answers None instead of False, so indexing the pair of lists raises | (0, 2).union((5, 6)) raises TypeError | an interval apart from `self` goes to the first list and is kept in the result (proved in `Corrections.UnionOfIsExact`) | high; not executed | `Corrections.SeparateIntervalRaises` | `Corrections.UnionOf` |
