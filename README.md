# Akima interpolation, modelled in Dafny

The repository holds two near-identical copies of a small Akima interpolation
routine in Python: `Homework/akima_interpolation.py` (documented) and
`akima_interpolation.py`. Given sample points `(x_i, y_i)` and a query `q`, it:

- sorts the points by `x`;
- returns a linear extrapolation along the first or last chord outside the
  data range;
- otherwise finds the enclosing interval with a binary search and evaluates that
  interval's cubic Hermite polynomial.

The tangent at each knot comes from the neighbouring secant slopes:

- the secant itself at the two ends;
- the plain average at the second and the second-to-last knot;
- Akima's weighted average everywhere else.

A third entry point memoises the sorted data and tangents in a module-level
dictionary.

The model works over exact `real` arithmetic. It is organised as follows:

- `Results`: the errors the routines raise, as values (`Result`, `Error`).
- `Knots`: sample points and the sort by `x` (`np.argsort` plus fancy
  indexing). The sort is a verified insertion sort of `(x, y)` pairs, proved
  sorted and a permutation. The module also holds `np.searchsorted` as a
  lower-bound binary search.
- `Slopes`: `calculate_slopes` as `Secants` and the tangent rule as
  `Tangents`. `calculate_spline_slopes` is the method `SplineSlopes`, whose
  in-place array loop `FillTangents` is proved equal to `Tangents`.
- `Hermite`: `calculate_cubic_coefficients` and the Hermite conditions it
  promises, together with their uniqueness.
- `Evaluation`: the evaluation tail shared by the three entry points, made of
  extrapolation, the interval clamp and the cubic.
- `Interpolation`: the entry points `akima_interpolate_npoints` and
  `akima_interpolate_4points`. It also holds the class `FourPointCache`, which
  models `_akima_4points_cache` together with
  `akima_interpolate_4points_with_cache`.

The two copies differ only in their extrapolation branches. The Homework copy
divides by the boundary interval's width unconditionally, while the other copy
returns the end value when that width is zero. Both are modelled by one
definition, selected by `Evaluation.Boundary`:

- `Unguarded` is the Homework copy. Division by a zero width makes Python
  return an infinity or NaN. The model records that outcome as
  `Err(NonFinite)`.
- `ZeroWidthGuarded` is `akima_interpolation.py`.

The rest of the code is shared line for line. The Homework line numbers cited
below correspond to these lines of `akima_interpolation.py`:

| Homework lines | `akima_interpolation.py` lines |
|---|---|
| 18-20 | 6-8 |
| 45-74 | 13-43 |
| 103-120 | 47-64 |
| 141-167 | 68-100 |
| 170-228 | 103-150 |
| 249-278 | 154-189 |

Some descriptions of Akima's method do several things this code does not:

- extend the secant sequence by two extrapolated slopes at each end;
- extrapolate with the boundary cubic;
- reject duplicate `x` values before anything else.

The model follows the code. It uses endpoint secants and averages, linear
extrapolation, and duplicates that surface only as a zero secant or a
zero-width boundary.

## Model

| member | source | states |
|---|---|---|
| Knots.Insert | Homework/akima_interpolation.py:144-146 | inserting a point into x-sorted points keeps them sorted, and the result is the old collection plus that point |
| Knots.SortKnots | Homework/akima_interpolation.py:144-146 | the sorted points are ordered by non-decreasing x and are a permutation of the input pairs |
| Knots.SortStrict | Homework/akima_interpolation.py:144-146 | with pairwise distinct x the sorted points are strictly increasing in x |
| Knots.SortedXs | Homework/akima_interpolation.py:144-145 | the sorted x column has the input's length and is non-decreasing |
| Knots.SortKeepsPairs | Homework/akima_interpolation.py:144-146 | every input point appears, with its own y, at some position of the sorted columns |
| Knots.SortedPointIsInput | Homework/akima_interpolation.py:144-146 | every sorted position holds one of the input points |
| Knots.SortedXsStrict | Homework/akima_interpolation.py:255-256 | distinct input x values give a strictly increasing sorted x column |
| Knots.StrictSortUnique | Homework/akima_interpolation.py:255-257 | two strictly x-sorted arrangements of the same points are equal |
| Knots.SortOrderIndependent | Homework/akima_interpolation.py:255-257 | with distinct x, the sorted columns depend only on the set of points, not on their input order |
| Knots.SearchSorted | Homework/akima_interpolation.py:160 | `searchsorted` (side left): every entry before the result is < v, every entry from it on is >= v |
| Knots.LowerBound | Homework/akima_interpolation.py:160 | the binary search keeps "below lo all < v, from hi on all >= v" and ends between its bounds |
| Slopes.Secants | Homework/akima_interpolation.py:18-20 | n-1 slopes; where the x values differ, slope i carries point i onto point i+1; where they coincide (non-finite quotient), the slope is 0 |
| Slopes.SecantsOfLine | Homework/akima_interpolation.py:18-20 | points on y = k*x + c with distinct neighbouring x have every secant equal to k |
| Slopes.WeightedTangentBounds | Homework/akima_interpolation.py:61-69 | the weighted tangent lies between m[i-1] and m[i]; it equals either one when they agree, and the flat side's secant when only one weight is zero |
| Slopes.ConvexCombination | Homework/akima_interpolation.py:69 | a weighted mean with non-negative weights and positive total lies between its two values, and equals one of them when the other's weight is zero |
| Slopes.WeightedTangentMirror | Homework/akima_interpolation.py:61-69 | mirroring the data (x to -x) negates the weighted tangent, so the rule has no left/right bias |
| Slopes.Average | Homework/akima_interpolation.py:59 | the plain average lies between its two secants and is their midpoint |
| Slopes.Tangents | Homework/akima_interpolation.py:50-74 | n tangents; s[0] = m[0], s[n-1] = m[n-2], s[1] and s[n-2] are averages, interior knots get the weighted rule, and every tangent of an inner knot lies between its two neighbouring secants |
| Slopes.FourPointTangents | Homework/akima_interpolation.py:57-72 | with four points the weighted rule is never applied: the tangents are m0, (m0+m1)/2, (m1+m2)/2, m2 |
| Slopes.TangentsOfConstant | Homework/akima_interpolation.py:50-72 | when every secant equals k, every tangent equals k |
| Slopes.SplineSlopes | Homework/akima_interpolation.py:45-74 | raises (TooFewPoints) exactly when n < 2; otherwise returns the tangents of the secants of the data |
| Slopes.FillTangents | Homework/akima_interpolation.py:50-74 | the in-place fill of the zeroed array (two-point case, ends, averages, the loop over 2..n-3) produces exactly `Tangents` |
| Hermite.CubicCoefficients | Homework/akima_interpolation.py:103-120 | raises (DuplicateX) exactly when the interval has zero width; otherwise the cubic meets the four Hermite conditions P(0)=y_i, P(h)=y_i+1, P'(0)=s_i, P'(h)=s_i+1 |
| Hermite.HermiteConditions | Homework/akima_interpolation.py:81-85 | the closed-form coefficients (a = y_i, b = s_i, c, d as written) satisfy the four Hermite conditions |
| Hermite.HermiteUnique | Homework/akima_interpolation.py:81-85 | on an interval of non-zero width at most one cubic meets the four Hermite conditions |
| Hermite.SameEndConditions | Homework/akima_interpolation.py:81-85 | cubics that share value and slope at 0 and at h != 0 share their quadratic and cubic coefficients |
| Hermite.ChordCubic | Homework/akima_interpolation.py:114-118 | when both tangents equal the chord slope k, the coefficients are (y_i, k, 0, 0) |
| Evaluation.ExtendChord | akima_interpolation.py:75-90 | guarded rule: zero width gives the end value; otherwise the result lies on the line through the two boundary points and equals the end value at the end knot; unguarded rule: zero width gives NonFinite |
| Evaluation.ChordPoint | Homework/akima_interpolation.py:150 | `y0 + (y1-y0)/dx * (q-x0)` lies on the line through both boundary points |
| Evaluation.LocateInterval | Homework/akima_interpolation.py:160-161 | the clamped index is in [0, n-2], and for x0 < q <= x_n-1 it satisfies x[idx] < q <= x[idx+1] |
| Evaluation.EvaluateSorted | Homework/akima_interpolation.py:148-167 | fails exactly when the unguarded rule extrapolates across a zero-width boundary interval (`ZeroWidthExtrapolation`), and then with NonFinite; an in-range query never reaches the coefficients' duplicate-x error |
| Evaluation.ExtrapolateLeft | Homework/akima_interpolation.py:148-150 | a query at or left of the first knot gets a value on the line through the first two knots when they differ in x; when they share x, the guarded rule gives the first value and the unguarded rule fails |
| Evaluation.ExtrapolateRight | Homework/akima_interpolation.py:153-155 | a query at or right of the last knot (and right of the first) gets a value on the line through the last two knots when they differ in x; when they share x, the guarded rule gives the last value and the unguarded rule fails |
| Evaluation.EvaluateInsideInterval | Homework/akima_interpolation.py:160-165 | inside the data the value is the cubic of the interval i enclosing q (x_i < q <= x_i+1), at q - x_i |
| Evaluation.SegmentsJoin | Homework/akima_interpolation.py:81-85 | neighbouring interval cubics meet at the shared knot with value y_i and slope s_i (the interpolant is C1) |
| Evaluation.EvaluateAtKnot | Homework/akima_interpolation.py:148-165 | with strictly increasing x, evaluating at any knot x_j returns y_j, for any tangents |
| Evaluation.EvaluateOnLine | Homework/akima_interpolation.py:259-277 | sorted data on y = k*x + c with their own Akima tangents evaluates to k*q + c for every q, inside and outside the range |
| Evaluation.ConstantTangentsOnLine | Homework/akima_interpolation.py:259-277 | line data with every tangent equal to the slope k evaluates to the line |
| Evaluation.IntervalOnLine | Homework/akima_interpolation.py:274-276 | an interval with both ends on the line and both tangents k has the chord as its cubic, which evaluates to the line |
| Evaluation.LineThrough | Homework/akima_interpolation.py:259-268 | the linear extrapolation of line data stays on the line |
| Interpolation.InterpolateN | Homework/akima_interpolation.py:249-278 | LengthMismatch exactly when the lengths differ; TooFewPoints exactly when they agree and are below two; past those checks it fails exactly when the unguarded rule extrapolates across a zero-width boundary of the sorted x, always with NonFinite, so never with distinct x or under the guarded rule |
| Interpolation.ExtrapolatedBelow | Homework/akima_interpolation.py:255-260 | a query at or below every sample x gets a value on the line through the two leftmost sorted points, or the leftmost value under the guard when they share x |
| Interpolation.ExtrapolatedAbove | Homework/akima_interpolation.py:255-265 | a query at or above every sample x, and above at least one, gets a value on the line through the two rightmost sorted points, or the rightmost value under the guard when they share x |
| Interpolation.Interpolate4 | Homework/akima_interpolation.py:141-167 | NotFourPoints exactly unless both arrays have four entries; otherwise the n-point result |
| Interpolation.FourPointRule | akima_interpolation.py:25-41 | with four points the result is evaluated with tangents m0, (m0+m1)/2, (m1+m2)/2, m2 |
| Interpolation.ExactAtSamples | Homework/akima_interpolation.py:255-277 | with distinct x, in any input order, the interpolant returns y_j at x_j |
| Interpolation.LinearDataStaysLinear | Homework/akima_interpolation.py:249-278 | samples of a line with distinct x give that line at every query |
| Interpolation.OrderIndependent | Homework/akima_interpolation.py:255-257 | with distinct x, reordering the sample points does not change the result |
| Interpolation.UnguardedDuplicateEnd | Homework/akima_interpolation.py:259-261 | x = [0, 0], y = [0, 1], q = -1 yields a non-finite result under the unguarded rule |
| Interpolation.GuardedDuplicateEnd | akima_interpolation.py:164-169 | the same input under the guard returns the end value 0 |
| Interpolation.CacheEntry | Homework/akima_interpolation.py:193-203 | the stored entry holds the sorted columns of x and the first \|x\| entries of y, plus their tangents |
| Interpolation.EvaluateEntry | Homework/akima_interpolation.py:205-228 | evaluating from a stored entry gives the n-point result on x and the first \|x\| entries of y, and for 4+4 arrays the 4-point result |
| Interpolation.FourPointCache.constructor | Homework/akima_interpolation.py:170 | the cache starts empty |
| Interpolation.FourPointCache.Interpolate | Homework/akima_interpolation.py:173-228 | a miss with buildable data inserts exactly the entry for the key, and a hit leaves the cache unchanged; IndexOutOfRange when y is shorter than x, TooFewPoints for fewer than two points, otherwise the n-point result, which for four points each is the 4-point result |

## Findings

| source | as written | input that shows it | evidently intended | confidence | as-written member | corrected member |
|---|---|---|---|---|---|---|
| Homework/akima_interpolation.py:150 | extrapolation divides by `x_sorted[1] - x_sorted[0]` without checking it, and likewise at line 155 and in the two other entry points (212, 217, 261, 266) | x = [0, 0], y = [0, 1], q = -1: the quotient is inf and the result is not finite | return the end value when the boundary width is zero, as akima_interpolation.py:77-79 does | medium; not executed | Interpolation.UnguardedDuplicateEnd | Interpolation.GuardedDuplicateEnd |

## Left out

- IEEE floating point: rounding, overflow, and NaN or infinite inputs are not modelled; arithmetic is exact over `real`. Secants model numpy's non-finite-to-0 replacement only where it arises with exact arithmetic, at a zero-width interval.
- Evaluation.ExtendChord: under the unguarded rule a zero boundary width gives `NonFinite` without saying whether Python returns an infinity or NaN.
- Knots.SortKnots: `np.argsort` uses an unstable sort by default, while the model sorts stably; for tied x values the order of their y values, and hence tangents and extrapolation, may differ from numpy. With distinct x the order cannot matter (Interpolation.OrderIndependent).
- The `len(x_sorted) > 1` else-branches of the extrapolation (Homework lines 151-152, 156-157 and their copies) cannot be reached, since every call that gets there has at least two points; they are not modelled.
- Python's negative indices (`x_sorted[-1]`, `[-2]`) are written as `n - 1`, `n - 2`.
- The cache key is a pair of float tuples; float key equality (`-0.0 == 0.0`, NaN never equal) is not modelled, and keys are compared as exact sequences.
- The module-level dictionary is one shared global in Python; it is modelled as one `FourPointCache` object whose `rule` fixes which copy is meant. The cache is never evicted in the source either.
- The `__main__` demonstration blocks and `visualize.py` (plotting, SciPy comparison) print, draw and save files; they are not part of this model.
- Inputs that are not one-dimensional numeric arrays, and numpy's dtype handling, are not modelled.
