/** Evaluation at one query point on knots already sorted by x: linear
    extrapolation outside the data, the Hermite cubic of the enclosing interval
    inside it. This is the common tail of `akima_interpolate_4points`,
    `akima_interpolate_4points_with_cache` and `akima_interpolate_npoints`. */
module Evaluation {
  import opened Results
  import opened Knots
  import opened Slopes
  import opened Hermite

  /** The two copies of the routines differ only in the extrapolation branches:
      `Unguarded` divides by the boundary width as it is, `ZeroWidthGuarded`
      returns the end value when that width is zero. */
  datatype Boundary = Unguarded | ZeroWidthGuarded

  /** `v` is the value at `q` of the line through (x0, y0) and (x1, y1), stated
      without dividing so that it also reads for x1 == x0. */
  predicate OnChord(v: real, x0: real, y0: real, x1: real, y1: real, q: real)
  {
    (v - y0) * (x1 - x0) == (y1 - y0) * (q - x0)
  }

  /** The value at `q` of the line through (x0, y0) and (x1, y1), extended past
      the point (x0, y0) at the end of the data. */
  function ExtendChord(rule: Boundary, x0: real, y0: real, x1: real, y1: real, q: real): (r: Result<real>)
    ensures r.Err? <==> rule == Unguarded && x1 == x0
    ensures r.Err? ==> r.error == NonFinite
    ensures r.Ok? && x1 == x0 ==> r.value == y0
    ensures r.Ok? && x1 != x0 ==> OnChord(r.value, x0, y0, x1, y1, q)
    ensures r.Ok? && q == x0 ==> r.value == y0
  {
    var dx := x1 - x0;
    if dx == 0.0 then
      if rule == Unguarded then Err(NonFinite) else Ok(y0)
    else
      var v := y0 + (y1 - y0) / dx * (q - x0);
      ChordPoint(x0, y0, x1, y1, q, v);
      Ok(v)
  }

  /** The extended chord passes through its anchor and has the chord's slope. */
  lemma ChordPoint(x0: real, y0: real, x1: real, y1: real, q: real, v: real)
    requires x1 != x0
    requires v == y0 + (y1 - y0) / (x1 - x0) * (q - x0)
    ensures OnChord(v, x0, y0, x1, y1, q)
  {
    var slope := (y1 - y0) / (x1 - x0);
    assert slope * (x1 - x0) == y1 - y0;
    assert (v - y0) * (x1 - x0) == slope * (q - x0) * (x1 - x0);
  }

  /** `idx = max(0, min(searchsorted(xs, q) - 1, n - 2))`: the left knot of the
      interval used for `q`; for a query strictly inside the data it is the
      interval that encloses it. */
  function LocateInterval(xs: seq<real>, q: real): (idx: nat)
    requires 2 <= |xs| && NonDecreasing(xs)
    ensures idx <= |xs| - 2
    ensures xs[0] < q <= xs[|xs| - 1] ==> xs[idx] < q <= xs[idx + 1]
  {
    var i := SearchSorted(xs, q) - 1;
    var clamped := if i < |xs| - 2 then i else |xs| - 2;
    if clamped < 0 then 0 else clamped
  }

  /** The query is extrapolated past an end of the data whose boundary interval
      has zero width: the case in which the unguarded division fails. */
  predicate ZeroWidthExtrapolation(xs: seq<real>, q: real)
    requires 2 <= |xs|
  {
    (q <= xs[0] && xs[1] == xs[0]) ||
    (xs[0] < q && xs[|xs| - 1] <= q && xs[|xs| - 1] == xs[|xs| - 2])
  }

  /** The value the routines return for query `q` once the knots `xs`, `ys`
      are sorted and the tangents `s` are known. */
  function EvaluateSorted(rule: Boundary, xs: seq<real>, ys: seq<real>, s: seq<real>, q: real): (r: Result<real>)
    requires |xs| == |ys| == |s| && 2 <= |xs| && NonDecreasing(xs)
    ensures r.Err? <==> rule == Unguarded && ZeroWidthExtrapolation(xs, q)
    ensures r.Err? ==> r.error == NonFinite
  {
    var n := |xs|;
    if q <= xs[0] then
      ExtendChord(rule, xs[0], ys[0], xs[1], ys[1], q)
    else if q >= xs[n - 1] then
      ExtendChord(rule, xs[n - 1], ys[n - 1], xs[n - 2], ys[n - 2], q)
    else
      var idx := LocateInterval(xs, q);
      match CubicCoefficients(xs, ys, s, idx)
      case Ok(p) => Ok(Cubic(p, q - xs[idx]))
      case Err(e) => Err(e)
  }

  /** Left of the data the value `r` lies on the line through the first two
      knots, or is the first value when the guard meets a zero-width first
      interval. */
  lemma ExtrapolateLeft(rule: Boundary, xs: seq<real>, ys: seq<real>, s: seq<real>, q: real, r: Result<real>)
    requires |xs| == |ys| == |s| && 2 <= |xs| && NonDecreasing(xs) && q <= xs[0]
    requires r == EvaluateSorted(rule, xs, ys, s, q)
    ensures xs[1] != xs[0] ==> r.Ok? && OnChord(r.value, xs[0], ys[0], xs[1], ys[1], q)
    ensures xs[1] == xs[0] ==> (r.Ok? <==> rule == ZeroWidthGuarded) && (r.Ok? ==> r.value == ys[0])
  {
    assert r == ExtendChord(rule, xs[0], ys[0], xs[1], ys[1], q);
  }

  /** Right of the data the value `r` lies on the line through the last two
      knots, or is the last value when the guard meets a zero-width last
      interval. */
  lemma ExtrapolateRight(rule: Boundary, xs: seq<real>, ys: seq<real>, s: seq<real>, q: real, r: Result<real>)
    requires |xs| == |ys| == |s| && 2 <= |xs| && NonDecreasing(xs) && xs[0] < q && xs[|xs| - 1] <= q
    requires r == EvaluateSorted(rule, xs, ys, s, q)
    ensures var n := |xs|;
            xs[n - 2] != xs[n - 1] ==>
              r.Ok? && OnChord(r.value, xs[n - 1], ys[n - 1], xs[n - 2], ys[n - 2], q)
    ensures var n := |xs|;
            xs[n - 2] == xs[n - 1] ==> (r.Ok? <==> rule == ZeroWidthGuarded) && (r.Ok? ==> r.value == ys[n - 1])
  {
    var n := |xs|;
    assert r == ExtendChord(rule, xs[n - 1], ys[n - 1], xs[n - 2], ys[n - 2], q);
  }

  /** Inside the data the value is that of the cubic of the interval enclosing
      `q`, whichever index names that interval: the located interval is the
      only one with xs[i] < q <= xs[i + 1]. */
  lemma EvaluateInsideInterval(rule: Boundary, xs: seq<real>, ys: seq<real>, s: seq<real>, q: real, i: nat)
    requires |xs| == |ys| == |s| && 2 <= |xs| && NonDecreasing(xs)
    requires xs[0] < q < xs[|xs| - 1] && i + 1 < |xs| && xs[i] < q <= xs[i + 1]
    ensures CubicCoefficients(xs, ys, s, i).Ok?
    ensures EvaluateSorted(rule, xs, ys, s, q) == Ok(Cubic(CubicCoefficients(xs, ys, s, i).value, q - xs[i]))
  {
    assert LocateInterval(xs, q) == i;
  }

  /** Neighbouring interval cubics meet at their shared knot with the same value
      and the same slope: the interpolant is continuously differentiable. */
  lemma SegmentsJoin(xs: seq<real>, ys: seq<real>, s: seq<real>, i: nat)
    requires |xs| == |ys| == |s| && 0 < i && i + 1 < |xs|
    requires xs[i - 1] != xs[i] && xs[i] != xs[i + 1]
    ensures var left := CubicCoefficients(xs, ys, s, i - 1).value;
            var right := CubicCoefficients(xs, ys, s, i).value;
            Cubic(left, xs[i] - xs[i - 1]) == Cubic(right, 0.0) == ys[i] &&
            CubicSlope(left, xs[i] - xs[i - 1]) == CubicSlope(right, 0.0) == s[i]
  {
  }

  /** On strictly increasing knots the evaluation reproduces every data value,
      whatever the tangents: the ends through the extrapolation anchor, the
      interior knots as the right end of the interval before them. */
  lemma EvaluateAtKnot(rule: Boundary, xs: seq<real>, ys: seq<real>, s: seq<real>, j: nat)
    requires |xs| == |ys| == |s| && 2 <= |xs| && StrictlyIncreasing(xs) && j < |xs|
    ensures NonDecreasing(xs) && EvaluateSorted(rule, xs, ys, s, xs[j]) == Ok(ys[j])
  {
    StrictIsNonDecreasing(xs);
    var n := |xs|;
    if 0 < j < n - 1 {
      assert xs[0] < xs[j] < xs[n - 1];
      var idx := LocateInterval(xs, xs[j]);
      assert idx == j - 1;
      var p := CubicCoefficients(xs, ys, s, idx).value;
      assert Cubic(p, xs[j] - xs[idx]) == ys[j];
    }
  }

  lemma StrictIsNonDecreasing(xs: seq<real>)
    requires StrictlyIncreasing(xs)
    ensures NonDecreasing(xs)
  {
  }

  /** Data on the line y = k*x + c with strictly increasing x is reproduced
      exactly everywhere: every secant and tangent is k, every interval's cubic
      is the chord, and both extrapolations follow the same line. */
  lemma EvaluateOnLine(rule: Boundary, xs: seq<real>, ys: seq<real>, k: real, c: real, q: real)
    requires |xs| == |ys| && 2 <= |xs| && StrictlyIncreasing(xs)
    requires forall i :: 0 <= i < |xs| ==> ys[i] == k * xs[i] + c
    ensures NonDecreasing(xs)
    ensures EvaluateSorted(rule, xs, ys, Tangents(Secants(xs, ys)), q) == Ok(k * q + c)
  {
    StrictIsNonDecreasing(xs);
    var m := Secants(xs, ys);
    SecantsOfLine(xs, ys, k, c);
    TangentsOfConstant(m, k);
    ConstantTangentsOnLine(rule, xs, ys, Tangents(m), k, c, q);
  }

  /** The evaluation step alone: line data with every tangent equal to the
      line's slope evaluates to the line. */
  lemma ConstantTangentsOnLine(rule: Boundary, xs: seq<real>, ys: seq<real>, s: seq<real>, k: real, c: real, q: real)
    requires |xs| == |ys| == |s| && 2 <= |xs| && StrictlyIncreasing(xs)
    requires forall i {:trigger ys[i]} :: 0 <= i < |xs| ==> ys[i] == k * xs[i] + c
    requires forall i :: 0 <= i < |s| ==> s[i] == k
    ensures NonDecreasing(xs)
    ensures EvaluateSorted(rule, xs, ys, s, q) == Ok(k * q + c)
  {
    StrictIsNonDecreasing(xs);
    if q <= xs[0] {
      LeftOnLine(rule, xs, ys, s, k, c, q);
    } else if q >= xs[|xs| - 1] {
      RightOnLine(rule, xs, ys, s, k, c, q);
    } else {
      InteriorOnLine(rule, xs, ys, s, k, c, q);
    }
  }

  lemma LeftOnLine(rule: Boundary, xs: seq<real>, ys: seq<real>, s: seq<real>, k: real, c: real, q: real)
    requires |xs| == |ys| == |s| && 2 <= |xs| && StrictlyIncreasing(xs) && NonDecreasing(xs) && q <= xs[0]
    requires forall i {:trigger ys[i]} :: 0 <= i < |xs| ==> ys[i] == k * xs[i] + c
    ensures EvaluateSorted(rule, xs, ys, s, q) == Ok(k * q + c)
  {
    var r := EvaluateSorted(rule, xs, ys, s, q);
    assert xs[0] < xs[1];
    LineThrough(xs[0], ys[0], xs[1], ys[1], k, c, q, r.value);
  }

  lemma RightOnLine(rule: Boundary, xs: seq<real>, ys: seq<real>, s: seq<real>, k: real, c: real, q: real)
    requires |xs| == |ys| == |s| && 2 <= |xs| && StrictlyIncreasing(xs) && NonDecreasing(xs)
    requires xs[0] < q && xs[|xs| - 1] <= q
    requires forall i {:trigger ys[i]} :: 0 <= i < |xs| ==> ys[i] == k * xs[i] + c
    ensures EvaluateSorted(rule, xs, ys, s, q) == Ok(k * q + c)
  {
    var n := |xs|;
    var r := EvaluateSorted(rule, xs, ys, s, q);
    assert xs[n - 2] < xs[n - 1];
    LineThrough(xs[n - 1], ys[n - 1], xs[n - 2], ys[n - 2], k, c, q, r.value);
  }

  lemma InteriorOnLine(rule: Boundary, xs: seq<real>, ys: seq<real>, s: seq<real>, k: real, c: real, q: real)
    requires |xs| == |ys| == |s| && 2 <= |xs| && NonDecreasing(xs) && xs[0] < q < xs[|xs| - 1]
    requires forall i {:trigger ys[i]} :: 0 <= i < |xs| ==> ys[i] == k * xs[i] + c
    requires forall i :: 0 <= i < |s| ==> s[i] == k
    ensures EvaluateSorted(rule, xs, ys, s, q) == Ok(k * q + c)
  {
    var idx := LocateInterval(xs, q);
    IntervalOnLine(xs, ys, s, idx, k, c, q);
  }

  /** The cubic of an interval whose ends lie on y = k*x + c with both tangents k
      is that line. */
  lemma IntervalOnLine(xs: seq<real>, ys: seq<real>, s: seq<real>, idx: nat, k: real, c: real, q: real)
    requires |xs| == |ys| == |s| && idx + 1 < |xs| && xs[idx] != xs[idx + 1]
    requires ys[idx] == k * xs[idx] + c && ys[idx + 1] == k * xs[idx + 1] + c
    requires s[idx] == k && s[idx + 1] == k
    ensures CubicCoefficients(xs, ys, s, idx) == Ok(Coefficients(ys[idx], k, 0.0, 0.0))
    ensures Cubic(Coefficients(ys[idx], k, 0.0, 0.0), q - xs[idx]) == k * q + c
  {
    assert ys[idx + 1] - ys[idx] == k * (xs[idx + 1] - xs[idx]);
    ChordCubic(xs, ys, s, idx, k);
  }

  /** A point on the line through two distinct points of y = k*x + c lies on it. */
  lemma LineThrough(x0: real, y0: real, x1: real, y1: real, k: real, c: real, q: real, v: real)
    requires x0 != x1 && y0 == k * x0 + c && y1 == k * x1 + c
    requires OnChord(v, x0, y0, x1, y1, q)
    ensures v == k * q + c
  {
    assert (v - y0) * (x1 - x0) == k * (q - x0) * (x1 - x0);
    assert (v - y0 - k * (q - x0)) * (x1 - x0) == 0.0;
  }

}
