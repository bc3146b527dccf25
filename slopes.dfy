/** Secant slopes between adjacent points (`calculate_slopes`) and the tangent
    at every knot (`calculate_spline_slopes`). */
module Slopes {
  import opened Results

  function Abs(r: real): real
  {
    if r < 0.0 then -r else r
  }

  /** `v` lies in the closed interval spanned by `a` and `b`. */
  predicate Between(v: real, a: real, b: real)
  {
    (a <= v <= b) || (b <= v <= a)
  }

  /** The slope of the chord from point i to point i+1; a zero-width interval,
      whose IEEE quotient is not finite, gets 0. */
  function Secants(x: seq<real>, y: seq<real>): (m: seq<real>)
    requires |x| == |y|
    ensures |m| == if |x| == 0 then 0 else |x| - 1
    ensures forall i {:trigger m[i]} :: 0 <= i < |m| && x[i + 1] != x[i] ==>
              y[i] + m[i] * (x[i + 1] - x[i]) == y[i + 1]
    ensures forall i {:trigger m[i]} :: 0 <= i < |m| && x[i + 1] == x[i] ==> m[i] == 0.0
  {
    if |x| == 0 then []
    else seq(|x| - 1, i requires 0 <= i < |x| - 1 =>
               if x[i + 1] - x[i] == 0.0 then 0.0 else (y[i + 1] - y[i]) / (x[i + 1] - x[i]))
  }

  /** Points on the line y = k*x + c with distinct consecutive x have every secant equal to k. */
  lemma SecantsOfLine(x: seq<real>, y: seq<real>, k: real, c: real)
    requires |x| == |y|
    requires forall i :: 0 <= i < |x| ==> y[i] == k * x[i] + c
    requires forall i :: 0 <= i < |x| - 1 ==> x[i] != x[i + 1]
    ensures forall i :: 0 <= i < |Secants(x, y)| ==> Secants(x, y)[i] == k
  {
    var m := Secants(x, y);
    forall i | 0 <= i < |m| ensures m[i] == k {
      ChordOfLine(x[i], x[i + 1], y[i], y[i + 1], k, c, m[i]);
    }
  }

  /** A chord through two distinct points of the line y = k*x + c has slope k. */
  lemma ChordOfLine(x0: real, x1: real, y0: real, y1: real, k: real, c: real, slope: real)
    requires x0 != x1 && y0 == k * x0 + c && y1 == k * x1 + c
    requires y0 + slope * (x1 - x0) == y1
    ensures slope == k
  {
    assert (slope - k) * (x1 - x0) == 0.0;
  }

  /** Akima's weighted average at an interior knot, from the four secants around it:
      `a` = m[i-2], `b` = m[i-1], `c` = m[i], `d` = m[i+1]. The weight of `b` is the
      slope change |d - c| on the far right, the weight of `c` the change |b - a| on
      the far left; with both zero it is the plain average. */
  function WeightedTangent(a: real, b: real, c: real, d: real): real
  {
    var w1 := Abs(d - c);
    var w2 := Abs(b - a);
    var denominator := w1 + w2;
    if denominator == 0.0 then (b + c) / 2.0 else (w1 * b + w2 * c) / denominator
  }

  /** The weighted tangent lies between its two neighbouring secants `b` and `c`;
      it equals `b` when the left pair of secants is flat and the right pair is not,
      and `c` in the mirror case. */
  lemma WeightedTangentBounds(a: real, b: real, c: real, d: real)
    ensures Between(WeightedTangent(a, b, c, d), b, c)
    ensures b == c ==> WeightedTangent(a, b, c, d) == b
    ensures Abs(b - a) == 0.0 < Abs(d - c) ==> WeightedTangent(a, b, c, d) == b
    ensures Abs(d - c) == 0.0 < Abs(b - a) ==> WeightedTangent(a, b, c, d) == c
  {
    var w1 := Abs(d - c);
    var w2 := Abs(b - a);
    if w1 + w2 != 0.0 {
      ConvexCombination(w1, w2, b, c, WeightedTangent(a, b, c, d));
    }
  }

  /** A weighted mean with non-negative weights lies between the two values. */
  lemma ConvexCombination(w1: real, w2: real, b: real, c: real, t: real)
    requires 0.0 <= w1 && 0.0 <= w2 && 0.0 < w1 + w2
    requires t == (w1 * b + w2 * c) / (w1 + w2)
    ensures Between(t, b, c)
    ensures w2 == 0.0 ==> t == b
    ensures w1 == 0.0 ==> t == c
  {
    var w := w1 + w2;
    assert t * w == w1 * b + w2 * c;
    assert (t - b) * w == w2 * (c - b);
    assert (c - t) * w == w1 * (c - b);
    if b <= c {
      assert w2 * (c - b) >= 0.0;
      assert w1 * (c - b) >= 0.0;
    } else {
      assert w2 * (b - c) >= 0.0;
      assert w1 * (b - c) >= 0.0;
    }
  }

  /** Reflecting the data (x -> -x) reverses and negates the secants; the weighted
      tangent is negated, so the rule treats both directions alike. */
  lemma WeightedTangentMirror(a: real, b: real, c: real, d: real)
    ensures WeightedTangent(-d, -c, -b, -a) == -WeightedTangent(a, b, c, d)
  {
    var w1 := Abs(d - c);
    var w2 := Abs(b - a);
    assert Abs(-a - -b) == w2 && Abs(-c - -d) == w1;
    if w1 + w2 != 0.0 {
      NegatedMean(w1, w2, b, c);
    }
  }

  /** Negating both values of a weighted mean negates the mean. */
  lemma NegatedMean(w1: real, w2: real, b: real, c: real)
    requires w1 + w2 != 0.0
    ensures (w2 * -c + w1 * -b) / (w2 + w1) == -((w1 * b + w2 * c) / (w1 + w2))
  {
    var t := (w1 * b + w2 * c) / (w1 + w2);
    assert t * (w1 + w2) == w1 * b + w2 * c;
    assert -t * (w2 + w1) == w2 * -c + w1 * -b;
  }

  /** The plain mean of two neighbouring secants. */
  function Average(b: real, c: real): (t: real)
    ensures Between(t, b, c)
    ensures t + t == b + c
  {
    (b + c) / 2.0
  }

  /** The tangent at knot `i` of `|m| + 1` knots, following the assignments of
      the source in order: the end rules, the two averaged knots next to the ends,
      and the weighted average in between. */
  function TangentAt(m: seq<real>, i: nat): real
    requires 1 <= |m| && i <= |m|
  {
    var n := |m| + 1;
    if i == 0 then m[0]
    else if i == n - 1 then m[n - 2]
    else if i == 1 || i == n - 2 then Average(m[i - 1], m[i])
    else WeightedTangent(m[i - 2], m[i - 1], m[i], m[i + 1])
  }

  /** The tangent array `s` of `calculate_spline_slopes` for secants `m` (n = |m| + 1 knots). */
  function Tangents(m: seq<real>): (s: seq<real>)
    requires 1 <= |m|
    ensures |s| == |m| + 1
    ensures s[0] == m[0] && s[|m|] == m[|m| - 1]
    ensures 2 <= |m| ==> s[1] == Average(m[0], m[1])
    ensures 2 <= |m| ==> s[|m| - 1] == Average(m[|m| - 2], m[|m| - 1])
    ensures forall i {:trigger s[i]} :: 2 <= i <= |m| - 2 ==>
              s[i] == WeightedTangent(m[i - 2], m[i - 1], m[i], m[i + 1])
    ensures forall i {:trigger s[i]} :: 0 < i < |m| ==> Between(s[i], m[i - 1], m[i])
  {
    var s := seq(|m| + 1, i requires 0 <= i <= |m| => TangentAt(m, i));
    assert forall i {:trigger s[i]} :: 0 < i < |m| ==> Between(s[i], m[i - 1], m[i]) by {
      forall i | 0 < i < |m| ensures Between(s[i], m[i - 1], m[i]) {
        if 2 <= i <= |m| - 2 {
          WeightedTangentBounds(m[i - 2], m[i - 1], m[i], m[i + 1]);
        }
      }
    }
    s
  }

  /** With exactly four points (three secants) the weighted rule is never used:
      the inner tangents are plain averages. */
  lemma FourPointTangents(m: seq<real>)
    requires |m| == 3
    ensures Tangents(m) == [m[0], (m[0] + m[1]) / 2.0, (m[1] + m[2]) / 2.0, m[2]]
  {
  }

  /** Collinear data: when every secant is `k`, every tangent is `k`. */
  lemma {:induction false} TangentsOfConstant(m: seq<real>, k: real)
    requires 1 <= |m|
    requires forall i :: 0 <= i < |m| ==> m[i] == k
    ensures forall i :: 0 <= i < |Tangents(m)| ==> Tangents(m)[i] == k
  {
    var s := Tangents(m);
    forall i | 0 <= i < |s| ensures s[i] == k {
      if 0 < i < |m| {
        assert Between(s[i], m[i - 1], m[i]);
      }
    }
  }

  /** `calculate_spline_slopes`: raises when there are fewer than two points,
      otherwise computes the secants and fills the tangent array from them. */
  method SplineSlopes(x: seq<real>, y: seq<real>) returns (r: Result<seq<real>>)
    requires |x| == |y|
    ensures r.Err? <==> |x| < 2
    ensures r.Err? ==> r.error == TooFewPoints
    ensures r.Ok? ==> r.value == Tangents(Secants(x, y))
  {
    var n := |x|;
    if n < 2 {
      return Err(TooFewPoints);
    }
    var m := Secants(x, y);
    var s := FillTangents(m);
    return Ok(s);
  }

  /** The in-place part of `calculate_spline_slopes`: a zeroed array of n = |m| + 1
      entries is filled knot by knot; two points get the single secant twice. */
  method FillTangents(m: seq<real>) returns (t: seq<real>)
    requires 1 <= |m|
    ensures t == Tangents(m)
  {
    var n := |m| + 1;
    var s := new real[n](_ => 0.0);
    if n == 2 {
      s[0] := m[0];
      s[1] := m[0];
      return s[..];
    }
    s[0] := m[0];
    if n > 2 {
      s[1] := (m[0] + m[1]) / 2.0;
    }
    var i := 2;
    while i < n - 2
      invariant 2 <= i <= if n < 4 then 2 else n - 2
      invariant s[0] == m[0] && s[1] == (m[0] + m[1]) / 2.0
      invariant forall k {:trigger s[k]} :: 2 <= k < i ==> s[k] == WeightedTangent(m[k - 2], m[k - 1], m[k], m[k + 1])
    {
      var w1 := Abs(m[i + 1] - m[i]);
      var w2 := Abs(m[i - 1] - m[i - 2]);
      var denominator := w1 + w2;
      var si;
      if denominator == 0.0 {
        si := (m[i - 1] + m[i]) / 2.0;
      } else {
        si := (w1 * m[i - 1] + w2 * m[i]) / denominator;
      }
      assert si == WeightedTangent(m[i - 2], m[i - 1], m[i], m[i + 1]);
      s[i] := si;
      i := i + 1;
    }
    if n > 2 {
      s[n - 2] := (m[n - 3] + m[n - 2]) / 2.0;
    }
    s[n - 1] := m[n - 2];
    forall k | 0 <= k < n ensures s[k] == TangentAt(m, k) {
      if 2 <= k < n - 2 {
        assert s[k] == WeightedTangent(m[k - 2], m[k - 1], m[k], m[k + 1]);
      }
    }
    return s[..];
  }
}
