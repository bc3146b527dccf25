/** The cubic of one interval (`calculate_cubic_coefficients`):
    P(u) = a + b*u + c*u^2 + d*u^3 with u measured from the interval's left knot. */
module Hermite {
  import opened Results

  datatype Coefficients = Coefficients(a: real, b: real, c: real, d: real)

  /** The value of the cubic `u` to the right of the interval's left knot,
      in the order the source evaluates it. */
  function Cubic(p: Coefficients, u: real): real
  {
    p.a + p.b * u + p.c * u * u + p.d * u * u * u
  }

  /** The derivative of the cubic. */
  function CubicSlope(p: Coefficients, u: real): real
  {
    p.b + 2.0 * p.c * u + 3.0 * p.d * u * u
  }

  /** The four Hermite conditions on an interval of width `h`: the cubic takes the
      values `y0`, `y1` and the slopes `s0`, `s1` at its two ends. */
  predicate Interpolates(p: Coefficients, h: real, y0: real, y1: real, s0: real, s1: real)
  {
    Cubic(p, 0.0) == y0 && Cubic(p, h) == y1 && CubicSlope(p, 0.0) == s0 && CubicSlope(p, h) == s1
  }

  /** `calculate_cubic_coefficients(x, y, s, i)`: raises on an interval of zero
      width; otherwise the cubic meets the Hermite conditions of interval i. */
  function CubicCoefficients(x: seq<real>, y: seq<real>, s: seq<real>, i: nat): (r: Result<Coefficients>)
    requires |x| == |y| == |s| && i + 1 < |x|
    ensures r.Err? <==> x[i + 1] == x[i]
    ensures r.Err? ==> r.error == DuplicateX
    ensures r.Ok? ==> Interpolates(r.value, x[i + 1] - x[i], y[i], y[i + 1], s[i], s[i + 1])
  {
    var h := x[i + 1] - x[i];
    if h == 0.0 then Err(DuplicateX)
    else
      var mi := (y[i + 1] - y[i]) / h;
      var p := Coefficients(y[i], s[i], (3.0 * mi - 2.0 * s[i] - s[i + 1]) / h,
                            (s[i] + s[i + 1] - 2.0 * mi) / (h * h));
      HermiteConditions(p, h, y[i], y[i + 1], s[i], s[i + 1]);
      Ok(p)
  }

  /** The closed-form coefficients meet the four Hermite conditions. */
  lemma HermiteConditions(p: Coefficients, h: real, y0: real, y1: real, s0: real, s1: real)
    requires h != 0.0
    requires p.a == y0 && p.b == s0
    requires p.c == (3.0 * ((y1 - y0) / h) - 2.0 * s0 - s1) / h
    requires p.d == (s0 + s1 - 2.0 * ((y1 - y0) / h)) / (h * h)
    ensures Interpolates(p, h, y0, y1, s0, s1)
  {
    var m := (y1 - y0) / h;
    var cc := 3.0 * m - 2.0 * s0 - s1;
    var dd := s0 + s1 - 2.0 * m;
    assert m * h == y1 - y0;
    assert p.c * h == cc;
    assert p.d * (h * h) == dd;
    assert p.c * h * h == cc * h;
    assert p.d * h * h * h == dd * h;
    assert Cubic(p, h) == y0 + (s0 + cc + dd) * h;
    assert s0 + cc + dd == m;
    assert CubicSlope(p, h) == s0 + 2.0 * cc + 3.0 * dd;
  }

  /** The Hermite conditions fix the cubic: two cubics meeting them on an
      interval of non-zero width are the same cubic. */
  lemma HermiteUnique(p: Coefficients, p': Coefficients, h: real, y0: real, y1: real, s0: real, s1: real)
    requires h != 0.0
    requires Interpolates(p, h, y0, y1, s0, s1) && Interpolates(p', h, y0, y1, s0, s1)
    ensures p == p'
  {
    SameEndConditions(p.a, p.b, p.c, p.d, p'.a, p'.b, p'.c, p'.d, h);
  }

  /** Two cubics with the same value and slope at 0 and the same value and slope
      at h != 0 have the same quadratic and cubic coefficients. */
  lemma SameEndConditions(a: real, b: real, c: real, d: real, a': real, b': real, c': real, d': real, h: real)
    requires h != 0.0 && a == a' && b == b'
    requires a + b * h + c * h * h + d * h * h * h == a' + b' * h + c' * h * h + d' * h * h * h
    requires b + 2.0 * c * h + 3.0 * d * h * h == b' + 2.0 * c' * h + 3.0 * d' * h * h
    ensures c == c' && d == d'
  {
    assert b * h == b' * h;
    // the differences (C, D) satisfy C*h^2 + D*h^3 == 0 and 2*C*h + 3*D*h^2 == 0
    assert ((c - c') + (d - d') * h) * h * h == 0.0;
    ZeroFactor(((c - c') + (d - d') * h) * h, h);
    ZeroFactor((c - c') + (d - d') * h, h);
    assert (2.0 * (c - c') + 3.0 * (d - d') * h) * h == 0.0;
    ZeroFactor(2.0 * (c - c') + 3.0 * (d - d') * h, h);
    // so C + D*h == 0 and 2*C + 3*D*h == 0, whence D*h == 0
    assert (d - d') * h == 0.0;
    ZeroFactor(d - d', h);
  }

  lemma ZeroFactor(x: real, h: real)
    requires h != 0.0 && x * h == 0.0
    ensures x == 0.0
  {
  }

  /** When both end tangents equal the chord slope the cubic degenerates to the
      chord: the quadratic and cubic coefficients vanish. */
  lemma ChordCubic(x: seq<real>, y: seq<real>, s: seq<real>, i: nat, k: real)
    requires |x| == |y| == |s| && i + 1 < |x| && x[i + 1] != x[i]
    requires y[i + 1] - y[i] == k * (x[i + 1] - x[i])
    requires s[i] == k && s[i + 1] == k
    ensures CubicCoefficients(x, y, s, i) == Ok(Coefficients(y[i], k, 0.0, 0.0))
  {
    var h := x[i + 1] - x[i];
    var chord := Coefficients(y[i], k, 0.0, 0.0);
    ChordInterpolates(y[i], y[i + 1], k, h);
    HermiteUnique(CubicCoefficients(x, y, s, i).value, chord, h, y[i], y[i + 1], k, k);
  }

  /** The chord, as a cubic with no quadratic or cubic part, meets the Hermite
      conditions for end tangents equal to its slope. */
  lemma ChordInterpolates(y0: real, y1: real, k: real, h: real)
    requires y1 - y0 == k * h
    ensures Interpolates(Coefficients(y0, k, 0.0, 0.0), h, y0, y1, k, k)
  {
    var chord := Coefficients(y0, k, 0.0, 0.0);
    assert chord.c * h * h == 0.0 && chord.d * h * h * h == 0.0;
    assert Cubic(chord, h) == y0 + k * h;
    assert CubicSlope(chord, h) == k;
  }
}
