/** The public routines: `akima_interpolate_npoints`, `akima_interpolate_4points`
    and `akima_interpolate_4points_with_cache` with its module-level cache. */
module Interpolation {
  import opened Results
  import opened Knots
  import opened Slopes
  import opened Hermite
  import opened Evaluation

  /** `akima_interpolate_npoints(x, y, q)`: checks the lengths, sorts the points
      by x, extrapolates linearly outside [x_min, x_max] and evaluates the
      Akima cubic of the enclosing interval inside it. */
  function InterpolateN(rule: Boundary, x: seq<real>, y: seq<real>, q: real): (r: Result<real>)
    ensures r == Err(LengthMismatch) <==> |x| != |y|
    ensures r == Err(TooFewPoints) <==> |x| == |y| && |x| < 2
    ensures |x| == |y| && 2 <= |x| ==>
              (r.Err? <==> rule == Unguarded && ZeroWidthExtrapolation(SortedXs(x, y), q))
    ensures r.Err? && r.error != LengthMismatch && r.error != TooFewPoints ==>
              r.error == NonFinite && rule == Unguarded
    ensures |x| == |y| && 2 <= |x| && (rule == ZeroWidthGuarded || Distinct(x)) ==> r.Ok?
  {
    if |x| != |y| then Err(LengthMismatch)
    else if |x| < 2 then Err(TooFewPoints)
    else
      var xs := SortedXs(x, y);
      var ys := SortedYs(x, y);
      var r := EvaluateSorted(rule, xs, ys, Tangents(Secants(xs, ys)), q);
      assert Distinct(x) ==> r.Ok? by {
        if Distinct(x) {
          SortedXsStrict(x, y);
        }
      }
      r
  }

  /** `akima_interpolate_4points(x, y, q)`: the same computation, for exactly
      four points. */
  function Interpolate4(rule: Boundary, x: seq<real>, y: seq<real>, q: real): (r: Result<real>)
    ensures !(|x| == 4 && |y| == 4) <==> r == Err(NotFourPoints)
    ensures |x| == 4 && |y| == 4 ==> r == InterpolateN(rule, x, y, q)
  {
    if |x| != 4 || |y| != 4 then Err(NotFourPoints)
    else
      var xs := SortedXs(x, y);
      var ys := SortedYs(x, y);
      EvaluateSorted(rule, xs, ys, Tangents(Secants(xs, ys)), q)
  }

  /** With four points the tangents are the end secants and the averages of
      neighbouring secants. */
  lemma FourPointRule(rule: Boundary, x: seq<real>, y: seq<real>, q: real)
    requires |x| == 4 && |y| == 4
    ensures var xs := SortedXs(x, y);
            var ys := SortedYs(x, y);
            var m := Secants(xs, ys);
            Interpolate4(rule, x, y, q) ==
              EvaluateSorted(rule, xs, ys, [m[0], (m[0] + m[1]) / 2.0, (m[1] + m[2]) / 2.0, m[2]], q)
  {
    var xs := SortedXs(x, y);
    var ys := SortedYs(x, y);
    var m := Secants(xs, ys);
    FourPointTangents(m);
    assert Interpolate4(rule, x, y, q) == EvaluateSorted(rule, xs, ys, Tangents(m), q);
  }

  /** The interpolant passes through every sample point when the x values are
      distinct, in whatever order the points are given. */
  lemma ExactAtSamples(rule: Boundary, x: seq<real>, y: seq<real>, j: nat)
    requires |x| == |y| && 2 <= |x| && Distinct(x) && j < |x|
    ensures InterpolateN(rule, x, y, x[j]) == Ok(y[j])
  {
    var xs := SortedXs(x, y);
    var ys := SortedYs(x, y);
    SortKeepsPairs(x, y, j);
    var k :| 0 <= k < |x| && xs[k] == x[j] && ys[k] == y[j];
    SortedXsStrict(x, y);
    EvaluateAtKnot(rule, xs, ys, Tangents(Secants(xs, ys)), k);
  }

  /** Samples of a straight line with distinct x values are interpolated and
      extrapolated by that same line everywhere. */
  lemma LinearDataStaysLinear(rule: Boundary, x: seq<real>, y: seq<real>, k: real, c: real, q: real)
    requires |x| == |y| && 2 <= |x| && Distinct(x)
    requires forall i :: 0 <= i < |x| ==> y[i] == k * x[i] + c
    ensures InterpolateN(rule, x, y, q) == Ok(k * q + c)
  {
    var xs := SortedXs(x, y);
    var ys := SortedYs(x, y);
    SortedXsStrict(x, y);
    forall i | 0 <= i < |xs| ensures ys[i] == k * xs[i] + c {
      SortedPointIsInput(x, y, i);
    }
    EvaluateOnLine(rule, xs, ys, k, c, q);
  }

  /** A query at or left of every sample is extrapolated along the line through
      the two leftmost sorted points. */
  lemma ExtrapolatedBelow(rule: Boundary, x: seq<real>, y: seq<real>, q: real, r: Result<real>)
    requires |x| == |y| && 2 <= |x| && r == InterpolateN(rule, x, y, q)
    requires forall i :: 0 <= i < |x| ==> q <= x[i]
    ensures var xs := SortedXs(x, y);
            var ys := SortedYs(x, y);
            xs[1] != xs[0] ==> r.Ok? && OnChord(r.value, xs[0], ys[0], xs[1], ys[1], q)
    ensures var xs := SortedXs(x, y);
            var ys := SortedYs(x, y);
            xs[1] == xs[0] ==> (r.Ok? <==> rule == ZeroWidthGuarded) && (r.Ok? ==> r.value == ys[0])
  {
    var xs := SortedXs(x, y);
    var ys := SortedYs(x, y);
    var s := Tangents(Secants(xs, ys));
    SortedPointIsInput(x, y, 0);
    assert q <= xs[0];
    SortedEvaluation(rule, x, y, q);
    ExtrapolateLeft(rule, xs, ys, s, q, r);
  }

  /** A query at or right of every sample, and right of at least one (x[j]), is
      extrapolated along the line through the two rightmost sorted points. */
  lemma ExtrapolatedAbove(rule: Boundary, x: seq<real>, y: seq<real>, q: real, j: nat, r: Result<real>)
    requires |x| == |y| && 2 <= |x| && r == InterpolateN(rule, x, y, q)
    requires j < |x| && x[j] < q
    requires forall i :: 0 <= i < |x| ==> x[i] <= q
    ensures var xs := SortedXs(x, y);
            var ys := SortedYs(x, y);
            var n := |x|;
            xs[n - 2] != xs[n - 1] ==>
              r.Ok? && OnChord(r.value, xs[n - 1], ys[n - 1], xs[n - 2], ys[n - 2], q)
    ensures var xs := SortedXs(x, y);
            var ys := SortedYs(x, y);
            var n := |x|;
            xs[n - 2] == xs[n - 1] ==> (r.Ok? <==> rule == ZeroWidthGuarded) && (r.Ok? ==> r.value == ys[n - 1])
  {
    var xs := SortedXs(x, y);
    var ys := SortedYs(x, y);
    var s := Tangents(Secants(xs, ys));
    AboveSorted(x, y, q, j);
    SortedEvaluation(rule, x, y, q);
    ExtrapolateRight(rule, xs, ys, s, q, r);
  }

  /** Past the checks, the n-point routine evaluates on the sorted columns. */
  lemma SortedEvaluation(rule: Boundary, x: seq<real>, y: seq<real>, q: real)
    requires |x| == |y| && 2 <= |x|
    ensures var xs := SortedXs(x, y);
            var ys := SortedYs(x, y);
            InterpolateN(rule, x, y, q) == EvaluateSorted(rule, xs, ys, Tangents(Secants(xs, ys)), q)
  {
  }

  /** A query right of every sample and of at least one is right of the
      sorted data and not at or left of its first point. */
  lemma AboveSorted(x: seq<real>, y: seq<real>, q: real, j: nat)
    requires |x| == |y| && 2 <= |x| && j < |x| && x[j] < q
    requires forall i :: 0 <= i < |x| ==> x[i] <= q
    ensures SortedXs(x, y)[0] < q && SortedXs(x, y)[|x| - 1] <= q
  {
    var xs := SortedXs(x, y);
    SortedPointIsInput(x, y, |x| - 1);
    SortKeepsPairs(x, y, j);
    var k :| 0 <= k < |x| && xs[k] == x[j] && SortedYs(x, y)[k] == y[j];
    assert xs[0] <= xs[k];
  }

  /** Reordering the sample points does not change the result when their x
      values are distinct. */
  lemma OrderIndependent(rule: Boundary, x: seq<real>, y: seq<real>, x': seq<real>, y': seq<real>, q: real)
    requires |x| == |y| && |x'| == |y'| && Distinct(x) && Distinct(x')
    requires multiset(Zip(x, y)) == multiset(Zip(x', y'))
    ensures InterpolateN(rule, x, y, q) == InterpolateN(rule, x', y', q)
  {
    assert |Zip(x, y)| == |Zip(x', y')| by {
      assert |multiset(Zip(x, y))| == |multiset(Zip(x', y'))|;
    }
    SortOrderIndependent(x, y, x', y');
  }

  /** Two samples sharing the smallest x: the unguarded extrapolation divides
      by the zero width of the first interval, and the result is not a number. */
  lemma UnguardedDuplicateEnd()
    ensures InterpolateN(Unguarded, [0.0, 0.0], [0.0, 1.0], -1.0) == Err(NonFinite)
  {
    SmallSort();
  }

  /** The same samples with the zero-width guard: the end value is returned. */
  lemma GuardedDuplicateEnd()
    ensures InterpolateN(ZeroWidthGuarded, [0.0, 0.0], [0.0, 1.0], -1.0) == Ok(0.0)
  {
    SmallSort();
  }

  lemma SmallSort()
    ensures SortedXs([0.0, 0.0], [0.0, 1.0]) == [0.0, 0.0]
    ensures SortedYs([0.0, 0.0], [0.0, 1.0]) == [0.0, 1.0]
  {
    var ks := Zip([0.0, 0.0], [0.0, 1.0]);
    assert ks == [Knot(0.0, 0.0), Knot(0.0, 1.0)];
    assert ks[1..] == [Knot(0.0, 1.0)];
    assert SortKnots(ks[1..]) == [Knot(0.0, 1.0)] by {
      assert ks[1..][1..] == [];
    }
    assert SortKnots(ks) == [Knot(0.0, 0.0), Knot(0.0, 1.0)];
  }

  /** What the cache keeps for one data key: the sorted columns and their tangents. */
  datatype Entry = Entry(xs: seq<real>, ys: seq<real>, s: seq<real>)

  /** The entry built for arrays `x`, `y` when `y` is at least as long as `x`:
      indexing `y` by the sort permutation of `x` only reads its first |x| entries. */
  function CacheEntry(x: seq<real>, y: seq<real>): (e: Entry)
    requires |x| <= |y|
    ensures |e.xs| == |e.ys| == |x| && NonDecreasing(e.xs)
    ensures 2 <= |x| ==> |e.s| == |x|
  {
    var xs := SortedXs(x, y[..|x|]);
    var ys := SortedYs(x, y[..|x|]);
    if |x| < 2 then Entry(xs, ys, []) else Entry(xs, ys, Tangents(Secants(xs, ys)))
  }

  /** Evaluating from the entry built for `(x, y)` gives what the n-point
      routine gives for `x` and the first |x| entries of `y`. */
  lemma EvaluateEntry(rule: Boundary, x: seq<real>, y: seq<real>, q: real)
    requires 2 <= |x| <= |y|
    ensures var e := CacheEntry(x, y);
            EvaluateSorted(rule, e.xs, e.ys, e.s, q) == InterpolateN(rule, x, y[..|x|], q)
    ensures var e := CacheEntry(x, y);
            |x| == 4 && |y| == 4 ==> EvaluateSorted(rule, e.xs, e.ys, e.s, q) == Interpolate4(rule, x, y, q)
  {
    assert |x| == |y| ==> y[..|x|] == y;
  }

  /** `_akima_4points_cache` together with `akima_interpolate_4points_with_cache`;
      `rule` selects which copy's extrapolation branches are modelled. */
  class FourPointCache {
    const rule: Boundary
    var entries: map<(seq<real>, seq<real>), Entry>

    /** Every key maps to the entry built from it. */
    ghost predicate Valid()
      reads this
    {
      forall key :: key in entries ==>
        2 <= |key.0| <= |key.1| && entries[key] == CacheEntry(key.0, key.1)
    }

    constructor (rule: Boundary)
      ensures Valid() && this.rule == rule && entries == map[]
    {
      this.rule := rule;
      entries := map[];
    }

    /** Builds and stores the entry for `(x, y)` on a miss, then evaluates from
        the entry. The length of the arrays is never checked: a `y` shorter than
        `x` makes the indexing fail, fewer than two points make the tangent
        computation fail, and otherwise the result is that of the n-point
        routine on `x` and the first |x| entries of `y`. */
    method Interpolate(x: seq<real>, y: seq<real>, q: real) returns (r: Result<real>)
      requires Valid()
      modifies this
      ensures Valid()
      ensures (x, y) in old(entries) || !(2 <= |x| <= |y|) ==> entries == old(entries)
      ensures (x, y) !in old(entries) && 2 <= |x| <= |y| ==>
                entries == old(entries)[(x, y) := CacheEntry(x, y)]
      ensures 1 <= |x| && |y| < |x| ==> r == Err(IndexOutOfRange)
      ensures |x| < 2 && |x| <= |y| ==> r == Err(TooFewPoints)
      ensures 2 <= |x| <= |y| ==> r == InterpolateN(rule, x, y[..|x|], q)
      ensures |x| == 4 && |y| == 4 ==> r == Interpolate4(rule, x, y, q)
    {
      var key := (x, y);
      if key !in entries {
        if 1 <= |x| && |y| < |x| {
          return Err(IndexOutOfRange);
        }
        var xs := SortedXs(x, y[..|x|]);
        var ys := SortedYs(x, y[..|x|]);
        var s := SplineSlopes(xs, ys);
        if s.Err? {
          return Err(s.error);
        }
        entries := entries[key := Entry(xs, ys, s.value)];
      }
      var e := entries[key];
      r := EvaluateSorted(rule, e.xs, e.ys, e.s, q);
      EvaluateEntry(rule, x, y, q);
    }
  }
}
