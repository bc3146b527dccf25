/** Sample points, the sort by x that every routine starts with (`np.argsort`
    followed by fancy indexing), and the interval search (`np.searchsorted`). */
module Knots {

  /** One sample point. */
  datatype Knot = Knot(x: real, y: real)

  /** Pairs `x[i]` with `y[i]`, as indexing both arrays by one permutation does. */
  function Zip(x: seq<real>, y: seq<real>): seq<Knot>
    requires |x| == |y|
  {
    seq(|x|, i requires 0 <= i < |x| => Knot(x[i], y[i]))
  }

  function XsOf(ks: seq<Knot>): seq<real>
  {
    seq(|ks|, i requires 0 <= i < |ks| => ks[i].x)
  }

  function YsOf(ks: seq<Knot>): seq<real>
  {
    seq(|ks|, i requires 0 <= i < |ks| => ks[i].y)
  }

  predicate NonDecreasing(xs: seq<real>)
  {
    forall i, j :: 0 <= i <= j < |xs| ==> xs[i] <= xs[j]
  }

  predicate StrictlyIncreasing(xs: seq<real>)
  {
    forall i, j :: 0 <= i < j < |xs| ==> xs[i] < xs[j]
  }

  /** No two samples share an x value. */
  predicate Distinct(xs: seq<real>)
  {
    forall i, j :: 0 <= i < j < |xs| ==> xs[i] != xs[j]
  }

  /** The two orders below restate `NonDecreasing` and `StrictlyIncreasing` on
      the x field of the knots themselves: the sort moves whole (x, y) pairs and
      is proved over these, while evaluation reads the separate x column;
      `SortedXs` and `SortedXsStrict` carry one form to the other. */
  predicate SortedByX(ks: seq<Knot>)
  {
    forall i, j :: 0 <= i <= j < |ks| ==> ks[i].x <= ks[j].x
  }

  predicate StrictlySortedByX(ks: seq<Knot>)
  {
    forall i, j :: 0 <= i < j < |ks| ==> ks[i].x < ks[j].x
  }

  /** Places `k` into a sorted sequence, before every knot whose x is not smaller. */
  function Insert(k: Knot, ks: seq<Knot>): (r: seq<Knot>)
    requires SortedByX(ks)
    ensures SortedByX(r)
    ensures multiset(r) == multiset(ks) + multiset{k}
    ensures |r| == |ks| + 1
  {
    if ks == [] || k.x <= ks[0].x then
      forall e | e in ks ensures k.x <= e.x {
        var i :| 0 <= i < |ks| && ks[i] == e;
        assert ks[0].x <= ks[i].x;
      }
      PrependSorted(k, ks);
      [k] + ks
    else
      var rest := Insert(k, ks[1..]);
      InsertBehindHead(k, ks, rest);
      [ks[0]] + rest
  }

  /** The head of a sorted sequence stays in front of the insertion into its tail. */
  lemma InsertBehindHead(k: Knot, ks: seq<Knot>, rest: seq<Knot>)
    requires SortedByX(ks) && ks != [] && ks[0].x < k.x
    requires SortedByX(rest) && multiset(rest) == multiset(ks[1..]) + multiset{k}
    ensures SortedByX([ks[0]] + rest)
    ensures multiset([ks[0]] + rest) == multiset(ks) + multiset{k}
  {
    assert ks == [ks[0]] + ks[1..];
    forall e | e in rest ensures ks[0].x <= e.x {
      assert e in multiset(rest);
      if e != k {
        assert e in multiset(ks[1..]);
        var i :| 0 <= i < |ks[1..]| && ks[1..][i] == e;
        assert ks[i + 1] == e;
      }
    }
    PrependSorted(ks[0], rest);
  }

  /** A knot not right of any knot of a sorted sequence can go in front. */
  lemma PrependSorted(k: Knot, ks: seq<Knot>)
    requires SortedByX(ks)
    requires forall e :: e in ks ==> k.x <= e.x
    ensures SortedByX([k] + ks)
  {
    var r := [k] + ks;
    forall i, j | 0 <= i <= j < |r| ensures r[i].x <= r[j].x {
      if i == 0 {
        if j > 0 {
          assert r[j] == ks[j - 1];
          assert r[j] in ks;
        }
      } else {
        assert r[i] == ks[i - 1] && r[j] == ks[j - 1];
      }
    }
  }

  /** The knots reordered by non-decreasing x: the permutation `np.argsort`
      computes, applied to the (x, y) pairs together. */
  function SortKnots(ks: seq<Knot>): (r: seq<Knot>)
    ensures SortedByX(r)
    ensures multiset(r) == multiset(ks)
    ensures |r| == |ks|
  {
    if ks == [] then []
    else
      assert ks == [ks[0]] + ks[1..];
      Insert(ks[0], SortKnots(ks[1..]))
  }

  /** Inserting a knot whose x is new keeps a strictly sorted sequence strictly sorted. */
  lemma {:induction false} InsertStrict(k: Knot, ks: seq<Knot>)
    requires StrictlySortedByX(ks)
    requires forall e :: e in ks ==> e.x != k.x
    ensures StrictlySortedByX(Insert(k, ks))
  {
    if ks == [] || k.x <= ks[0].x {
      forall e | e in ks ensures k.x < e.x {
        var i :| 0 <= i < |ks| && ks[i] == e;
        assert ks[0].x <= ks[i].x;
      }
      PrependStrict(k, ks);
    } else {
      InsertStrict(k, ks[1..]);
      var rest := Insert(k, ks[1..]);
      forall e | e in rest ensures ks[0].x < e.x {
        assert e in multiset(rest);
        if e != k {
          assert e in ks[1..];
        }
      }
      PrependStrict(ks[0], rest);
    }
  }

  /** A knot left of every knot of a strictly sorted sequence can go in front. */
  lemma PrependStrict(k: Knot, ks: seq<Knot>)
    requires StrictlySortedByX(ks)
    requires forall e :: e in ks ==> k.x < e.x
    ensures StrictlySortedByX([k] + ks)
  {
    var r := [k] + ks;
    forall i, j | 0 <= i < j < |r| ensures r[i].x < r[j].x {
      if i == 0 {
        assert r[j] == ks[j - 1];
        assert r[j] in ks;
      } else {
        assert r[i] == ks[i - 1] && r[j] == ks[j - 1];
      }
    }
  }

  /** With pairwise distinct x values the sort yields strictly increasing x. */
  lemma {:induction false} SortStrict(ks: seq<Knot>)
    requires Distinct(XsOf(ks))
    ensures StrictlySortedByX(SortKnots(ks))
  {
    if ks != [] {
      var tail := ks[1..];
      assert Distinct(XsOf(tail)) by {
        forall i, j | 0 <= i < j < |tail| ensures tail[i].x != tail[j].x {
          assert XsOf(ks)[i + 1] == tail[i].x && XsOf(ks)[j + 1] == tail[j].x;
        }
      }
      SortStrict(tail);
      var sorted := SortKnots(tail);
      forall e | e in sorted ensures e.x != ks[0].x {
        assert e in multiset(sorted);
        assert e in multiset(tail);
        var i :| 0 <= i < |tail| && tail[i] == e;
        assert XsOf(ks)[0] != XsOf(ks)[i + 1];
      }
      InsertStrict(ks[0], sorted);
    }
  }

  /** The x column of the sorted knots of a sample. */
  function SortedXs(x: seq<real>, y: seq<real>): (xs: seq<real>)
    requires |x| == |y|
    ensures |xs| == |x|
    ensures NonDecreasing(xs)
  {
    XsOf(SortKnots(Zip(x, y)))
  }

  /** The y column of the sorted knots of a sample, aligned with `SortedXs`. */
  function SortedYs(x: seq<real>, y: seq<real>): (ys: seq<real>)
    requires |x| == |y|
    ensures |ys| == |x|
  {
    YsOf(SortKnots(Zip(x, y)))
  }

  /** Sorting keeps every sample point as a pair: each input point is found,
      with its own y, at some position of the sorted columns. */
  lemma SortKeepsPairs(x: seq<real>, y: seq<real>, j: nat)
    requires |x| == |y| && j < |x|
    ensures exists k :: 0 <= k < |x| && SortedXs(x, y)[k] == x[j] && SortedYs(x, y)[k] == y[j]
  {
    var ks := Zip(x, y);
    var sorted := SortKnots(ks);
    assert ks[j] in multiset(ks);
    assert ks[j] in multiset(sorted);
    var k :| 0 <= k < |sorted| && sorted[k] == ks[j];
    assert SortedXs(x, y)[k] == x[j] && SortedYs(x, y)[k] == y[j];
  }

  /** Every sorted point is one of the input points. */
  lemma SortedPointIsInput(x: seq<real>, y: seq<real>, k: nat)
    requires |x| == |y| && k < |x|
    ensures exists j :: 0 <= j < |x| && SortedXs(x, y)[k] == x[j] && SortedYs(x, y)[k] == y[j]
  {
    var ks := Zip(x, y);
    var sorted := SortKnots(ks);
    assert sorted[k] in multiset(sorted);
    assert sorted[k] in multiset(ks);
    var j :| 0 <= j < |ks| && ks[j] == sorted[k];
  }

  /** Distinct input x values give strictly increasing sorted x values. */
  lemma SortedXsStrict(x: seq<real>, y: seq<real>)
    requires |x| == |y| && Distinct(x)
    ensures StrictlyIncreasing(SortedXs(x, y))
  {
    assert XsOf(Zip(x, y)) == x;
    SortStrict(Zip(x, y));
  }

  /** A strictly sorted arrangement of a collection of knots is unique. */
  lemma {:induction false} StrictSortUnique(a: seq<Knot>, b: seq<Knot>)
    requires StrictlySortedByX(a) && StrictlySortedByX(b)
    requires multiset(a) == multiset(b)
    ensures a == b
  {
    if a == [] {
      assert |multiset(b)| == 0;
    } else {
      assert a[0] in multiset(b);
      SameFirst(a, b);
      SameRest(a, b);
      StrictSortUnique(a[1..], b[1..]);
      assert a == [a[0]] + a[1..] && b == [b[0]] + b[1..];
    }
  }

  /** Each strictly sorted arrangement starts with the knot of least x. */
  lemma SameFirst(a: seq<Knot>, b: seq<Knot>)
    requires StrictlySortedByX(a) && StrictlySortedByX(b)
    requires multiset(a) == multiset(b) && a != [] && b != []
    ensures a[0] == b[0]
  {
    assert a[0] in multiset(b);
    assert b[0] in multiset(a);
    var i :| 0 <= i < |a| && a[i] == b[0];
    var j :| 0 <= j < |b| && b[j] == a[0];
    assert a[0].x <= a[i].x;
    assert b[0].x <= b[j].x;
  }

  lemma SameRest(a: seq<Knot>, b: seq<Knot>)
    requires multiset(a) == multiset(b) && a != [] && b != [] && a[0] == b[0]
    ensures multiset(a[1..]) == multiset(b[1..])
  {
    assert a == [a[0]] + a[1..] && b == [b[0]] + b[1..];
    assert multiset(a[1..]) == multiset(a) - multiset{a[0]};
    assert multiset(b[1..]) == multiset(b) - multiset{b[0]};
  }

  /** The sorted columns depend only on the collection of sample points, not on
      the order they are given in, when their x values are distinct. */
  lemma SortOrderIndependent(x: seq<real>, y: seq<real>, x': seq<real>, y': seq<real>)
    requires |x| == |y| && |x'| == |y'| && Distinct(x) && Distinct(x')
    requires multiset(Zip(x, y)) == multiset(Zip(x', y'))
    ensures SortedXs(x, y) == SortedXs(x', y') && SortedYs(x, y) == SortedYs(x', y')
  {
    assert XsOf(Zip(x, y)) == x && XsOf(Zip(x', y')) == x';
    SortStrict(Zip(x, y));
    SortStrict(Zip(x', y'));
    StrictSortUnique(SortKnots(Zip(x, y)), SortKnots(Zip(x', y')));
  }

  /** `np.searchsorted(a, v)` with its default side 'left': the number of
      entries of the sorted array `a` that are smaller than `v`. */
  function SearchSorted(a: seq<real>, v: real): (i: nat)
    requires NonDecreasing(a)
    ensures i <= |a|
    ensures forall j :: 0 <= j < i ==> a[j] < v
    ensures forall j :: i <= j < |a| ==> v <= a[j]
  {
    LowerBound(a, v, 0, |a|)
  }

  /** Binary search for the boundary between entries below `v` and the rest,
      knowing it lies in `lo..hi`. */
  function LowerBound(a: seq<real>, v: real, lo: nat, hi: nat): (i: nat)
    requires NonDecreasing(a) && lo <= hi <= |a|
    requires forall j :: 0 <= j < lo ==> a[j] < v
    requires forall j :: hi <= j < |a| ==> v <= a[j]
    ensures lo <= i <= hi
    ensures forall j :: 0 <= j < i ==> a[j] < v
    ensures forall j :: i <= j < |a| ==> v <= a[j]
    decreases hi - lo
  {
    if lo == hi then lo
    else
      var mid := (lo + hi) / 2;
      if a[mid] < v then LowerBound(a, v, mid + 1, hi) else LowerBound(a, v, lo, mid)
  }
}
