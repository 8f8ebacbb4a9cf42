/**
 * Two-dimensional grids of pixels, stored row by row, and the numeric
 * reductions the analysis scripts apply to them through NumPy: the minimum
 * and maximum of an image, and the sum, count and mean of an image over a
 * Boolean mask (`np.mean(image[mask])`). Intensities are exact reals.
 */
module Images {

  /** A 2-D grid: the outer sequence holds the rows. */
  type Grid<T> = seq<seq<T>>
  type Image = Grid<real>
  type Mask = Grid<bool>

  /** The result of an operation that can fail. */
  datatype Error = EmptyImage | NoRegions
  datatype Result<T> = Success(value: T) | Failure(error: Error)

  /** Number of columns (that of the first row; 0 for a grid without rows). */
  function Width<T>(g: Grid<T>): nat {
    if |g| == 0 then 0 else |g[0]|
  }

  /** Every row has the same length, as in a NumPy 2-D array. */
  predicate Rect<T>(g: Grid<T>) {
    forall i | 0 <= i < |g| :: |g[i]| == Width(g)
  }

  predicate SameShape<A, B>(a: Grid<A>, b: Grid<B>) {
    |a| == |b| && forall i | 0 <= i < |a| :: |a[i]| == |b[i]|
  }

  /** The grid holds at least one pixel and no row is empty. */
  predicate HasPixels<T>(g: Grid<T>) {
    |g| > 0 && forall i | 0 <= i < |g| :: |g[i]| > 0
  }

  /** The contents of a 2-D array, as a grid. */
  function ToGrid<T>(a: array2<T>): (g: Grid<T>)
    reads a
    ensures |g| == a.Length0 && Rect(g) && (a.Length0 > 0 ==> Width(g) == a.Length1)
    ensures forall i | 0 <= i < |g| :: |g[i]| == a.Length1
    ensures forall i, j | 0 <= i < a.Length0 && 0 <= j < a.Length1 :: g[i][j] == a[i, j]
  {
    seq(a.Length0, i requires 0 <= i < a.Length0 reads a =>
      seq(a.Length1, j requires 0 <= j < a.Length1 reads a => a[i, j]))
  }

  /** The mask `image > 0`. */
  function AboveZero(img: Image): (m: Mask)
    ensures SameShape(m, img)
  {
    seq(|img|, i requires 0 <= i < |img| =>
      seq(|img[i]|, j requires 0 <= j < |img[i]| => img[i][j] > 0.0))
  }

  /** Two grids of one shape with the same pixels are equal. */
  lemma GridEqual<T>(a: Grid<T>, b: Grid<T>)
    requires SameShape(a, b)
    requires forall i, j | 0 <= i < |a| && 0 <= j < |a[i]| :: a[i][j] == b[i][j]
    ensures a == b
  {
    assert forall i | 0 <= i < |a| :: a[i] == b[i];
  }

  // ---------------------------------------------------------------------
  // Minimum and maximum (`ndarray.min()`, `ndarray.max()`)

  function RowMin(a: seq<real>): (r: real)
    requires |a| > 0
    ensures forall j | 0 <= j < |a| :: r <= a[j]
    ensures exists j | 0 <= j < |a| :: r == a[j]
  {
    if |a| == 1 then a[0]
    else
      var m := RowMin(a[..|a| - 1]);
      if a[|a| - 1] < m then a[|a| - 1] else m
  }

  function RowMax(a: seq<real>): (r: real)
    requires |a| > 0
    ensures forall j | 0 <= j < |a| :: a[j] <= r
    ensures exists j | 0 <= j < |a| :: r == a[j]
  {
    if |a| == 1 then a[0]
    else
      var m := RowMax(a[..|a| - 1]);
      if a[|a| - 1] > m then a[|a| - 1] else m
  }

  /** The smallest pixel of an image: below every pixel, and one of them. */
  function GridMin(g: Image): (r: real)
    requires HasPixels(g)
    ensures forall i, j | 0 <= i < |g| && 0 <= j < |g[i]| :: r <= g[i][j]
    ensures exists i, j | 0 <= i < |g| && 0 <= j < |g[i]| :: r == g[i][j]
  {
    var last := RowMin(g[|g| - 1]);
    if |g| == 1 then last
    else
      var m := GridMin(g[..|g| - 1]);
      if last < m then last else m
  }

  /** The largest pixel of an image: above every pixel, and one of them. */
  function GridMax(g: Image): (r: real)
    requires HasPixels(g)
    ensures forall i, j | 0 <= i < |g| && 0 <= j < |g[i]| :: g[i][j] <= r
    ensures exists i, j | 0 <= i < |g| && 0 <= j < |g[i]| :: r == g[i][j]
  {
    var last := RowMax(g[|g| - 1]);
    if |g| == 1 then last
    else
      var m := GridMax(g[..|g| - 1]);
      if last > m then last else m
  }

  // ---------------------------------------------------------------------
  // Sums, counts and means over a mask (`image[mask].sum()`, `.size`, `np.mean`)

  function RowSum(a: seq<real>, m: seq<bool>): real
    requires |a| == |m|
  {
    if |m| == 0 then 0.0
    else RowSum(a[..|m| - 1], m[..|m| - 1]) + (if m[|m| - 1] then a[|m| - 1] else 0.0)
  }

  function RowCount(m: seq<bool>): (r: nat)
    ensures r <= |m|
    ensures r > 0 <==> exists j | 0 <= j < |m| :: m[j]
  {
    if |m| == 0 then 0
    else RowCount(m[..|m| - 1]) + (if m[|m| - 1] then 1 else 0)
  }

  /** The sum of the image over the pixels the mask selects. */
  function MaskedSum(img: Image, m: Mask): real
    requires SameShape(img, m)
  {
    if |m| == 0 then 0.0
    else MaskedSum(img[..|m| - 1], m[..|m| - 1]) + RowSum(img[|m| - 1], m[|m| - 1])
  }

  /** The number of pixels the mask selects; positive exactly when it selects one. */
  function MaskedCount(m: Mask): (r: nat)
    ensures r > 0 <==> exists i, j | 0 <= i < |m| && 0 <= j < |m[i]| :: m[i][j]
  {
    if |m| == 0 then 0
    else MaskedCount(m[..|m| - 1]) + RowCount(m[|m| - 1])
  }

  /**
   * `np.mean(image[mask])` for a mask that selects at least one pixel. The
   * mean lies between the darkest and the brightest selected pixel: some
   * selected pixel is at most the mean and some is at least the mean.
   */
  function MaskedMean(img: Image, m: Mask): (r: real)
    requires SameShape(img, m) && MaskedCount(m) > 0
    ensures exists i, j | 0 <= i < |m| && 0 <= j < |m[i]| && m[i][j] :: img[i][j] <= r
    ensures exists i, j | 0 <= i < |m| && 0 <= j < |m[i]| && m[i][j] :: img[i][j] >= r
  {
    MeanAttained(img, m);
    MaskedSum(img, m) / MaskedCount(m) as real
  }

  /** k copies of c added up; keeps the bound proofs free of products. */
  function Times(c: real, k: nat): real {
    if k == 0 then 0.0 else Times(c, k - 1) + c
  }

  lemma {:induction false} TimesIsProduct(c: real, k: nat)
    ensures Times(c, k) == c * k as real
  {
    if k > 0 {
      TimesIsProduct(c, k - 1);
      assert c * (k - 1) as real + c == c * k as real;
    }
  }

  lemma {:induction false} TimesAdd(c: real, k: nat, d: nat)
    ensures Times(c, k + d) == Times(c, k) + Times(c, d)
  {
    if d > 0 {
      TimesAdd(c, k, d - 1);
    }
  }

  lemma {:induction false} RowSumBounds(a: seq<real>, m: seq<bool>, lo: real, hi: real)
    requires |a| == |m|
    requires forall j | 0 <= j < |m| && m[j] :: lo <= a[j] <= hi
    ensures Times(lo, RowCount(m)) <= RowSum(a, m) <= Times(hi, RowCount(m))
  {
    if |m| > 0 {
      var n := |m| - 1;
      assert forall j | 0 <= j < n && m[..n][j] :: lo <= a[..n][j] <= hi;
      RowSumBounds(a[..n], m[..n], lo, hi);
    }
  }

  lemma {:induction false} MaskedSumBounds(img: Image, m: Mask, lo: real, hi: real)
    requires SameShape(img, m)
    requires forall i, j | 0 <= i < |m| && 0 <= j < |m[i]| && m[i][j] :: lo <= img[i][j] <= hi
    ensures Times(lo, MaskedCount(m)) <= MaskedSum(img, m) <= Times(hi, MaskedCount(m))
  {
    if |m| > 0 {
      var n := |m| - 1;
      var k, c := MaskedCount(m[..n]), RowCount(m[n]);
      var s, x := MaskedSum(img[..n], m[..n]), RowSum(img[n], m[n]);
      assert Times(lo, k) <= s <= Times(hi, k) by {
        assert forall i, j | 0 <= i < n && 0 <= j < |m[..n][i]| && m[..n][i][j] :: lo <= img[..n][i][j] <= hi;
        MaskedSumBounds(img[..n], m[..n], lo, hi);
      }
      assert Times(lo, c) <= x <= Times(hi, c) by {
        RowSumBounds(img[n], m[n], lo, hi);
      }
      assert MaskedCount(m) == k + c && MaskedSum(img, m) == s + x;
      TimesAdd(lo, k, c);
      TimesAdd(hi, k, c);
    }
  }

  /** A mean lies between any bounds on the pixels it averages. */
  lemma MeanBounds(img: Image, m: Mask, lo: real, hi: real)
    requires SameShape(img, m) && MaskedCount(m) > 0
    requires forall i, j | 0 <= i < |m| && 0 <= j < |m[i]| && m[i][j] :: lo <= img[i][j] <= hi
    ensures lo <= MaskedMean(img, m) <= hi
  {
    var c, s := MaskedCount(m), MaskedSum(img, m);
    assert Times(lo, c) <= s <= Times(hi, c) by {
      MaskedSumBounds(img, m, lo, hi);
    }
    AverageBounds(s, c, lo, hi);
  }

  /** A total bounded by c copies of lo and of hi, shared c ways. */
  lemma AverageBounds(s: real, c: nat, lo: real, hi: real)
    requires c > 0 && Times(lo, c) <= s <= Times(hi, c)
    ensures lo <= s / c as real <= hi
  {
    TimesIsProduct(lo, c);
    TimesIsProduct(hi, c);
    DivBounds(s, c as real, lo, hi);
  }

  /** lo * c <= s <= hi * c with c > 0 gives lo <= s / c <= hi. */
  lemma DivBounds(s: real, c: real, lo: real, hi: real)
    requires c > 0.0 && lo * c <= s <= hi * c
    ensures lo <= s / c <= hi
  {
    assert s / c * c == s;
  }

  lemma {:induction false} RowSumPositive(a: seq<real>, m: seq<bool>)
    requires |a| == |m|
    requires forall j | 0 <= j < |m| && m[j] :: a[j] > 0.0
    ensures RowSum(a, m) >= 0.0 && (RowCount(m) > 0 ==> RowSum(a, m) > 0.0)
  {
    if |m| > 0 {
      var n := |m| - 1;
      assert forall j | 0 <= j < n && m[..n][j] :: a[..n][j] > 0.0;
      RowSumPositive(a[..n], m[..n]);
    }
  }

  lemma {:induction false} MaskedSumPositive(img: Image, m: Mask)
    requires SameShape(img, m)
    requires forall i, j | 0 <= i < |m| && 0 <= j < |m[i]| && m[i][j] :: img[i][j] > 0.0
    ensures MaskedSum(img, m) >= 0.0 && (MaskedCount(m) > 0 ==> MaskedSum(img, m) > 0.0)
  {
    if |m| > 0 {
      var n := |m| - 1;
      assert forall i, j | 0 <= i < n && 0 <= j < |m[..n][i]| && m[..n][i][j] :: img[..n][i][j] > 0.0;
      MaskedSumPositive(img[..n], m[..n]);
      RowSumPositive(img[n], m[n]);
    }
  }

  /** The mean of positive pixels is positive. */
  lemma MeanPositive(img: Image, m: Mask)
    requires SameShape(img, m) && MaskedCount(m) > 0
    requires forall i, j | 0 <= i < |m| && 0 <= j < |m[i]| && m[i][j] :: img[i][j] > 0.0
    ensures MaskedMean(img, m) > 0.0
  {
    MaskedSumPositive(img, m);
    DivPositive(MaskedSum(img, m), MaskedCount(m) as real);
  }

  lemma DivPositive(s: real, c: real)
    requires s > 0.0 && c > 0.0
    ensures s / c > 0.0
  {
    assert s / c * c == s;
  }

  lemma {:induction false} RowSumAbove(a: seq<real>, m: seq<bool>, lo: real)
    requires |a| == |m|
    ensures (forall j | 0 <= j < |m| && m[j] :: a[j] > lo) ==>
      Times(lo, RowCount(m)) <= RowSum(a, m) && (RowCount(m) > 0 ==> Times(lo, RowCount(m)) < RowSum(a, m))
  {
    if |m| > 0 {
      var n := |m| - 1;
      assert (forall j | 0 <= j < |m| && m[j] :: a[j] > lo) ==>
             (forall j | 0 <= j < n && m[..n][j] :: a[..n][j] > lo);
      RowSumAbove(a[..n], m[..n], lo);
    }
  }

  lemma {:induction false} RowSumBelow(a: seq<real>, m: seq<bool>, hi: real)
    requires |a| == |m|
    ensures (forall j | 0 <= j < |m| && m[j] :: a[j] < hi) ==>
      RowSum(a, m) <= Times(hi, RowCount(m)) && (RowCount(m) > 0 ==> RowSum(a, m) < Times(hi, RowCount(m)))
  {
    if |m| > 0 {
      var n := |m| - 1;
      assert (forall j | 0 <= j < |m| && m[j] :: a[j] < hi) ==>
             (forall j | 0 <= j < n && m[..n][j] :: a[..n][j] < hi);
      RowSumBelow(a[..n], m[..n], hi);
    }
  }

  /** When every selected pixel is above lo, the sum is above c copies of lo. */
  lemma {:induction false} MaskedSumAbove(img: Image, m: Mask, lo: real)
    requires SameShape(img, m)
    ensures (forall i, j | 0 <= i < |m| && 0 <= j < |m[i]| && m[i][j] :: img[i][j] > lo) ==>
      Times(lo, MaskedCount(m)) <= MaskedSum(img, m) &&
      (MaskedCount(m) > 0 ==> Times(lo, MaskedCount(m)) < MaskedSum(img, m))
  {
    if |m| > 0 && forall i, j | 0 <= i < |m| && 0 <= j < |m[i]| && m[i][j] :: img[i][j] > lo {
      var n := |m| - 1;
      var k, c := MaskedCount(m[..n]), RowCount(m[n]);
      var s, x := MaskedSum(img[..n], m[..n]), RowSum(img[n], m[n]);
      assert Times(lo, k) <= s && (k > 0 ==> Times(lo, k) < s) by {
        assert forall i, j | 0 <= i < n && 0 <= j < |m[..n][i]| && m[..n][i][j] :: img[..n][i][j] > lo;
        MaskedSumAbove(img[..n], m[..n], lo);
      }
      assert Times(lo, c) <= x && (c > 0 ==> Times(lo, c) < x) by {
        RowSumAbove(img[n], m[n], lo);
      }
      assert MaskedCount(m) == k + c && MaskedSum(img, m) == s + x;
      TimesAdd(lo, k, c);
    }
  }

  /** When every selected pixel is below hi, the sum is below c copies of hi. */
  lemma {:induction false} MaskedSumBelow(img: Image, m: Mask, hi: real)
    requires SameShape(img, m)
    ensures (forall i, j | 0 <= i < |m| && 0 <= j < |m[i]| && m[i][j] :: img[i][j] < hi) ==>
      MaskedSum(img, m) <= Times(hi, MaskedCount(m)) &&
      (MaskedCount(m) > 0 ==> MaskedSum(img, m) < Times(hi, MaskedCount(m)))
  {
    if |m| > 0 && forall i, j | 0 <= i < |m| && 0 <= j < |m[i]| && m[i][j] :: img[i][j] < hi {
      var n := |m| - 1;
      var k, c := MaskedCount(m[..n]), RowCount(m[n]);
      var s, x := MaskedSum(img[..n], m[..n]), RowSum(img[n], m[n]);
      assert s <= Times(hi, k) && (k > 0 ==> s < Times(hi, k)) by {
        assert forall i, j | 0 <= i < n && 0 <= j < |m[..n][i]| && m[..n][i][j] :: img[..n][i][j] < hi;
        MaskedSumBelow(img[..n], m[..n], hi);
      }
      assert x <= Times(hi, c) && (c > 0 ==> x < Times(hi, c)) by {
        RowSumBelow(img[n], m[n], hi);
      }
      assert MaskedCount(m) == k + c && MaskedSum(img, m) == s + x;
      TimesAdd(hi, k, c);
    }
  }

  /** The sum over count is attained from below and from above by selected pixels. */
  lemma MeanAttained(img: Image, m: Mask)
    requires SameShape(img, m) && MaskedCount(m) > 0
    ensures var r := MaskedSum(img, m) / MaskedCount(m) as real;
      (exists i, j | 0 <= i < |m| && 0 <= j < |m[i]| && m[i][j] :: img[i][j] <= r) &&
      (exists i, j | 0 <= i < |m| && 0 <= j < |m[i]| && m[i][j] :: img[i][j] >= r)
  {
    var c, s := MaskedCount(m), MaskedSum(img, m);
    AverageTimes(s, c);
    SumAttained(img, m, s / c as real);
  }

  /** A value r with c copies of r adding up to the sum is attained from both sides. */
  lemma SumAttained(img: Image, m: Mask, r: real)
    requires SameShape(img, m) && MaskedCount(m) > 0 && Times(r, MaskedCount(m)) == MaskedSum(img, m)
    ensures exists i, j | 0 <= i < |m| && 0 <= j < |m[i]| && m[i][j] :: img[i][j] <= r
    ensures exists i, j | 0 <= i < |m| && 0 <= j < |m[i]| && m[i][j] :: img[i][j] >= r
  {
    MaskedSumAbove(img, m, r);
    MaskedSumBelow(img, m, r);
  }

  /** c copies of s / c add up to s. */
  lemma AverageTimes(s: real, c: nat)
    requires c > 0
    ensures Times(s / c as real, c) == s
  {
    TimesIsProduct(s / c as real, c);
    DivTimes(s, c as real);
  }

  lemma DivTimes(s: real, c: real)
    requires c > 0.0
    ensures s / c * c == s
  {
  }
}
