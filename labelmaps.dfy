/**
 * Label maps: integer grids in which 0 is background and every positive
 * value names one region. This module holds what scikit-image's
 * `regionprops` supplies to both scripts (the regions of a map, in
 * ascending label order, and the pixels of each) and the masked
 * assignment `dst[src == l] = v` that both scripts use to write into an
 * array they allocated.
 */
module LabelMaps {
  import opened Images

  type LabelMap = Grid<int>

  /** Some pixel of the map carries label l. */
  predicate Present(g: LabelMap, l: int) {
    exists i, j | 0 <= i < |g| && 0 <= j < |g[i]| :: g[i][j] == l
  }

  predicate NonNegative(g: LabelMap) {
    forall i, j | 0 <= i < |g| && 0 <= j < |g[i]| :: g[i][j] >= 0
  }

  predicate Increasing(s: seq<int>) {
    forall a, b | 0 <= a < b < |s| :: s[a] < s[b]
  }

  function RowMaxLabel(a: seq<int>): (r: int)
    ensures r >= 0
    ensures forall j | 0 <= j < |a| :: a[j] <= r
    ensures r == 0 || exists j | 0 <= j < |a| :: a[j] == r
  {
    if |a| == 0 then 0
    else
      var m := RowMaxLabel(a[..|a| - 1]);
      if a[|a| - 1] > m then a[|a| - 1] else m
  }

  /** The largest label of the map, or 0 when it has no positive label. */
  function MaxLabel(g: LabelMap): (r: int)
    ensures r >= 0
    ensures forall i, j | 0 <= i < |g| && 0 <= j < |g[i]| :: g[i][j] <= r
    ensures r == 0 || Present(g, r)
  {
    if |g| == 0 then 0
    else
      var m := MaxLabel(g[..|g| - 1]);
      var last := RowMaxLabel(g[|g| - 1]);
      assert last == 0 || Present(g, last) by {
        if last != 0 {
          var j :| 0 <= j < |g[|g| - 1]| && g[|g| - 1][j] == last;
          assert g[|g| - 1][j] == last;
        }
      }
      assert m == 0 || Present(g, m) by {
        if m != 0 {
          var i, j :| 0 <= i < |g| - 1 && 0 <= j < |g[..|g| - 1][i]| && g[..|g| - 1][i][j] == m;
          assert g[i][j] == m;
        }
      }
      if last > m then last else m
  }

  /** The labels 1..n that occur in the map, in ascending order. */
  function LabelsUpTo(g: LabelMap, n: int): (r: seq<int>)
    ensures forall l :: l in r <==> 1 <= l <= n && Present(g, l)
    ensures Increasing(r)
    decreases n
  {
    if n <= 0 then []
    else
      var prev := LabelsUpTo(g, n - 1);
      assert forall a | 0 <= a < |prev| :: prev[a] < n by {
        forall a | 0 <= a < |prev| ensures prev[a] < n {
          assert prev[a] in prev;
        }
      }
      prev + (if Present(g, n) then [n] else [])
  }

  /**
   * The regions `regionprops` reports for the map: every positive label that
   * occurs, each once, in ascending order.
   */
  function RegionLabels(g: LabelMap): (r: seq<int>)
    ensures forall l :: l in r <==> l > 0 && Present(g, l)
    ensures Increasing(r)
  {
    LabelsUpTo(g, MaxLabel(g))
  }

  /** The number of regions of the map. */
  function LabelCount(g: LabelMap): nat {
    |RegionLabels(g)|
  }

  /** The pixels of region l (`region.coords`), as a mask. */
  function RegionMask(g: LabelMap, l: int): (m: Mask)
    ensures SameShape(m, g)
  {
    seq(|g|, i requires 0 <= i < |g| =>
      seq(|g[i]|, j requires 0 <= j < |g[i]| => g[i][j] == l))
  }

  /** The pixels of all regions together: those with a positive label. */
  function LabelledMask(g: LabelMap): (m: Mask)
    ensures SameShape(m, g)
  {
    seq(|g|, i requires 0 <= i < |g| =>
      seq(|g[i]|, j requires 0 <= j < |g[i]| => g[i][j] > 0))
  }

  /** A region has at least one pixel exactly when its label occurs. */
  lemma RegionMaskCount(g: LabelMap, l: int)
    ensures MaskedCount(RegionMask(g, l)) > 0 <==> Present(g, l)
  {
    var m := RegionMask(g, l);
    if Present(g, l) {
      var i, j :| 0 <= i < |g| && 0 <= j < |g[i]| && g[i][j] == l;
      assert m[i][j];
    }
  }

  /** Counting labels up to n lists a prefix of counting them up to k >= n. */
  lemma {:induction false} LabelsUpToPrefix(g: LabelMap, n: int, k: int)
    requires n <= k
    ensures LabelsUpTo(g, n) <= LabelsUpTo(g, k)
    decreases k - n
  {
    if n < k {
      LabelsUpToPrefix(g, n, k - 1);
      if k > 0 {
        assert LabelsUpTo(g, k - 1) <= LabelsUpTo(g, k);
      } else {
        assert LabelsUpTo(g, n) == [] == LabelsUpTo(g, k);
      }
    }
  }

  /** Past the largest label, counting further adds nothing. */
  lemma {:induction false} LabelsUpToBeyondMax(g: LabelMap, n: int)
    requires n >= MaxLabel(g)
    ensures LabelsUpTo(g, n) == RegionLabels(g)
    decreases n - MaxLabel(g)
  {
    if n > MaxLabel(g) {
      LabelsUpToBeyondMax(g, n - 1);
      assert !Present(g, n);
      LabelsUpToStep(g, n);
    } else {
      assert n == MaxLabel(g);
    }
  }

  /** Counting up to n extends counting up to n - 1 by n when n occurs. */
  lemma LabelsUpToStep(g: LabelMap, n: int)
    requires n > 0
    ensures Present(g, n) ==> LabelsUpTo(g, n) == LabelsUpTo(g, n - 1) + [n]
    ensures !Present(g, n) ==> LabelsUpTo(g, n) == LabelsUpTo(g, n - 1)
  {
    assert LabelsUpTo(g, n - 1) + [] == LabelsUpTo(g, n - 1);
  }

  /**
   * The masked assignment `dst[src == l] = v`: every pixel where src holds
   * label l receives v, and every other pixel keeps its value.
   */
  method Fill<T>(dst: array2<T>, src: LabelMap, l: int, v: T)
    requires |src| == dst.Length0
    requires forall i | 0 <= i < |src| :: |src[i]| == dst.Length1
    modifies dst
    ensures forall i, j | 0 <= i < dst.Length0 && 0 <= j < dst.Length1 ::
      dst[i, j] == if src[i][j] == l then v else old(dst[i, j])
  {
    for i := 0 to dst.Length0
      invariant forall p, q | 0 <= p < dst.Length0 && 0 <= q < dst.Length1 ::
        dst[p, q] == if p < i && src[p][q] == l then v else old(dst[p, q])
    {
      for j := 0 to dst.Length1
        invariant forall p, q | 0 <= p < dst.Length0 && 0 <= q < dst.Length1 ::
          dst[p, q] == if (p < i || (p == i && q < j)) && src[p][q] == l then v else old(dst[p, q])
      {
        if src[i][j] == l {
          dst[i, j] := v;
        }
      }
    }
  }
}
