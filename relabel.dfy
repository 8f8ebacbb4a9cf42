/**
 * `relabel_sequential` from scikit-image, as both scripts use it on the
 * filtered map: the surviving labels are renumbered 1..K in ascending order
 * of their old values, and background stays 0. The library raises on
 * negative labels; the filtered maps it receives never hold one.
 */
module Relabelling {
  import opened Images
  import opened LabelMaps
  import opened RegionFilter

  /** The new label of v: its position among the map's labels, counting from 1. */
  function Rank(g: LabelMap, v: int): nat {
    if v <= 0 then 0 else |LabelsUpTo(g, v)|
  }

  /** The relabelled map (the first result of `relabel_sequential`). */
  function Relabel(g: LabelMap): (r: LabelMap)
    requires NonNegative(g)
    ensures SameShape(r, g) && NonNegative(r)
  {
    seq(|g|, i requires 0 <= i < |g| =>
      seq(|g[i]|, j requires 0 <= j < |g[i]| => Rank(g, g[i][j])))
  }

  /** The positive labels of the map are exactly 1..MaxLabel(g), with no gap. */
  predicate Dense(g: LabelMap) {
    NonNegative(g) && forall k | 1 <= k <= MaxLabel(g) :: Present(g, k)
  }

  /** The label of a region is renumbered to some value in 1..K. */
  lemma RankOfPresent(g: LabelMap, v: int)
    requires v > 0 && Present(g, v)
    ensures 1 <= Rank(g, v) <= LabelCount(g)
  {
    assert v in LabelsUpTo(g, v);
    LabelsUpToPrefix(g, v, MaxLabel(g));
  }

  /** Renumbering is strictly increasing on the labels that occur. */
  lemma RankStrict(g: LabelMap, v: int, w: int)
    requires 0 < v < w && Present(g, w)
    ensures Rank(g, v) < Rank(g, w)
  {
    LabelsUpToPrefix(g, v, w - 1);
    assert LabelsUpTo(g, w) == LabelsUpTo(g, w - 1) + [w];
  }

  /** The region listed at position idx of the ascending region list is renumbered idx + 1. */
  lemma RankOfIndex(g: LabelMap, idx: int)
    requires 0 <= idx < LabelCount(g)
    ensures RegionLabels(g)[idx] > 0 && Present(g, RegionLabels(g)[idx])
    ensures Rank(g, RegionLabels(g)[idx]) == idx + 1
  {
    var all := RegionLabels(g);
    var v := all[idx];
    assert v in all;
    var upTo := LabelsUpTo(g, v);
    LabelsUpToPrefix(g, v, MaxLabel(g));
    assert upTo == LabelsUpTo(g, v - 1) + [v];
    assert all[|upTo| - 1] == upTo[|upTo| - 1] == v;
  }

  /** Background stays background, and nothing else becomes background. */
  lemma RelabelBackground(g: LabelMap)
    requires NonNegative(g)
    ensures forall i, j | 0 <= i < |g| && 0 <= j < |g[i]| :: Relabel(g)[i][j] == 0 <==> g[i][j] == 0
  {
    var r := Relabel(g);
    forall i, j | 0 <= i < |g| && 0 <= j < |g[i]| && g[i][j] != 0
      ensures r[i][j] != 0
    {
      RankOfPresent(g, g[i][j]);
    }
  }

  lemma RankOrder(g: LabelMap, a: int, b: int)
    requires NonNegative(g) && a >= 0 && b >= 0 && Present(g, a) && Present(g, b)
    ensures a < b <==> Rank(g, a) < Rank(g, b)
  {
    if a < b {
      if a == 0 { RankOfPresent(g, b); } else { RankStrict(g, a, b); }
    } else if b < a {
      if b == 0 { RankOfPresent(g, a); } else { RankStrict(g, b, a); }
    }
  }

  /** Relabelling keeps the ascending order of the original labels, pixel by pixel. */
  lemma RelabelPreservesOrder(g: LabelMap)
    requires NonNegative(g)
    ensures forall i, j, p, q | 0 <= i < |g| && 0 <= j < |g[i]| && 0 <= p < |g| && 0 <= q < |g[p]| ::
      g[i][j] < g[p][q] <==> Relabel(g)[i][j] < Relabel(g)[p][q]
  {
    var r := Relabel(g);
    forall i, j, p, q | 0 <= i < |g| && 0 <= j < |g[i]| && 0 <= p < |g| && 0 <= q < |g[p]|
      ensures g[i][j] < g[p][q] <==> r[i][j] < r[p][q]
    {
      RankOrder(g, g[i][j], g[p][q]);
    }
  }

  /** Two pixels share a new label exactly when they shared an old one. */
  lemma RelabelPreservesPartition(g: LabelMap)
    requires NonNegative(g)
    ensures forall i, j, p, q | 0 <= i < |g| && 0 <= j < |g[i]| && 0 <= p < |g| && 0 <= q < |g[p]| ::
      g[i][j] == g[p][q] <==> Relabel(g)[i][j] == Relabel(g)[p][q]
  {
    var r := Relabel(g);
    forall i, j, p, q | 0 <= i < |g| && 0 <= j < |g[i]| && 0 <= p < |g| && 0 <= q < |g[p]|
      ensures g[i][j] == g[p][q] <==> r[i][j] == r[p][q]
    {
      RankOrder(g, g[i][j], g[p][q]);
      RankOrder(g, g[p][q], g[i][j]);
    }
  }

  /**
   * The relabelled map is dense: its positive labels are exactly 1..K, where
   * K is the number of regions of the input, and it has K regions.
   */
  lemma RelabelDense(g: LabelMap)
    requires NonNegative(g)
    ensures forall k | k > 0 :: Present(Relabel(g), k) <==> k <= LabelCount(g)
    ensures MaxLabel(Relabel(g)) == LabelCount(g)
    ensures Dense(Relabel(g))
  {
    var r := Relabel(g);
    var n := LabelCount(g);
    forall k | 1 <= k <= n
      ensures Present(r, k)
    {
      RankOfIndex(g, k - 1);
      var v := RegionLabels(g)[k - 1];
      var i, j :| 0 <= i < |g| && 0 <= j < |g[i]| && g[i][j] == v;
      assert r[i][j] == k;
    }
    forall k | k > 0 && Present(r, k)
      ensures k <= n
    {
      var i, j :| 0 <= i < |r| && 0 <= j < |r[i]| && r[i][j] == k;
      RankOfPresent(g, g[i][j]);
    }
    assert MaxLabel(r) <= n;
    if n > 0 {
      assert Present(r, n);
      var i, j :| 0 <= i < |r| && 0 <= j < |r[i]| && r[i][j] == n;
      assert r[i][j] <= MaxLabel(r);
    }
  }

  lemma {:induction false} DenseLabelsUpTo(g: LabelMap, n: int)
    requires Dense(g) && 0 <= n <= MaxLabel(g)
    ensures |LabelsUpTo(g, n)| == n
  {
    if n > 0 {
      DenseLabelsUpTo(g, n - 1);
      assert Present(g, n);
      LabelsUpToStep(g, n);
    }
  }

  /** A dense map has as many regions as its largest label. */
  lemma DenseLabelCount(g: LabelMap)
    requires Dense(g)
    ensures LabelCount(g) == MaxLabel(g)
  {
    DenseLabelsUpTo(g, MaxLabel(g));
  }

  /** Relabelling a map that is already dense returns it unchanged. */
  lemma RelabelDenseUnchanged(g: LabelMap)
    requires Dense(g)
    ensures Relabel(g) == g
  {
    var r := Relabel(g);
    forall i, j | 0 <= i < |g| && 0 <= j < |g[i]|
      ensures r[i][j] == g[i][j]
    {
      if g[i][j] > 0 {
        DenseLabelsUpTo(g, g[i][j]);
      }
    }
    assert forall i | 0 <= i < |g| :: r[i] == g[i];
  }

  /** Relabelling is idempotent and keeps the number of regions. */
  lemma RelabelIdempotent(g: LabelMap)
    requires NonNegative(g)
    ensures Relabel(Relabel(g)) == Relabel(g)
    ensures LabelCount(Relabel(g)) == LabelCount(g)
  {
    RelabelDense(g);
    RelabelDenseUnchanged(Relabel(g));
    DenseLabelCount(Relabel(g));
  }

  /** The renumbered filter result: dense, one label per kept region, same pixels. */
  lemma RelabelFiltered(intensity: Image, outlines: LabelMap, threshold: real)
    requires SameShape(intensity, outlines)
    ensures var s := Relabel(Filtered(intensity, outlines, threshold));
      Dense(s) && LabelCount(s) == |KeptRegions(intensity, outlines, threshold)| &&
      forall i, j | 0 <= i < |s| && 0 <= j < |s[i]| ::
        s[i][j] > 0 <==> outlines[i][j] > 0 && Kept(intensity, outlines, outlines[i][j], threshold)
  {
    var f := Filtered(intensity, outlines, threshold);
    RelabelDense(f);
    RelabelIdempotent(f);
    RelabelBackground(f);
    FilteredRegions(intensity, outlines, threshold);
  }
}
