/**
 * The intensity-threshold filter that both `cell_segmentation` functions
 * apply to the watershed output: start from a zero map shaped like
 * `outlines`, visit every region of `outlines` in ascending label order, and
 * copy the region into the new map when its mean intensity is strictly
 * above the threshold. The demo passes the normalised image as intensity,
 * the batch script the raw one.
 */
module RegionFilter {
  import opened Images
  import opened LabelMaps

  /** `region.mean_intensity`: the mean of the intensity image over region l. */
  function RegionMean(img: Image, o: LabelMap, l: int): real
    requires SameShape(img, o) && Present(o, l)
  {
    RegionMaskCount(o, l);
    MaskedMean(img, RegionMask(o, l))
  }

  /** A region's mean lies between its darkest and its brightest pixel. */
  lemma RegionMeanAttained(img: Image, o: LabelMap, l: int)
    requires SameShape(img, o) && Present(o, l)
    ensures exists i, j | 0 <= i < |o| && 0 <= j < |o[i]| && o[i][j] == l :: img[i][j] <= RegionMean(img, o, l)
    ensures exists i, j | 0 <= i < |o| && 0 <= j < |o[i]| && o[i][j] == l :: img[i][j] >= RegionMean(img, o, l)
  {
    var m := RegionMask(o, l);
    assert forall i, j | 0 <= i < |o| && 0 <= j < |o[i]| :: m[i][j] == (o[i][j] == l);
  }

  /** Region l exists and passes the filter `region.mean_intensity > threshold`. */
  predicate Kept(img: Image, o: LabelMap, l: int, t: real)
    requires SameShape(img, o)
  {
    Present(o, l) && RegionMean(img, o, l) > t
  }

  /**
   * A region that passes the filter has a pixel above the threshold; a region
   * with every pixel at or below it is dropped.
   */
  lemma KeptHasPixelAbove(img: Image, o: LabelMap, l: int, t: real)
    requires SameShape(img, o)
    ensures Kept(img, o, l, t) ==>
      exists i, j | 0 <= i < |o| && 0 <= j < |o[i]| && o[i][j] == l :: img[i][j] > t
  {
    if Kept(img, o, l, t) {
      RegionMeanAttained(img, o, l);
    }
  }

  /** The map the filter builds: a pixel keeps its label when its region is kept. */
  function Filtered(img: Image, o: LabelMap, t: real): (r: LabelMap)
    requires SameShape(img, o)
    ensures SameShape(r, o) && NonNegative(r)
  {
    seq(|o|, i requires 0 <= i < |o| =>
      seq(|o[i]|, j requires 0 <= j < |o[i]| =>
        if o[i][j] > 0 && Kept(img, o, o[i][j], t) then o[i][j] else 0))
  }

  /** The labels among s whose regions pass the filter, in the order of s. */
  function KeptAmong(img: Image, o: LabelMap, t: real, s: seq<int>): (r: seq<int>)
    requires SameShape(img, o)
  {
    if |s| == 0 then []
    else
      var l := s[|s| - 1];
      KeptAmong(img, o, t, s[..|s| - 1]) + (if Kept(img, o, l, t) then [l] else [])
  }

  /** The kept regions, in ascending label order. */
  function KeptRegions(img: Image, o: LabelMap, t: real): seq<int>
    requires SameShape(img, o)
  {
    KeptAmong(img, o, t, RegionLabels(o))
  }

  /**
   * The filter loop. `labels` is a fresh zero array shaped like `outlines`;
   * each region whose mean intensity exceeds the threshold is written into
   * it under its own label.
   */
  method FilterRegions(intensity: Image, outlines: LabelMap, threshold: real) returns (labels: array2<int>)
    requires Rect(outlines) && SameShape(intensity, outlines)
    ensures fresh(labels)
    ensures labels.Length0 == |outlines| && labels.Length1 == Width(outlines)
    ensures forall i, j | 0 <= i < labels.Length0 && 0 <= j < labels.Length1 ::
      labels[i, j] == 0 || labels[i, j] == outlines[i][j]
    ensures forall i, j | 0 <= i < labels.Length0 && 0 <= j < labels.Length1 ::
      labels[i, j] != 0 <==> outlines[i][j] > 0 && Kept(intensity, outlines, outlines[i][j], threshold)
    ensures ToGrid(labels) == Filtered(intensity, outlines, threshold)
  {
    labels := new int[|outlines|, Width(outlines)]((i, j) => 0);
    CopyKeptRegions(labels, intensity, outlines, threshold);
    FilterResult(intensity, outlines, threshold, ToGrid(labels));
  }

  /**
   * The loop of the filter over a zero array: each region of `outlines`, in
   * ascending label order, is copied in when its mean exceeds the threshold.
   */
  method CopyKeptRegions(labels: array2<int>, intensity: Image, outlines: LabelMap, threshold: real)
    requires SameShape(intensity, outlines)
    requires labels.Length0 == |outlines| && forall i | 0 <= i < |outlines| :: |outlines[i]| == labels.Length1
    requires forall i, j | 0 <= i < labels.Length0 && 0 <= j < labels.Length1 :: labels[i, j] == 0
    modifies labels
    ensures forall i, j | 0 <= i < labels.Length0 && 0 <= j < labels.Length1 ::
      labels[i, j] == if outlines[i][j] in KeptRegions(intensity, outlines, threshold) then outlines[i][j] else 0
  {
    var regions := RegionLabels(outlines);
    ghost var kept: seq<int> := [];
    for k := 0 to |regions|
      invariant kept == KeptAmong(intensity, outlines, threshold, regions[..k])
      invariant forall i, j | 0 <= i < labels.Length0 && 0 <= j < labels.Length1 ::
        labels[i, j] == if outlines[i][j] in kept then outlines[i][j] else 0
    {
      var l := regions[k];
      assert regions[..k + 1][..k] == regions[..k];
      assert KeptAmong(intensity, outlines, threshold, regions[..k + 1]) ==
        kept + (if Kept(intensity, outlines, l, threshold) then [l] else []);
      if RegionMean(intensity, outlines, l) > threshold {
        Fill(labels, outlines, l, l);
        kept := kept + [l];
      }
    }
    assert regions[..|regions|] == regions;
  }

  /** A label is among the kept ones of s exactly when it is in s and its region is kept. */
  lemma {:induction false} KeptAmongMembers(img: Image, o: LabelMap, t: real, s: seq<int>)
    requires SameShape(img, o)
    ensures forall l :: l in KeptAmong(img, o, t, s) <==> l in s && Kept(img, o, l, t)
  {
    if |s| > 0 {
      KeptAmongMembers(img, o, t, s[..|s| - 1]);
      assert s == s[..|s| - 1] + [s[|s| - 1]];
    }
  }

  /**
   * A map that holds, at every pixel, the pixel's label in o when that label
   * is among the kept regions and 0 otherwise is the filtered map: each pixel
   * is 0 or its label in o, and is non-zero exactly when its region is kept.
   */
  lemma FilterResult(img: Image, o: LabelMap, t: real, g: Grid<int>)
    requires SameShape(img, o) && SameShape(g, o)
    requires forall i, j | 0 <= i < |o| && 0 <= j < |o[i]| ::
      g[i][j] == if o[i][j] in KeptRegions(img, o, t) then o[i][j] else 0
    ensures g == Filtered(img, o, t)
    ensures forall i, j | 0 <= i < |o| && 0 <= j < |o[i]| :: g[i][j] == 0 || g[i][j] == o[i][j]
    ensures forall i, j | 0 <= i < |o| && 0 <= j < |o[i]| ::
      g[i][j] != 0 <==> o[i][j] > 0 && Kept(img, o, o[i][j], t)
  {
    var f := Filtered(img, o, t);
    KeptAmongMembers(img, o, t, RegionLabels(o));
    forall i, j | 0 <= i < |o| && 0 <= j < |o[i]|
      ensures g[i][j] == f[i][j]
    {
      assert o[i][j] > 0 ==> Present(o, o[i][j]);
    }
    GridEqual(g, f);
  }

  /** A positive label occurs in the filtered map exactly when its region is kept. */
  lemma FilteredPresent(img: Image, o: LabelMap, t: real, l: int)
    requires SameShape(img, o) && l > 0
    ensures Present(Filtered(img, o, t), l) <==> Kept(img, o, l, t)
  {
    var f := Filtered(img, o, t);
    if Kept(img, o, l, t) {
      var i, j :| 0 <= i < |o| && 0 <= j < |o[i]| && o[i][j] == l;
      assert f[i][j] == l;
    }
    if Present(f, l) {
      var i, j :| 0 <= i < |f| && 0 <= j < |f[i]| && f[i][j] == l;
      assert o[i][j] == l;
    }
  }

  lemma {:induction false} LabelsUpToFiltered(img: Image, o: LabelMap, t: real, n: int)
    requires SameShape(img, o)
    ensures LabelsUpTo(Filtered(img, o, t), n) == KeptAmong(img, o, t, LabelsUpTo(o, n))
    decreases n
  {
    if n > 0 {
      LabelsUpToFiltered(img, o, t, n - 1);
      FilteredPresent(img, o, t, n);
      KeptAmongStep(img, o, t, LabelsUpTo(o, n - 1), n);
    }
  }

  lemma KeptAmongStep(img: Image, o: LabelMap, t: real, prev: seq<int>, n: int)
    requires SameShape(img, o)
    ensures KeptAmong(img, o, t, prev + (if Present(o, n) then [n] else []))
         == KeptAmong(img, o, t, prev) + (if Kept(img, o, n, t) then [n] else [])
  {
    if Present(o, n) {
      assert (prev + [n])[..|prev|] == prev;
    } else {
      assert prev + [] == prev;
    }
  }

  /**
   * The regions of the filtered map are exactly the kept regions of
   * `outlines`, in ascending order: the filter renames nothing and keeps
   * rejected regions out.
   */
  lemma FilteredRegions(img: Image, o: LabelMap, t: real)
    requires SameShape(img, o)
    ensures RegionLabels(Filtered(img, o, t)) == KeptRegions(img, o, t)
  {
    var f := Filtered(img, o, t);
    assert MaxLabel(f) <= MaxLabel(o) by {
      if MaxLabel(f) != 0 {
        var i, j :| 0 <= i < |f| && 0 <= j < |f[i]| && f[i][j] == MaxLabel(f);
        assert f[i][j] == o[i][j];
      }
    }
    LabelsUpToBeyondMax(f, MaxLabel(o));
    LabelsUpToFiltered(img, o, t, MaxLabel(o));
  }

  lemma {:induction false} KeptAmongMonotone(img: Image, o: LabelMap, t: real, t': real, s: seq<int>)
    requires SameShape(img, o) && t <= t'
    ensures forall l :: l in KeptAmong(img, o, t', s) ==> l in KeptAmong(img, o, t, s)
    ensures |KeptAmong(img, o, t', s)| <= |KeptAmong(img, o, t, s)|
  {
    if |s| > 0 {
      KeptAmongMonotone(img, o, t, t', s[..|s| - 1]);
    }
  }

  /**
   * Raising the threshold keeps a subset of the regions: every region kept at
   * t' is kept at any t <= t', so no more regions survive at t'.
   */
  lemma ThresholdMonotone(img: Image, o: LabelMap, t: real, t': real)
    requires SameShape(img, o) && t <= t'
    ensures forall l :: l in KeptRegions(img, o, t') ==> l in KeptRegions(img, o, t)
    ensures LabelCount(Filtered(img, o, t')) <= LabelCount(Filtered(img, o, t))
  {
    KeptAmongMonotone(img, o, t, t', RegionLabels(o));
    FilteredRegions(img, o, t);
    FilteredRegions(img, o, t');
  }

  /** Every labelled pixel of o has positive intensity in img: o lies inside the mask `img > 0`. */
  predicate Confined(img: Image, o: LabelMap)
    requires SameShape(img, o)
  {
    forall i, j | 0 <= i < |o| && 0 <= j < |o[i]| && o[i][j] > 0 :: img[i][j] > 0.0
  }

  /**
   * Regions that lie inside the mask `img > 0` have a positive mean, so a
   * threshold of 0 or below keeps all of them and the filter changes nothing.
   */
  lemma ConfinedRegionsKept(img: Image, o: LabelMap, t: real)
    requires SameShape(img, o) && NonNegative(o) && Confined(img, o) && t <= 0.0
    ensures Filtered(img, o, t) == o
  {
    forall i, j | 0 <= i < |o| && 0 <= j < |o[i]| && o[i][j] > 0
      ensures Kept(img, o, o[i][j], t)
    {
      var l := o[i][j];
      RegionMaskCount(o, l);
      MeanPositive(img, RegionMask(o, l));
    }
    AllKeptUnchanged(img, o, t);
  }

  /** When every region passes, the filter returns its input. */
  lemma AllKeptUnchanged(img: Image, o: LabelMap, t: real)
    requires SameShape(img, o) && NonNegative(o)
    requires forall i, j | 0 <= i < |o| && 0 <= j < |o[i]| && o[i][j] > 0 :: Kept(img, o, o[i][j], t)
    ensures Filtered(img, o, t) == o
  {
    GridEqual(Filtered(img, o, t), o);
  }
}
