/**
 * `cell_segmentation` of the interactive demo script. The image is min-max
 * normalised, the watershed runs inside the mask `normalized_image > 0`, the
 * regions of the watershed output are filtered on their mean normalised
 * intensity, and the survivors are renumbered 1..K.
 *
 * The Gaussian blurs, the seed detection and the watershed itself are
 * library algorithms: their output `outlines` is an input here.
 */
module SegmentIntensityDemo {
  import opened Images
  import opened LabelMaps
  import opened RegionFilter
  import opened Relabelling

  /** One pixel of the normalisation `(x - min) / (max - min)`. */
  function Scale(x: real, lo: real, hi: real): real
    requires lo < hi
  {
    (x - lo) / (hi - lo)
  }

  /** The normalised image, defined when the image is not flat. */
  function Normalized(img: Image): (r: Image)
    requires HasPixels(img) && GridMin(img) < GridMax(img)
    ensures SameShape(r, img)
  {
    var lo, hi := GridMin(img), GridMax(img);
    seq(|img|, i requires 0 <= i < |img| =>
      seq(|img[i]|, j requires 0 <= j < |img[i]| => Scale(img[i][j], lo, hi)))
  }

  lemma ScaleBounds(x: real, lo: real, hi: real)
    requires lo < hi && lo <= x <= hi
    ensures 0.0 <= Scale(x, lo, hi) <= 1.0
    ensures Scale(x, lo, hi) == 0.0 <==> x == lo
    ensures Scale(x, lo, hi) == 1.0 <==> x == hi
  {
    var d, s := hi - lo, Scale(x, lo, hi);
    assert s * d == x - lo;
    assert (1.0 - s) * d == hi - x;
  }

  lemma ScaleOrder(x: real, y: real, lo: real, hi: real)
    requires lo < hi
    ensures x < y <==> Scale(x, lo, hi) < Scale(y, lo, hi)
  {
    var d := hi - lo;
    assert Scale(y, lo, hi) - Scale(x, lo, hi) == (y - x) / d;
  }

  /**
   * The normalised image lies in [0, 1]; a pixel becomes 0 exactly when it
   * is the image minimum and 1 exactly when it is the maximum, so the
   * normalised image has minimum 0 and maximum 1.
   */
  lemma NormalizedRange(img: Image)
    requires HasPixels(img) && GridMin(img) < GridMax(img)
    ensures forall i, j | 0 <= i < |img| && 0 <= j < |img[i]| ::
      0.0 <= Normalized(img)[i][j] <= 1.0 &&
      (Normalized(img)[i][j] == 0.0 <==> img[i][j] == GridMin(img)) &&
      (Normalized(img)[i][j] == 1.0 <==> img[i][j] == GridMax(img))
    ensures GridMin(Normalized(img)) == 0.0 && GridMax(Normalized(img)) == 1.0
  {
    var r, lo, hi := Normalized(img), GridMin(img), GridMax(img);
    forall i, j | 0 <= i < |img| && 0 <= j < |img[i]|
      ensures 0.0 <= r[i][j] <= 1.0
      ensures r[i][j] == 0.0 <==> img[i][j] == lo
      ensures r[i][j] == 1.0 <==> img[i][j] == hi
    {
      ScaleBounds(img[i][j], lo, hi);
    }
    var a, b :| 0 <= a < |img| && 0 <= b < |img[a]| && img[a][b] == lo;
    var c, d :| 0 <= c < |img| && 0 <= d < |img[c]| && img[c][d] == hi;
    assert r[a][b] == 0.0 && r[c][d] == 1.0;
  }

  /** Normalisation preserves the order of pixel values, in both directions. */
  lemma NormalizedOrder(img: Image)
    requires HasPixels(img) && GridMin(img) < GridMax(img)
    ensures forall i, j, p, q | 0 <= i < |img| && 0 <= j < |img[i]| && 0 <= p < |img| && 0 <= q < |img[p]| ::
      img[i][j] < img[p][q] <==> Normalized(img)[i][j] < Normalized(img)[p][q]
  {
    var r := Normalized(img);
    forall i, j, p, q | 0 <= i < |img| && 0 <= j < |img[i]| && 0 <= p < |img| && 0 <= q < |img[p]|
      ensures img[i][j] < img[p][q] <==> r[i][j] < r[p][q]
    {
      ScaleOrder(img[i][j], img[p][q], GridMin(img), GridMax(img));
    }
  }

  /** The watershed mask selects exactly the pixels above the image minimum. */
  lemma WatershedMaskAboveMinimum(img: Image)
    requires HasPixels(img) && GridMin(img) < GridMax(img)
    ensures forall i, j | 0 <= i < |img| && 0 <= j < |img[i]| ::
      AboveZero(Normalized(img))[i][j] <==> img[i][j] > GridMin(img)
  {
    NormalizedRange(img);
  }

  /** A zero label map shaped like g. */
  function ZeroMap(g: LabelMap): (r: LabelMap)
    ensures SameShape(r, g)
    ensures forall i, j | 0 <= i < |r| && 0 <= j < |r[i]| :: r[i][j] == 0
  {
    seq(|g|, i requires 0 <= i < |g| => seq(|g[i]|, j requires 0 <= j < |g[i]| => 0))
  }

  /**
   * What the demo's `cell_segmentation` returns for an image and the
   * watershed output over it. An empty image fails: its minimum does not
   * exist. A flat image normalises to NaN everywhere, no NaN mean passes
   * `> threshold`, and the result is all background.
   */
  function Segmented(image: Image, outlines: LabelMap, threshold: real): (r: Result<LabelMap>)
    requires SameShape(image, outlines)
    ensures r.Failure? <==> !HasPixels(image)
    ensures r.Success? ==> SameShape(r.value, outlines) && NonNegative(r.value)
  {
    if !HasPixels(image) then Failure(EmptyImage)
    else if GridMin(image) == GridMax(image) then Success(ZeroMap(outlines))
    else Success(Relabel(Filtered(Normalized(image), outlines, threshold)))
  }

  /**
   * The segmentation step: normalise, run the filter loop on the normalised
   * intensities, and renumber the survivors.
   */
  method CellSegmentation(image: Image, outlines: LabelMap, threshold: real) returns (r: Result<LabelMap>)
    requires Rect(image) && SameShape(image, outlines)
    ensures r == Segmented(image, outlines, threshold)
  {
    if |image| == 0 || Width(image) == 0 {
      return Failure(EmptyImage);
    }
    assert HasPixels(image);
    var lo, hi := GridMin(image), GridMax(image);
    if lo == hi {
      return Success(ZeroMap(outlines));
    }
    var normalized := Normalized(image);
    var labels := FilterRegions(normalized, outlines, threshold);
    r := Success(Relabel(ToGrid(labels)));
  }

  /**
   * The result fails exactly on an empty image. Otherwise it has the shape
   * of `outlines`, its labels are 1..K with K the number of kept regions, a
   * pixel is labelled exactly when its region of `outlines` is kept.
   * SegmentedKeepsRegions adds that the kept regions keep their pixels and
   * their order.
   */
  lemma SegmentedMeaning(image: Image, outlines: LabelMap, threshold: real)
    requires SameShape(image, outlines)
    ensures Segmented(image, outlines, threshold).Failure? <==> !HasPixels(image)
    ensures Segmented(image, outlines, threshold).Success? ==>
      var s := Segmented(image, outlines, threshold).value;
      SameShape(s, outlines) && Dense(s) &&
      LabelCount(s) == (if GridMin(image) == GridMax(image) then 0
                        else |KeptRegions(Normalized(image), outlines, threshold)|) &&
      forall i, j | 0 <= i < |s| && 0 <= j < |s[i]| ::
        s[i][j] > 0 <==> GridMin(image) < GridMax(image) && outlines[i][j] > 0 &&
                         Kept(Normalized(image), outlines, outlines[i][j], threshold)
  {
    if HasPixels(image) {
      if GridMin(image) == GridMax(image) {
        ZeroMapRegions(outlines);
      } else {
        RelabelFiltered(Normalized(image), outlines, threshold);
      }
    }
  }

  /**
   * The kept regions keep their pixels and their order: two labelled pixels
   * of the result share a label exactly when they share one in `outlines`,
   * and one label is smaller exactly when it is smaller in `outlines`.
   */
  lemma SegmentedKeepsRegions(image: Image, outlines: LabelMap, threshold: real)
    requires SameShape(image, outlines)
    ensures Segmented(image, outlines, threshold).Success? ==>
      var s := Segmented(image, outlines, threshold).value;
      forall i, j, p, q | 0 <= i < |s| && 0 <= j < |s[i]| && 0 <= p < |s| && 0 <= q < |s[p]| &&
                          s[i][j] > 0 && s[p][q] > 0 ::
        (s[i][j] == s[p][q] <==> outlines[i][j] == outlines[p][q]) &&
        (s[i][j] < s[p][q] <==> outlines[i][j] < outlines[p][q])
  {
    if HasPixels(image) && GridMin(image) < GridMax(image) {
      var f := Filtered(Normalized(image), outlines, threshold);
      var s := Relabel(f);
      RelabelPreservesPartition(f);
      RelabelPreservesOrder(f);
      RelabelBackground(f);
      forall i, j, p, q | 0 <= i < |s| && 0 <= j < |s[i]| && 0 <= p < |s| && 0 <= q < |s[p]| &&
                          s[i][j] > 0 && s[p][q] > 0
        ensures (s[i][j] == s[p][q] <==> outlines[i][j] == outlines[p][q]) &&
                (s[i][j] < s[p][q] <==> outlines[i][j] < outlines[p][q])
      {
        assert f[i][j] == outlines[i][j] && f[p][q] == outlines[p][q];
      }
    }
  }

  /** The all-background map is dense and has no region. */
  lemma ZeroMapRegions(g: LabelMap)
    ensures Dense(ZeroMap(g)) && LabelCount(ZeroMap(g)) == 0
  {
    var z := ZeroMap(g);
    assert MaxLabel(z) == 0;
  }

  /**
   * Raising the threshold never adds a region: every region kept at t' is
   * kept at any t <= t', and the segmentation at t' has no more labels.
   */
  lemma SegmentedThresholdMonotone(image: Image, outlines: LabelMap, t: real, t': real)
    requires SameShape(image, outlines) && t <= t'
    ensures HasPixels(image) && GridMin(image) < GridMax(image) ==>
      forall l :: l in KeptRegions(Normalized(image), outlines, t') ==> l in KeptRegions(Normalized(image), outlines, t)
    ensures Segmented(image, outlines, t).Success? ==>
      LabelCount(Segmented(image, outlines, t').value) <= LabelCount(Segmented(image, outlines, t).value)
  {
    SegmentedMeaning(image, outlines, t);
    SegmentedMeaning(image, outlines, t');
    if HasPixels(image) && GridMin(image) < GridMax(image) {
      var n := Normalized(image);
      FilteredRegions(n, outlines, t);
      FilteredRegions(n, outlines, t');
      ThresholdMonotone(n, outlines, t, t');
    }
  }

  /** Region means of the normalised image lie in [0, 1]. */
  lemma NormalizedRegionMean(image: Image, outlines: LabelMap, l: int)
    requires SameShape(image, outlines) && HasPixels(image) && GridMin(image) < GridMax(image)
    requires Present(outlines, l)
    ensures 0.0 <= RegionMean(Normalized(image), outlines, l) <= 1.0
  {
    var n, m := Normalized(image), RegionMask(outlines, l);
    forall i, j | 0 <= i < |m| && 0 <= j < |m[i]| && m[i][j]
      ensures 0.0 <= n[i][j] <= 1.0
    {
      ScaleBounds(image[i][j], GridMin(image), GridMax(image));
    }
    RegionMaskCount(outlines, l);
    MeanBounds(n, m, 0.0, 1.0);
  }

  /** A threshold of 1 or more rejects every region: normalised means never exceed 1. */
  lemma HighThresholdKeepsNothing(image: Image, outlines: LabelMap, threshold: real)
    requires SameShape(image, outlines) && HasPixels(image) && threshold >= 1.0
    ensures Segmented(image, outlines, threshold) == Success(ZeroMap(outlines))
  {
    if GridMin(image) < GridMax(image) {
      var f := Filtered(Normalized(image), outlines, threshold);
      forall i, j | 0 <= i < |outlines| && 0 <= j < |outlines[i]| && outlines[i][j] > 0
        ensures !Kept(Normalized(image), outlines, outlines[i][j], threshold)
      {
        NormalizedRegionMean(image, outlines, outlines[i][j]);
      }
      RelabelBackground(f);
      GridEqual(Relabel(f), ZeroMap(outlines));
    }
  }

  /**
   * A negative threshold keeps every region: normalised means are never
   * below 0. The segmentation is then the renumbered watershed output.
   */
  lemma NegativeThresholdKeepsAll(image: Image, outlines: LabelMap, threshold: real)
    requires SameShape(image, outlines) && HasPixels(image) && GridMin(image) < GridMax(image)
    requires NonNegative(outlines) && threshold < 0.0
    ensures Segmented(image, outlines, threshold) == Success(Relabel(outlines))
  {
    var n := Normalized(image);
    forall i, j | 0 <= i < |outlines| && 0 <= j < |outlines[i]| && outlines[i][j] > 0
      ensures Kept(n, outlines, outlines[i][j], threshold)
    {
      NormalizedRegionMean(image, outlines, outlines[i][j]);
    }
    AllKeptUnchanged(n, outlines, threshold);
    assert Segmented(image, outlines, threshold) == Success(Relabel(Filtered(n, outlines, threshold)));
  }

  /**
   * The watershed labels only pixels inside its mask `normalized_image > 0`,
   * that is pixels above the image minimum. For such outlines a threshold of
   * 0 or below keeps every region, and the segmentation is the renumbered
   * watershed output.
   */
  lemma WatershedRegionsKept(image: Image, outlines: LabelMap, threshold: real)
    requires SameShape(image, outlines) && HasPixels(image) && GridMin(image) < GridMax(image)
    requires NonNegative(outlines) && threshold <= 0.0
    requires forall i, j | 0 <= i < |outlines| && 0 <= j < |outlines[i]| && outlines[i][j] > 0 ::
      image[i][j] > GridMin(image)
    ensures Segmented(image, outlines, threshold) == Success(Relabel(outlines))
  {
    var n := Normalized(image);
    WatershedMaskAboveMinimum(image);
    assert Confined(n, outlines);
    ConfinedRegionsKept(n, outlines, threshold);
    assert Segmented(image, outlines, threshold) == Success(Relabel(Filtered(n, outlines, threshold)));
  }
}
