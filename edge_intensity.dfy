/**
 * `quantify_edge_intensity`, identical in both scripts: mark every pixel of
 * every region in a zero array shaped like the image, then average the
 * image over the marked pixels. "Perimeter" means whole-region membership
 * here: the marked pixels are all pixels with a positive label, not traced
 * contours.
 */
module EdgeQuantification {
  import opened Images
  import opened LabelMaps
  import opened Relabelling

  /**
   * The `perimeters` array: a fresh zero array shaped like the image in which
   * the loop over the regions sets every pixel of every region to 1.
   */
  method PerimeterMask(image: Image, labels: LabelMap) returns (perimeters: array2<real>)
    requires Rect(image) && SameShape(image, labels)
    ensures fresh(perimeters)
    ensures perimeters.Length0 == |image| && perimeters.Length1 == Width(image)
    ensures forall i, j | 0 <= i < perimeters.Length0 && 0 <= j < perimeters.Length1 ::
      perimeters[i, j] == if labels[i][j] > 0 then 1.0 else 0.0
  {
    perimeters := new real[|image|, Width(image)]((i, j) => 0.0);
    var regions := RegionLabels(labels);
    for k := 0 to |regions|
      invariant forall i, j | 0 <= i < perimeters.Length0 && 0 <= j < perimeters.Length1 ::
        perimeters[i, j] == if labels[i][j] in regions[..k] then 1.0 else 0.0
    {
      assert regions[..k + 1] == regions[..k] + [regions[k]];
      Fill(perimeters, labels, regions[k], 1.0);
    }
    assert regions[..|regions|] == regions;
    forall i, j | 0 <= i < perimeters.Length0 && 0 <= j < perimeters.Length1
      ensures perimeters[i, j] == if labels[i][j] > 0 then 1.0 else 0.0
    {
      assert labels[i][j] > 0 ==> Present(labels, labels[i][j]);
    }
  }

  /**
   * The edge intensity: the mean of the image over the pixels with a positive
   * label, or NoRegions when there is none (NumPy's mean of an empty
   * selection is NaN).
   */
  function EdgeIntensity(image: Image, labels: LabelMap): (r: Result<real>)
    requires SameShape(image, labels)
    ensures r.Success? <==> exists i, j | 0 <= i < |labels| && 0 <= j < |labels[i]| :: labels[i][j] > 0
  {
    var m := LabelledMask(labels);
    assert forall i, j | 0 <= i < |labels| && 0 <= j < |labels[i]| :: m[i][j] == (labels[i][j] > 0);
    if MaskedCount(m) == 0 then Failure(NoRegions) else Success(MaskedMean(image, m))
  }

  /**
   * The operation itself: build the perimeter mask with its loop, select the
   * pixels where it is above 0, and average the image over them. Both inputs
   * are values and stay as they were.
   */
  method QuantifyEdgeIntensity(image: Image, labels: LabelMap) returns (r: Result<real>)
    requires Rect(image) && SameShape(image, labels)
    ensures r == EdgeIntensity(image, labels)
  {
    var perimeters := PerimeterMask(image, labels);
    var selected := AboveZero(ToGrid(perimeters));
    assert selected == LabelledMask(labels) by {
      ghost var g := ToGrid(perimeters);
      forall i, j | 0 <= i < |selected| && 0 <= j < |selected[i]|
        ensures selected[i][j] == LabelledMask(labels)[i][j]
      {
        assert selected[i][j] == (g[i][j] > 0.0) && g[i][j] == perimeters[i, j];
      }
      GridEqual(selected, LabelledMask(labels));
    }
    if MaskedCount(selected) == 0 {
      r := Failure(NoRegions);
    } else {
      r := Success(MaskedMean(image, selected));
    }
  }

  /** The edge intensity lies between any bounds on the labelled pixels. */
  lemma EdgeIntensityBounds(image: Image, labels: LabelMap, lo: real, hi: real)
    requires SameShape(image, labels)
    requires forall i, j | 0 <= i < |labels| && 0 <= j < |labels[i]| && labels[i][j] > 0 ::
      lo <= image[i][j] <= hi
    ensures EdgeIntensity(image, labels).Success? ==> lo <= EdgeIntensity(image, labels).value <= hi
  {
    var m := LabelledMask(labels);
    if MaskedCount(m) > 0 {
      MeanBounds(image, m, lo, hi);
    }
  }

  /**
   * Renumbering the regions does not change the edge intensity: it depends
   * only on which pixels are labelled.
   */
  lemma EdgeIntensityIgnoresRelabelling(image: Image, labels: LabelMap)
    requires SameShape(image, labels) && NonNegative(labels)
    ensures EdgeIntensity(image, Relabel(labels)) == EdgeIntensity(image, labels)
  {
    RelabelBackground(labels);
    GridEqual(LabelledMask(Relabel(labels)), LabelledMask(labels));
  }
}
