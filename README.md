# segment_intensity, modelled in Dafny

`segment_intensity` segments cells in immunohistochemistry TIF images and
measures how bright their edges are. It has two scripts. The interactive demo
(`segment_intensity_demo.py`) handles one image. The batch script
(`segment_intensity_batch.py`) handles a directory and writes `results.csv`.
Both scripts take the same steps:

1. The demo min-max normalises the image; the batch script does not.
2. Gaussian blurs, seed detection and a masked watershed give the map of
   candidate regions, `outlines`.
3. A filter loop copies into a fresh zero map every region whose mean
   intensity is strictly above a threshold.
4. `relabel_sequential` renumbers the surviving regions 1..K.
5. `quantify_edge_intensity` marks every pixel of every region in a zero
   array and averages the image over the marked pixels.

This project models the code the scripts write themselves: normalisation, the
watershed mask, the filter loop, renumbering, the edge quantifier, the
extension test and the results table. The library algorithms of step 2 are
left out, so `outlines` is an input.

Modules:

- `Images` (`images.dfy`): grids, with minimum, maximum and masked sum, count and mean.
- `LabelMaps` (`labelmaps.dfy`): the regions of a label map in ascending order, which is what `regionprops` lists, and the masked assignment `dst[src == l] = v` as the in-place method `Fill`.
- `RegionFilter` (`region_filter.dfy`): the threshold filter. `FilterRegions` allocates a fresh `array2` and runs the region loop `CopyKeptRegions` on it; the result is proved equal to the function `Filtered`.
- `Relabelling` (`relabel.dfy`): `relabel_sequential` as a function on label maps, and its properties.
- `EdgeQuantification` (`edge_intensity.dfy`): the perimeter-mask loop over a fresh `array2`, and the edge mean.
- `SegmentIntensityDemo` (`demo.dfy`): the demo's normalising `cell_segmentation`.
- `SegmentIntensityBatch` (`batch.dfy`): the batch `cell_segmentation` on raw intensities, the `.tif`/`.tiff` name test, and the driver loop that builds the results table.

Modelling choices:

- Images and watershed outputs are values (`seq<seq<real>>`, `seq<seq<int>>`).
- The two arrays each script allocates and updates in place, `labels` and `perimeters`, are `array2`s filled by loops.
- Intensities are exact reals.
- An empty demo image gives `Failure(EmptyImage)`, and the mean of an empty selection gives `Failure(NoRegions)`. The NaN that a flat demo image produces is modelled by its effect, a zero map. The batch `Segmented` has no failure case.

### Where the code does something other than the expected outcome (the model follows the code)

- **Flat image (max == min) in the demo.** A degenerate-input error would be the expected outcome. The code divides 0 by 0, so every normalised pixel is NaN. The watershed mask `normalized_image > 0` is then empty, no NaN mean passes `> threshold`, and the function returns an all-background map. `SegmentIntensityDemo.Segmented` returns `Success` of the zero map.
- **Empty image in the demo.** `.min()` raises. The handler logs the error and then returns a variable that was never assigned, so the call fails. The model returns `Failure(EmptyImage)`.
- **No labelled pixel.** A no-regions error would be the expected outcome. `np.mean` of an empty selection is NaN, and the batch script writes that NaN into the results row. The quantifier returns `Failure(NoRegions)` and the row holds a `NotANumber` cell.
- **Corrupt TIF in a listing.** Skipping the file would be the expected outcome. In the code, `imread` raises outside any handler and the whole run stops. This is not modelled: each file's pixels are an input.

## Model

| member | source | states |
|---|---|---|
| Images.GridMin | segment_intensity_demo.py:72 | `original_image.min()` is at most every pixel and equals one of them |
| Images.GridMax | segment_intensity_demo.py:72 | `original_image.max()` is at least every pixel and equals one of them |
| Images.AboveZero | segment_intensity_batch.py:63 | the mask `image > 0` has the image's shape, one flag per pixel |
| Images.MaskedCount | segment_intensity_demo.py:176 | the number of selected pixels is positive exactly when the mask selects some pixel |
| Images.MeanBounds | segment_intensity_demo.py:176 | the mean over a mask lies between any lower and upper bound on the selected pixels |
| Images.MaskedMean | segment_intensity_demo.py:176 | the mean over a non-empty selection is attained from both sides: some selected pixel is at most the mean and some selected pixel is at least it |
| Images.MeanPositive | segment_intensity_batch.py:71 | the mean over a mask of positive pixels is positive |
| LabelMaps.RegionLabels | segment_intensity_demo.py:126 | `regionprops` visits each positive label that occurs exactly once, in strictly ascending order, and no other label |
| LabelMaps.RegionMaskCount | segment_intensity_demo.py:126-127 | a region's pixel set is non-empty exactly when its label occurs, so its mean is defined |
| LabelMaps.Fill | segment_intensity_demo.py:130 | `dst[src == l] = v` sets exactly the pixels where src holds l and leaves every other pixel unchanged |
| RegionFilter.RegionMeanAttained | segment_intensity_demo.py:127 | `region.mean_intensity` of a region that occurs lies between its darkest and its brightest pixel: some pixel of the region is at most the mean and some is at least it |
| RegionFilter.KeptHasPixelAbove | segment_intensity_batch.py:71 | the test `region.mean_intensity > threshold` passes only for a region with some pixel above the threshold, so a region whose every pixel is at or below it is dropped |
| RegionFilter.Filtered | segment_intensity_demo.py:119-130 | the filtered map has the shape of `outlines` and no negative label |
| RegionFilter.FilterRegions | segment_intensity_demo.py:119-130 | the loop over a freshly allocated zero array the shape of `outlines` yields a map where each pixel is 0 or its `outlines` label, and is non-zero exactly when that label is positive and the region's mean is strictly above the threshold; the array equals `Filtered` |
| RegionFilter.CopyKeptRegions | segment_intensity_demo.py:126-130 | visiting the regions in ascending order over a zero array, writing a region in only when its mean exceeds the threshold, leaves each pixel holding its `outlines` label when that region is among the kept regions, and 0 otherwise |
| RegionFilter.KeptAmongMembers | segment_intensity_demo.py:126-130 | a label ends up among the kept labels exactly when it is visited and its region passes the filter |
| RegionFilter.FilterResult | segment_intensity_demo.py:119-130 | a map holding the kept regions' labels and 0 elsewhere is the filtered map: every pixel is 0 or its `outlines` label, and is non-zero exactly when its region is kept |
| RegionFilter.AllKeptUnchanged | segment_intensity_demo.py:126-130 | when every region passes, the filter returns `outlines` unchanged |
| RegionFilter.FilteredPresent | segment_intensity_demo.py:126-130 | a positive label occurs in the filtered map exactly when its region is kept |
| RegionFilter.FilteredRegions | segment_intensity_demo.py:126-130 | the regions of the filtered map are exactly the kept regions of `outlines`, in ascending order |
| RegionFilter.ThresholdMonotone | segment_intensity_demo.py:129 | every region kept at t' is kept at any t <= t', and the map filtered at t' has no more regions |
| RegionFilter.ConfinedRegionsKept | segment_intensity_batch.py:60-72 | when the outlines lie inside the mask `image > 0` and the threshold is at most 0, every region is kept and the filter returns `outlines` unchanged |
| Relabelling.Relabel | segment_intensity_demo.py:131 | the renumbered map has the input's shape and no negative label |
| Relabelling.RankOfPresent | segment_intensity_demo.py:131 | every region's new label lies in 1..K, where K is the number of regions |
| Relabelling.RelabelBackground | segment_intensity_demo.py:131 | a pixel is 0 after renumbering exactly when it was 0 before |
| Relabelling.RelabelPreservesOrder | segment_intensity_demo.py:131 | for any two pixels, the old label is smaller exactly when the new label is smaller |
| Relabelling.RelabelPreservesPartition | segment_intensity_demo.py:131 | two pixels share a new label exactly when they shared an old one |
| Relabelling.RelabelDense | segment_intensity_demo.py:131 | the positive labels of the result are exactly 1..K, with K the number of input regions |
| Relabelling.DenseLabelCount | segment_intensity_demo.py:131 | a map whose labels are 1..n without a gap has n regions |
| Relabelling.RelabelDenseUnchanged | segment_intensity_demo.py:131 | renumbering a map already labelled 1..K returns it unchanged |
| Relabelling.RelabelIdempotent | segment_intensity_demo.py:131 | renumbering twice equals renumbering once, and the region count is kept |
| Relabelling.RelabelFiltered | segment_intensity_batch.py:67-75 | the renumbered filter result is labelled 1..K, has one label per kept region, and labels a pixel exactly when its region is kept |
| EdgeQuantification.PerimeterMask | segment_intensity_demo.py:159-166 | the loop over the regions leaves a freshly allocated zero array the image's shape with 1 exactly at the pixels with a positive label and 0 elsewhere |
| EdgeQuantification.EdgeIntensity | segment_intensity_demo.py:176 | the edge intensity is defined exactly when some pixel has a positive label |
| EdgeQuantification.QuantifyEdgeIntensity | segment_intensity_demo.py:159-176 | averaging the image over `perimeters > 0` gives the sum of the image over the labelled pixels divided by their count, or `NoRegions` when there is none; both inputs are values and stay as they were |
| EdgeQuantification.EdgeIntensityBounds | segment_intensity_demo.py:176 | the edge intensity lies between any bounds on the labelled pixels |
| EdgeQuantification.EdgeIntensityIgnoresRelabelling | segment_intensity_demo.py:165-176 | renumbering the regions does not change the edge intensity |
| SegmentIntensityDemo.Normalized | segment_intensity_demo.py:72 | the normalised image has the original's shape |
| SegmentIntensityDemo.ScaleBounds | segment_intensity_demo.py:72 | a pixel between min and max normalises into [0, 1]; it gives 0 exactly at the minimum and 1 exactly at the maximum |
| SegmentIntensityDemo.ScaleOrder | segment_intensity_demo.py:72 | normalisation is strictly increasing in the pixel value |
| SegmentIntensityDemo.NormalizedRange | segment_intensity_demo.py:72 | when max > min, every normalised pixel is in [0, 1]; it is 0 exactly where the image is minimal and 1 exactly where it is maximal; the normalised minimum is 0 and the maximum is 1 |
| SegmentIntensityDemo.NormalizedOrder | segment_intensity_demo.py:72 | for any two pixels, the original is smaller exactly when the normalised value is smaller |
| SegmentIntensityDemo.WatershedMaskAboveMinimum | segment_intensity_demo.py:110 | the watershed mask `normalized_image > 0` selects exactly the pixels above the image minimum |
| SegmentIntensityDemo.Segmented | segment_intensity_demo.py:62-131 | the demo segmentation fails exactly on an image with no pixel; a result has the shape of `outlines` and no negative label |
| SegmentIntensityDemo.CellSegmentation | segment_intensity_demo.py:62-131 | normalising and running the filter loop and the renumbering gives `Segmented`: `EmptyImage` for an empty image, the zero map for a flat one, and otherwise the renumbered filter of the normalised image |
| SegmentIntensityDemo.SegmentedMeaning | segment_intensity_demo.py:119-131 | it fails exactly on an empty image; a result has the shape of `outlines`, is labelled 1..K with K the number of kept regions (0 for a flat image), and labels a pixel exactly when its region's mean normalised intensity is above the threshold |
| SegmentIntensityDemo.SegmentedKeepsRegions | segment_intensity_demo.py:126-131 | among the labelled pixels of a result, two share a label exactly when they share one in `outlines`, and one label is smaller exactly when it is smaller in `outlines` |
| SegmentIntensityDemo.ZeroMapRegions | segment_intensity_demo.py:119 | the all-background map has no region and counts as labelled 1..0 |
| SegmentIntensityDemo.SegmentedThresholdMonotone | segment_intensity_demo.py:129-131 | every region kept at a threshold t' is kept at any t <= t', and raising the threshold never increases the number of segmented cells |
| SegmentIntensityDemo.NormalizedRegionMean | segment_intensity_demo.py:126-127 | every region's mean normalised intensity lies in [0, 1] |
| SegmentIntensityDemo.HighThresholdKeepsNothing | segment_intensity_demo.py:126-131 | a threshold of 1 or more leaves an all-background map |
| SegmentIntensityDemo.NegativeThresholdKeepsAll | segment_intensity_demo.py:126-131 | a negative threshold keeps every region, so the result is the renumbered `outlines` |
| SegmentIntensityDemo.WatershedRegionsKept | segment_intensity_demo.py:106-131 | for outlines that the watershed placed inside its mask, a threshold of 0 or below keeps every region |
| SegmentIntensityBatch.Segmented | segment_intensity_batch.py:67-75 | the batch result has the shape of `outlines` and is labelled 1..K, with K the number of regions whose mean raw intensity is above the threshold; a pixel is labelled exactly when its region is kept |
| SegmentIntensityBatch.CellSegmentation | segment_intensity_batch.py:60-75 | the filter loop on the raw image followed by renumbering gives `Segmented` |
| SegmentIntensityBatch.SegmentedThresholdMonotone | segment_intensity_batch.py:71 | raising the threshold never increases the number of segmented cells |
| SegmentIntensityBatch.WatershedRegionsKept | segment_intensity_batch.py:60-75 | for outlines inside the mask `image > 0`, a threshold of 0 or below keeps every region and the result is the renumbered `outlines` |
| SegmentIntensityBatch.DarkImageHasNoEdge | segment_intensity_batch.py:63-100 | an image with no positive pixel gives a segmentation with no labelled pixel, whose edge intensity is `NoRegions` |
| SegmentIntensityBatch.Lower | segment_intensity_batch.py:158 | lower-casing keeps the length and lower-cases each character |
| SegmentIntensityBatch.TiffNameChars | segment_intensity_batch.py:158 | `IsTiffName`, the test `input_fn.lower().endswith(('.tif', '.tiff'))`, accepts a name exactly when it ends in ".tif" or ".tiff" with each letter in either case |
| SegmentIntensityBatch.TiffNameIgnoresCase | segment_intensity_batch.py:158 | a name and its lower-cased form are accepted or rejected together |
| SegmentIntensityBatch.IntensityCell | segment_intensity_batch.py:184 | the intensity cell holds a number exactly when the edge intensity is defined, and nan otherwise |
| SegmentIntensityBatch.SegmentedEdgeDefined | segment_intensity_batch.py:95-100 | the edge intensity of the batch segmentation is defined exactly when the filter keeps at least one region |
| SegmentIntensityBatch.ResultRow | segment_intensity_batch.py:184 | the row written for a file has two cells, the file name and then the intensity, which is a number exactly when the filter keeps at least one region of that image and nan otherwise |
| SegmentIntensityBatch.Accepted | segment_intensity_batch.py:153-160 | the processed files are exactly the listing's files with an accepted name |
| SegmentIntensityBatch.AcceptedConcat | segment_intensity_batch.py:153-160 | files are processed in listing order: the accepted files of two listings in sequence are those of the first, then those of the second |
| SegmentIntensityBatch.ProcessDirectory | segment_intensity_batch.py:148-184 | the driver loop, which skips rejected names with `continue`, writes the header and then the data rows of the listing |
| SegmentIntensityBatch.DataRows | segment_intensity_batch.py:153-184 | the rows after the header number at most one per file of the listing, and each holds a name and an intensity |
| SegmentIntensityBatch.DataRowsConcat | segment_intensity_batch.py:153-184 | the rows of two listings in sequence are the rows of the first, then those of the second |
| SegmentIntensityBatch.RowsFollowAcceptedFiles | segment_intensity_batch.py:150-184 | after the header there is exactly one row per accepted file, in listing order, holding that file's name and edge intensity |

## Left out

- Gaussian smoothing, seed detection (`local_minima`, `label`) and the watershed (segment_intensity_demo.py:85-111, segment_intensity_batch.py:49-64). These are floating-point library algorithms. Their output `outlines` is an input, and only the watershed's guarantee that it labels pixels inside its mask appears, as a precondition (`Confined`).
- IEEE floating point. Intensities are exact reals. A NaN normalisation is modelled through its effect: nothing passes the filter. A NaN mean becomes `NoRegions`, or a `NotANumber` cell in the table.
- The `try`/`except` handlers that log and return a possibly unbound variable. Their observable outcomes are the `Result` values described above.
- Logging, and the statistics gathered only for logging: the `intensities` list, its minimum, maximum and average, and `overall_intensity`.
- `relabel_sequential`'s second and third results, the forward and inverse maps. Neither script uses them.
- The `int32` element type of `labels`. Labels are unbounded integers. The labels copied into it come from `outlines`, whose labels `label()` gives the seeds, so they never exceed the number of pixels and fit in `int32` for any image the scripts can load.
- Command-line parsing and the default thresholds (0.02 for the demo function, 0.01 for the batch function, 0.1 on the batch command line). The threshold is a parameter.
- `imread`, the napari viewer, and the demo `main`'s extension check, which only logs.
- The file system and the CSV writer. The directory listing is a sequence of files in `os.listdir` order, and the results file is the sequence of rows passed to the writer.
- A corrupt file whose `imread` raises and stops the batch run. File contents are inputs.
- SegmentIntensityBatch.Lower: lower-cases ASCII letters only. Python's `str.lower` also maps non-ASCII letters, which the model leaves as they are.
- SegmentIntensityBatch.Segmented: is total, and on an empty image gives an empty map. What the library blurs and the watershed do with an empty array is not modelled.
- `split_tif.py`: it only reads and writes multi-page TIF files, and is not part of this model.
