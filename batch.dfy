/**
 * The batch script: its raw-intensity `cell_segmentation`, and the driver
 * `main` that walks a directory listing, skips every file whose name does
 * not end in ".tif" or ".tiff" (any case), and writes one results row per
 * processed image under a fixed header. The directory listing, the files'
 * pixels and the watershed output for each image are inputs; the CSV writer
 * is the sequence of rows it receives.
 */
module SegmentIntensityBatch {
  import opened Images
  import opened LabelMaps
  import opened RegionFilter
  import opened Relabelling
  import opened EdgeQuantification

  // ---------------------------------------------------------------------
  // Segmentation on raw intensities

  /**
   * What the batch `cell_segmentation` returns: the filter runs on the raw
   * image (the watershed mask is `image > 0`), then the survivors are
   * renumbered.
   */
  function Segmented(image: Image, outlines: LabelMap, threshold: real): (r: LabelMap)
    requires SameShape(image, outlines)
    ensures SameShape(r, outlines) && Dense(r)
    ensures LabelCount(r) == |KeptRegions(image, outlines, threshold)|
    ensures forall i, j | 0 <= i < |r| && 0 <= j < |r[i]| ::
      r[i][j] > 0 <==> outlines[i][j] > 0 && Kept(image, outlines, outlines[i][j], threshold)
  {
    RelabelFiltered(image, outlines, threshold);
    Relabel(Filtered(image, outlines, threshold))
  }

  /** The segmentation step: the filter loop on the raw image, then renumbering. */
  method CellSegmentation(image: Image, outlines: LabelMap, threshold: real) returns (r: LabelMap)
    requires Rect(image) && SameShape(image, outlines)
    ensures r == Segmented(image, outlines, threshold)
  {
    var labels := FilterRegions(image, outlines, threshold);
    r := Relabel(ToGrid(labels));
  }

  /** Raising the threshold never increases the number of segmented cells. */
  lemma SegmentedThresholdMonotone(image: Image, outlines: LabelMap, t: real, t': real)
    requires SameShape(image, outlines) && t <= t'
    ensures LabelCount(Segmented(image, outlines, t')) <= LabelCount(Segmented(image, outlines, t))
  {
    FilteredRegions(image, outlines, t);
    FilteredRegions(image, outlines, t');
    ThresholdMonotone(image, outlines, t, t');
  }

  /**
   * The watershed labels only pixels inside its mask `image > 0`. For such
   * outlines a threshold of 0 or below keeps every region.
   */
  lemma WatershedRegionsKept(image: Image, outlines: LabelMap, threshold: real)
    requires SameShape(image, outlines) && NonNegative(outlines)
    requires Confined(image, outlines) && threshold <= 0.0
    ensures Segmented(image, outlines, threshold) == Relabel(outlines)
  {
    ConfinedRegionsKept(image, outlines, threshold);
  }

  /**
   * An image with no positive pixel has an empty watershed mask, so outlines
   * inside it are all background and the edge intensity is undefined.
   */
  lemma DarkImageHasNoEdge(image: Image, outlines: LabelMap, threshold: real)
    requires SameShape(image, outlines) && NonNegative(outlines) && Confined(image, outlines)
    requires forall i, j | 0 <= i < |image| && 0 <= j < |image[i]| :: image[i][j] <= 0.0
    ensures EdgeIntensity(image, Segmented(image, outlines, threshold)) == Failure(NoRegions)
  {
  }

  // ---------------------------------------------------------------------
  // File names

  /** ASCII lower-casing of one character. */
  function LowerChar(c: char): char {
    if 'A' <= c <= 'Z' then (c as int - 'A' as int + 'a' as int) as char else c
  }

  function Lower(s: string): (r: string)
    ensures |r| == |s| && forall k | 0 <= k < |s| :: r[k] == LowerChar(s[k])
  {
    seq(|s|, k requires 0 <= k < |s| => LowerChar(s[k]))
  }

  predicate EndsWith(s: string, suffix: string) {
    |suffix| <= |s| && s[|s| - |suffix|..] == suffix
  }

  /** `name.lower().endswith(('.tif', '.tiff'))`; TiffNameChars spells it out. */
  predicate IsTiffName(name: string) {
    EndsWith(Lower(name), ".tif") || EndsWith(Lower(name), ".tiff")
  }

  /** The extension test, character by character: the name ends in a dot, then t, i, f and an optional second f, in either case. */
  lemma TiffNameChars(name: string)
    ensures IsTiffName(name) <==>
      (|name| >= 4 && name[|name| - 4] == '.' && name[|name| - 3] in "tT" &&
       name[|name| - 2] in "iI" && name[|name| - 1] in "fF") ||
      (|name| >= 5 && name[|name| - 5] == '.' && name[|name| - 4] in "tT" &&
       name[|name| - 3] in "iI" && name[|name| - 2] in "fF" && name[|name| - 1] in "fF")
  {
    var n, l := |name|, Lower(name);
    if n >= 4 {
      assert EndsWith(l, ".tif") <==> l[n - 4] == '.' && l[n - 3] == 't' && l[n - 2] == 'i' && l[n - 1] == 'f' by {
        assert l[n - 4..] == [l[n - 4], l[n - 3], l[n - 2], l[n - 1]];
      }
    }
    if n >= 5 {
      assert EndsWith(l, ".tiff") <==> l[n - 5] == '.' && l[n - 4] == 't' && l[n - 3] == 'i' && l[n - 2] == 'f' && l[n - 1] == 'f' by {
        assert l[n - 5..] == [l[n - 5], l[n - 4], l[n - 3], l[n - 2], l[n - 1]];
      }
    }
  }

  /** The test ignores case: a name and its lower-cased form are accepted together. */
  lemma TiffNameIgnoresCase(name: string)
    ensures IsTiffName(Lower(name)) <==> IsTiffName(name)
  {
    assert Lower(Lower(name)) == Lower(name);
  }

  // ---------------------------------------------------------------------
  // The results table

  datatype Cell = Text(s: string) | Number(x: real) | NotANumber
  type Row = seq<Cell>

  /** One entry of the directory listing, with the watershed output for its pixels. */
  datatype ImageFile = ImageFile(name: string, image: Image, outlines: LabelMap)

  predicate WellFormed(f: ImageFile) {
    Rect(f.image) && SameShape(f.image, f.outlines)
  }

  /** The files the driver reads all have well-formed images. */
  predicate Readable(files: seq<ImageFile>) {
    forall k | 0 <= k < |files| && IsTiffName(files[k].name) :: WellFormed(files[k])
  }

  const Header: Row := [Text("Image Name"), Text("Average Edge Intensity")]

  /** The intensity cell: NumPy's mean of no pixels is written as nan. */
  function IntensityCell(e: Result<real>): (c: Cell)
    ensures c.Number? <==> e.Success?
  {
    if e.Success? then Number(e.value) else NotANumber
  }

  /** The edge intensity of a segmentation is defined exactly when the filter keeps a region. */
  lemma SegmentedEdgeDefined(f: ImageFile, threshold: real)
    requires WellFormed(f)
    ensures EdgeIntensity(f.image, Segmented(f.image, f.outlines, threshold)).Success? <==>
      |KeptRegions(f.image, f.outlines, threshold)| > 0
  {
    var s := Segmented(f.image, f.outlines, threshold);
    DenseLabelCount(s);
    if MaxLabel(s) > 0 {
      var i, j :| 0 <= i < |s| && 0 <= j < |s[i]| && s[i][j] == MaxLabel(s);
    }
  }

  /**
   * The row written for one processed file: its name, then a number exactly
   * when the filter keeps at least one region (nan otherwise).
   */
  function ResultRow(f: ImageFile, threshold: real): (r: Row)
    requires WellFormed(f)
    ensures |r| == 2 && r[0] == Text(f.name)
    ensures r[1].Number? <==> |KeptRegions(f.image, f.outlines, threshold)| > 0
  {
    SegmentedEdgeDefined(f, threshold);
    [Text(f.name), IntensityCell(EdgeIntensity(f.image, Segmented(f.image, f.outlines, threshold)))]
  }

  /** The files of the listing that the driver processes, in listing order. */
  function Accepted(files: seq<ImageFile>): (r: seq<ImageFile>)
    ensures |r| <= |files|
    ensures forall f | f in r :: f in files && IsTiffName(f.name)
    ensures forall f | f in files && IsTiffName(f.name) :: f in r
  {
    if |files| == 0 then []
    else
      var f := files[|files| - 1];
      Accepted(files[..|files| - 1]) + (if IsTiffName(f.name) then [f] else [])
  }

  /**
   * The rows after the header, for a listing: at most one per file, each a
   * name and an intensity (RowsFollowAcceptedFiles says which file each comes from).
   */
  function DataRows(files: seq<ImageFile>, threshold: real): (r: seq<Row>)
    requires Readable(files)
    ensures |r| <= |files|
    ensures forall k | 0 <= k < |r| :: |r[k]| == 2 && r[k][0].Text?
  {
    if |files| == 0 then []
    else
      var f := files[|files| - 1];
      DataRows(files[..|files| - 1], threshold) + (if IsTiffName(f.name) then [ResultRow(f, threshold)] else [])
  }

  /**
   * The driver loop: the header, then for each file of the listing either a
   * skip or a segmentation, a quantification and one row.
   */
  method ProcessDirectory(files: seq<ImageFile>, threshold: real) returns (table: seq<Row>)
    requires Readable(files)
    ensures table == [Header] + DataRows(files, threshold)
  {
    table := [Header];
    for k := 0 to |files|
      invariant table == [Header] + DataRows(files[..k], threshold)
    {
      DataRowsStep(files, k, threshold);
      var f := files[k];
      if !IsTiffName(f.name) {
        continue;
      }
      var labels := CellSegmentation(f.image, f.outlines, threshold);
      var intensity := QuantifyEdgeIntensity(f.image, labels);
      table := table + [[Text(f.name), IntensityCell(intensity)]];
    }
    assert files[..|files|] == files;
  }

  /** Going one file further down the listing adds that file's row, if it is accepted. */
  lemma DataRowsStep(files: seq<ImageFile>, k: int, threshold: real)
    requires Readable(files) && 0 <= k < |files|
    ensures Readable(files[..k]) && Readable(files[..k + 1])
    ensures DataRows(files[..k + 1], threshold) ==
      DataRows(files[..k], threshold) + (if IsTiffName(files[k].name) then [ResultRow(files[k], threshold)] else [])
  {
    assert files[..k + 1][..k] == files[..k];
  }

  /** The rows of two listings one after the other are the rows of each, in order. */
  lemma {:induction false} DataRowsConcat(a: seq<ImageFile>, b: seq<ImageFile>, threshold: real)
    requires Readable(a) && Readable(b)
    ensures Readable(a + b)
    ensures DataRows(a + b, threshold) == DataRows(a, threshold) + DataRows(b, threshold)
    decreases |b|
  {
    if |b| > 0 {
      var n := |b| - 1;
      var ab := a + b;
      assert Readable(ab) by {
        forall k | 0 <= k < |ab| && IsTiffName(ab[k].name)
          ensures WellFormed(ab[k])
        {
          if k < |a| { assert ab[k] == a[k]; } else { assert ab[k] == b[k - |a|]; }
        }
      }
      assert ab[..|ab| - 1] == a + b[..n];
      assert ab[|ab| - 1] == b[n];
      DataRowsConcat(a, b[..n], threshold);
      var last := if IsTiffName(b[n].name) then [ResultRow(b[n], threshold)] else [];
      assert DataRows(b, threshold) == DataRows(b[..n], threshold) + last;
      assert DataRows(ab, threshold) == DataRows(a + b[..n], threshold) + last;
    } else {
      assert a + b == a;
    }
  }

  lemma {:induction false} AcceptedConcat(a: seq<ImageFile>, b: seq<ImageFile>)
    ensures Accepted(a + b) == Accepted(a) + Accepted(b)
    decreases |b|
  {
    if |b| > 0 {
      var n := |b| - 1;
      assert (a + b)[..|a + b| - 1] == a + b[..n];
      assert (a + b)[|a + b| - 1] == b[n];
      AcceptedConcat(a, b[..n]);
    } else {
      assert a + b == a;
    }
  }

  /**
   * One row per accepted file, in listing order: the k-th row after the
   * header names the k-th accepted file and holds its edge intensity.
   */
  lemma {:induction false} RowsFollowAcceptedFiles(files: seq<ImageFile>, threshold: real)
    requires Readable(files)
    ensures |DataRows(files, threshold)| == |Accepted(files)|
    ensures forall k | 0 <= k < |Accepted(files)| ::
      WellFormed(Accepted(files)[k]) &&
      DataRows(files, threshold)[k] == ResultRow(Accepted(files)[k], threshold)
  {
    if |files| > 0 {
      var n := |files| - 1;
      RowsFollowAcceptedFiles(files[..n], threshold);
      var acc, rows := Accepted(files), DataRows(files, threshold);
      forall k | 0 <= k < |acc|
        ensures WellFormed(acc[k]) && rows[k] == ResultRow(acc[k], threshold)
      {
        if k < |Accepted(files[..n])| {
          assert acc[k] == Accepted(files[..n])[k];
        } else {
          assert acc[k] == files[n];
        }
      }
    }
  }
}
