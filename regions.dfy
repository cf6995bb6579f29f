/**
 * find_regions in isd_lib/utils.py: choose the background, pick the sample's
 * feature colours, mask both images, clean the masks up, measure the
 * sample's largest blob and keep the source blobs within the size window
 * derived from it. The OpenCV stages are left uninterpreted.
 */
module Regions {
  import opened Wrappers
  import opened ColorTable
  import opened ColorProfile
  import opened Selection
  import opened Mask
  import opened Blobs

  /**
   * The OpenCV operations find_regions relies on, as functions the caller
   * supplies: erosion and dilation with the 3x3 kernel for n iterations,
   * fill_holes, thresholding plus contour tracing (with each contour's area
   * and bounding rectangle), drawing one filled contour on an all-zero mask
   * of a given mask's shape, and the redrawing of filter_blobs_by_size (kept
   * contours filled with 255, the others with 0).
   */
  datatype Vision = Vision(
    erode: (Grid, nat) -> Grid,
    dilate: (Grid, nat) -> Grid,
    fillHoles: Grid -> Grid,
    contours: Grid -> seq<Contour>,
    drawFilled: (Grid, Contour) -> Grid,
    redraw: (Grid, seq<Contour>, seq<bool>) -> Grid)

  /** The sample has no blob of positive area: the source draws a `None` contour and fails. */
  datatype RegionError = NoTargetBlob

  /** What find_regions returns: the filtered mask and the kept rectangles. */
  datatype Regions = Regions(mask: Grid, rectangles: seq<Rect>)

  /** Python's `int()` of a float: truncation toward zero. */
  function Trunc(x: real): (r: int)
    ensures 0.0 <= x ==> r as real <= x < r as real + 1.0
    ensures x < 0.0 ==> r as real - 1.0 < x <= r as real
  {
    if x >= 0.0 then x.Floor else -((-x).Floor)
  }

  /** `np.sum` of a mask. */
  function SumCells(g: Grid): nat {
    if g == [] then 0 else SumRow(g[0]) + SumCells(g[1..])
  }

  function SumRow(row: seq<byte>): nat {
    if row == [] then 0 else row[0] + SumRow(row[1..])
  }

  /** The background colours: the caller's, or else the source's dominant colour alone. */
  function Background(src: Image, bgColors: Option<seq<Color>>): seq<Color> {
    match bgColors
    case None => [DominantColor(ProfileOf(GetHsv(src)))]
    case Some(bg) => bg
  }

  /** The feature colours of the sample, given the background. */
  function Features(src: Image, target: Image, bgColors: Option<seq<Color>>): seq<Color> {
    CommonColors(ProfileOf(GetHsv(target)), Background(src, bgColors))
  }

  /** Erosion, then dilation, then hole filling. */
  function Cleaned(vision: Vision, m: Grid, preErode: nat, dilate: nat): Grid {
    vision.fillHoles(vision.dilate(vision.erode(m, preErode), dilate))
  }

  /** `min_pixels` and `max_pixels` from the sample's feature area and the two ratios. */
  function SizeWindow(featureArea: real, minArea: real, maxArea: real): (int, int) {
    (Trunc(featureArea * minArea), Trunc(featureArea * maxArea))
  }

  /**
   * The area of the sample's largest blob, `np.sum(target_mask) / 255` once
   * that blob alone is drawn; None when the sample mask has no blob of
   * positive area.
   */
  function FeatureArea(vision: Vision, targetMask: Grid): Option<real> {
    var targetContours := vision.contours(targetMask);
    match LargestBlob(targetContours)
    case None => None
    case Some(k) => Some(SumCells(vision.drawFilled(targetMask, targetContours[k])) as real / 255.0)
  }

  /** The size filter on the cleaned source mask, for a given window. */
  function FilterBySize(vision: Vision, mask: Grid, window: (int, int)): Regions {
    var contours := vision.contours(mask);
    Regions(vision.redraw(mask, contours, KeepFlags(contours, window.0, window.1)),
            KeptRects(contours, window.0, window.1))
  }

  /** The second half of find_regions, from the two cleaned masks on. */
  function MeasureAndFilter(vision: Vision, mask: Grid, targetMask: Grid, minArea: real, maxArea: real): Result<Regions, RegionError> {
    match FeatureArea(vision, targetMask)
    case None => Failure(NoTargetBlob)
    case Some(area) => Success(FilterBySize(vision, mask, SizeWindow(area, minArea, maxArea)))
  }

  /** The whole of find_regions as a value. */
  function Detect(vision: Vision, src: Image, target: Image, bgColors: Option<seq<Color>>,
                  preErode: nat, dilate: nat, minArea: real, maxArea: real): Result<Regions, RegionError>
  {
    var features := Features(src, target, bgColors);
    MeasureAndFilter(vision, Cleaned(vision, MaskOf(src, features), preErode, dilate),
                     Cleaned(vision, MaskOf(target, features), preErode, dilate), minArea, maxArea)
  }

  /** The colour half of find_regions: background, sample profile, feature colours. */
  method FindFeatureColors(src: Image, target: Image, bgColors: Option<seq<Color>>) returns (features: seq<Color>)
    ensures features == Features(src, target, bgColors)
  {
    var bg: seq<Color>;
    if bgColors.None? {
      var dominant := FindDominantColor(src);
      bg := [dominant];
    } else {
      bg := bgColors.value;
    }
    var targetProfile := GetColorProfile(target);
    features := GetCommonColors(targetProfile, bg);
  }

  /** Masking, erosion, dilation and hole filling of one image. */
  method CleanedMask(vision: Vision, img: Image, features: seq<Color>, preErode: nat, dilate: nat)
    returns (mask: Grid)
    requires IsImage(img)
    ensures mask == Cleaned(vision, MaskOf(img, features), preErode, dilate)
  {
    var maskArray := CreateMask(img, features);
    mask := ToGrid(maskArray);
    mask := vision.erode(mask, preErode);
    mask := vision.dilate(mask, dilate);
    mask := vision.fillHoles(mask);
  }

  /** The steps of find_regions after both masks are cleaned up. */
  method MeasureAndFilterMasks(vision: Vision, mask: Grid, targetMask: Grid, minArea: real, maxArea: real)
    returns (r: Result<Regions, RegionError>)
    ensures r == MeasureAndFilter(vision, mask, targetMask, minArea, maxArea)
  {
    var targetContours := vision.contours(targetMask);
    var largest := FilterLargestBlob(targetContours);
    if largest.None? {
      return Failure(NoTargetBlob);
    }
    var featureArea := SumCells(vision.drawFilled(targetMask, targetContours[largest.value])) as real / 255.0;
    assert FeatureArea(vision, targetMask) == Some(featureArea);
    var window := SizeWindow(featureArea, minArea, maxArea);
    var contours := vision.contours(mask);
    var keep, rectangles := FilterBlobsBySize(contours, window.0, window.1);
    r := Success(Regions(vision.redraw(mask, contours, keep), rectangles));
  }

  /** find_regions, step by step. */
  method FindRegions(vision: Vision, src: Image, target: Image, bgColors: Option<seq<Color>>,
                     preErode: nat, dilate: nat, minArea: real, maxArea: real)
    returns (r: Result<Regions, RegionError>)
    requires IsImage(src) && IsImage(target)
    ensures r == Detect(vision, src, target, bgColors, preErode, dilate, minArea, maxArea)
  {
    var features := FindFeatureColors(src, target, bgColors);
    var mask := CleanedMask(vision, src, features, preErode, dilate);
    var targetMask := CleanedMask(vision, target, features, preErode, dilate);
    r := MeasureAndFilterMasks(vision, mask, targetMask, minArea, maxArea);
  }

  /** Without explicit background colours the source's dominant colour is the only one. */
  lemma DefaultBackgroundIsDominant(src: Image)
    ensures |Background(src, None)| == 1
    ensures var p := ProfileOf(GetHsv(src));
      && (forall d :: p[d] <= p[Background(src, None)[0]])
      && (forall d :: Index(d) < Index(Background(src, None)[0]) ==> p[d] < p[Background(src, None)[0]])
  {
  }

  /** The feature colours never include a background colour and never repeat. */
  lemma FeaturesAvoidBackground(src: Image, target: Image, bgColors: Option<seq<Color>>)
    ensures forall c :: c in Features(src, target, bgColors) ==> c !in Background(src, bgColors)
    ensures Distinct(Features(src, target, bgColors))
  {
    CommonColorsDistinct(ProfileOf(GetHsv(target)), Background(src, bgColors));
  }

  /**
   * Before clean-up, both masks are binary and select exactly the pixels of
   * a feature colour, because the feature colours are distinct.
   */
  lemma FeatureMasksSelectFeaturePixels(src: Image, target: Image, bgColors: Option<seq<Color>>, img: Image, i: nat, j: nat)
    requires img == src || img == target
    requires i < |img| && j < |img[i]|
    ensures var features := Features(src, target, bgColors);
      MaskOf(img, features)[i][j] == if exists c :: c in features && Matches(img[i][j], c) then 255 else 0
  {
    FeaturesAvoidBackground(src, target, bgColors);
    MaskCell(img, Features(src, target, bgColors), i, j);
  }

  /** The run fails exactly when no contour of the cleaned sample mask has positive area. */
  lemma DetectFailsWithoutTargetBlob(vision: Vision, src: Image, target: Image, bgColors: Option<seq<Color>>,
                                     preErode: nat, dilate: nat, minArea: real, maxArea: real)
    ensures var targetContours := vision.contours(Cleaned(vision, MaskOf(target, Features(src, target, bgColors)), preErode, dilate));
      var failed := Detect(vision, src, target, bgColors, preErode, dilate, minArea, maxArea).Failure?;
      failed <==> forall k :: 0 <= k < |targetContours| ==> targetContours[k].area <= 0.0
  {
  }

  /**
   * On success the window is the feature area times the two ratios, every
   * rectangle belongs to a contour of the cleaned source mask whose area lies
   * in that window, and every such contour contributes its rectangle.
   */
  lemma DetectKeepsWindowedBlobs(vision: Vision, src: Image, target: Image, bgColors: Option<seq<Color>>,
                                 preErode: nat, dilate: nat, minArea: real, maxArea: real)
    requires Detect(vision, src, target, bgColors, preErode, dilate, minArea, maxArea).Success?
    ensures var features := Features(src, target, bgColors);
      var area := FeatureArea(vision, Cleaned(vision, MaskOf(target, features), preErode, dilate));
      var contours := vision.contours(Cleaned(vision, MaskOf(src, features), preErode, dilate));
      var rects := Detect(vision, src, target, bgColors, preErode, dilate, minArea, maxArea).value.rectangles;
      && area.Some? && area.value >= 0.0
      && var (minPixels, maxPixels) := SizeWindow(area.value, minArea, maxArea);
      && |rects| <= |contours|
      && (forall x :: x in rects ==> exists k :: 0 <= k < |contours| && InWindow(contours[k], minPixels, maxPixels) && contours[k].rect == x)
      && (forall k :: 0 <= k < |contours| && InWindow(contours[k], minPixels, maxPixels) ==> contours[k].rect in rects)
  {
    var features := Features(src, target, bgColors);
    var area := FeatureArea(vision, Cleaned(vision, MaskOf(target, features), preErode, dilate));
    var window := SizeWindow(area.value, minArea, maxArea);
    KeptRectsExactly(vision.contours(Cleaned(vision, MaskOf(src, features), preErode, dilate)), window.0, window.1);
  }

  /** Truncation toward zero never reverses an order. */
  lemma TruncMonotone(x: real, y: real)
    requires x <= y
    ensures Trunc(x) <= Trunc(y)
  {
  }

  lemma NonNegativeProduct(a: real, b: real)
    requires 0.0 <= a && 0.0 <= b
    ensures 0.0 <= a * b
  {
  }

  /** A non-negative feature area and ordered ratios give an ordered window. */
  lemma SizeWindowOrdered(featureArea: real, minArea: real, maxArea: real)
    requires 0.0 <= featureArea && minArea <= maxArea
    ensures SizeWindow(featureArea, minArea, maxArea).0 <= SizeWindow(featureArea, minArea, maxArea).1
  {
    NonNegativeProduct(featureArea, maxArea - minArea);
    assert featureArea * maxArea - featureArea * minArea == featureArea * (maxArea - minArea);
    TruncMonotone(featureArea * minArea, featureArea * maxArea);
  }

  /** The default ratios 0.5 and 2.0 on a feature area of 100 pixels keep blobs of 50 to 200 pixels. */
  lemma DefaultWindowOnHundredPixels()
    ensures SizeWindow(100.0, 0.5, 2.0) == (50, 200)
  {
  }

  /**
   * A sample made only of background pixels has no feature colours, so both
   * of its masks start all zero.
   */
  lemma AllBackgroundSampleMasksEmpty(src: Image, target: Image, bg: seq<Color>)
    requires IsImage(target) && Distinct(bg)
    requires forall i, j :: 0 <= i < |target| && 0 <= j < |target[i]| ==> InDomain(target[i][j]) && Classify(target[i][j]) in bg
    ensures Features(src, target, Some(bg)) == []
    ensures forall i, j :: 0 <= i < |target| && 0 <= j < |target[i]| ==> MaskOf(target, [])[i][j] == 0
  {
    var ch := GetHsv(target);
    forall k | 0 <= k < ch.Len() ensures ch.hue[k] <= 180 && Classify(ch.At(k)) in bg {
      PixelOfFlatPosition(target, k);
    }
    AllBackgroundSample(ch, bg);
  }

  /** Every flat position of get_hsv holds some pixel of the image. */
  lemma PixelOfFlatPosition(img: Image, k: nat)
    requires k < GetHsv(img).Len()
    ensures exists i, j :: 0 <= i < |img| && 0 <= j < |img[i]| && GetHsv(img).At(k) == img[i][j]
  {
    FlatPositionInRow(img, k);
  }

  lemma {:induction false} FlatPositionInRow(img: Image, k: nat)
    requires k < |Flatten(img)|
    ensures exists i, j :: 0 <= i < |img| && 0 <= j < |img[i]| && Flatten(img)[k] == img[i][j]
  {
    assert Flatten(img) == img[0] + Flatten(img[1..]);
    if k < |img[0]| {
      assert Flatten(img)[k] == img[0][k];
    } else {
      FlatPositionInRow(img[1..], k - |img[0]|);
      var i, j :| 0 <= i < |img[1..]| && 0 <= j < |img[1..][i]| && Flatten(img[1..])[k - |img[0]|] == img[1..][i][j];
      assert Flatten(img)[k] == img[i + 1][j];
    }
  }
}
