# Image sub-region detector: colour classification and selection

A Dafny model of the colour logic in `isd_lib/utils.py`. The detector looks
for regions of a source HSV image that resemble a small sample (target)
image. It works in these steps:

- It profiles colours with a fixed table of nine named HSV colours.
- It picks a background colour (by default, the dominant colour of the source).
- It picks the sample's feature colours: the non-background colours above 10% of the non-background pixels.
- It masks both images with those colours and cleans the masks up.
- It measures the sample's largest blob.
- It keeps the source blobs whose area lies in a window around that size.

The modules follow the source's functions:

| module | models |
|---|---|
| `Wrappers` | `Option` and `Result` |
| `ColorTable` | `HSV_RANGES` and the fact that it partitions the HSV domain |
| `ColorProfile` | `get_hsv` and `get_color_profile` |
| `Selection` | `find_dominant_color` and `get_common_colors` |
| `Mask` | `create_mask`, built in place in an `array2<byte>` with wrapping 8-bit `+=` |
| `Blobs` | the selection loops of `filter_blobs_by_size` and `filter_largest_blob` over contours given as `(area, rect)` records |
| `Regions` | `find_regions`, with the OpenCV stages passed in as a `Vision` record of functions |

The source's loops are methods. Each method is proved equal to a
specification function (`ProfileOf`, `CommonColors`, `MaskOf`, `KeptRects`,
`LargestBlob`, `Detect`). The lemmas then state what the source promises about
those functions.

Notes on how the code behaves:

- **No feature colours is an error.** A sample without feature colours
  would be expected to give an empty result. The code does something else:
  - With no feature colours, both masks are all zero.
  - `filter_largest_blob` then finds no contour of positive area.
  - It passes `None` to `cv2.drawContours`, which fails.

  The model follows the code and returns `Failure(NoTargetBlob)`. More
  generally, it fails whenever the cleaned sample mask has no contour of
  positive area.
- **Background colours listed twice are subtracted twice** from the
  non-background total, as `get_common_colors` does. The lemmas that need a
  non-negative total require distinct background colours.
- **A colour requested twice wraps.** If `create_mask` is given the same
  colour twice, the `uint8` sum wraps: 255 + 255 becomes 254
  (`Mask.RepeatedColorWraps`). For distinct colours the mask is binary.

## Model

| member | source | states |
|---|---|---|
| ColorTable.Classify | isd_lib/utils.py:14-83 | a separate threshold rule (v ≤ 63 black; s ≤ 38 gray or white split at v = 229; otherwise six hue bands with red wrapping at 0/180) gives, for every pixel with h ≤ 180, the colour whose boxes contain it, and no other colour's boxes contain it |
| ColorTable.Exclusive | isd_lib/utils.py:14-83 | no pixel lies in boxes of two different colours |
| ColorTable.Partition | isd_lib/utils.py:14-83 | every pixel of the OpenCV HSV domain lies in the boxes of exactly one colour |
| ColorTable.ThresholdsOfTable | isd_lib/utils.py:14-83 | a domain pixel has a hue colour iff s ≥ 39 and v ≥ 64; black iff v ≤ 63; gray iff s ≤ 38 and 64 ≤ v ≤ 228; white iff s ≤ 38 and v ≥ 229 |
| ColorTable.HitsOfColor | isd_lib/utils.py:16-25 | the boxes of one colour hit a pixel at most once, so red's two boxes never count a pixel twice |
| ColorProfile.GetHsvRowMajor | isd_lib/utils.py:225-233 | the flattened planes have height × width entries, and the pixel at (i, j) sits at position i × width + j |
| ColorProfile.GetColorProfile | isd_lib/utils.py:197-222 | the nested loop builds a dictionary with an entry for every colour, equal to the profile function of the flattened planes |
| ColorProfile.ProfileCountsMatchingPixels | isd_lib/utils.py:201-220 | each colour's entry is the number of pixels inside any of its boxes, and is at most the pixel count |
| ColorProfile.ProfileSumsToPixelCount | isd_lib/utils.py:197-222 | for pixels in the HSV domain the nine entries add up to the number of pixels |
| Selection.DominantColor | isd_lib/utils.py:179 | the chosen colour's count is at least every colour's count, and every colour earlier in the table has a strictly smaller count: the first maximum wins ties |
| Selection.FindDominantColor | isd_lib/utils.py:165-181 | the method returns the dominant colour of the image's profile, whose count is maximal |
| Selection.GetCommonColors | isd_lib/utils.py:236-252 | the decrement loop and the append loop compute exactly the common-colour list of the profile and background list |
| Selection.CommonColorsExactly | isd_lib/utils.py:240-252 | a colour is returned iff it is not background and 10 × its count exceeds all counts minus the background counts; no background colour is returned; the result is in table order |
| Selection.CommonColorsDistinct | isd_lib/utils.py:245-250 | no colour is returned twice |
| Selection.NonBackgroundTotalNonNegative | isd_lib/utils.py:240-242 | with distinct background colours the non-background total is never negative |
| Selection.NoneOutsideBackground | isd_lib/utils.py:240-250 | if every non-background count is 0, the total is 0 and no colour is returned |
| Selection.AllBackgroundSample | isd_lib/utils.py:240-250 | if every pixel of the sample is of a background colour, no feature colour is returned |
| Mask.AddInRange | isd_lib/utils.py:263-267 | one `mask += inRange(box)` adds 255 modulo 256 to exactly the cells whose pixel lies in the box and leaves the others unchanged |
| Mask.AddColor | isd_lib/utils.py:262-267 | after the boxes of one colour, every cell holds the wrapped sum over all boxes visited so far |
| Mask.CreateMask | isd_lib/utils.py:255-269 | a fresh mask of the image's height and width whose contents equal the wrapped sum of `inRange` over every box of every requested colour |
| Mask.AccumulateWraps | isd_lib/utils.py:263 | a cell is 255 times the number of boxes containing its pixel, modulo 256 |
| Mask.MaskCell | isd_lib/utils.py:259-267 | for distinct colours a cell is 255 iff its pixel lies in a box of a requested colour, otherwise 0 |
| Mask.MaskIsBinary | isd_lib/utils.py:259-267 | for distinct colours the mask has the image's shape and every cell is 0 or 255 |
| Mask.RepeatedColorWraps | isd_lib/utils.py:261-267 | a red pixel masked with red requested twice gets 254, not 255 |
| Blobs.FilterBlobsBySize | isd_lib/utils.py:327-337 | the loop marks each contour as kept iff its area lies in the window and collects the rectangles of the kept contours in contour order |
| Blobs.KeptRectsExactly | isd_lib/utils.py:329-335 | every contour inside the window contributes its rectangle, and every rectangle comes from a contour inside the window |
| Blobs.WindowIsInclusive | isd_lib/utils.py:331 | areas of exactly min_pixels and exactly max_pixels are kept; one pixel outside either end is dropped |
| Blobs.LargestAmong | isd_lib/utils.py:299-309 | the selection is None iff no contour has positive area; otherwise it has positive area, is a maximum, and beats every earlier contour strictly, so it is the first maximum |
| Blobs.FilterLargestBlob | isd_lib/utils.py:288-313 | the running maximum starting at 0 ends on the first contour of greatest positive area, or on None when there is none |
| Regions.Trunc | isd_lib/utils.py:157-158 | Python's `int()`: a result within one of its argument, on the side of zero |
| Regions.TruncMonotone | isd_lib/utils.py:157-158 | truncation keeps order |
| Regions.SizeWindowOrdered | isd_lib/utils.py:157-158 | a non-negative feature area and min_area ≤ max_area give min_pixels ≤ max_pixels |
| Regions.DefaultWindowOnHundredPixels | isd_lib/utils.py:157-158 | with the default ratios 0.5 and 2.0, a feature area of 100 gives the window 50 to 200 |
| Regions.FindFeatureColors | isd_lib/utils.py:120-129 | the feature colours are the sample's common colours against the given background, or against the source's dominant colour when none is given |
| Regions.CleanedMask | isd_lib/utils.py:131-148 | a mask is created, then eroded, dilated and hole-filled |
| Regions.MeasureAndFilterMasks | isd_lib/utils.py:150-162 | the steps after clean-up: fail when the sample has no positive blob, otherwise filter the source mask with the window derived from the blob's area |
| Regions.FindRegions | isd_lib/utils.py:86-162 | the whole method computes the result of the specification function for the detector |
| Regions.DefaultBackgroundIsDominant | isd_lib/utils.py:122-123 | without background colours, the background is the source's dominant colour alone |
| Regions.FeaturesAvoidBackground | isd_lib/utils.py:126-129 | the feature colours include no background colour and do not repeat |
| Regions.FeatureMasksSelectFeaturePixels | isd_lib/utils.py:131-133 | before clean-up, both masks are 255 exactly at the pixels of a feature colour and 0 elsewhere |
| Regions.AllBackgroundSampleMasksEmpty | isd_lib/utils.py:126-133 | a sample of background pixels only has no feature colours, so its mask is all zero |
| Regions.DetectFailsWithoutTargetBlob | isd_lib/utils.py:150-151 | the detector fails iff no contour of the cleaned sample mask has positive area |
| Regions.DetectKeepsWindowedBlobs | isd_lib/utils.py:150-162 | on success: the feature area is non-negative; the window is the area times the two ratios, truncated; there are never more rectangles than source contours; every rectangle comes from a source contour inside the window; every such contour contributes its rectangle |

## Left out

- `cv2.cvtColor`, `cv2.erode`, `cv2.dilate`, `fill_holes`, `cv2.threshold`, `cv2.findContours`, `cv2.drawContours`, `cv2.contourArea` and `cv2.boundingRect` are foreign raster operations. Their results come from the caller-supplied `Vision` record, with no properties assumed. This also covers the mask redrawing in the two filter functions.
- `image_subregion_detector.py` is not part of this model. It is the tkinter interface: widgets, mouse and preview handling, the file dialog, image loading, export to disk, percentage and statistics display. This includes its call site that treats the `(mask, rectangles)` pair as a list of contours.
- Floating point: the prevalence 0.1 is an exact tenth (`10 * count > total`). `np.sum(mask) / 255` and `feature_area * min_area` are computed in `real`, so rounding of 64-bit floats is not modelled.
- The `prevalence` parameter of `get_common_colors` is fixed at its default 0.1, the only value `find_regions` uses.
- Pixels with a hue above 180 are outside OpenCV's HSV range. The model allows them but proves only that no box matches them (`ColorTable.OutsideDomainUnmatched`), so the partition and sum properties require h ≤ 180.
- ColorProfile.GetHsv: images are sequences of equal-length rows rather than NumPy arrays, so strides and dtypes are not modelled.
- The `mask` array returned by `filter_largest_blob` and the stretch of `find_regions` that follows are modelled as values (`Grid`); only `create_mask` works in place.
