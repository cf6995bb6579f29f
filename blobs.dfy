/**
 * The selection half of filter_blobs_by_size and filter_largest_blob in
 * isd_lib/utils.py. Contour tracing, area and bounding rectangle are done by
 * OpenCV; here a contour is the pair of numbers the selection reads.
 */
module Blobs {
  import opened Wrappers

  /** `cv2.boundingRect`: x, y, width, height. */
  datatype Rect = Rect(x: int, y: int, w: int, h: int)

  /** A traced contour as the filters see it: `cv2.contourArea` and `cv2.boundingRect`. */
  datatype Contour = Contour(area: real, rect: Rect)

  /** The inclusive size window of filter_blobs_by_size. */
  predicate InWindow(c: Contour, minPixels: int, maxPixels: int) {
    minPixels as real <= c.area <= maxPixels as real
  }

  /** The rectangles of the contours inside the window, in contour order. */
  function KeptRects(cs: seq<Contour>, minPixels: int, maxPixels: int): (r: seq<Rect>)
    ensures |r| <= |cs|
  {
    if cs == [] then []
    else
      var c := cs[|cs| - 1];
      KeptRects(cs[..|cs| - 1], minPixels, maxPixels) + (if InWindow(c, minPixels, maxPixels) then [c.rect] else [])
  }

  /** For each contour, whether it is redrawn filled (kept) or erased. */
  function KeepFlags(cs: seq<Contour>, minPixels: int, maxPixels: int): (keep: seq<bool>)
    ensures |keep| == |cs|
    ensures forall k :: 0 <= k < |cs| ==> (keep[k] <==> InWindow(cs[k], minPixels, maxPixels))
  {
    seq(|cs|, k requires 0 <= k < |cs| => InWindow(cs[k], minPixels, maxPixels))
  }

  /** filter_blobs_by_size, without the redrawing: keep or erase each contour, collect rectangles. */
  method FilterBlobsBySize(contours: seq<Contour>, minPixels: int, maxPixels: int)
    returns (keep: seq<bool>, rectangles: seq<Rect>)
    ensures keep == KeepFlags(contours, minPixels, maxPixels)
    ensures rectangles == KeptRects(contours, minPixels, maxPixels)
  {
    keep, rectangles := [], [];
    for k := 0 to |contours|
      invariant |keep| == k
      invariant forall i :: 0 <= i < k ==> (keep[i] <==> InWindow(contours[i], minPixels, maxPixels))
      invariant rectangles == KeptRects(contours[..k], minPixels, maxPixels)
    {
      var c := contours[k];
      assert contours[..k + 1][..k] == contours[..k];
      if minPixels as real <= c.area <= maxPixels as real {
        keep := keep + [true];
        rectangles := rectangles + [c.rect];
      } else {
        keep := keep + [false];
      }
    }
    assert contours[..|contours|] == contours;
  }

  /**
   * Kept rectangles both ways: every contour inside the window contributes
   * its rectangle, and every rectangle comes from a contour inside it.
   */
  lemma {:induction false} KeptRectsExactly(cs: seq<Contour>, minPixels: int, maxPixels: int)
    ensures forall k :: 0 <= k < |cs| && InWindow(cs[k], minPixels, maxPixels) ==> cs[k].rect in KeptRects(cs, minPixels, maxPixels)
    ensures forall x :: x in KeptRects(cs, minPixels, maxPixels) ==>
      exists k :: 0 <= k < |cs| && InWindow(cs[k], minPixels, maxPixels) && cs[k].rect == x
  {
    if cs != [] {
      var init := cs[..|cs| - 1];
      KeptRectsExactly(init, minPixels, maxPixels);
      forall x | x in KeptRects(cs, minPixels, maxPixels)
        ensures exists k :: 0 <= k < |cs| && InWindow(cs[k], minPixels, maxPixels) && cs[k].rect == x
      {
        if x in KeptRects(init, minPixels, maxPixels) {
          var k :| 0 <= k < |init| && InWindow(init[k], minPixels, maxPixels) && init[k].rect == x;
          assert cs[k] == init[k];
        } else {
          assert cs[|cs| - 1].rect == x;
        }
      }
    }
  }

  /** Both ends of the window are inclusive: a blob of exactly minPixels or maxPixels stays, one pixel beyond goes. */
  lemma WindowIsInclusive(r: Rect, minPixels: int, maxPixels: int)
    requires minPixels <= maxPixels
    ensures KeptRects([Contour(minPixels as real, r)], minPixels, maxPixels) == [r]
    ensures KeptRects([Contour(maxPixels as real, r)], minPixels, maxPixels) == [r]
    ensures KeptRects([Contour((minPixels - 1) as real, r)], minPixels, maxPixels) == []
    ensures KeptRects([Contour((maxPixels + 1) as real, r)], minPixels, maxPixels) == []
  {
    var one := [Contour(minPixels as real, r)];
    assert one[..0] == [];
    assert [Contour(maxPixels as real, r)][..0] == [];
    assert [Contour((minPixels - 1) as real, r)][..0] == [];
    assert [Contour((maxPixels + 1) as real, r)][..0] == [];
  }

  /**
   * The loop of filter_largest_blob over the first n contours: the index of
   * the first contour whose area beats every earlier one and the initial 0.
   */
  function LargestAmong(cs: seq<Contour>, n: nat): (sel: Option<nat>)
    requires n <= |cs|
    ensures sel.None? <==> forall k :: 0 <= k < n ==> cs[k].area <= 0.0
    ensures sel.Some? ==> sel.value < n && cs[sel.value].area > 0.0
    ensures sel.Some? ==> forall k :: 0 <= k < n ==> cs[k].area <= cs[sel.value].area
    ensures sel.Some? ==> forall k :: 0 <= k < sel.value ==> cs[k].area < cs[sel.value].area
  {
    if n == 0 then None
    else
      var prev := LargestAmong(cs, n - 1);
      var best := if prev.None? then 0.0 else cs[prev.value].area;
      if cs[n - 1].area > best then Some(n - 1) else prev
  }

  /** The contour filter_largest_blob draws, or None when no contour has positive area. */
  function LargestBlob(cs: seq<Contour>): Option<nat> {
    LargestAmong(cs, |cs|)
  }

  /** filter_largest_blob, without the drawing: a running maximum starting at 0. */
  method FilterLargestBlob(contours: seq<Contour>) returns (largest: Option<nat>)
    ensures largest == LargestBlob(contours)
    ensures largest.None? <==> forall k :: 0 <= k < |contours| ==> contours[k].area <= 0.0
  {
    var maxSize := 0.0;
    largest := None;
    for k := 0 to |contours|
      invariant largest == LargestAmong(contours, k)
      invariant maxSize == if largest.None? then 0.0 else contours[largest.value].area
    {
      var area := contours[k].area;
      if area > maxSize {
        maxSize := area;
        largest := Some(k);
      }
    }
  }
}
