/**
 * Mask construction (create_mask in isd_lib/utils.py): an all-zero uint8
 * mask of the image's height and width to which the `cv2.inRange` result
 * (0 or 255) of every box of every requested colour is added with NumPy's
 * wrapping 8-bit `+=`.
 */
module Mask {
  import opened ColorTable
  import opened ColorProfile

  /** A mask as a value: rows of 8-bit cells. */
  type Grid = seq<seq<byte>>

  /** `cv2.inRange` at one pixel. */
  function InRangeValue(p: Pixel, b: Box): byte {
    if InBox(p, b) then 255 else 0
  }

  /** A cell after `mask += inRange(box)` for each box of bs in turn, modulo 256. */
  function Accumulate(p: Pixel, bs: seq<Box>): byte {
    if bs == [] then 0
    else (Accumulate(p, bs[..|bs| - 1]) + InRangeValue(p, bs[|bs| - 1])) % 256
  }

  /** The boxes create_mask visits: those of each requested colour, in order. */
  function BoxesOf(colors: seq<Color>): seq<Box> {
    if colors == [] then []
    else BoxesOf(colors[..|colors| - 1]) + Ranges(colors[|colors| - 1])
  }

  /** The mask create_mask returns, as a value. */
  function MaskOf(img: Image, colors: seq<Color>): (m: Grid)
    ensures |m| == |img|
    ensures forall i :: 0 <= i < |img| ==> |m[i]| == |img[i]|
  {
    seq(|img|, i requires 0 <= i < |img| =>
      seq(|img[i]|, j requires 0 <= j < |img[i]| => Accumulate(img[i][j], BoxesOf(colors))))
  }

  /** The contents of a mask array, as a value. */
  function ToGrid(m: array2<byte>): (g: Grid)
    reads m
    ensures |g| == m.Length0
    ensures forall i :: 0 <= i < m.Length0 ==> |g[i]| == m.Length1
    ensures forall i, j :: 0 <= i < m.Length0 && 0 <= j < m.Length1 ==> g[i][j] == m[i, j]
  {
    seq(m.Length0, i requires 0 <= i < m.Length0 reads m =>
      seq(m.Length1, j requires 0 <= j < m.Length1 reads m => m[i, j]))
  }

  /** One `mask += cv2.inRange(img, lower, upper)`, cell by cell. */
  method AddInRange(mask: array2<byte>, img: Image, b: Box)
    requires IsImage(img) && mask.Length0 == |img| && mask.Length1 == Width(img)
    modifies mask
    ensures forall i, j :: 0 <= i < mask.Length0 && 0 <= j < mask.Length1 ==>
      mask[i, j] == (old(mask[i, j]) + InRangeValue(img[i][j], b)) % 256
  {
    for i := 0 to mask.Length0
      invariant forall r, j :: 0 <= r < i && 0 <= j < mask.Length1 ==>
        mask[r, j] == (old(mask[r, j]) + InRangeValue(img[r][j], b)) % 256
      invariant forall r, j :: i <= r < mask.Length0 && 0 <= j < mask.Length1 ==> mask[r, j] == old(mask[r, j])
    {
      for j := 0 to mask.Length1
        invariant forall r, c :: 0 <= r < i && 0 <= c < mask.Length1 ==>
          mask[r, c] == (old(mask[r, c]) + InRangeValue(img[r][c], b)) % 256
        invariant forall c :: 0 <= c < j ==> mask[i, c] == (old(mask[i, c]) + InRangeValue(img[i][c], b)) % 256
        invariant forall c :: j <= c < mask.Length1 ==> mask[i, c] == old(mask[i, c])
        invariant forall r, c :: i < r < mask.Length0 && 0 <= c < mask.Length1 ==> mask[r, c] == old(mask[r, c])
      {
        mask[i, j] := (mask[i, j] + InRangeValue(img[i][j], b)) % 256;
      }
    }
  }

  /** The inner loop of create_mask: add the boxes of one colour in turn. */
  method AddColor(mask: array2<byte>, img: Image, color: Color, ghost done: seq<Box>)
    requires IsImage(img) && mask.Length0 == |img| && mask.Length1 == Width(img)
    requires forall i, j :: 0 <= i < mask.Length0 && 0 <= j < mask.Length1 ==>
      mask[i, j] == Accumulate(img[i][j], done)
    modifies mask
    ensures forall i, j :: 0 <= i < mask.Length0 && 0 <= j < mask.Length1 ==>
      mask[i, j] == Accumulate(img[i][j], done + Ranges(color))
  {
    var colorRanges := Ranges(color);
    assert done + colorRanges[..0] == done;
    for ri := 0 to |colorRanges|
      invariant forall i, j :: 0 <= i < mask.Length0 && 0 <= j < mask.Length1 ==>
        mask[i, j] == Accumulate(img[i][j], done + colorRanges[..ri])
    {
      ghost var before := done + colorRanges[..ri];
      AddInRange(mask, img, colorRanges[ri]);
      AccumulateStep(before, colorRanges[ri]);
      assert done + colorRanges[..ri + 1] == before + [colorRanges[ri]];
    }
    assert colorRanges[..|colorRanges|] == colorRanges;
  }

  /** create_mask: allocate a zero mask, then add every box of every colour. */
  method CreateMask(img: Image, colors: seq<Color>) returns (mask: array2<byte>)
    requires IsImage(img)
    ensures fresh(mask)
    ensures mask.Length0 == |img| && mask.Length1 == Width(img)
    ensures ToGrid(mask) == MaskOf(img, colors)
  {
    mask := new byte[|img|, Width(img)]((i, j) => 0);
    for ci := 0 to |colors|
      invariant forall i, j :: 0 <= i < mask.Length0 && 0 <= j < mask.Length1 ==>
        mask[i, j] == Accumulate(img[i][j], BoxesOf(colors[..ci]))
    {
      AddColor(mask, img, colors[ci], BoxesOf(colors[..ci]));
      assert colors[..ci + 1][..ci] == colors[..ci];
    }
    assert colors[..|colors|] == colors;
    var g, m := ToGrid(mask), MaskOf(img, colors);
    forall i | 0 <= i < |img| ensures g[i] == m[i] {
      assert |g[i]| == |m[i]|;
    }
  }

  /** Adding one more box to every cell extends the accumulated sum by that box. */
  lemma AccumulateStep(bs: seq<Box>, b: Box)
    ensures forall p :: Accumulate(p, bs + [b]) == (Accumulate(p, bs) + InRangeValue(p, b)) % 256
  {
    assert (bs + [b])[..|bs|] == bs;
  }

  lemma {:induction false} HitsAppend(p: Pixel, a: seq<Box>, b: seq<Box>)
    ensures Hits(p, a + b) == Hits(p, a) + Hits(p, b)
  {
    if b != [] {
      var bInit := b[..|b| - 1];
      assert (a + b)[..|a + b| - 1] == a + bInit;
      HitsAppend(p, a, bInit);
    } else {
      assert a + b == a;
    }
  }

  /** The number of colours in a list whose boxes contain p. */
  function ColorsMatching(p: Pixel, colors: seq<Color>): (n: nat)
    ensures n <= |colors|
  {
    if colors == [] then 0
    else ColorsMatching(p, colors[..|colors| - 1]) + (if Matches(p, colors[|colors| - 1]) then 1 else 0)
  }

  /** The boxes of the requested colours that contain p are one per matching colour. */
  lemma {:induction false} HitsOfColors(p: Pixel, colors: seq<Color>)
    ensures Hits(p, BoxesOf(colors)) == ColorsMatching(p, colors)
  {
    if colors != [] {
      var init := colors[..|colors| - 1];
      HitsOfColors(p, init);
      HitsAppend(p, BoxesOf(init), Ranges(colors[|colors| - 1]));
      HitsOfColor(p, colors[|colors| - 1]);
    }
  }

  /** Among distinct colours at most one matches, because boxes of distinct colours are disjoint. */
  lemma {:induction false} DistinctColorsMatchOnce(p: Pixel, colors: seq<Color>)
    requires Distinct(colors)
    ensures ColorsMatching(p, colors) == if exists c :: c in colors && Matches(p, c) then 1 else 0
  {
    if colors != [] {
      var init := colors[..|colors| - 1];
      var last := colors[|colors| - 1];
      assert Distinct(init);
      DistinctColorsMatchOnce(p, init);
      if Matches(p, last) {
        forall c | c in init && Matches(p, c) ensures false {
          Exclusive(p, c, last);
        }
      }
      assert forall c :: c in colors <==> c in init || c == last;
    }
  }

  /** The uint8 sum is 255 times the boxes hit, wrapped modulo 256. */
  lemma {:induction false} AccumulateWraps(p: Pixel, bs: seq<Box>)
    ensures Accumulate(p, bs) == (255 * Hits(p, bs)) % 256
  {
    if bs != [] {
      AccumulateWraps(p, bs[..|bs| - 1]);
    }
  }

  /**
   * For distinct requested colours each cell is 255 when its pixel lies in a
   * box of one of them and 0 otherwise: the 8-bit sum never wraps.
   */
  lemma MaskCell(img: Image, colors: seq<Color>, i: nat, j: nat)
    requires Distinct(colors) && i < |img| && j < |img[i]|
    ensures MaskOf(img, colors)[i][j] == if exists c :: c in colors && Matches(img[i][j], c) then 255 else 0
  {
    var p := img[i][j];
    AccumulateWraps(p, BoxesOf(colors));
    HitsOfColors(p, colors);
    DistinctColorsMatchOnce(p, colors);
  }

  /** For distinct colours the mask is binary and has the image's height and width. */
  lemma MaskIsBinary(img: Image, colors: seq<Color>)
    requires IsImage(img) && Distinct(colors)
    ensures |MaskOf(img, colors)| == |img|
    ensures forall i :: 0 <= i < |img| ==> |MaskOf(img, colors)[i]| == Width(img)
    ensures forall i, j :: 0 <= i < |img| && 0 <= j < Width(img) ==>
      MaskOf(img, colors)[i][j] == 0 || MaskOf(img, colors)[i][j] == 255
  {
    forall i, j | 0 <= i < |img| && 0 <= j < Width(img)
      ensures MaskOf(img, colors)[i][j] == 0 || MaskOf(img, colors)[i][j] == 255
    {
      MaskCell(img, colors, i, j);
    }
  }

  /** Requesting the same colour twice does wrap: a red pixel's 255 + 255 becomes 254. */
  lemma RepeatedColorWraps()
    ensures Accumulate(Pixel(10, 200, 200), BoxesOf([Red, Red])) == 254
  {
    var p := Pixel(10, 200, 200);
    assert BoxesOf([Red]) == Ranges(Red) by {
      assert [Red][..0] == [];
    }
    assert [Red, Red][..1] == [Red];
    AccumulateWraps(p, BoxesOf([Red, Red]));
    HitsOfColors(p, [Red, Red]);
    assert [Red, Red][..1][..0] == [];
    assert Matches(p, Red) by {
      assert InBox(p, Ranges(Red)[0]);
    }
  }
}
