/**
 * Colour profiling (get_hsv and get_color_profile in isd_lib/utils.py):
 * the image is flattened into its three channel planes and, for every colour
 * of the table, the pixels inside each of its boxes are counted and summed.
 */
module ColorProfile {
  import opened ColorTable

  /** An HSV image as rows of pixels (a height x width x 3 array). */
  type Image = seq<seq<Pixel>>

  function Width(img: Image): nat {
    if |img| == 0 then 0 else |img[0]|
  }

  /** Every row has the same width, as in a NumPy array. */
  predicate IsImage(img: Image) {
    forall i :: 0 <= i < |img| ==> |img[i]| == Width(img)
  }

  /** The pixels of an image in row-major (C) order. */
  function Flatten(img: Image): seq<Pixel> {
    if img == [] then [] else img[0] + Flatten(img[1..])
  }

  /** The three flattened planes of an image. */
  datatype Channels = Channels(hue: seq<byte>, sat: seq<byte>, val: seq<byte>) {
    predicate Aligned() {
      |hue| == |sat| == |val|
    }

    function Len(): nat {
      |hue|
    }

    /** The pixel at position k of the planes. */
    function At(k: nat): Pixel
      requires Aligned() && k < Len()
    {
      Pixel(hue[k], sat[k], val[k])
    }
  }

  /** get_hsv: the hue, saturation and value planes, each flattened. */
  function GetHsv(img: Image): (ch: Channels)
    ensures ch.Aligned() && ch.Len() == |Flatten(img)|
    ensures forall k :: 0 <= k < ch.Len() ==> ch.At(k) == Flatten(img)[k]
  {
    var f := Flatten(img);
    Channels(seq(|f|, k requires 0 <= k < |f| => f[k].h),
             seq(|f|, k requires 0 <= k < |f| => f[k].s),
             seq(|f|, k requires 0 <= k < |f| => f[k].v))
  }

  /** Flattening keeps every pixel, at position row * width + column. */
  lemma {:induction false} FlattenAt(img: Image, w: nat, i: nat, j: nat)
    requires forall r :: 0 <= r < |img| ==> |img[r]| == w
    requires i < |img| && j < w
    ensures i * w + j < |Flatten(img)|
    ensures Flatten(img)[i * w + j] == img[i][j]
  {
    var rest := img[1..];
    FlattenLength(rest, w);
    assert Flatten(img) == img[0] + Flatten(rest);
    if i > 0 {
      FlattenAt(rest, w, i - 1, j);
      var k := (i - 1) * w + j;
      assert i * w + j == w + k;
      assert Flatten(img)[w + k] == Flatten(rest)[k];
    }
  }

  lemma {:induction false} FlattenLength(img: Image, w: nat)
    requires forall r :: 0 <= r < |img| ==> |img[r]| == w
    ensures |Flatten(img)| == |img| * w
  {
    if img != [] {
      FlattenLength(img[1..], w);
      assert |img| * w == w + (|img| - 1) * w;
    }
  }

  /** get_hsv keeps the pixel at (i, j) at flat position i * width + j. */
  lemma GetHsvRowMajor(img: Image, i: nat, j: nat)
    requires IsImage(img) && i < |img| && j < Width(img)
    ensures GetHsv(img).Len() == |img| * Width(img)
    ensures i * Width(img) + j < GetHsv(img).Len()
    ensures GetHsv(img).At(i * Width(img) + j) == img[i][j]
  {
    var w := Width(img);
    FlattenLength(img, w);
    FlattenAt(img, w, i, j);
    var k := i * w + j;
    var ch := GetHsv(img);
    assert ch.Len() == |Flatten(img)|;
    assert ch.At(k) == Flatten(img)[k];
  }

  /**
   * The pixels among the first n of the planes that lie in box b: the sum of
   * the conjunction of the six channel comparisons.
   */
  function CountInBox(ch: Channels, b: Box, n: nat): (r: nat)
    requires ch.Aligned() && n <= ch.Len()
    ensures r <= n
  {
    if n == 0 then 0
    else CountInBox(ch, b, n - 1) + (if InBox(ch.At(n - 1), b) then 1 else 0)
  }

  /** The counts of the boxes bs over the first n pixels, added up. */
  function BoxesCount(ch: Channels, bs: seq<Box>, n: nat): nat
    requires ch.Aligned() && n <= ch.Len()
  {
    if bs == [] then 0
    else BoxesCount(ch, bs[..|bs| - 1], n) + CountInBox(ch, bs[|bs| - 1], n)
  }

  /** The profile entry of one colour: its boxes' counts over all pixels. */
  function ColorCount(ch: Channels, c: Color): nat
    requires ch.Aligned()
  {
    BoxesCount(ch, Ranges(c), ch.Len())
  }

  /** A colour profile, as the dictionary get_color_profile returns. */
  type Profile = map<Color, nat>

  /** Every colour of the table has an entry. */
  predicate Complete(p: Profile) {
    forall c: Color :: c in p
  }

  function ProfileOf(ch: Channels): (p: Profile)
    requires ch.Aligned()
    ensures Complete(p)
  {
    var p := map c | c in AllColors :: ColorCount(ch, c);
    forall c: Color ensures c in p {
      assert AllColors[Index(c)] == c;
    }
    p
  }

  /** get_color_profile: a loop over the table filling one entry per colour. */
  method GetColorProfile(img: Image) returns (profile: Profile)
    ensures Complete(profile)
    ensures profile == ProfileOf(GetHsv(img))
  {
    var ch := GetHsv(img);
    profile := map[];
    for ci := 0 to |AllColors|
      invariant profile == map c | c in AllColors[..ci] :: ColorCount(ch, c)
    {
      var color := AllColors[ci];
      var colorRanges := Ranges(color);
      profile := profile[color := 0];
      for ri := 0 to |colorRanges|
        invariant profile == (map c | c in AllColors[..ci] :: ColorCount(ch, c))[color := BoxesCount(ch, colorRanges[..ri], ch.Len())]
      {
        assert colorRanges[..ri + 1][..ri] == colorRanges[..ri];
        profile := profile[color := profile[color] + CountInBox(ch, colorRanges[ri], ch.Len())];
      }
      assert colorRanges[..|colorRanges|] == colorRanges;
      assert AllColors[..ci + 1] == AllColors[..ci] + [color];
    }
    assert AllColors[..|AllColors|] == AllColors;
    forall c: Color ensures c in profile {
      assert AllColors[Index(c)] == c;
    }
  }

  /** The pixels among the first n that match colour c (each counted once). */
  function MatchCount(ch: Channels, c: Color, n: nat): (r: nat)
    requires ch.Aligned() && n <= ch.Len()
    ensures r <= n
  {
    if n == 0 then 0
    else MatchCount(ch, c, n - 1) + (if Matches(ch.At(n - 1), c) then 1 else 0)
  }

  /** Adding one pixel adds, to the boxes' total, the boxes that contain it. */
  lemma {:induction false} BoxesCountStep(ch: Channels, bs: seq<Box>, n: nat)
    requires ch.Aligned() && n < ch.Len()
    ensures BoxesCount(ch, bs, n + 1) == BoxesCount(ch, bs, n) + Hits(ch.At(n), bs)
  {
    if bs != [] {
      BoxesCountStep(ch, bs[..|bs| - 1], n);
    }
  }

  lemma {:induction false} BoxesCountOfColor(ch: Channels, c: Color, n: nat)
    requires ch.Aligned() && n <= ch.Len()
    ensures BoxesCount(ch, Ranges(c), n) == MatchCount(ch, c, n)
  {
    if n == 0 {
      BoxesCountZero(ch, Ranges(c));
    } else {
      BoxesCountOfColor(ch, c, n - 1);
      BoxesCountStep(ch, Ranges(c), n - 1);
      HitsOfColor(ch.At(n - 1), c);
    }
  }

  lemma {:induction false} BoxesCountZero(ch: Channels, bs: seq<Box>)
    requires ch.Aligned()
    ensures BoxesCount(ch, bs, 0) == 0
  {
    if bs != [] {
      BoxesCountZero(ch, bs[..|bs| - 1]);
    }
  }

  /**
   * A colour's entry is the number of pixels that lie in any of its boxes:
   * red's two boxes never count one pixel twice.
   */
  lemma ProfileCountsMatchingPixels(ch: Channels, c: Color)
    requires ch.Aligned()
    ensures c in ProfileOf(ch)
    ensures ProfileOf(ch)[c] == MatchCount(ch, c, ch.Len())
    ensures ProfileOf(ch)[c] <= ch.Len()
  {
    assert AllColors[Index(c)] == c;
    BoxesCountOfColor(ch, c, ch.Len());
  }

  /** The nine entries of a complete profile, added up in table order. */
  function SumOver(cs: seq<Color>, p: Profile): (r: nat)
    requires Complete(p)
  {
    if cs == [] then 0 else SumOver(cs[..|cs| - 1], p) + p[cs[|cs| - 1]]
  }

  /** sum(color_profile.values()) written out. */
  lemma SumOverAll(p: Profile)
    requires Complete(p)
    ensures SumOver(AllColors, p)
      == p[Red] + p[Yellow] + p[Green] + p[Cyan] + p[Blue] + p[Violet] + p[Black] + p[Gray] + p[White]
  {
    var a := AllColors;
    assert SumOver(a[..1], p) == p[Red] by {
      assert a[..1][..0] == [];
    }
    assert SumOver(a[..2], p) == SumOver(a[..1], p) + p[Yellow] by {
      assert a[..2][..1] == a[..1];
    }
    assert SumOver(a[..3], p) == SumOver(a[..2], p) + p[Green] by {
      assert a[..3][..2] == a[..2];
    }
    assert SumOver(a[..4], p) == SumOver(a[..3], p) + p[Cyan] by {
      assert a[..4][..3] == a[..3];
    }
    assert SumOver(a[..5], p) == SumOver(a[..4], p) + p[Blue] by {
      assert a[..5][..4] == a[..4];
    }
    assert SumOver(a[..6], p) == SumOver(a[..5], p) + p[Violet] by {
      assert a[..6][..5] == a[..5];
    }
    assert SumOver(a[..7], p) == SumOver(a[..6], p) + p[Black] by {
      assert a[..7][..6] == a[..6];
    }
    assert SumOver(a[..8], p) == SumOver(a[..7], p) + p[Gray] by {
      assert a[..8][..7] == a[..7];
    }
    assert SumOver(a, p) == SumOver(a[..8], p) + p[White];
  }

  /** The matching counts of all nine colours over the first n pixels. */
  function MatchTally(ch: Channels, n: nat): nat
    requires ch.Aligned() && n <= ch.Len()
  {
    MatchCount(ch, Red, n) + MatchCount(ch, Yellow, n) + MatchCount(ch, Green, n)
    + MatchCount(ch, Cyan, n) + MatchCount(ch, Blue, n) + MatchCount(ch, Violet, n)
    + MatchCount(ch, Black, n) + MatchCount(ch, Gray, n) + MatchCount(ch, White, n)
  }

  /** The planes hold only OpenCV HSV values. */
  predicate AllInDomain(ch: Channels)
    requires ch.Aligned()
  {
    forall k :: 0 <= k < ch.Len() ==> ch.hue[k] <= 180
  }

  lemma {:induction false} MatchTallyCounts(ch: Channels, n: nat)
    requires ch.Aligned() && n <= ch.Len() && AllInDomain(ch)
    ensures MatchTally(ch, n) == n
  {
    if n > 0 {
      MatchTallyCounts(ch, n - 1);
      var p := ch.At(n - 1);
      assert InDomain(p);
      var c := Classify(p);
    }
  }

  /**
   * The profile is a partition of the image: the nine counts add up to the
   * number of pixels.
   */
  lemma ProfileSumsToPixelCount(ch: Channels)
    requires ch.Aligned() && AllInDomain(ch)
    ensures Complete(ProfileOf(ch))
    ensures SumOver(AllColors, ProfileOf(ch)) == ch.Len()
  {
    var p := ProfileOf(ch);
    forall c: Color ensures c in p && p[c] == MatchCount(ch, c, ch.Len()) {
      ProfileCountsMatchingPixels(ch, c);
    }
    SumOverAll(p);
    MatchTallyCounts(ch, ch.Len());
  }
}
