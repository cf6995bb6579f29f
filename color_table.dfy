/**
 * The fixed HSV range table of isd_lib/utils.py (HSV_RANGES): nine named
 * colours, each with one or two inclusive (h, s, v) boxes, and the fact the
 * rest of the detector relies on: every OpenCV HSV pixel (h in [0,180],
 * s and v in [0,255]) lies in the boxes of exactly one colour.
 */
module ColorTable {

  /** One 8-bit channel value, as OpenCV stores the H, S and V planes. */
  type byte = x: int | 0 <= x < 256

  datatype Pixel = Pixel(h: byte, s: byte, v: byte)

  /** The hue range OpenCV uses for 8-bit images, 0 to 180. */
  predicate InDomain(p: Pixel) {
    p.h <= 180
  }

  /** A lower or upper corner of a box. */
  datatype Bound = Bound(h: int, s: int, v: int)

  /** One inclusive box of the table, as `cv2.inRange` tests it. */
  datatype Box = Box(lower: Bound, upper: Bound)

  predicate InBox(p: Pixel, b: Box) {
    && b.lower.h <= p.h <= b.upper.h
    && b.lower.s <= p.s <= b.upper.s
    && b.lower.v <= p.v <= b.upper.v
  }

  /** The colour names, in the insertion order of the table's dictionary. */
  datatype Color = Red | Yellow | Green | Cyan | Blue | Violet | Black | Gray | White

  const AllColors: seq<Color> := [Red, Yellow, Green, Cyan, Blue, Violet, Black, Gray, White]

  /** A sequence without repeated colours. */
  predicate Distinct(cs: seq<Color>) {
    forall i, j :: 0 <= i < j < |cs| ==> cs[i] != cs[j]
  }

  /** The position of a colour in the table; it decides ties. */
  function Index(c: Color): (k: nat)
    ensures k < |AllColors| && AllColors[k] == c
  {
    match c
    case Red => 0
    case Yellow => 1
    case Green => 2
    case Cyan => 3
    case Blue => 4
    case Violet => 5
    case Black => 6
    case Gray => 7
    case White => 8
  }

  /** The boxes of one colour, in table order. */
  function Ranges(c: Color): seq<Box> {
    match c
    case Red => [Box(Bound(0, 39, 64), Bound(20, 255, 255)), Box(Bound(161, 39, 64), Bound(180, 255, 255))]
    case Yellow => [Box(Bound(21, 39, 64), Bound(40, 255, 255))]
    case Green => [Box(Bound(41, 39, 64), Bound(80, 255, 255))]
    case Cyan => [Box(Bound(81, 39, 64), Bound(100, 255, 255))]
    case Blue => [Box(Bound(101, 39, 64), Bound(140, 255, 255))]
    case Violet => [Box(Bound(141, 39, 64), Bound(160, 255, 255))]
    case Black => [Box(Bound(0, 0, 0), Bound(180, 255, 63))]
    case Gray => [Box(Bound(0, 0, 64), Bound(180, 38, 228))]
    case White => [Box(Bound(0, 0, 229), Bound(180, 38, 255))]
  }

  /** The number of boxes of `bs` that contain `p`. */
  function Hits(p: Pixel, bs: seq<Box>): (n: nat)
    ensures n <= |bs|
  {
    if bs == [] then 0
    else Hits(p, bs[..|bs| - 1]) + (if InBox(p, bs[|bs| - 1]) then 1 else 0)
  }

  /** `p` lies in some box of colour `c`. */
  predicate Matches(p: Pixel, c: Color) {
    exists i :: 0 <= i < |Ranges(c)| && InBox(p, Ranges(c)[i])
  }

  /**
   * The classification rule the table is built around, written independently
   * of the boxes: dark pixels are black, washed-out ones gray or white by
   * value, and the rest fall into one of the six hue bands.
   */
  function Classify(p: Pixel): (c: Color)
    requires InDomain(p)
    ensures Matches(p, c)
    ensures forall d :: Matches(p, d) ==> d == c
  {
    var c :=
      if p.v <= 63 then Black
      else if p.s <= 38 then (if p.v <= 228 then Gray else White)
      else if p.h <= 20 || 161 <= p.h then Red
      else if p.h <= 40 then Yellow
      else if p.h <= 80 then Green
      else if p.h <= 100 then Cyan
      else if p.h <= 140 then Blue
      else Violet;
    assert c == Red ==> InBox(p, Ranges(Red)[0]) || InBox(p, Ranges(Red)[1]);
    assert c != Red ==> InBox(p, Ranges(c)[0]);
    forall d | Matches(p, d) ensures d == c {
      Exclusive(p, c, d);
    }
    c
  }

  /** No pixel, in the domain or not, lies in boxes of two different colours. */
  lemma Exclusive(p: Pixel, c: Color, d: Color)
    requires Matches(p, c) && Matches(p, d)
    ensures c == d
  {
    var i :| 0 <= i < |Ranges(c)| && InBox(p, Ranges(c)[i]);
    var j :| 0 <= j < |Ranges(d)| && InBox(p, Ranges(d)[j]);
  }

  /** The partition property: each domain pixel matches exactly one colour. */
  lemma Partition(p: Pixel)
    requires InDomain(p)
    ensures exists c :: Matches(p, c)
    ensures forall c, d :: Matches(p, c) && Matches(p, d) ==> c == d
  {
    var c := Classify(p);
    forall c, d | Matches(p, c) && Matches(p, d) ensures c == d {
      Exclusive(p, c, d);
    }
  }

  /** A hue above 180 lies in no box at all. */
  lemma OutsideDomainUnmatched(p: Pixel, c: Color)
    requires !InDomain(p)
    ensures !Matches(p, c)
  {
  }

  /** The boxes of one colour are disjoint, so a matching pixel is counted once. */
  lemma HitsOfColor(p: Pixel, c: Color)
    ensures Hits(p, Ranges(c)) == if Matches(p, c) then 1 else 0
  {
    var bs := Ranges(c);
    if |bs| == 2 {
      assert bs[..1][..0] == [];
      assert Hits(p, bs) == (if InBox(p, bs[0]) then 1 else 0) + (if InBox(p, bs[1]) then 1 else 0);
    } else {
      assert |bs| == 1;
      assert bs[..0] == [];
      assert Hits(p, bs) == if InBox(p, bs[0]) then 1 else 0;
    }
  }

  /**
   * The thresholds behind the table: a domain pixel is of a hue colour exactly
   * when s >= 39 and v >= 64; black is v <= 63; gray and white share s <= 38
   * with v >= 64 and split at v = 229.
   */
  lemma ThresholdsOfTable(p: Pixel, c: Color)
    requires InDomain(p) && Matches(p, c)
    ensures Index(c) < 6 <==> 39 <= p.s && 64 <= p.v
    ensures c == Black <==> p.v <= 63
    ensures c == Gray <==> p.s <= 38 && 64 <= p.v <= 228
    ensures c == White <==> p.s <= 38 && 229 <= p.v
  {
    var i :| 0 <= i < |Ranges(c)| && InBox(p, Ranges(c)[i]);
    assert c == Classify(p);
  }
}
