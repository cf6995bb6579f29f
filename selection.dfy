/**
 * The two rules that pick colours from a profile (isd_lib/utils.py):
 * find_dominant_color, the first colour of greatest count, and
 * get_common_colors, the non-background colours that exceed one tenth of
 * the non-background pixels.
 */
module Selection {
  import opened ColorTable
  import opened ColorProfile

  /**
   * Python's `max(..., key=...)` over the colours cs: a later colour replaces
   * the current maximum only when its count is strictly greater.
   */
  function FirstMaxIndex(p: Profile, cs: seq<Color>): (k: nat)
    requires Complete(p) && |cs| > 0
    ensures k < |cs|
    ensures forall i :: 0 <= i < |cs| ==> p[cs[i]] <= p[cs[k]]
    ensures forall i :: 0 <= i < k ==> p[cs[i]] < p[cs[k]]
  {
    if |cs| == 1 then 0
    else
      var m := FirstMaxIndex(p, cs[..|cs| - 1]);
      if p[cs[|cs| - 1]] > p[cs[m]] then |cs| - 1 else m
  }

  /** The dominant colour of a profile: greatest count, earliest in the table on ties. */
  function DominantColor(p: Profile): (c: Color)
    requires Complete(p)
    ensures forall d :: p[d] <= p[c]
    ensures forall d :: Index(d) < Index(c) ==> p[d] < p[c]
  {
    var k := FirstMaxIndex(p, AllColors);
    forall d ensures p[d] <= p[AllColors[k]] && (Index(d) < k ==> p[d] < p[AllColors[k]]) {
      assert AllColors[Index(d)] == d;
    }
    AllColors[k]
  }

  /** find_dominant_color: profile the image, then take the maximum. */
  method FindDominantColor(img: Image) returns (c: Color)
    ensures c == DominantColor(ProfileOf(GetHsv(img)))
    ensures forall d :: ProfileOf(GetHsv(img))[d] <= ProfileOf(GetHsv(img))[c]
  {
    var profile := GetColorProfile(img);
    c := DominantColor(profile);
  }

  /**
   * The pixels that are not background: all counts minus the count of each
   * listed background colour (a colour listed twice is subtracted twice).
   */
  function NonBackgroundTotal(p: Profile, bg: seq<Color>): int
    requires Complete(p)
  {
    SumOver(AllColors, p) - SumOver(bg, p)
  }

  /** A colour is a feature colour when it is no background and exceeds 10% of the rest. */
  predicate Prevalent(p: Profile, bg: seq<Color>, c: Color)
    requires Complete(p)
  {
    c !in bg && 10 * p[c] > NonBackgroundTotal(p, bg)
  }

  /** The prevalent colours among the first n of the table, in table order. */
  function PrevalentAmong(p: Profile, bg: seq<Color>, n: nat): (r: seq<Color>)
    requires Complete(p) && n <= |AllColors|
    ensures forall c :: c in r <==> Index(c) < n && Prevalent(p, bg, c)
    ensures forall i, j :: 0 <= i < j < |r| ==> Index(r[i]) < Index(r[j])
    ensures forall i :: 0 <= i < |r| ==> Index(r[i]) < n
  {
    if n == 0 then []
    else
      var c := AllColors[n - 1];
      assert Index(c) == n - 1;
      PrevalentAmong(p, bg, n - 1) + (if Prevalent(p, bg, c) then [c] else [])
  }

  /** What get_common_colors returns for a profile and background list. */
  function CommonColors(p: Profile, bg: seq<Color>): seq<Color>
    requires Complete(p)
  {
    PrevalentAmong(p, bg, |AllColors|)
  }

  /** get_common_colors, with the prevalence 0.1 as an exact tenth. */
  method GetCommonColors(profile: Profile, bg: seq<Color>) returns (common: seq<Color>)
    requires Complete(profile)
    ensures common == CommonColors(profile, bg)
  {
    var total: int := SumOver(AllColors, profile);
    for i := 0 to |bg|
      invariant total == SumOver(AllColors, profile) - SumOver(bg[..i], profile)
    {
      assert bg[..i + 1][..i] == bg[..i];
      total := total - profile[bg[i]];
    }
    assert bg[..|bg|] == bg;
    common := [];
    for k := 0 to |AllColors|
      invariant common == PrevalentAmong(profile, bg, k)
    {
      var color := AllColors[k];
      if color in bg {
        continue;
      }
      if 10 * profile[color] > total {
        common := common + [color];
      }
    }
  }

  /** Selection both ways: exactly the prevalent colours, in table order, never a background one. */
  lemma CommonColorsExactly(p: Profile, bg: seq<Color>)
    requires Complete(p)
    ensures forall c :: c in CommonColors(p, bg) <==> c !in bg && 10 * p[c] > NonBackgroundTotal(p, bg)
    ensures forall c :: c in bg ==> c !in CommonColors(p, bg)
    ensures forall i, j :: 0 <= i < j < |CommonColors(p, bg)| ==> Index(CommonColors(p, bg)[i]) < Index(CommonColors(p, bg)[j])
  {
  }

  /** The counts of the colours among cs that are not in bg. */
  function SumOutside(cs: seq<Color>, bg: seq<Color>, p: Profile): nat
    requires Complete(p)
  {
    if cs == [] then 0
    else SumOutside(cs[..|cs| - 1], bg, p) + (if cs[|cs| - 1] in bg then 0 else p[cs[|cs| - 1]])
  }

  /** Adding one more background colour x removes x's count, once for each time x is in cs. */
  lemma {:induction false} SumOutsideExtend(cs: seq<Color>, bg: seq<Color>, x: Color, p: Profile)
    requires Complete(p) && Distinct(cs) && x !in bg
    ensures SumOutside(cs, bg, p) == SumOutside(cs, bg + [x], p) + (if x in cs then p[x] else 0)
  {
    if cs != [] {
      var init := cs[..|cs| - 1];
      assert Distinct(init);
      SumOutsideExtend(init, bg, x, p);
      assert x in cs <==> x in init || x == cs[|cs| - 1];
      assert x == cs[|cs| - 1] ==> x !in init;
    }
  }

  /** For a background list without repeats the total splits into background and the rest. */
  lemma {:induction false} SumSplits(bg: seq<Color>, p: Profile)
    requires Complete(p) && Distinct(bg)
    ensures SumOver(AllColors, p) == SumOver(bg, p) + SumOutside(AllColors, bg, p)
  {
    if bg == [] {
      SumOutsideNone(AllColors, p);
    } else {
      var init := bg[..|bg| - 1];
      var x := bg[|bg| - 1];
      assert Distinct(init);
      assert x !in init;
      SumSplits(init, p);
      assert init + [x] == bg;
      SumOutsideExtend(AllColors, init, x, p);
      assert AllColors[Index(x)] == x;
    }
  }

  lemma {:induction false} SumOutsideNone(cs: seq<Color>, p: Profile)
    requires Complete(p)
    ensures SumOutside(cs, [], p) == SumOver(cs, p)
  {
    if cs != [] {
      SumOutsideNone(cs[..|cs| - 1], p);
    }
  }

  lemma {:induction false} SumOutsideZero(cs: seq<Color>, bg: seq<Color>, p: Profile)
    requires Complete(p)
    requires forall c :: c !in bg ==> p[c] == 0
    ensures SumOutside(cs, bg, p) == 0
  {
    if cs != [] {
      SumOutsideZero(cs[..|cs| - 1], bg, p);
    }
  }

  /** With distinct background colours the non-background total is never negative. */
  lemma NonBackgroundTotalNonNegative(p: Profile, bg: seq<Color>)
    requires Complete(p) && Distinct(bg)
    ensures NonBackgroundTotal(p, bg) >= 0
  {
    SumSplits(bg, p);
  }

  /** A profile with no non-background pixels yields no feature colours. */
  lemma NoneOutsideBackground(p: Profile, bg: seq<Color>)
    requires Complete(p) && Distinct(bg)
    requires forall c :: c !in bg ==> p[c] == 0
    ensures NonBackgroundTotal(p, bg) == 0
    ensures CommonColors(p, bg) == []
  {
    SumSplits(bg, p);
    SumOutsideZero(AllColors, bg, p);
    var r := CommonColors(p, bg);
    if r != [] {
      assert r[0] in r;
    }
  }

  /**
   * A sample whose every pixel is of a background colour has no feature
   * colours: the non-background total is 0 and nothing exceeds it.
   */
  lemma AllBackgroundSample(ch: Channels, bg: seq<Color>)
    requires ch.Aligned() && AllInDomain(ch) && Distinct(bg)
    requires forall k :: 0 <= k < ch.Len() ==> Classify(ch.At(k)) in bg
    ensures Complete(ProfileOf(ch))
    ensures CommonColors(ProfileOf(ch), bg) == []
  {
    var p := ProfileOf(ch);
    forall c: Color ensures c in p && (c !in bg ==> p[c] == 0) {
      ProfileCountsMatchingPixels(ch, c);
      if c !in bg {
        NoneMatch(ch, c, bg, ch.Len());
      }
    }
    NoneOutsideBackground(p, bg);
  }

  lemma {:induction false} NoneMatch(ch: Channels, c: Color, bg: seq<Color>, n: nat)
    requires ch.Aligned() && AllInDomain(ch) && n <= ch.Len() && c !in bg
    requires forall k :: 0 <= k < ch.Len() ==> Classify(ch.At(k)) in bg
    ensures MatchCount(ch, c, n) == 0
  {
    if n > 0 {
      NoneMatch(ch, c, bg, n - 1);
      var q := ch.At(n - 1);
      assert InDomain(q);
      assert Classify(q) in bg;
    }
  }

  /** The colours get_common_colors returns never repeat. */
  lemma CommonColorsDistinct(p: Profile, bg: seq<Color>)
    requires Complete(p)
    ensures Distinct(CommonColors(p, bg))
  {
  }
}
