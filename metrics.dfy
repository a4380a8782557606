/** The WCAG 2.1 metrics of the colour core: `relative_luminance`,
    `contrast_ratio`, `get_wcag_level`, `pick_foreground`, and
    `adjust_luminance`, which changes lightness in HLS space. */
module Metrics {
  import opened Results
  import opened HexCodec
  import opened ColorSpace

  /** The only non-rational step, `x ** 2.4`, is a parameter: any function
      that maps [0, 1] into [0, 1] and sends 1 to 1, as `x ** 2.4` does. */
  type Power24 = f: real -> real | (forall x :: 0.0 <= x <= 1.0 ==> 0.0 <= f(x) <= 1.0) && f(1.0) == 1.0
    witness (x: real) => x

  /** `chan` inside `relative_luminance`: the sRGB transfer curve on a channel
      given as a Python int (negative from a signed slice). */
  function Linearize(pow: Power24, v: int): (y: real)
    ensures 0 <= v <= 255 ==> 0.0 <= y <= 1.0
    ensures -15 <= v <= 255 ==> -0.005 < y <= 1.0
    ensures v == 0 ==> y == 0.0
    ensures v == 255 ==> y == 1.0
  {
    var c := v as real / 255.0;
    if c <= 0.03928 then c / 12.92 else pow((c + 0.055) / 1.055)
  }

  /** Channels as `hex_to_rgb` can return them. */
  predicate Decodable(c: Rgb) {
    -15 <= c.r <= 255 && -15 <= c.g <= 255 && -15 <= c.b <= 255
  }

  /** `relative_luminance`: the weighted sum of the linearised channels. */
  function Luminance(pow: Power24, c: Rgb): (y: real)
    ensures InGamut(c) ==> 0.0 <= y <= 1.0
    ensures Decodable(c) ==> -0.005 < y <= 1.0
  {
    0.2126 * Linearize(pow, c.r) + 0.7152 * Linearize(pow, c.g) + 0.0722 * Linearize(pow, c.b)
  }

  /** `(lighter + 0.05) / (darker + 0.05)` for two luminances that keep the
      denominator positive. */
  function Ratio(l1: real, l2: real): (k: real)
    requires l1 > -0.05 && l2 > -0.05
    ensures k >= 1.0
    ensures k == 1.0 <==> l1 == l2
  {
    var hi, lo := Max(l1, l2) + 0.05, Min(l1, l2) + 0.05;
    QuotientAtLeastOne(hi, lo);
    hi / lo
  }

  lemma QuotientAtLeastOne(hi: real, lo: real)
    requires 0.0 < lo <= hi
    ensures hi / lo >= 1.0
    ensures hi / lo == 1.0 <==> hi == lo
  {
    DivAdd(hi - lo, lo, lo);
    assert lo / lo == 1.0;
    NonNegativeQuotient(hi - lo, lo);
    if hi > lo { PositiveQuotient(hi - lo, lo); }
  }

  lemma RatioSymmetric(l1: real, l2: real)
    requires l1 > -0.05 && l2 > -0.05
    ensures Ratio(l1, l2) == Ratio(l2, l1)
  {
    assert Max(l1, l2) == Max(l2, l1) && Min(l1, l2) == Min(l2, l1);
  }

  /** `contrast_ratio` on two colour strings. */
  function ContrastRatio(pow: Power24, a: string, b: string): (k: real)
    ensures k >= 1.0
  {
    Ratio(Luminance(pow, HexToRgb(a)), Luminance(pow, HexToRgb(b)))
  }

  lemma LuminanceWhite(pow: Power24)
    ensures Luminance(pow, HexToRgb("#FFFFFF")) == 1.0
  {
    HexToRgbWhite();
  }

  lemma LuminanceBlack(pow: Power24)
    ensures Luminance(pow, HexToRgb("#000000")) == 0.0
  {
    HexToRgbBlack();
  }

  /** The ratio does not depend on the order of its arguments. */
  lemma ContrastSymmetric(pow: Power24, a: string, b: string)
    ensures ContrastRatio(pow, a, b) == ContrastRatio(pow, b, a)
  {
    RatioSymmetric(Luminance(pow, HexToRgb(a)), Luminance(pow, HexToRgb(b)));
  }

  /** A colour has ratio 1 against itself, and ratio 1 only against colours
      of equal luminance. */
  lemma ContrastSelf(pow: Power24, a: string, b: string)
    ensures ContrastRatio(pow, a, a) == 1.0
    ensures ContrastRatio(pow, a, b) == 1.0 <==> Luminance(pow, HexToRgb(a)) == Luminance(pow, HexToRgb(b))
  {
  }

  lemma RatioAtMost21(l1: real, l2: real)
    requires 0.0 <= l1 <= 1.0 && 0.0 <= l2 <= 1.0
    ensures Ratio(l1, l2) <= 21.0
  {
    QuotientAtMost(Max(l1, l2) + 0.05, Min(l1, l2) + 0.05, 21.0);
  }

  lemma QuotientAtMost(hi: real, lo: real, k: real)
    requires lo > 0.0 && hi <= k * lo
    ensures hi / lo <= k
  {
    DivAdd(k * lo - hi, hi, lo);
    NonNegativeQuotient(k * lo - hi, lo);
    assert (k * lo) / lo == k;
  }

  /** Between colours whose channels are bytes the ratio is at most 21. */
  lemma ContrastAtMost21(pow: Power24, a: string, b: string)
    requires InGamut(HexToRgb(a)) && InGamut(HexToRgb(b))
    ensures ContrastRatio(pow, a, b) <= 21.0
  {
    RatioAtMost21(Luminance(pow, HexToRgb(a)), Luminance(pow, HexToRgb(b)));
  }

  /** White against black attains the maximum (the test suite asks for more than 20). */
  lemma ContrastWhiteBlack(pow: Power24)
    ensures ContrastRatio(pow, "#FFFFFF", "#000000") == 21.0
  {
    LuminanceWhite(pow);
    LuminanceBlack(pow);
  }

  /** The conformance levels `get_wcag_level` reports. */
  datatype Level = AAA | AA | AALarge | Fail

  /** The string `get_wcag_level` returns for each level. */
  function Label(lv: Level): string {
    match lv
    case AAA => "AAA"
    case AA => "AA"
    case AALarge => "AA Large"
    case Fail => "Fail"
  }

  /** Levels ordered from failing to best. */
  function Rank(lv: Level): nat {
    match lv
    case Fail => 0
    case AALarge => 1
    case AA => 2
    case AAA => 3
  }

  /** The least ratio each level demands: 7:1 (Success Criterion 1.4.6 of
      WCAG 2.1), 4.5:1 (Success Criterion 1.4.3) and 3:1 for large text. */
  function Threshold(lv: Level): real {
    match lv
    case AAA => 7.0
    case AA => 4.5
    case AALarge => 3.0
    case Fail => 0.0
  }

  /** `get_wcag_level`. */
  function WcagLevel(ratio: real): (lv: Level) {
    if ratio >= 7.0 then AAA
    else if ratio >= 4.5 then AA
    else if ratio >= 3.0 then AALarge
    else Fail
  }

  /** The reported level is the best one whose threshold the ratio meets:
      a ratio reaches level `lv` or better exactly when it is at least
      `lv`'s threshold, each band closed at its lower end. */
  lemma WcagLevelMeetsThreshold(ratio: real, lv: Level)
    requires lv != Fail
    ensures Rank(WcagLevel(ratio)) >= Rank(lv) <==> ratio >= Threshold(lv)
  {
  }

  /** A higher ratio never earns a lower level. */
  lemma WcagLevelMonotone(r1: real, r2: real)
    requires r1 <= r2
    ensures Rank(WcagLevel(r1)) <= Rank(WcagLevel(r2))
  {
  }

  /** The cases in the test suite. */
  lemma WcagLevelExamples()
    ensures Label(WcagLevel(8.0)) == "AAA" && Label(WcagLevel(5.0)) == "AA"
    ensures Label(WcagLevel(3.5)) == "AA Large" && Label(WcagLevel(2.0)) == "Fail"
  {
  }

  /** `pick_foreground`: black text when black reaches 4.5:1, else white. */
  function PickForeground(pow: Power24, bg: string): (fg: string)
    ensures fg == "#000000" || fg == "#FFFFFF"
  {
    if ContrastRatio(pow, bg, "#000000") >= 4.5 then "#000000" else "#FFFFFF"
  }

  /** The picked foreground always reaches 4.5:1 against the background,
      whatever the background text: when black falls short the background's
      luminance is below 0.175, and white then reaches more than 4.6:1. */
  lemma PickForegroundReadable(pow: Power24, bg: string)
    ensures ContrastRatio(pow, bg, PickForeground(pow, bg)) >= 4.5
    ensures PickForeground(pow, bg) == "#000000" <==> ContrastRatio(pow, bg, "#000000") >= 4.5
  {
    LuminanceBlack(pow);
    LuminanceWhite(pow);
    WhiteWhereBlackFails(Luminance(pow, HexToRgb(bg)));
  }

  lemma WhiteWhereBlackFails(y: real)
    requires -0.05 < y <= 1.0
    ensures Ratio(y, 0.0) < 4.5 ==> Ratio(y, 1.0) >= 4.5
  {
    if Ratio(y, 0.0) < 4.5 {
      if y >= 0.0 {
        assert Ratio(y, 0.0) == (y + 0.05) / 0.05;
      }
      assert y < 0.175;
      assert Ratio(y, 1.0) == 1.05 / (y + 0.05);
      assert 1.05 >= 4.5 * (y + 0.05);
    }
  }

  /** `adjust_luminance`: the lightness is scaled by `factor` and clamped to
      [0.05, 0.95]; hue and saturation are kept. Fails where `rgb_to_hls`
      divides by zero. */
  function AdjustLuminance(hex: string, factor: real): (r: Result<string>)
    ensures InGamut(HexToRgb(hex)) ==> r.Ok? && IsCanonicalHex(r.value)
  {
    var c := HexToRgb(hex);
    match RgbToHls(c)
    case DivisionByZero => DivisionByZero
    case Ok(x) =>
      assert InGamut(c) ==> InUnit(x.s) by {
        if InGamut(c) { RgbToHlsInGamut(c); }
      }
      Ok(AdjustHls(x, factor))
  }

  /** The part of `adjust_luminance` after `rgb_to_hls`. For a saturation in
      [0, 1] the result is canonical, and the clamp keeps it off pure black
      and pure white. */
  function AdjustHls(x: Hls, factor: real): (r: string)
    ensures InUnit(x.s) ==> IsCanonicalHex(r)
    ensures InUnit(x.s) ==> r != "#000000" && r != "#FFFFFF"
  {
    var l := Clamp(x.l * factor, 0.05, 0.95);
    if InUnit(x.s) then
      HlsToHexCanonical(x.h, l, x.s);
      HlsToHexNeitherExtreme(x.h, l, x.s);
      HlsToHex(x.h, l, x.s)
    else HlsToHex(x.h, l, x.s)
  }

  /** The clamp keeps the result off pure black and pure white. */
  lemma AdjustLuminanceNeverExtreme(hex: string, factor: real)
    requires InGamut(HexToRgb(hex))
    ensures AdjustLuminance(hex, factor).Ok?
    ensures AdjustLuminance(hex, factor).value != "#000000"
    ensures AdjustLuminance(hex, factor).value != "#FFFFFF"
  {
    var c := HexToRgb(hex);
    RgbToHlsInGamut(c);
  }

  /** With factor 1 and a lightness already inside the clamp, a canonical
      colour comes back unchanged. */
  lemma AdjustLuminanceIdentity(hex: string)
    requires IsCanonicalHex(hex)
    requires RgbToHls(HexToRgb(hex)).Ok? && 0.05 <= RgbToHls(HexToRgb(hex)).value.l <= 0.95
    ensures AdjustLuminance(hex, 1.0) == Ok(hex)
  {
    CanonicalHlsRoundTrip(hex);
  }

  /** `"#-50500"` makes `rgb_to_hls` divide by zero, so the call raises. */
  lemma AdjustLuminanceRaises(factor: real)
    ensures AdjustLuminance("#-50500", factor) == DivisionByZero
  {
    HexToRgbMixedSigns();
    RgbToHlsDivisionByZero();
  }
}
