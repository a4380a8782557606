/** The HLS side of the codec: `rgb_to_hls` and `hls_to_hex`, which call
    the `colorsys` algorithm of Python's standard library. Floats are
    modelled as exact reals: `% 1.0` is `Frac`, `int(x)` is `Trunc`. */
module ColorSpace {
  import opened Results
  import opened HexCodec

  /** Hue, lightness and saturation, in `colorsys` order. */
  datatype Hls = Hls(h: real, l: real, s: real)

  /** Red, green and blue as floats (1.0 is full intensity). */
  datatype Unit = Unit(r: real, g: real, b: real)

  function Max(a: real, b: real): real { if a >= b then a else b }

  function Min(a: real, b: real): real { if a <= b then a else b }

  /** `max(lo, min(hi, x))`. */
  function Clamp(x: real, lo: real, hi: real): (y: real)
    requires lo <= hi
    ensures lo <= y <= hi
    ensures lo <= x <= hi ==> y == x
  {
    Max(lo, Min(hi, x))
  }

  /** `x % 1.0`: Python's float remainder takes the sign of the divisor. */
  function Frac(x: real): (f: real)
    ensures 0.0 <= f < 1.0
  {
    x - x.Floor as real
  }

  /** `int(x)` on a float truncates towards zero. */
  function Trunc(x: real): (n: int)
    ensures x >= 0.0 ==> n == x.Floor
    ensures x < 0.0 ==> x <= n as real < x + 1.0
    ensures n as real - 1.0 < x < n as real + 1.0
  {
    if x >= 0.0 then x.Floor else -((-x).Floor)
  }

  lemma FracOf(x: real, k: int)
    requires k as real <= x < k as real + 1.0
    ensures Frac(x) == x - k as real
  {
    var f := x.Floor;
    assert f as real <= x < f as real + 1.0;
    assert f > k - 1 && f < k + 1;
  }

  lemma FracOfFracPlus(x: real, y: real)
    ensures Frac(Frac(x) + y) == Frac(x + y)
  {
    var k := x.Floor;
    var z := x + y;
    assert Frac(x) + y == z - k as real;
    assert (z - k as real).Floor == z.Floor - k;
  }

  const OneThird: real := 1.0 / 3.0
  const OneSixth: real := 1.0 / 6.0
  const TwoThird: real := 2.0 / 3.0

  /** `colorsys.rgb_to_hls` on floats. It divides by `max + min` when the
      lightness is at most one half, which is zero only for a negative
      channel, and by `2 - max - min` otherwise. */
  function RgbToHlsUnit(r: real, g: real, b: real): Result<Hls> {
    var maxc := Max(Max(r, g), b);
    var minc := Min(Min(r, g), b);
    var sumc := maxc + minc;
    var rangec := maxc - minc;
    var l := sumc / 2.0;
    if minc == maxc then Ok(Hls(0.0, l, 0.0))
    else if (l <= 0.5 && sumc == 0.0) || (l > 0.5 && 2.0 - maxc - minc == 0.0) then DivisionByZero
    else
      var s := if l <= 0.5 then rangec / sumc else rangec / (2.0 - maxc - minc);
      var rc := (maxc - r) / rangec;
      var gc := (maxc - g) / rangec;
      var bc := (maxc - b) / rangec;
      var h := if r == maxc then bc - gc else if g == maxc then 2.0 + rc - bc else 4.0 + gc - rc;
      Ok(Hls(Frac(h / 6.0), l, s))
  }

  /** `rgb_to_hls(r, g, b)`: the channels are divided by 255 first. */
  function RgbToHls(c: Rgb): Result<Hls> {
    RgbToHlsUnit(c.r as real / 255.0, c.g as real / 255.0, c.b as real / 255.0)
  }

  /** The point at fraction `w` of the way from `m1` to `m2`. */
  function Lerp(m1: real, m2: real, w: real): real {
    m1 + (m2 - m1) * w
  }

  /** `colorsys._v` after the remainder: the hue wheel at `t` in [0, 1). */
  function Wheel(m1: real, m2: real, t: real): real {
    if t < OneSixth then Lerp(m1, m2, t * 6.0)
    else if t < 0.5 then m2
    else if t < TwoThird then Lerp(m1, m2, (TwoThird - t) * 6.0)
    else m1
  }

  /** `colorsys._v`: one channel read off the hue wheel between `m1` and `m2`. */
  function HueChannel(m1: real, m2: real, hue: real): real {
    Wheel(m1, m2, Frac(hue))
  }

  /** `colorsys.hls_to_rgb`. */
  function HlsToRgb(h: real, l: real, s: real): Unit {
    if s == 0.0 then Unit(l, l, l)
    else
      var m2 := if l <= 0.5 then l * (1.0 + s) else l + s - l * s;
      var m1 := 2.0 * l - m2;
      Unit(HueChannel(m1, m2, h + OneThird), HueChannel(m1, m2, h), HueChannel(m1, m2, h - OneThird))
  }

  /** `hls_to_hex`: each channel is scaled by 255 and truncated, not rounded. */
  function HlsToHex(h: real, l: real, s: real): string {
    var c := HlsToRgb(h, l, s);
    FormatRgb(Trunc(c.r * 255.0), Trunc(c.g * 255.0), Trunc(c.b * 255.0))
  }

  predicate InUnit(x: real) { 0.0 <= x <= 1.0 }

  lemma DivBetween(a: real, d: real)
    requires 0.0 <= a <= d && d > 0.0
    ensures 0.0 <= a / d <= 1.0
  {
  }

  /** On channels in [0, 1] the conversion is defined and lands in range:
      hue in [0, 1), lightness and saturation in [0, 1]. */
  lemma RgbToHlsUnitRange(r: real, g: real, b: real)
    requires InUnit(r) && InUnit(g) && InUnit(b)
    ensures RgbToHlsUnit(r, g, b).Ok?
    ensures var c := RgbToHlsUnit(r, g, b).value;
      0.0 <= c.h < 1.0 && InUnit(c.l) && InUnit(c.s)
  {
    var maxc := Max(Max(r, g), b);
    var minc := Min(Min(r, g), b);
    if minc != maxc {
      var l := (maxc + minc) / 2.0;
      if l <= 0.5 {
        DivBetween(maxc - minc, maxc + minc);
      } else {
        DivBetween(maxc - minc, 2.0 - maxc - minc);
      }
    }
  }

  /** Bytes always convert, with the same ranges. */
  lemma RgbToHlsInGamut(c: Rgb)
    requires InGamut(c)
    ensures RgbToHls(c).Ok?
    ensures var x := RgbToHls(c).value; 0.0 <= x.h < 1.0 && InUnit(x.l) && InUnit(x.s)
  {
    RgbToHlsUnitRange(c.r as real / 255.0, c.g as real / 255.0, c.b as real / 255.0);
  }

  lemma ScaleBetween(a: real, w: real)
    requires a >= 0.0 && 0.0 <= w <= 1.0
    ensures 0.0 <= a * w <= a
  {
  }

  lemma LerpBetween(m1: real, m2: real, w: real)
    requires m1 <= m2 && 0.0 <= w <= 1.0
    ensures m1 <= Lerp(m1, m2, w) <= m2
  {
    var a := m2 - m1;
    ScaleBetween(a, w);
    assert Lerp(m1, m2, w) == m1 + a * w;
  }

  lemma HueChannelBetween(m1: real, m2: real, hue: real)
    requires m1 <= m2
    ensures m1 <= HueChannel(m1, m2, hue) <= m2
  {
    var t := Frac(hue);
    if t < OneSixth {
      LerpBetween(m1, m2, t * 6.0);
    } else if 0.5 <= t < TwoThird {
      LerpBetween(m1, m2, (TwoThird - t) * 6.0);
    }
  }

  lemma LowBounds(l: real, s: real)
    requires 0.0 <= l <= 0.5 && 0.0 <= s <= 1.0
    ensures 0.0 <= 2.0 * l - l * (1.0 + s) <= l * (1.0 + s) <= 1.0
  {
    var p := l * s;
    ScaleBetween(l, s);
    assert l * (1.0 + s) == l + p;
  }

  lemma HighBounds(l: real, s: real)
    requires 0.5 < l <= 1.0 && 0.0 <= s <= 1.0
    ensures 0.0 <= 2.0 * l - (l + s - l * s)
    ensures l + s - l * s <= 1.0
    ensures 2.0 * l - (l + s - l * s) <= l + s - l * s
  {
    var a := 1.0 - l;
    var p := a * s;
    ScaleBetween(a, s);
    assert 0.0 <= p <= a;
    assert p == s - l * s;
    assert l + s - l * s == l + p;
    assert 2.0 * l - (l + s - l * s) == l - p;
  }

  lemma Bounds(l: real, s: real)
    requires InUnit(l) && InUnit(s)
    ensures var m2 := if l <= 0.5 then l * (1.0 + s) else l + s - l * s;
      0.0 <= 2.0 * l - m2 <= m2 <= 1.0
  {
    if l <= 0.5 { LowBounds(l, s); } else { HighBounds(l, s); }
  }

  /** For lightness and saturation in [0, 1], every channel is in [0, 1],
      whatever the hue. */
  lemma HlsToRgbRange(h: real, l: real, s: real)
    requires InUnit(l) && InUnit(s)
    ensures var c := HlsToRgb(h, l, s); InUnit(c.r) && InUnit(c.g) && InUnit(c.b)
  {
    if s != 0.0 {
      Bounds(l, s);
      var m2 := if l <= 0.5 then l * (1.0 + s) else l + s - l * s;
      var m1 := 2.0 * l - m2;
      HueChannelBetween(m1, m2, h + OneThird);
      HueChannelBetween(m1, m2, h);
      HueChannelBetween(m1, m2, h - OneThird);
    }
  }

  /** Of the three hues `hls_to_rgb` reads, one lands on the top segment of the wheel. */
  lemma SomeHueOnTop(h: real)
    ensures (OneSixth <= Frac(h + OneThird) <= 0.5) || (OneSixth <= Frac(h) <= 0.5)
      || (OneSixth <= Frac(h - OneThird) <= 0.5)
  {
    var t := Frac(h);
    FracOf(t, 0);
    FracOfFracPlus(h, OneThird);
    FracOfFracPlus(h, -OneThird);
    if t < OneSixth {
      FracOf(t + OneThird, 0);
    } else if t <= 0.5 {
    } else if t < 5.0 / 6.0 {
      FracOf(t - OneThird, 0);
    } else {
      FracOf(t + OneThird, 1);
    }
  }

  /** ... and one on the bottom segment. */
  lemma SomeHueAtBottom(h: real)
    ensures TwoThird <= Frac(h + OneThird) || TwoThird <= Frac(h) || TwoThird <= Frac(h - OneThird)
  {
    var t := Frac(h);
    FracOf(t, 0);
    FracOfFracPlus(h, OneThird);
    FracOfFracPlus(h, -OneThird);
    if t < OneThird {
      FracOf(t - OneThird, -1);
    } else if t < TwoThird {
      FracOf(t + OneThird, 0);
    }
  }

  /** `hls_to_rgb` keeps the lightness: its largest and smallest channels
      average to `l`, as `rgb_to_hls` measures lightness. */
  lemma HlsToRgbLightness(h: real, l: real, s: real)
    requires InUnit(l) && InUnit(s)
    ensures var c := HlsToRgb(h, l, s);
      Max(Max(c.r, c.g), c.b) + Min(Min(c.r, c.g), c.b) == 2.0 * l
  {
    if s != 0.0 {
      Bounds(l, s);
      var m2 := if l <= 0.5 then l * (1.0 + s) else l + s - l * s;
      var m1 := 2.0 * l - m2;
      HueChannelBetween(m1, m2, h + OneThird);
      HueChannelBetween(m1, m2, h);
      HueChannelBetween(m1, m2, h - OneThird);
      SomeHueOnTop(h);
      SomeHueAtBottom(h);
      if OneSixth <= Frac(h + OneThird) <= 0.5 { Top(m1, m2, Frac(h + OneThird)); }
      if OneSixth <= Frac(h) <= 0.5 { Top(m1, m2, Frac(h)); }
      if OneSixth <= Frac(h - OneThird) <= 0.5 { Top(m1, m2, Frac(h - OneThird)); }
      if TwoThird <= Frac(h + OneThird) { Bottom(m1, m2, Frac(h + OneThird)); }
      if TwoThird <= Frac(h) { Bottom(m1, m2, Frac(h)); }
      if TwoThird <= Frac(h - OneThird) { Bottom(m1, m2, Frac(h - OneThird)); }
    }
  }

  lemma TruncByte(x: real)
    requires InUnit(x)
    ensures IsByte(Trunc(x * 255.0))
  {
  }

  /** `hls_to_hex` is the formatting of the truncated, scaled channels of `hls_to_rgb`. */
  lemma HlsToHexOfChannels(h: real, l: real, s: real, c: Unit)
    requires c == HlsToRgb(h, l, s)
    ensures HlsToHex(h, l, s) == FormatRgb(Trunc(c.r * 255.0), Trunc(c.g * 255.0), Trunc(c.b * 255.0))
  {
  }

  /** For lightness and saturation in [0, 1], `hls_to_hex` yields `#` and
      six uppercase hex digits that decode to bytes. */
  lemma HlsToHexCanonical(h: real, l: real, s: real)
    requires InUnit(l) && InUnit(s)
    ensures IsCanonicalHex(HlsToHex(h, l, s))
  {
    HlsToRgbRange(h, l, s);
    var c := HlsToRgb(h, l, s);
    HlsToHexOfChannels(h, l, s, c);
    TruncByte(c.r);
    TruncByte(c.g);
    TruncByte(c.b);
    var r, g, b := Trunc(c.r * 255.0), Trunc(c.g * 255.0), Trunc(c.b * 255.0);
    FormatRgbCanonical(r, g, b);
  }

  /** Because `hls_to_rgb` keeps the lightness, a lightness of at least
      1/255 and below 1 never formats as pure black or pure white. */
  lemma HlsToHexNeitherExtreme(h: real, l: real, s: real)
    requires 1.0 / 255.0 <= l < 1.0 && InUnit(s)
    ensures HlsToHex(h, l, s) != "#000000" && HlsToHex(h, l, s) != "#FFFFFF"
  {
    var u := HlsToRgb(h, l, s);
    HlsToRgbRange(h, l, s);
    HlsToRgbLightness(h, l, s);
    HlsToHexOfChannels(h, l, s, u);
    TruncByte(u.r);
    TruncByte(u.g);
    TruncByte(u.b);
    var r, g, b := Trunc(u.r * 255.0), Trunc(u.g * 255.0), Trunc(u.b * 255.0);
    var hi := Max(Max(u.r, u.g), u.b);
    var lo := Min(Min(u.r, u.g), u.b);
    assert hi >= l && lo <= l;
    assert r > 0 || g > 0 || b > 0 by {
      assert hi == u.r || hi == u.g || hi == u.b;
    }
    assert r < 255 || g < 255 || b < 255 by {
      assert lo == u.r || lo == u.g || lo == u.b;
    }
    FormatNotBlack(r, g, b);
    FormatNotWhite(r, g, b);
  }

  /** Full lightness is white and zero lightness is black, for any hue and
      saturation. */
  lemma HlsToHexExtremes(h: real, s: real)
    ensures HlsToHex(h, 1.0, s) == "#FFFFFF"
    ensures HlsToHex(h, 0.0, s) == "#000000"
  {
    HueChannelAt(1.0, h + OneThird);
    HueChannelAt(1.0, h);
    HueChannelAt(1.0, h - OneThird);
    HueChannelAt(0.0, h + OneThird);
    HueChannelAt(0.0, h);
    HueChannelAt(0.0, h - OneThird);
    FormatRgbCanonical(255, 255, 255);
    FormatRgbCanonical(0, 0, 0);
  }

  lemma HueChannelAt(v: real, hue: real)
    ensures HueChannel(v, v, hue) == v
  {
    assert Lerp(v, v, Frac(hue) * 6.0) == v;
    assert Lerp(v, v, (TwoThird - Frac(hue)) * 6.0) == v;
  }

  lemma DivSub(a: real, b: real, d: real)
    requires d != 0.0
    ensures a / d - b / d == (a - b) / d
  {
  }

  lemma Product(x: real, d: real)
    requires d != 0.0
    ensures (x / d) * d == x
  {
  }

  lemma PositiveQuotient(a: real, d: real)
    requires a > 0.0 && d > 0.0
    ensures a / d > 0.0
  {
  }

  lemma NonNegativeQuotient(a: real, d: real)
    requires a >= 0.0 && d > 0.0
    ensures a / d >= 0.0
  {
  }

  lemma DivAdd(a: real, b: real, d: real)
    requires d != 0.0
    ensures a / d + b / d == (a + b) / d
  {
  }

  /** A quotient by a positive number lies in [-1, 1] when the numerator
      lies in [-d, d], with strictness carried over. */
  lemma Quotient(x: real, d: real)
    requires d > 0.0 && -d <= x <= d
    ensures -1.0 <= x / d <= 1.0
    ensures x < d ==> x / d < 1.0
    ensures -d < x ==> -1.0 < x / d
    ensures (0.0 <= x) == (0.0 <= x / d)
  {
    DivAdd(x, d, d);
    DivAdd(d - x, x, d);
    assert d / d == 1.0;
    NonNegativeQuotient(x + d, d);
    NonNegativeQuotient(d - x, d);
    if x < d { PositiveQuotient(d - x, d); }
    if -d < x { PositiveQuotient(x + d, d); }
    if 0.0 < x { PositiveQuotient(x, d); }
    if x < 0.0 { PositiveQuotient(-x, d); DivAdd(x, -x, d); }
  }

  lemma LowLightness(maxc: real, minc: real)
    requires maxc + minc != 0.0
    ensures var s := (maxc - minc) / (maxc + minc); (maxc + minc) / 2.0 * (1.0 + s) == maxc
  {
    var sumc := maxc + minc;
    var s := (maxc - minc) / sumc;
    assert s * sumc == maxc - minc;
    assert sumc / 2.0 * (1.0 + s) == sumc / 2.0 + (s * sumc) / 2.0;
  }

  lemma HighLightness(maxc: real, minc: real)
    requires 2.0 - maxc - minc != 0.0
    ensures var l := (maxc + minc) / 2.0; var s := (maxc - minc) / (2.0 - maxc - minc);
      l + s - l * s == maxc
  {
    var l := (maxc + minc) / 2.0;
    var e := 2.0 - maxc - minc;
    var s := (maxc - minc) / e;
    assert s * e == maxc - minc;
    assert l + s - l * s == l + (s * e) / 2.0;
  }

  /** `m2` and `m1` of `hls_to_rgb` recover the largest and the smallest
      channel from the lightness and saturation `rgb_to_hls` produced. */
  lemma ExtremesRecovered(maxc: real, minc: real)
    requires minc < maxc
    requires var l := (maxc + minc) / 2.0;
      (l <= 0.5 && maxc + minc != 0.0) || (l > 0.5 && 2.0 - maxc - minc != 0.0)
    ensures var l := (maxc + minc) / 2.0;
      var s := if l <= 0.5 then (maxc - minc) / (maxc + minc) else (maxc - minc) / (2.0 - maxc - minc);
      var m2 := if l <= 0.5 then l * (1.0 + s) else l + s - l * s;
      s != 0.0 && m2 == maxc && 2.0 * l - m2 == minc
  {
    var l := (maxc + minc) / 2.0;
    if l <= 0.5 {
      LowLightness(maxc, minc);
    } else {
      HighLightness(maxc, minc);
    }
  }

  // The four segments of the hue wheel, closed at the ends where
  // neighbouring segments agree.

  lemma Rising(m1: real, m2: real, t: real)
    requires t <= OneSixth
    ensures Wheel(m1, m2, t) == Lerp(m1, m2, 6.0 * t)
  {
    if t == OneSixth { assert Lerp(m1, m2, 1.0) == m2; }
  }

  lemma Top(m1: real, m2: real, t: real)
    requires OneSixth <= t <= 0.5
    ensures Wheel(m1, m2, t) == m2
  {
    if t == 0.5 { assert Lerp(m1, m2, 1.0) == m2; }
  }

  lemma Falling(m1: real, m2: real, t: real)
    requires 0.5 <= t <= TwoThird
    ensures Wheel(m1, m2, t) == Lerp(m1, m2, 4.0 - 6.0 * t)
  {
    if t == 0.5 { assert Lerp(m1, m2, 1.0) == m2; }
    if t == TwoThird { assert Lerp(m1, m2, 0.0) == m1; }
  }

  lemma Bottom(m1: real, m2: real, t: real)
    requires TwoThird <= t
    ensures Wheel(m1, m2, t) == m1
  {
  }

  lemma LerpBy(m: real, maxc: real, q: real, v: real)
    requires q * (maxc - m) == v - m
    ensures Lerp(m, maxc, q) == v
  {
  }

  /** Hue sector where red is largest: before the remainder the hue is
      `q / 6`, and `q` scales the spread `maxc - m` to `g - b`. */
  lemma RedSector(m: real, maxc: real, g: real, b: real, q: real)
    requires m < maxc && m <= g <= maxc && m <= b <= maxc && (m == g || m == b)
    requires q * (maxc - m) == g - b && -1.0 <= q <= 1.0 && (q >= 0.0) == (g >= b)
    ensures var h := Frac(q / 6.0);
      HueChannel(m, maxc, h + OneThird) == maxc && HueChannel(m, maxc, h) == g
      && HueChannel(m, maxc, h - OneThird) == b
  {
    var x := q / 6.0;
    var h := Frac(x);
    FracOfFracPlus(x, OneThird);
    FracOfFracPlus(x, -OneThird);
    FracOf(x + OneThird, 0);
    FracOf(x - OneThird, -1);
    Top(m, maxc, x + OneThird);
    if q >= 0.0 {
      FracOf(x, 0);
      FracOf(h, 0);
      Rising(m, maxc, x);
      LerpBy(m, maxc, q, g);
      Bottom(m, maxc, x + TwoThird);
    } else {
      FracOf(x, -1);
      FracOf(h, 0);
      Bottom(m, maxc, x + 1.0);
      Falling(m, maxc, x + TwoThird);
      LerpBy(m, maxc, -q, b);
    }
  }

  /** Hue sector where green is largest and red is not; `q` scales the
      spread to `b - r`. */
  lemma GreenSector(m: real, maxc: real, r: real, b: real, q: real)
    requires m < maxc && m <= r < maxc && m <= b <= maxc && (m == r || m == b)
    requires q * (maxc - m) == b - r && -1.0 < q <= 1.0 && (q >= 0.0) == (b >= r)
    ensures var h := Frac((2.0 + q) / 6.0);
      HueChannel(m, maxc, h + OneThird) == r && HueChannel(m, maxc, h) == maxc
      && HueChannel(m, maxc, h - OneThird) == b
  {
    var x := (2.0 + q) / 6.0;
    var h := Frac(x);
    FracOf(x, 0);
    FracOf(h, 0);
    FracOfFracPlus(x, OneThird);
    FracOfFracPlus(x, -OneThird);
    FracOf(x + OneThird, 0);
    Top(m, maxc, x);
    if q >= 0.0 {
      Bottom(m, maxc, x + OneThird);
      FracOf(x - OneThird, 0);
      Rising(m, maxc, x - OneThird);
      LerpBy(m, maxc, q, b);
    } else {
      Falling(m, maxc, x + OneThird);
      LerpBy(m, maxc, -q, r);
      FracOf(x - OneThird, -1);
      Bottom(m, maxc, x - OneThird + 1.0);
    }
  }

  /** Hue sector where blue alone is largest; `q` scales the spread to `r - g`. */
  lemma BlueSector(m: real, maxc: real, r: real, g: real, q: real)
    requires m < maxc && m <= r < maxc && m <= g < maxc && (m == r || m == g)
    requires q * (maxc - m) == r - g && -1.0 < q < 1.0 && (q >= 0.0) == (r >= g)
    ensures var h := Frac((4.0 + q) / 6.0);
      HueChannel(m, maxc, h + OneThird) == r && HueChannel(m, maxc, h) == g
      && HueChannel(m, maxc, h - OneThird) == maxc
  {
    var x := (4.0 + q) / 6.0;
    var h := Frac(x);
    FracOf(x, 0);
    FracOf(h, 0);
    FracOfFracPlus(x, OneThird);
    FracOfFracPlus(x, -OneThird);
    FracOf(x - OneThird, 0);
    Top(m, maxc, x - OneThird);
    if q >= 0.0 {
      FracOf(x + OneThird, 1);
      Rising(m, maxc, x + OneThird - 1.0);
      LerpBy(m, maxc, q, r);
      Bottom(m, maxc, x);
    } else {
      FracOf(x + OneThird, 0);
      Bottom(m, maxc, x + OneThird);
      Falling(m, maxc, x);
      LerpBy(m, maxc, -q, g);
    }
  }

  /** With `m2` and `m1` equal to the extremes, `hls_to_rgb` reads the three
      channels off the hue wheel between them. */
  lemma HlsToRgbBetween(h: real, l: real, s: real, maxc: real, minc: real)
    requires s != 0.0
    requires (if l <= 0.5 then l * (1.0 + s) else l + s - l * s) == maxc
    requires 2.0 * l - maxc == minc
    ensures HlsToRgb(h, l, s) ==
      Unit(HueChannel(minc, maxc, h + OneThird), HueChannel(minc, maxc, h), HueChannel(minc, maxc, h - OneThird))
  {
  }

  /** The hue `rgb_to_hls` computes, before the remainder, per sector. */
  function SectorHue(r: real, g: real, b: real): real
    requires Min(Min(r, g), b) < Max(Max(r, g), b)
  {
    var maxc := Max(Max(r, g), b);
    var d := maxc - Min(Min(r, g), b);
    if r == maxc then (g - b) / d else if g == maxc then 2.0 + (b - r) / d else 4.0 + (r - g) / d
  }

  /** What `rgb_to_hls` returns for a colour that is not grey. */
  lemma RgbToHlsParts(r: real, g: real, b: real)
    requires RgbToHlsUnit(r, g, b).Ok?
    requires Min(Min(r, g), b) < Max(Max(r, g), b)
    ensures var maxc := Max(Max(r, g), b); var minc := Min(Min(r, g), b);
      var c := RgbToHlsUnit(r, g, b).value;
      c.l == (maxc + minc) / 2.0
      && ((c.l <= 0.5 && maxc + minc != 0.0) || (c.l > 0.5 && 2.0 - maxc - minc != 0.0))
      && IsHlsOf(r, g, b, c.h, c.l, c.s)
  {
    var maxc := Max(Max(r, g), b);
    var d := maxc - Min(Min(r, g), b);
    DivSub(maxc - b, maxc - g, d);
    DivSub(maxc - r, maxc - b, d);
    DivSub(maxc - g, maxc - r, d);
  }

  /** `(h, l, s)` are the parts `rgb_to_hls` computes for a colour that is not grey. */
  predicate IsHlsOf(r: real, g: real, b: real, h: real, l: real, s: real)
    requires Min(Min(r, g), b) < Max(Max(r, g), b)
  {
    var maxc := Max(Max(r, g), b);
    var minc := Min(Min(r, g), b);
    l == (maxc + minc) / 2.0
    && ((l <= 0.5 && maxc + minc != 0.0) || (l > 0.5 && 2.0 - maxc - minc != 0.0))
    && s == (if l <= 0.5 then (maxc - minc) / (maxc + minc) else (maxc - minc) / (2.0 - maxc - minc))
    && h == Frac(SectorHue(r, g, b) / 6.0)
  }

  lemma RedWheel(r: real, g: real, b: real, h: real, l: real, s: real)
    requires Min(Min(r, g), b) < Max(Max(r, g), b) == r
    requires s != 0.0 && (if l <= 0.5 then l * (1.0 + s) else l + s - l * s) == r
    requires 2.0 * l - r == Min(Min(r, g), b)
    requires h == Frac(SectorHue(r, g, b) / 6.0)
    ensures HlsToRgb(h, l, s) == Unit(r, g, b)
  {
    HlsToRgbBetween(h, l, s, r, Min(Min(r, g), b));
    RedChannels(r, g, b, h);
  }

  /** The three hue channels of the red sector give back the channels. */
  lemma RedChannels(r: real, g: real, b: real, h: real)
    requires Min(Min(r, g), b) < Max(Max(r, g), b) == r
    requires h == Frac(SectorHue(r, g, b) / 6.0)
    ensures var minc := Min(Min(r, g), b);
      HueChannel(minc, r, h + OneThird) == r && HueChannel(minc, r, h) == g && HueChannel(minc, r, h - OneThird) == b
  {
    var minc := Min(Min(r, g), b);
    var d := r - minc;
    Quotient(g - b, d);
    Product(g - b, d);
    RedSector(minc, r, g, b, (g - b) / d);
  }

  lemma RedRoundTrip(r: real, g: real, b: real, h: real, l: real, s: real)
    requires Min(Min(r, g), b) < Max(Max(r, g), b) == r
    requires IsHlsOf(r, g, b, h, l, s)
    ensures HlsToRgb(h, l, s) == Unit(r, g, b)
  {
    ExtremesRecovered(r, Min(Min(r, g), b));
    RedWheel(r, g, b, h, l, s);
  }

  lemma GreenWheel(r: real, g: real, b: real, h: real, l: real, s: real)
    requires Min(Min(r, g), b) < Max(Max(r, g), b) == g != r
    requires s != 0.0 && (if l <= 0.5 then l * (1.0 + s) else l + s - l * s) == g
    requires 2.0 * l - g == Min(Min(r, g), b)
    requires h == Frac(SectorHue(r, g, b) / 6.0)
    ensures HlsToRgb(h, l, s) == Unit(r, g, b)
  {
    HlsToRgbBetween(h, l, s, g, Min(Min(r, g), b));
    GreenChannels(r, g, b, h);
  }

  /** The three hue channels of the green sector give back the channels. */
  lemma GreenChannels(r: real, g: real, b: real, h: real)
    requires Min(Min(r, g), b) < Max(Max(r, g), b) == g != r
    requires h == Frac(SectorHue(r, g, b) / 6.0)
    ensures var minc := Min(Min(r, g), b);
      HueChannel(minc, g, h + OneThird) == r && HueChannel(minc, g, h) == g && HueChannel(minc, g, h - OneThird) == b
  {
    var minc := Min(Min(r, g), b);
    var d := g - minc;
    Quotient(b - r, d);
    Product(b - r, d);
    GreenSector(minc, g, r, b, (b - r) / d);
  }

  lemma GreenRoundTrip(r: real, g: real, b: real, h: real, l: real, s: real)
    requires Min(Min(r, g), b) < Max(Max(r, g), b) == g != r
    requires IsHlsOf(r, g, b, h, l, s)
    ensures HlsToRgb(h, l, s) == Unit(r, g, b)
  {
    ExtremesRecovered(g, Min(Min(r, g), b));
    GreenWheel(r, g, b, h, l, s);
  }

  lemma BlueWheel(r: real, g: real, b: real, h: real, l: real, s: real)
    requires Min(Min(r, g), b) < Max(Max(r, g), b) == b && b != r && b != g
    requires s != 0.0 && (if l <= 0.5 then l * (1.0 + s) else l + s - l * s) == b
    requires 2.0 * l - b == Min(Min(r, g), b)
    requires h == Frac(SectorHue(r, g, b) / 6.0)
    ensures HlsToRgb(h, l, s) == Unit(r, g, b)
  {
    HlsToRgbBetween(h, l, s, b, Min(Min(r, g), b));
    BlueChannels(r, g, b, h);
  }

  /** The three hue channels of the blue sector give back the channels. */
  lemma BlueChannels(r: real, g: real, b: real, h: real)
    requires Min(Min(r, g), b) < Max(Max(r, g), b) == b && b != r && b != g
    requires h == Frac(SectorHue(r, g, b) / 6.0)
    ensures var minc := Min(Min(r, g), b);
      HueChannel(minc, b, h + OneThird) == r && HueChannel(minc, b, h) == g && HueChannel(minc, b, h - OneThird) == b
  {
    var minc := Min(Min(r, g), b);
    var d := b - minc;
    Quotient(r - g, d);
    Product(r - g, d);
    BlueSector(minc, b, r, g, (r - g) / d);
  }

  lemma BlueRoundTrip(r: real, g: real, b: real, h: real, l: real, s: real)
    requires Min(Min(r, g), b) < Max(Max(r, g), b) == b && b != r && b != g
    requires IsHlsOf(r, g, b, h, l, s)
    ensures HlsToRgb(h, l, s) == Unit(r, g, b)
  {
    ExtremesRecovered(b, Min(Min(r, g), b));
    BlueWheel(r, g, b, h, l, s);
  }

  /** Exact-real round trip: wherever `rgb_to_hls` is defined,
      `hls_to_rgb` gives back the very same channels. */
  lemma HlsRoundTrip(r: real, g: real, b: real)
    requires RgbToHlsUnit(r, g, b).Ok?
    ensures var c := RgbToHlsUnit(r, g, b).value; HlsToRgb(c.h, c.l, c.s) == Unit(r, g, b)
  {
    var c := RgbToHlsUnit(r, g, b).value;
    if Min(Min(r, g), b) < Max(Max(r, g), b) {
      RgbToHlsParts(r, g, b);
      var maxc := Max(Max(r, g), b);
      if r == maxc {
        RedRoundTrip(r, g, b, c.h, c.l, c.s);
      } else if g == maxc {
        GreenRoundTrip(r, g, b, c.h, c.l, c.s);
      } else {
        BlueRoundTrip(r, g, b, c.h, c.l, c.s);
      }
    }
  }

  /** Hence `hls_to_hex(*rgb_to_hls(r, g, b))` re-encodes `(r, g, b)`
      exactly in the real-valued model. */
  lemma TruncScaled(n: int)
    ensures Trunc(n as real / 255.0 * 255.0) == n
  {
    assert n as real / 255.0 * 255.0 == n as real;
  }

  lemma HlsToHexOfBytes(x: Hls, c: Rgb)
    requires HlsToRgb(x.h, x.l, x.s) == Unit(c.r as real / 255.0, c.g as real / 255.0, c.b as real / 255.0)
    ensures HlsToHex(x.h, x.l, x.s) == FormatRgb(c.r, c.g, c.b)
  {
    HlsToHexOfChannels(x.h, x.l, x.s, Unit(c.r as real / 255.0, c.g as real / 255.0, c.b as real / 255.0));
    TruncScaled(c.r);
    TruncScaled(c.g);
    TruncScaled(c.b);
  }

  lemma HlsToHexOfRgbToHls(c: Rgb)
    requires RgbToHls(c).Ok?
    ensures var x := RgbToHls(c).value; HlsToHex(x.h, x.l, x.s) == FormatRgb(c.r, c.g, c.b)
  {
    HlsRoundTrip(c.r as real / 255.0, c.g as real / 255.0, c.b as real / 255.0);
    HlsToHexOfBytes(RgbToHls(c).value, c);
  }

  /** A valid six-digit colour survives hex -> RGB -> HLS -> hex, up to case. */
  lemma ValidHexHlsRoundTrip(s: string)
    requires IsValidHex(s) && |HexBody(s)| == 6
    ensures RgbToHls(HexToRgb(s)).Ok?
    ensures var x := RgbToHls(HexToRgb(s)).value; HlsToHex(x.h, x.l, x.s) == "#" + UpperAll(HexBody(s))
  {
    ValidHexInGamut(s);
    RgbToHlsInGamut(HexToRgb(s));
    HlsToHexOfRgbToHls(HexToRgb(s));
    FormatOfValidLong(s);
  }

  /** A canonical colour is a fixed point of that round trip. */
  lemma CanonicalHlsRoundTrip(s: string)
    requires IsCanonicalHex(s)
    ensures RgbToHls(HexToRgb(s)).Ok?
    ensures var x := RgbToHls(HexToRgb(s)).value; HlsToHex(x.h, x.l, x.s) == s
  {
    CanonicalRoundTrip(s);
    RgbToHlsInGamut(HexToRgb(s));
    HlsToHexOfRgbToHls(HexToRgb(s));
  }

  /** The test suite's `hls_to_hex(0.57, 0.53, 0.7) == "#3394DB"`. */
  lemma HlsToHexExample()
    ensures HlsToHex(0.57, 0.53, 0.7) == "#3394DB"
  {
    var m2 := 0.53 + 0.7 - 0.53 * 0.7;
    var m1 := 2.0 * 0.53 - m2;
    assert m2 == 0.859 && m1 == 0.201;
    FracOf(0.57 + OneThird, 0);
    FracOf(0.57, 0);
    FracOf(0.57 - OneThird, 0);
    var c := HlsToRgb(0.57, 0.53, 0.7);
    assert c.r == 0.201;
    assert c.g == 0.201 + 0.658 * (TwoThird - 0.57) * 6.0;
    assert c.b == 0.859;
    assert Trunc(c.r * 255.0) == 51;
    assert Trunc(c.g * 255.0) == 148;
    assert Trunc(c.b * 255.0) == 219;
    FormatRgbCanonical(51, 148, 219);
  }

  /** The test suite's `rgb_to_hls(52, 152, 219)`, equal to (0.57, 0.53, 0.7)
      to two places. */
  lemma RgbToHlsExample()
    ensures RgbToHls(Rgb(52, 152, 219)).Ok?
    ensures var x := RgbToHls(Rgb(52, 152, 219)).value;
      0.565 < x.h < 0.575 && 0.525 < x.l < 0.535 && 0.695 < x.s < 0.705
  {
    var r, g, b := 52.0 / 255.0, 152.0 / 255.0, 219.0 / 255.0;
    assert Max(Max(r, g), b) == b && Min(Min(r, g), b) == r;
    var d := b - r;
    assert (b - r) / d == 1.0;
    assert (b - g) / d == 67.0 / 167.0;
    var x := (4.0 + 67.0 / 167.0 - 1.0) / 6.0;
    FracOf(x, 0);
    assert (b - r) / (2.0 - b - r) == 167.0 / 239.0;
  }

  /** A signed slice such as `-5` makes `max + min` zero, and
      `rgb_to_hls` divides by it. */
  lemma RgbToHlsDivisionByZero()
    ensures RgbToHls(Rgb(-5, 5, 0)) == DivisionByZero
  {
  }
}
