/** `generate_scheme`: a palette derived from a base colour by moving its
    lightness (monochromatic) or its hue (every other kind) in HLS space. */
module Schemes {
  import opened Results
  import opened HexCodec
  import opened ColorSpace

  /** What an invalid base colour is replaced with. */
  const Fallback: string := "#3498DB"

  /** Thirty degrees of hue. */
  const Deg30: real := 30.0 / 360.0

  /** The kinds `generate_scheme` tells apart; every other name falls to
      the last branch, which spaces the hues evenly. */
  datatype Kind = Monochromatic | Analogous | Complementary | SplitComplementary | Triadic | Tetradic | Even

  /** The `if`/`elif` chain on the scheme name. */
  function KindOf(scheme: string): Kind {
    if scheme == "Monochromatic" then Monochromatic
    else if scheme == "Analogous" then Analogous
    else if scheme == "Complementary" then Complementary
    else if scheme == "Split-Complementary" then SplitComplementary
    else if scheme == "Triadic" then Triadic
    else if scheme == "Tetradic" then Tetradic
    else Even
  }

  /** The kinds that spread `n` colours over an interval and so divide by
      `n - 1`. */
  predicate Spread(kind: Kind) {
    kind == Monochromatic || kind == Analogous || kind == Complementary
  }

  /** How many colours a kind yields: three or four for the fixed kinds,
      `n` (none when `n` is not positive) for the others. */
  function Count(kind: Kind, n: int): (k: nat)
    ensures kind == SplitComplementary || kind == Triadic ==> k == 3
    ensures kind == Tetradic ==> k == 4
    ensures kind != SplitComplementary && kind != Triadic && kind != Tetradic ==>
      k == if n > 0 then n else 0
  {
    match kind
    case SplitComplementary => 3
    case Triadic => 3
    case Tetradic => 4
    case _ => if n > 0 then n else 0
  }

  /** The HLS triple behind entry `i` of a scheme built on `x`. */
  function Member(kind: Kind, x: Hls, n: int, i: nat): Hls
    requires i < Count(kind, n) && !(Spread(kind) && n == 1)
  {
    match kind
    case Monochromatic =>
      Hls(x.h, Clamp(x.l - 0.5 / 2.0 + 0.5 * i as real / (n - 1) as real, 0.1, 0.9), x.s)
    case Analogous =>
      Hls(Frac(x.h - Deg30 + 2.0 * Deg30 * i as real / (n - 1) as real), x.l, x.s)
    case Complementary =>
      Hls(Frac(x.h + 0.5 * i as real / (n - 1) as real), x.l, x.s)
    case SplitComplementary =>
      Hls([x.h, Frac(x.h + 150.0 / 360.0), Frac(x.h + 210.0 / 360.0)][i], x.l, x.s)
    case Triadic =>
      Hls(Frac(x.h + i as real / 3.0), x.l, x.s)
    case Tetradic =>
      Hls(Frac(x.h + i as real / 4.0), x.l, x.s)
    case Even =>
      Hls(Frac(x.h + i as real / n as real), x.l, x.s)
  }

  /** `hls_to_hex` on a triple. */
  function Paint(y: Hls): string {
    HlsToHex(y.h, y.l, y.s)
  }

  /** The first `k` colours of a scheme, each member painted by `paint`. */
  function Colors(paint: Hls -> string, kind: Kind, x: Hls, n: int, k: nat): (p: seq<string>)
    requires k <= Count(kind, n) && !(Spread(kind) && n == 1)
    ensures |p| == k
  {
    if k == 0 then [] else Colors(paint, kind, x, n, k - 1) + [paint(Member(kind, x, n, k - 1))]
  }

  /** The colours of one kind built on `x`, or the raise where `n - 1` is
      zero. */
  function Built(paint: Hls -> string, kind: Kind, x: Hls, n: int): Result<seq<string>> {
    if Spread(kind) && n == 1 then DivisionByZero else Ok(Colors(paint, kind, x, n, Count(kind, n)))
  }

  /** `generate_scheme` as a value: the fallback palette for an invalid
      base, else the colours of the named kind built on the base's HLS
      triple. */
  function Scheme(baseHex: string, scheme: string, n: int): Result<seq<string>> {
    if !IsValidHex(baseHex) then Ok(seq(if n > 0 then n else 0, _ => Fallback))
    else
      match RgbToHls(HexToRgb(baseHex))
      case DivisionByZero => DivisionByZero
      case Ok(x) => Built(Paint, KindOf(scheme), x, n)
  }

  /** The fixed kinds do not look at `n`. */
  lemma {:induction false} FixedIgnoresCount(paint: Hls -> string, kind: Kind, x: Hls, n: int, m: int, k: nat)
    requires kind == SplitComplementary || kind == Triadic || kind == Tetradic
    requires k <= Count(kind, n)
    ensures Colors(paint, kind, x, n, k) == Colors(paint, kind, x, m, k)
  {
    if k > 0 {
      FixedIgnoresCount(paint, kind, x, n, m, k - 1);
    }
  }

  /** `generate_scheme`: the validity test, the conversion of the base, and
      the branch for the named kind; each branch paints with `hls_to_hex`. */
  method GenerateScheme(baseHex: string, scheme: string, n: int) returns (r: Result<seq<string>>)
    ensures r == Scheme(baseHex, scheme, n)
  {
    if !IsValidHex(baseHex) {
      return Ok(seq(if n > 0 then n else 0, _ => Fallback));
    }
    var hls := RgbToHls(HexToRgb(baseHex));
    if hls.DivisionByZero? {
      return DivisionByZero;
    }
    var x := hls.value;
    match KindOf(scheme)
    case Monochromatic => r := MonochromaticColors(x, n, Paint);
    case Analogous => r := AnalogousColors(x, n, Paint);
    case Complementary => r := ComplementaryColors(x, n, Paint);
    case SplitComplementary =>
      r := SplitComplementaryColors(x, Paint);
      FixedIgnoresCount(Paint, SplitComplementary, x, 3, n, 3);
    case Triadic =>
      r := TriadicColors(x, Paint);
      FixedIgnoresCount(Paint, Triadic, x, 3, n, 3);
    case Tetradic =>
      r := TetradicColors(x, Paint);
      FixedIgnoresCount(Paint, Tetradic, x, 4, n, 4);
    case Even => r := EvenColors(x, n, Paint);
  }

  /** Lightness spread over half the unit around the base's, clamped to
      [0.1, 0.9]. */
  method MonochromaticColors(x: Hls, n: int, paint: Hls -> string) returns (r: Result<seq<string>>)
    ensures r == Built(paint, Monochromatic, x, n)
  {
    var span := 0.5;
    var colors: seq<string> := [];
    var i := 0;
    while i < n
      invariant 0 <= i <= Count(Monochromatic, n)
      invariant n != 1 ==> colors == Colors(paint, Monochromatic, x, n, i)
      invariant n == 1 ==> i == 0
    {
      if n - 1 == 0 {
        // `range(1)` runs once, and its first step divides by zero.
        return DivisionByZero;
      }
      var li := Clamp(x.l - span / 2.0 + span * i as real / (n - 1) as real, 0.1, 0.9);
      colors := colors + [paint(Hls(x.h, li, x.s))];
      i := i + 1;
    }
    return Ok(colors);
  }

  /** Hues from thirty degrees below the base's to thirty above. */
  method AnalogousColors(x: Hls, n: int, paint: Hls -> string) returns (r: Result<seq<string>>)
    ensures r == Built(paint, Analogous, x, n)
  {
    var deg := 30.0 / 360.0;
    var colors: seq<string> := [];
    var i := 0;
    while i < n
      invariant 0 <= i <= Count(Analogous, n)
      invariant n != 1 ==> colors == Colors(paint, Analogous, x, n, i)
      invariant n == 1 ==> i == 0
    {
      if n - 1 == 0 {
        return DivisionByZero;
      }
      var hi := Frac(x.h - deg + 2.0 * deg * i as real / (n - 1) as real);
      colors := colors + [paint(Hls(hi, x.l, x.s))];
      i := i + 1;
    }
    return Ok(colors);
  }

  /** Hues from the base's to its opposite. */
  method ComplementaryColors(x: Hls, n: int, paint: Hls -> string) returns (r: Result<seq<string>>)
    ensures r == Built(paint, Complementary, x, n)
  {
    var colors: seq<string> := [];
    var i := 0;
    while i < n
      invariant 0 <= i <= Count(Complementary, n)
      invariant n != 1 ==> colors == Colors(paint, Complementary, x, n, i)
      invariant n == 1 ==> i == 0
    {
      if n - 1 == 0 {
        return DivisionByZero;
      }
      var hi := Frac(x.h + 0.5 * i as real / (n - 1) as real);
      colors := colors + [paint(Hls(hi, x.l, x.s))];
      i := i + 1;
    }
    return Ok(colors);
  }

  /** The base hue and the two hues 150 and 210 degrees from it. */
  method SplitComplementaryColors(x: Hls, paint: Hls -> string) returns (r: Result<seq<string>>)
    ensures r == Built(paint, SplitComplementary, x, 3)
  {
    var angles := [x.h, Frac(x.h + 150.0 / 360.0), Frac(x.h + 210.0 / 360.0)];
    var colors: seq<string> := [];
    for k := 0 to 3
      invariant colors == Colors(paint, SplitComplementary, x, 3, k)
    {
      colors := colors + [paint(Hls(angles[k], x.l, x.s))];
    }
    return Ok(colors);
  }

  /** Three hues a third of the wheel apart. */
  method TriadicColors(x: Hls, paint: Hls -> string) returns (r: Result<seq<string>>)
    ensures r == Built(paint, Triadic, x, 3)
  {
    var colors: seq<string> := [];
    for k := 0 to 3
      invariant colors == Colors(paint, Triadic, x, 3, k)
    {
      var ai := Frac(x.h + k as real / 3.0);
      colors := colors + [paint(Hls(ai, x.l, x.s))];
    }
    return Ok(colors);
  }

  /** Four hues a quarter of the wheel apart. */
  method TetradicColors(x: Hls, paint: Hls -> string) returns (r: Result<seq<string>>)
    ensures r == Built(paint, Tetradic, x, 4)
  {
    var colors: seq<string> := [];
    for k := 0 to 4
      invariant colors == Colors(paint, Tetradic, x, 4, k)
    {
      var ai := Frac(x.h + k as real / 4.0);
      colors := colors + [paint(Hls(ai, x.l, x.s))];
    }
    return Ok(colors);
  }

  /** The fallback branch: `n` hues spaced evenly round the wheel. */
  method EvenColors(x: Hls, n: int, paint: Hls -> string) returns (r: Result<seq<string>>)
    ensures r == Built(paint, Even, x, n)
  {
    var colors: seq<string> := [];
    var i := 0;
    while i < n
      invariant 0 <= i <= Count(Even, n)
      invariant colors == Colors(paint, Even, x, n, i)
    {
      var hi := Frac(x.h + i as real / n as real);
      colors := colors + [paint(Hls(hi, x.l, x.s))];
      i := i + 1;
    }
    return Ok(colors);
  }

  /** Entry `j` of the first `k` colours is member `j`, painted. */
  lemma {:induction false} ColorsAt(paint: Hls -> string, kind: Kind, x: Hls, n: int, k: nat, j: nat)
    requires k <= Count(kind, n) && !(Spread(kind) && n == 1) && j < k
    ensures Colors(paint, kind, x, n, k)[j] == paint(Member(kind, x, n, j))
    decreases k
  {
    if j < k - 1 {
      ColorsAt(paint, kind, x, n, k - 1, j);
    }
  }

  /** Monochromatic keeps hue and saturation and clamps lightness into
      [0.1, 0.9]; every other kind keeps lightness and saturation and moves
      the hue, which stays in [0, 1). */
  lemma MemberShape(kind: Kind, x: Hls, n: int, i: nat)
    requires i < Count(kind, n) && !(Spread(kind) && n == 1)
    requires 0.0 <= x.h < 1.0
    ensures Member(kind, x, n, i).s == x.s
    ensures kind == Monochromatic ==> Member(kind, x, n, i).h == x.h && 0.1 <= Member(kind, x, n, i).l <= 0.9
    ensures kind != Monochromatic ==> Member(kind, x, n, i).l == x.l && 0.0 <= Member(kind, x, n, i).h < 1.0
  {
  }

  /** The name chain picks each named kind for its own name only. */
  lemma KindOfNames(scheme: string)
    ensures KindOf(scheme) == Monochromatic <==> scheme == "Monochromatic"
    ensures KindOf(scheme) == Analogous <==> scheme == "Analogous"
    ensures KindOf(scheme) == Complementary <==> scheme == "Complementary"
    ensures KindOf(scheme) == SplitComplementary <==> scheme == "Split-Complementary"
    ensures KindOf(scheme) == Triadic <==> scheme == "Triadic"
    ensures KindOf(scheme) == Tetradic <==> scheme == "Tetradic"
  {
  }

  /** On a valid base the conversion never raises; the scheme raises exactly
      for a spreading kind with `n == 1`, and otherwise its colours are the
      kind's members in order, painted, each in canonical form. */
  lemma SchemeEntries(baseHex: string, scheme: string, n: int)
    requires IsValidHex(baseHex)
    ensures RgbToHls(HexToRgb(baseHex)).Ok?
    ensures var r := Scheme(baseHex, scheme, n);
      r.DivisionByZero? <==> Spread(KindOf(scheme)) && n == 1
    ensures var r, x, kind := Scheme(baseHex, scheme, n), RgbToHls(HexToRgb(baseHex)).value, KindOf(scheme);
      r.Ok? ==> (|r.value| == Count(kind, n) &&
        forall i :: 0 <= i < |r.value| ==>
          i < Count(kind, n) && r.value[i] == Paint(Member(kind, x, n, i)) && IsCanonicalHex(r.value[i]))
  {
    ValidHexInGamut(baseHex);
    RgbToHlsInGamut(HexToRgb(baseHex));
    var x, kind := RgbToHls(HexToRgb(baseHex)).value, KindOf(scheme);
    if !(Spread(kind) && n == 1) {
      var k := Count(kind, n);
      forall i | 0 <= i < k
        ensures Colors(Paint, kind, x, n, k)[i] == Paint(Member(kind, x, n, i))
        ensures IsCanonicalHex(Paint(Member(kind, x, n, i)))
      {
        ColorsAt(Paint, kind, x, n, k, i);
        MemberShape(kind, x, n, i);
        var y := Member(kind, x, n, i);
        HlsToHexCanonical(y.h, y.l, y.s);
      }
    }
  }

  /** How many colours come back: `n` (none for `n <= 0`) copies of the
      fallback for an invalid base; for a valid one three for
      "Split-Complementary" and "Triadic", four for "Tetradic", and `n` for
      every other name. */
  lemma SchemeArity(baseHex: string, scheme: string, n: int)
    ensures !IsValidHex(baseHex) ==> (Scheme(baseHex, scheme, n).Ok? &&
      |Scheme(baseHex, scheme, n).value| == (if n > 0 then n else 0) &&
      forall i :: 0 <= i < |Scheme(baseHex, scheme, n).value| ==> Scheme(baseHex, scheme, n).value[i] == Fallback)
    ensures IsValidHex(baseHex) && Scheme(baseHex, scheme, n).Ok? ==>
      |Scheme(baseHex, scheme, n).value| ==
        if scheme == "Split-Complementary" || scheme == "Triadic" then 3
        else if scheme == "Tetradic" then 4
        else if n > 0 then n else 0
  {
    KindOfNames(scheme);
    if IsValidHex(baseHex) {
      SchemeEntries(baseHex, scheme, n);
    }
  }

  /** The fallback colour is itself in canonical form. */
  lemma FallbackCanonical()
    ensures IsCanonicalHex(Fallback) && IsValidHex(Fallback)
  {
    CanonicalIsValid(Fallback);
  }

  /** The kinds that start at the base hue give the base colour itself (in
      upper case) as their first entry. */
  lemma SchemeStartsAtBase(baseHex: string, scheme: string, n: int)
    requires IsValidHex(baseHex) && |HexBody(baseHex)| == 6
    requires KindOf(scheme) != Monochromatic && KindOf(scheme) != Analogous
    requires Scheme(baseHex, scheme, n).Ok? && |Scheme(baseHex, scheme, n).value| > 0
    ensures Scheme(baseHex, scheme, n).value[0] == "#" + UpperAll(HexBody(baseHex))
  {
    SchemeEntries(baseHex, scheme, n);
    ValidHexHlsRoundTrip(baseHex);
    var x, kind := RgbToHls(HexToRgb(baseHex)).value, KindOf(scheme);
    ValidHexInGamut(baseHex);
    RgbToHlsInGamut(HexToRgb(baseHex));
    var r := Scheme(baseHex, scheme, n).value;
    assert r[0] == Paint(Member(kind, x, n, 0));
    MemberZero(kind, x, n);
    assert Paint(x) == HlsToHex(x.h, x.l, x.s);
  }

  lemma MemberZero(kind: Kind, x: Hls, n: int)
    requires kind != Monochromatic && kind != Analogous
    requires 0 < Count(kind, n) && !(Spread(kind) && n == 1) && 0.0 <= x.h < 1.0
    ensures Member(kind, x, n, 0) == x
  {
    FracOf(x.h, 0);
  }

  /** Triadic hues are a third of the wheel apart, tetradic ones a quarter. */
  lemma EvenlySpaced(x: Hls, n: int, i: nat)
    ensures i < 2 ==> Member(Triadic, x, n, i + 1).h == Frac(Member(Triadic, x, n, i).h + 1.0 / 3.0)
    ensures i < 3 ==> Member(Tetradic, x, n, i + 1).h == Frac(Member(Tetradic, x, n, i).h + 1.0 / 4.0)
  {
    FracOfFracPlus(x.h + i as real / 3.0, 1.0 / 3.0);
    FracOfFracPlus(x.h + i as real / 4.0, 1.0 / 4.0);
  }

  /** Complementary runs from the base hue to its opposite; analogous from
      thirty degrees below the base hue to thirty above. */
  lemma SpreadEnds(x: Hls, n: int)
    requires n >= 2 && 0.0 <= x.h < 1.0
    ensures Member(Complementary, x, n, 0).h == x.h
    ensures Member(Complementary, x, n, n - 1).h == Frac(x.h + 0.5)
    ensures Member(Analogous, x, n, 0).h == Frac(x.h - Deg30)
    ensures Member(Analogous, x, n, n - 1).h == Frac(x.h + Deg30)
  {
    FracOf(x.h, 0);
    var d := (n - 1) as real;
    assert 0.5 * (n - 1) as real / d == 0.5;
    assert 2.0 * Deg30 * (n - 1) as real / d == 2.0 * Deg30;
  }

  /** Monochromatic lightness never decreases along the scheme. */
  lemma MonochromaticRises(x: Hls, n: int, i: nat, j: nat)
    requires i <= j < Count(Monochromatic, n) && n != 1
    ensures Member(Monochromatic, x, n, i).l <= Member(Monochromatic, x, n, j).l
  {
    var d := (n - 1) as real;
    DivSub(0.5 * j as real, 0.5 * i as real, d);
    NonNegativeQuotient(0.5 * j as real - 0.5 * i as real, d);
  }
}
