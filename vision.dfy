/** `simulate_colorblindness` and `simulate_palette`: how a colour looks under
    a colour-vision deficiency, by a 3x3 matrix on the channels in [0, 1] or
    by the luminance weighting for grey. */
module Vision {
  import opened Results
  import opened HexCodec
  import opened ColorSpace

  /** The simulations the function knows. */
  datatype Deficiency = Protanopia | Deuteranopia | Tritanopia | Grayscale

  /** The `if`/`elif` chain on the simulation name; `None` for every name it
      does not know, "Normal Vision" included. */
  function DeficiencyOf(name: string): Option<Deficiency> {
    if name == "Protanopia" then Some(Protanopia)
    else if name == "Deuteranopia" then Some(Deuteranopia)
    else if name == "Tritanopia" then Some(Tritanopia)
    else if name == "Grayscale" then Some(Grayscale)
    else None
  }

  /** A 3x3 matrix by rows. */
  datatype Matrix = Matrix(row0: Unit, row1: Unit, row2: Unit)

  /** Red-blind, green-blind and blue-blind simulation matrices. */
  function MatrixOf(d: Deficiency): Matrix
    requires d != Grayscale
  {
    match d
    case Protanopia => Matrix(Unit(0.567, 0.433, 0.000), Unit(0.558, 0.442, 0.000), Unit(0.000, 0.242, 0.758))
    case Deuteranopia => Matrix(Unit(0.625, 0.375, 0.000), Unit(0.700, 0.300, 0.000), Unit(0.000, 0.300, 0.700))
    case Tritanopia => Matrix(Unit(0.950, 0.050, 0.000), Unit(0.000, 0.433, 0.567), Unit(0.000, 0.475, 0.525))
  }

  function Dot(row: Unit, v: Unit): real {
    row.r * v.r + row.g * v.g + row.b * v.b
  }

  /** `np.dot(matrix, rgb)`. */
  function Times(m: Matrix, v: Unit): Unit {
    Unit(Dot(m.row0, v), Dot(m.row1, v), Dot(m.row2, v))
  }

  /** The luminance weighting of the grey simulation. */
  function Gray(v: Unit): real {
    0.2126 * v.r + 0.7152 * v.g + 0.0722 * v.b
  }

  function Transform(d: Deficiency, v: Unit): Unit {
    if d == Grayscale then Unit(Gray(v), Gray(v), Gray(v)) else Times(MatrixOf(d), v)
  }

  /** `np.clip(_, 0, 1)` on each channel. */
  function Clip(v: Unit): (w: Unit)
    ensures InUnit(w.r) && InUnit(w.g) && InUnit(w.b)
  {
    Unit(Clamp(v.r, 0.0, 1.0), Clamp(v.g, 0.0, 1.0), Clamp(v.b, 0.0, 1.0))
  }

  /** The simulated channels: scaled into [0, 1], transformed, clipped and
      truncated by `int(c * 255)`, so always bytes. */
  function Simulated(d: Deficiency, c: Rgb): (s: Rgb)
    ensures InGamut(s)
  {
    var w := Clip(Transform(d, Unit(c.r as real / 255.0, c.g as real / 255.0, c.b as real / 255.0)));
    TruncByte(w.r);
    TruncByte(w.g);
    TruncByte(w.b);
    Rgb(Trunc(w.r * 255.0), Trunc(w.g * 255.0), Trunc(w.b * 255.0))
  }

  /** One known simulation, from text to text. */
  function SimulateAs(d: Deficiency, hexColor: string): (r: string)
    ensures IsCanonicalHex(r)
  {
    var s := Simulated(d, HexToRgb(hexColor));
    FormatRgbCanonical(s.r, s.g, s.b);
    FormatRgb(s.r, s.g, s.b)
  }

  /** `simulate_colorblindness`: the input itself for "Normal Vision" and for
      unknown names, else the named simulation. */
  function Simulate(hexColor: string, simulationType: string): string {
    if simulationType == "Normal Vision" then hexColor
    else
      match DeficiencyOf(simulationType)
      case None => hexColor
      case Some(d) => SimulateAs(d, hexColor)
  }

  /** `simulate_palette`: the palette itself for "Normal Vision", else the
      simulation of every entry, in order. */
  function SimulatePalette(palette: seq<string>, simulationType: string): (r: seq<string>)
    ensures |r| == |palette|
    ensures forall i :: 0 <= i < |palette| ==> r[i] == Simulate(palette[i], simulationType)
  {
    if simulationType == "Normal Vision" then palette
    else seq(|palette|, i requires 0 <= i < |palette| => Simulate(palette[i], simulationType))
  }

  /** Names the function does not simulate leave the colour as it is, and
      every name it simulates yields the canonical `#RRGGBB` form. */
  lemma SimulateOutcome(hexColor: string, simulationType: string)
    ensures DeficiencyOf(simulationType).None? ==> Simulate(hexColor, simulationType) == hexColor
    ensures DeficiencyOf(simulationType).Some? ==> IsCanonicalHex(Simulate(hexColor, simulationType))
  {
    if DeficiencyOf(simulationType).Some? {
      assert simulationType != "Normal Vision";
    }
  }

  /** The known names. */
  lemma DeficiencyNames(name: string)
    ensures DeficiencyOf(name).Some? <==>
      name == "Protanopia" || name == "Deuteranopia" || name == "Tritanopia" || name == "Grayscale"
    ensures DeficiencyOf("Normal Vision").None?
  {
  }

  /** Grey simulation gives equal red, green and blue. */
  lemma GrayscaleIsGray(hexColor: string)
    ensures var c := HexToRgb(Simulate(hexColor, "Grayscale")); c.r == c.g == c.b
  {
    var s := Simulated(Grayscale, HexToRgb(hexColor));
    assert s.r == s.g == s.b;
    assert Simulate(hexColor, "Grayscale") == FormatRgb(s.r, s.g, s.b);
    HexToRgbOfFormat(s.r, s.g, s.b);
  }

  /** Every row of the three matrices, and the grey weights, sum to one. */
  lemma RowsSumToOne(d: Deficiency, t: real)
    ensures Transform(d, Unit(t, t, t)) == Unit(t, t, t)
  {
  }

  /** A grey colour looks the same under every simulation. */
  lemma SimulateKeepsGray(v: int, simulationType: string)
    requires IsByte(v) && DeficiencyOf(simulationType).Some?
    ensures Simulate(FormatRgb(v, v, v), simulationType) == FormatRgb(v, v, v)
  {
    assert simulationType != "Normal Vision";
    HexToRgbOfFormat(v, v, v);
    SimulatedGray(DeficiencyOf(simulationType).value, v);
  }

  lemma SimulatedGray(d: Deficiency, v: int)
    requires IsByte(v)
    ensures Simulated(d, Rgb(v, v, v)) == Rgb(v, v, v)
  {
    var t := v as real / 255.0;
    RowsSumToOne(d, t);
    assert Clip(Unit(t, t, t)) == Unit(t, t, t);
    assert t * 255.0 == v as real;
  }

  /** Grey simulation is idempotent: its output is grey, and greys are
      fixed. */
  lemma GrayscaleIdempotent(hexColor: string)
    ensures Simulate(Simulate(hexColor, "Grayscale"), "Grayscale") == Simulate(hexColor, "Grayscale")
  {
    var s := Simulated(Grayscale, HexToRgb(hexColor));
    assert s.r == s.g == s.b;
    assert Simulate(hexColor, "Grayscale") == FormatRgb(s.r, s.r, s.r);
    SimulateKeepsGray(s.r, "Grayscale");
  }

  /** The palette keeps its length and order; names the function does not
      simulate leave the whole palette unchanged. */
  lemma SimulatePaletteUnknown(palette: seq<string>, simulationType: string)
    requires DeficiencyOf(simulationType).None?
    ensures SimulatePalette(palette, simulationType) == palette
  {
    forall i | 0 <= i < |palette|
      ensures SimulatePalette(palette, simulationType)[i] == palette[i]
    {
      SimulateOutcome(palette[i], simulationType);
    }
  }

  /** Every entry of a simulated palette is canonical. */
  lemma SimulatePaletteCanonical(palette: seq<string>, simulationType: string)
    requires DeficiencyOf(simulationType).Some?
    ensures forall i :: 0 <= i < |palette| ==> IsCanonicalHex(SimulatePalette(palette, simulationType)[i])
  {
    forall i | 0 <= i < |palette|
      ensures IsCanonicalHex(SimulatePalette(palette, simulationType)[i])
    {
      SimulateOutcome(palette[i], simulationType);
    }
  }
}
