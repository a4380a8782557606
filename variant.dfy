/** `_create_variant`: a light or dark variant of a palette, made by
    rewriting each entry's lightness (and, in one slot, its saturation) by
    the entry's position. */
module Variant {
  import opened Results
  import opened HexCodec
  import opened ColorSpace

  /** The dark rule for slot `i`: background, surface and accent slots jump
      to fixed lightnesses on the far side of their own, the text slot turns
      near-black and greyish, and every later slot mirrors its lightness. */
  function Slot(i: nat, x: Hls): Hls {
    if i == 0 then Hls(x.h, if x.l < 0.5 then 0.7 else 0.3, x.s)
    else if i == 1 then Hls(x.h, if x.l < 0.5 then 0.6 else 0.4, x.s)
    else if i == 2 then Hls(x.h, if x.l < 0.5 then 0.8 else 0.75, x.s)
    else if i == 3 then Hls(x.h, 0.1, Min(x.s, 0.3))
    else Hls(x.h, 1.0 - x.l, x.s)
  }

  /** Dark mode applies the slot rule; any other mode keeps the triple. */
  function Recolor(dark: bool, i: nat, x: Hls): Hls {
    if dark then Slot(i, x) else x
  }

  /** Entry `i` of the variant, or the raise of `rgb_to_hls`. */
  function Entry(dark: bool, i: nat, color: string): Result<string> {
    match RgbToHls(HexToRgb(color))
    case DivisionByZero => DivisionByZero
    case Ok(x) =>
      var y := Recolor(dark, i, x);
      Ok(HlsToHex(y.h, y.l, y.s))
  }

  /** Entry rule `f` applied to the first `k` entries with their positions;
      the first raise ends it. */
  function Variant(f: (nat, string) -> Result<string>, palette: seq<string>, k: nat): Result<seq<string>>
    requires k <= |palette|
  {
    if k == 0 then Ok([])
    else
      match Variant(f, palette, k - 1)
      case DivisionByZero => DivisionByZero
      case Ok(front) =>
        match f(k - 1, palette[k - 1])
        case DivisionByZero => DivisionByZero
        case Ok(c) => Ok(front + [c])
  }

  /** The entry rule of one mode. */
  function EntryRule(dark: bool): (nat, string) -> Result<string> {
    (i: nat, c: string) => Entry(dark, i, c)
  }

  /** `_create_variant(palette, mode)` as a value. */
  function VariantOf(palette: seq<string>, mode: string): Result<seq<string>> {
    Variant(EntryRule(mode == "dark"), palette, |palette|)
  }

  /** `_create_variant`: the loop below with the entry rule of the mode. */
  method CreateVariant(palette: seq<string>, mode: string) returns (r: Result<seq<string>>)
    ensures r == VariantOf(palette, mode)
  {
    r := VariantEach(EntryRule(mode == "dark"), palette);
  }

  /** The loop of `_create_variant`: entries in order, each with its
      position; the first raise ends it. */
  method VariantEach(f: (nat, string) -> Result<string>, palette: seq<string>) returns (r: Result<seq<string>>)
    ensures r == Variant(f, palette, |palette|)
  {
    var variantPalette: seq<string> := [];
    for i := 0 to |palette|
      invariant Variant(f, palette, i) == Ok(variantPalette)
    {
      var variantColor := f(i, palette[i]);
      if variantColor.DivisionByZero? {
        VariantFails(f, palette, i + 1);
        return DivisionByZero;
      }
      variantPalette := variantPalette + [variantColor.value];
    }
    return Ok(variantPalette);
  }

  /** Once a prefix raises, the whole variant raises. */
  lemma {:induction false} VariantFails(f: (nat, string) -> Result<string>, palette: seq<string>, k: nat)
    requires k <= |palette| && Variant(f, palette, k).DivisionByZero?
    ensures Variant(f, palette, |palette|).DivisionByZero?
    decreases |palette| - k
  {
    if k < |palette| {
      VariantFails(f, palette, k + 1);
    }
  }

  /** The variant succeeds exactly when every entry does, and then holds
      entry `i` at position `i`. */
  lemma {:induction false} VariantPointwise(f: (nat, string) -> Result<string>, palette: seq<string>, k: nat)
    requires k <= |palette|
    ensures Variant(f, palette, k).Ok? <==> forall i :: 0 <= i < k ==> f(i, palette[i]).Ok?
    ensures Variant(f, palette, k).Ok? ==>
      |Variant(f, palette, k).value| == k &&
      forall i :: 0 <= i < k ==> Variant(f, palette, k).value[i] == f(i, palette[i]).value
  {
    if k > 0 {
      VariantPointwise(f, palette, k - 1);
    }
  }

  /** An entry raises exactly when `rgb_to_hls` does, and otherwise is the
      recoloured triple in hex. */
  lemma EntryOf(dark: bool, i: nat, color: string)
    ensures Entry(dark, i, color).Ok? <==> RgbToHls(HexToRgb(color)).Ok?
    ensures Entry(dark, i, color).Ok? ==>
      var y := Recolor(dark, i, RgbToHls(HexToRgb(color)).value);
      Entry(dark, i, color).value == HlsToHex(y.h, y.l, y.s)
  {
  }

  /** What the dark slots mean: the hue always stays; the first two slots
      cross to the other side of mid-lightness; the third is always light;
      the text slot is near-black with saturation capped at 0.3; every later
      slot mirrors its lightness, so applying the rule twice restores it. */
  lemma DarkSlots(i: nat, x: Hls)
    ensures Slot(i, x).h == x.h
    ensures i != 3 ==> Slot(i, x).s == x.s
    ensures i <= 1 ==> (x.l < 0.5 <==> Slot(i, x).l > 0.5)
    ensures i == 2 ==> Slot(i, x).l >= 0.75
    ensures i == 3 ==> Slot(i, x).l == 0.1 && Slot(i, x).s <= 0.3 && Slot(i, x).s <= x.s
    ensures i == 3 && x.s <= 0.3 ==> Slot(i, x).s == x.s
    ensures i >= 4 ==> Slot(i, x).l + x.l == 1.0 && Slot(i, Slot(i, x)) == x
  {
  }

  /** Lightness and saturation in [0, 1] stay there under every rule. */
  lemma RecolorInUnit(dark: bool, i: nat, x: Hls)
    requires InUnit(x.l) && InUnit(x.s)
    ensures InUnit(Recolor(dark, i, x).l) && InUnit(Recolor(dark, i, x).s)
  {
  }

  /** A palette of in-gamut colours never raises, and its variant, in
      either mode, is a palette of the same length in canonical form. */
  lemma VariantCanonical(palette: seq<string>, mode: string)
    requires forall i :: 0 <= i < |palette| ==> InGamut(HexToRgb(palette[i]))
    ensures VariantOf(palette, mode).Ok?
    ensures |VariantOf(palette, mode).value| == |palette|
    ensures forall i :: 0 <= i < |palette| ==> IsCanonicalHex(VariantOf(palette, mode).value[i])
  {
    var dark := mode == "dark";
    var f := EntryRule(dark);
    forall i | 0 <= i < |palette|
      ensures f(i, palette[i]).Ok? && IsCanonicalHex(f(i, palette[i]).value)
    {
      RgbToHlsInGamut(HexToRgb(palette[i]));
      EntryOf(dark, i, palette[i]);
      var y := Recolor(dark, i, RgbToHls(HexToRgb(palette[i])).value);
      RecolorInUnit(dark, i, RgbToHls(HexToRgb(palette[i])).value);
      HlsToHexCanonical(y.h, y.l, y.s);
    }
    VariantPointwise(f, palette, |palette|);
  }

  /** With any mode but "dark", which the program never passes, a
      canonical palette comes back unchanged. */
  lemma LightIsIdentity(palette: seq<string>, mode: string)
    requires mode != "dark"
    requires forall i :: 0 <= i < |palette| ==> IsCanonicalHex(palette[i])
    ensures VariantOf(palette, mode) == Ok(palette)
  {
    var f := EntryRule(false);
    forall i | 0 <= i < |palette|
      ensures f(i, palette[i]) == Ok(palette[i])
    {
      CanonicalHlsRoundTrip(palette[i]);
      EntryOf(false, i, palette[i]);
    }
    VariantPointwise(f, palette, |palette|);
    assert Variant(f, palette, |palette|).value == palette;
  }

  /** With any mode but "dark", which the program never passes, a valid
      three-digit entry such as "#FFF" is not kept: it decodes to black and
      comes back as "#000000". */
  lemma LightTurnsShorthandBlack(palette: seq<string>, mode: string)
    requires mode != "dark"
    requires forall i :: 0 <= i < |palette| ==> IsValidHex(palette[i]) && |HexBody(palette[i])| == 3
    ensures VariantOf(palette, mode).Ok?
    ensures |VariantOf(palette, mode).value| == |palette|
    ensures forall i :: 0 <= i < |palette| ==> VariantOf(palette, mode).value[i] == "#000000"
  {
    var f := EntryRule(false);
    assert RgbToHls(Rgb(0, 0, 0)) == Ok(Hls(0.0, 0.0, 0.0));
    HlsToHexExtremes(0.0, 0.0);
    forall i | 0 <= i < |palette|
      ensures f(i, palette[i]) == Ok("#000000")
    {
      HexToRgbOfValidShort(palette[i]);
      EntryOf(false, i, palette[i]);
    }
    VariantPointwise(f, palette, |palette|);
  }

  /** "#FFF" is such an entry. */
  lemma ShorthandExample()
    ensures IsValidHex("#FFF") && |HexBody("#FFF")| == 3
  {
    assert HexBody("#FFF") == "FFF";
  }
}
