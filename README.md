# Theme generator colour core, in Dafny

This project models the colour and accessibility engine of the theme
generator (`enhanced_theme_generator.py`) and proves properties of it. The
engine covers:

- hex text and RGB channels;
- conversion between RGB and HLS;
- relative luminance, contrast ratio and the WCAG level;
- the choice of a readable text colour;
- lightness adjustment and the WCAG repair search;
- the seven colour schemes;
- colour-blindness simulation;
- light and dark palette variants;
- the pass that repairs a palette when a WCAG level is requested.

The modules follow the program's layers:

- `Results`: `Option`, and `Result` with the one failure the core can raise, Python's `ZeroDivisionError`.
- `HexCodec`: `hex_to_rgb` as written, with `lstrip("#")`, slices at 0, 2 and 4, and `int(piece, 16)`. A slice may be short, signed or padded with spaces, so channels lie in [-15, 255]. Also `is_valid_hex` against its regular expression, and the `{:02X}` formatting.
- `ColorSpace`: `colorsys.rgb_to_hls` and `hls_to_rgb` over exact reals, plus `rgb_to_hls` and `hls_to_hex` of the program. Includes the exact-real round trip from RGB to HLS and back.
- `Metrics`: `relative_luminance`, `contrast_ratio`, `get_wcag_level`, `pick_foreground` and `adjust_luminance`.
- `Compliance`: `ensure_wcag_compliant` as a method with its 100-step search loop, proved against a specification function.
- `Repair`: the accessibility pass of `_update_theme_variant`, a loop over the palette that calls `ensure_wcag_compliant`.
- `Schemes`: `generate_scheme`, one loop method per scheme kind, proved against a specification function.
- `Vision`: `simulate_colorblindness` and `simulate_palette`.
- `Variant`: `_create_variant`, a loop over the palette with the slot rules of the dark mode.

Behaviour the model keeps exactly as the code has it:

- `is_valid_hex` accepts one trailing newline, because the regular expression's `$` matches before a final `\n`.
- A valid three-digit colour decodes to black, because its third slice is empty and `int("", 16)` raises inside `hex_to_rgb` (`HexCodec.HexToRgbOfValidShort`).
- The program calls `_create_variant` only with the mode "dark". Called with any other mode, it gives back a canonical `#RRGGBB` palette unchanged (`Variant.LightIsIdentity`) and turns every valid three-digit entry into `#000000` (`Variant.LightTurnsShorthandBlack`).
- Around the digits of a slice, `int(piece, 16)` skips the ASCII characters from tab to carriage return, the space, and non-ASCII white space. The ASCII separators U+001C to U+001F are not skipped, so a slice containing one of them fails and the colour decodes to black.
- `generate_scheme` raises `ZeroDivisionError` for a count of one in the Monochromatic, Analogous and Complementary schemes. A negative channel from a signed slice can make `rgb_to_hls` raise as well. Both are the `DivisionByZero` result.
- `preserve_character` is accepted and has no effect, since both branches of the source are the same.

## Model

| member | source | states |
|---|---|---|
| HexCodec.ParseInt16 | enhanced_theme_generator.py:40 | `int(slice, 16)` on a slice of at most two characters: the empty slice fails, two hex digits give their value, and every accepted slice gives a value in [-15, 255]; a sign or surrounding white space (ASCII tab to carriage return, space, non-ASCII white space) is accepted next to one digit |
| HexCodec.HashEndSpec | enhanced_theme_generator.py:39 | `lstrip("#")` removes exactly the leading run of `#` and stops at the first other character |
| HexCodec.Channels | enhanced_theme_generator.py:40 | the three slices either all parse, giving one channel each in [-15, 255], or the decode fails |
| HexCodec.HexToRgb | enhanced_theme_generator.py:36-42 | every decoded channel lies in [-15, 255], whatever the text |
| HexCodec.HexToRgbBySlices | enhanced_theme_generator.py:36-42 | the result is the three parsed slices at offsets 0, 2 and 4 when all parse, and black otherwise |
| HexCodec.ValidHexIffPattern | enhanced_theme_generator.py:45-47 | `is_valid_hex` holds exactly for the strings its pattern matches under `re.match`: an optional `#`, then six or three hex digits, then an optional final newline |
| HexCodec.IsValidHex | enhanced_theme_generator.py:45-47 | `is_valid_hex`: the body left after an optional `#` and one final newline is six or three hex digits; `HexCodec.ValidHexIffPattern` states its meaning as the regular expression |
| HexCodec.HexDigits | enhanced_theme_generator.py:56 | upper-case hex digits of a number, one digit exactly when it is below 16; what they spell is stated by `HexCodec.HexDigitsSpell` |
| HexCodec.HexDigitsSpell | enhanced_theme_generator.py:56 | read back as a hex number (`HexValue`, an independent fold), the digits of `n` give `n`; they start with `0` only for 0; a number takes at most two digits exactly when it is below 256 |
| HexCodec.Format02X | enhanced_theme_generator.py:56 | `{:02X}` is at least two characters wide; its digits are stated by `HexCodec.Format02XSpells` |
| HexCodec.Format02XSpells | enhanced_theme_generator.py:56 | `{:02X}` is exactly two characters for every number from -15 to 255; a non-negative number is written as upper-case digits that spell it; a negative one as `-` and upper-case digits that spell its magnitude |
| HexCodec.FormatRgbFields | enhanced_theme_generator.py:56 | the colour text is `#` followed by the three `{:02X}` fields in order |
| HexCodec.FormatByte | enhanced_theme_generator.py:56 | a byte formats as its high and low upper-case nibble digits |
| HexCodec.FormatRgbCanonical | enhanced_theme_generator.py:56 | three bytes format to a canonical `#RRGGBB`, nibble by nibble |
| HexCodec.HexToRgbOfValidLong | enhanced_theme_generator.py:36-47 | a valid six-digit colour decodes to its three digit pairs, all bytes |
| HexCodec.HexToRgbOfValidShort | enhanced_theme_generator.py:36-47 | a valid three-digit colour decodes to black |
| HexCodec.ValidHexInGamut | enhanced_theme_generator.py:36-47 | every valid colour decodes to three bytes |
| HexCodec.FormatOfValidLong | enhanced_theme_generator.py:36-56 | decoding a valid six-digit colour and formatting it gives `#` and its digits in upper case |
| HexCodec.HexToRgbOfFormat | enhanced_theme_generator.py:36-56 | decoding the formatted text of three bytes gives back the bytes |
| HexCodec.CanonicalIsValid | enhanced_theme_generator.py:45-56 | every canonical `#RRGGBB` text is valid, with its six digits as body |
| HexCodec.CanonicalRoundTrip | enhanced_theme_generator.py:36-56 | a canonical colour decodes in gamut and formats back to itself |
| HexCodec.HexToRgbWhite | test_theme_generator.py:15 | `#FFFFFF` decodes to (255, 255, 255) |
| HexCodec.HexToRgbBlack | test_theme_generator.py:16 | `#000000` decodes to (0, 0, 0) |
| HexCodec.HexToRgbExample | test_theme_generator.py:17 | `3498DB` decodes to (52, 152, 219) |
| HexCodec.HexToRgbSignedSlices | enhanced_theme_generator.py:36-47 | `#-F-F-F` is invalid yet decodes to (-15, -15, -15) |
| HexCodec.HexToRgbFiveDigits | enhanced_theme_generator.py:36-47 | the invalid five-digit `ABCDE` still decodes, to (171, 205, 14) |
| HexCodec.HexToRgbMixedSigns | enhanced_theme_generator.py:36-47 | the invalid `#-50500` decodes to (-5, 5, 0) |
| HexCodec.StripOptionalHash | enhanced_theme_generator.py:39-46 | with at most one leading `#`, `lstrip` and the pattern's optional `#` remove the same prefix |
| HexCodec.FormatNotBlack | enhanced_theme_generator.py:56 | bytes that are not all zero never format to `#000000` |
| HexCodec.FormatNotWhite | enhanced_theme_generator.py:56 | bytes that are not all 255 never format to `#FFFFFF` |
| ColorSpace.Clamp | enhanced_theme_generator.py:95 | `max(lo, min(hi, x))` lies in [lo, hi] and is `x` when `x` already does |
| ColorSpace.Frac | enhanced_theme_generator.py:158 | `x % 1.0` lies in [0, 1) |
| ColorSpace.FracOf | enhanced_theme_generator.py:158 | `x % 1.0` is `x - k` for `x` in [k, k + 1) |
| ColorSpace.FracOfFracPlus | enhanced_theme_generator.py:158 | taking `% 1.0` before adding changes nothing after a final `% 1.0` |
| ColorSpace.Trunc | enhanced_theme_generator.py:56 | `int()` rounds toward zero: the floor on non-negative reals, and for a negative `x` the whole number in [x, x + 1) |
| ColorSpace.RgbToHlsUnit | enhanced_theme_generator.py:50-51 | `colorsys.rgb_to_hls` on channels scaled to [0, 1], raising where the saturation divides by zero; its range is stated by `ColorSpace.RgbToHlsUnitRange` and its inverse by `ColorSpace.HlsRoundTrip` |
| ColorSpace.RgbToHls | enhanced_theme_generator.py:50-51 | `rgb_to_hls`: the channels divided by 255, then `colorsys.rgb_to_hls`; `ColorSpace.RgbToHlsInGamut` states that bytes never raise |
| ColorSpace.HlsToRgb | enhanced_theme_generator.py:54-55 | `colorsys.hls_to_rgb`; `ColorSpace.HlsToRgbRange`, `ColorSpace.HlsToRgbLightness` and `ColorSpace.HlsRoundTrip` state its meaning |
| ColorSpace.HlsToHex | enhanced_theme_generator.py:54-56 | `hls_to_hex`: each channel of `hls_to_rgb` scaled by 255, truncated and formatted; `ColorSpace.HlsToHexCanonical` and `ColorSpace.HlsToHexOfRgbToHls` state its meaning |
| ColorSpace.RgbToHlsUnitRange | enhanced_theme_generator.py:50-51 | on channels in [0, 1] `colorsys.rgb_to_hls` never raises, and gives a hue in [0, 1) and a lightness and saturation in [0, 1] |
| ColorSpace.RgbToHlsInGamut | enhanced_theme_generator.py:50-51 | on bytes `rgb_to_hls` never raises and lands in range |
| ColorSpace.HlsToRgbRange | enhanced_theme_generator.py:54-55 | for lightness and saturation in [0, 1], every channel of `hls_to_rgb` lies in [0, 1] |
| ColorSpace.HlsToRgbLightness | enhanced_theme_generator.py:54-55 | the largest and smallest channel of `hls_to_rgb` add up to twice the lightness |
| ColorSpace.TruncByte | enhanced_theme_generator.py:56 | `int(c * 255)` of a channel in [0, 1] is a byte |
| ColorSpace.HlsToHexCanonical | enhanced_theme_generator.py:54-56 | for lightness and saturation in [0, 1], `hls_to_hex` gives canonical `#RRGGBB` |
| ColorSpace.HlsToHexNeitherExtreme | enhanced_theme_generator.py:54-56 | a lightness in [1/255, 1) is neither `#000000` nor `#FFFFFF` |
| ColorSpace.HlsToHexExtremes | enhanced_theme_generator.py:54-56 | lightness 1 is `#FFFFFF` and lightness 0 is `#000000`, whatever the hue and saturation |
| ColorSpace.HlsRoundTrip | enhanced_theme_generator.py:50-55 | wherever `rgb_to_hls` is defined, `hls_to_rgb` gives back the very same channels |
| ColorSpace.HlsToHexOfRgbToHls | enhanced_theme_generator.py:50-56 | bytes converted to HLS and back to hex give the formatted bytes |
| ColorSpace.ValidHexHlsRoundTrip | enhanced_theme_generator.py:36-56 | a valid six-digit colour through RGB, HLS and back to hex is its own digits in upper case |
| ColorSpace.CanonicalHlsRoundTrip | enhanced_theme_generator.py:36-56 | a canonical colour survives the trip through HLS unchanged |
| ColorSpace.HlsToHexExample | test_theme_generator.py:27-28 | `hls_to_hex(0.57, 0.53, 0.7)` is `#3394DB` |
| ColorSpace.RgbToHlsExample | test_theme_generator.py:19-25 | (52, 152, 219) converts to about (0.57, 0.53, 0.7) |
| ColorSpace.RgbToHlsDivisionByZero | enhanced_theme_generator.py:50-51 | (-5, 5, 0) makes `rgb_to_hls` raise |
| Metrics.Linearize | enhanced_theme_generator.py:60-62 | the linearised channel of a byte lies in [0, 1], is 0 for 0 and 1 for 255, and stays above -0.005 for the decoder's negative channels |
| Metrics.Luminance | enhanced_theme_generator.py:59-65 | the relative luminance of bytes lies in [0, 1] and, for any decodable channels, lies in (-0.005, 1] |
| Metrics.Ratio | enhanced_theme_generator.py:71-72 | the ratio of the lighter to the darker luminance, each plus 0.05, is at least 1, and is 1 exactly for equal luminances |
| Metrics.RatioSymmetric | enhanced_theme_generator.py:71-72 | the ratio does not depend on the order of the luminances |
| Metrics.ContrastRatio | enhanced_theme_generator.py:68-72 | every contrast ratio is at least 1 |
| Metrics.LuminanceWhite | enhanced_theme_generator.py:59-65 | white has luminance 1 |
| Metrics.LuminanceBlack | enhanced_theme_generator.py:59-65 | black has luminance 0 |
| Metrics.ContrastSymmetric | enhanced_theme_generator.py:68-72 | `contrast_ratio(a, b) == contrast_ratio(b, a)` |
| Metrics.ContrastSelf | enhanced_theme_generator.py:68-72 | a colour has ratio 1 with itself, and two colours have ratio 1 exactly when their luminances are equal |
| Metrics.ContrastAtMost21 | enhanced_theme_generator.py:68-72 | between in-gamut colours the ratio is at most 21 |
| Metrics.ContrastWhiteBlack | test_theme_generator.py:30-32 | white against black is exactly 21 |
| Metrics.WcagLevel | enhanced_theme_generator.py:79-87 | `get_wcag_level`: the highest level whose threshold the ratio reaches, else Fail; `Metrics.WcagLevelMeetsThreshold` states it |
| Metrics.WcagLevelMeetsThreshold | enhanced_theme_generator.py:79-87 | a ratio reaches a level (AAA, AA or AA Large) exactly when it is at least that level's threshold: 7, 4.5 or 3 |
| Metrics.WcagLevelMonotone | enhanced_theme_generator.py:79-87 | a larger ratio never gets a lower level |
| Metrics.WcagLevelExamples | test_theme_generator.py:36-40 | 8, 5, 3.5 and 2 are AAA, AA, AA Large and Fail |
| Metrics.PickForeground | enhanced_theme_generator.py:75-76 | the text colour is black or white |
| Metrics.PickForegroundReadable | enhanced_theme_generator.py:75-76 | the picked text colour always reaches 4.5 against the background, and it is black exactly when black reaches 4.5 |
| Metrics.WhiteWhereBlackFails | enhanced_theme_generator.py:75-76 | where black falls short of 4.5, white reaches it |
| Metrics.AdjustLuminance | enhanced_theme_generator.py:91-96 | on an in-gamut colour `adjust_luminance` never raises and gives canonical hex |
| Metrics.AdjustHls | enhanced_theme_generator.py:94-96 | the clamped lightness never paints pure black or pure white |
| Metrics.AdjustLuminanceNeverExtreme | enhanced_theme_generator.py:91-96 | an adjusted in-gamut colour is never `#000000` or `#FFFFFF` |
| Metrics.AdjustLuminanceIdentity | enhanced_theme_generator.py:91-96 | factor 1 keeps a canonical colour whose lightness is already within [0.05, 0.95] |
| Metrics.AdjustLuminanceRaises | enhanced_theme_generator.py:91-96 | `#-50500` makes `adjust_luminance` raise |
| Compliance.Direction | enhanced_theme_generator.py:119-124 | the search direction is -1 or 1 |
| Compliance.Step | enhanced_theme_generator.py:128-129 | one step keeps the lightness in [0, 1] |
| Compliance.DirectionOfExtremes | enhanced_theme_generator.py:119-124 | against black text the search lightens, against white text it darkens |
| Compliance.Compliant | enhanced_theme_generator.py:100-140 | the value `ensure_wcag_compliant` returns; `Compliance.CompliantSound`, `Compliance.CompliantCases` and `Compliance.CompliantReachesTarget` state its meaning |
| Compliance.Search | enhanced_theme_generator.py:127-140 | the 100-step search as a function of the steps left; `Compliance.SearchNone` and `Compliance.SearchFirstFit` state its meaning |
| Compliance.EnsureWcagCompliant | enhanced_theme_generator.py:100-140 | the method computes the specification `Compliant`: the background itself when it already meets the ratio, the first passing step of the search, the background again when none passes, and a raise when the background has no HLS form |
| Compliance.SearchLoop | enhanced_theme_generator.py:127-140 | the 100-step loop returns the first passing candidate, or the background |
| Compliance.SearchNone | enhanced_theme_generator.py:127-140 | the search finds nothing exactly when no candidate among its steps passes |
| Compliance.SearchFirstFit | enhanced_theme_generator.py:127-137 | a successful search returns a passing candidate with none passing before it |
| Compliance.WalkUp | enhanced_theme_generator.py:128-129 | after `j` upward steps the lightness is `min(1, l + 0.01 j)` |
| Compliance.WalkDown | enhanced_theme_generator.py:128-129 | after `j` downward steps the lightness is `max(0, l - 0.01 j)` |
| Compliance.CompliantSound | enhanced_theme_generator.py:100-140 | the result is the original background or a colour that meets the ratio |
| Compliance.CompliantCases | enhanced_theme_generator.py:100-140 | it keeps a passing background; it raises exactly when the background fails and has no HLS form; otherwise it returns the background exactly when no step passes |
| Compliance.SearchCanonical | enhanced_theme_generator.py:127-137 | a search whose painter gives canonical hex finds only canonical hex |
| Compliance.PaintCanonical | enhanced_theme_generator.py:132-134 | painting any lightness in [0, 1] gives canonical hex |
| Compliance.CompliantInGamut | enhanced_theme_generator.py:100-140 | on an in-gamut background it never raises and returns the background or canonical hex |
| Compliance.CompliantReachesTarget | enhanced_theme_generator.py:100-140 | with black or white text and a target of at most 21, the result always meets the target |
| Repair.ContainsAt | enhanced_theme_generator.py:1838 | `pat in text` holds exactly when the pattern occurs at some position |
| Repair.TargetRatio | enhanced_theme_generator.py:1838 | the target is 7 or 4.5 |
| Repair.TargetRatioOfChoices | enhanced_theme_generator.py:1838 | "AA (4.5:1)" gives 4.5 and "AAA (7:1)" gives 7 |
| Repair.RepairColor | enhanced_theme_generator.py:1842-1851 | the repair of one colour; `Repair.RepairColorBelowTarget` and `Repair.RepairColorMeetsTarget` state its meaning |
| Repair.RepairPalette | enhanced_theme_generator.py:1836-1852 | the palette the pass computes; `Repair.AdjustPalette` computes it and `Repair.RepairPaletteMeetsTarget` states its meaning |
| Repair.MapResultPointwise | enhanced_theme_generator.py:1841-1852 | the pass succeeds exactly when every colour does, and then holds each colour's result at its own position |
| Repair.PrefixFails | enhanced_theme_generator.py:1841-1852 | once a prefix of the palette fails, the whole pass fails |
| Repair.AdjustColor | enhanced_theme_generator.py:1842-1851 | the loop body computes the specification `RepairColor` of one colour |
| Repair.AdjustEach | enhanced_theme_generator.py:1841-1852 | the loop computes every colour's repair in order, stopping at the first raise |
| Repair.AdjustPalette | enhanced_theme_generator.py:1836-1852 | with the check off the palette passes unchanged; otherwise each colour is repaired against the level's target |
| Repair.RepairColorBelowTarget | enhanced_theme_generator.py:1842-1851 | for a target of at most 7 a colour is repaired exactly when its picked text colour falls short |
| Repair.RepairColorMeetsTarget | enhanced_theme_generator.py:1842-1851 | an in-gamut colour comes out at or above the target against its picked text colour |
| Repair.RepairPaletteMeetsTarget | enhanced_theme_generator.py:1836-1852 | on an in-gamut palette the pass never raises, keeps length and order, and every colour reaches the target |
| Schemes.KindOf | enhanced_theme_generator.py:150-177 | the scheme chosen by its name; `Schemes.KindOfNames` states it |
| Schemes.Member | enhanced_theme_generator.py:150-179 | the HLS triple of colour `i` of a scheme; `Schemes.MemberShape`, `Schemes.MemberZero`, `Schemes.EvenlySpaced`, `Schemes.SpreadEnds` and `Schemes.MonochromaticRises` state its meaning |
| Schemes.Scheme | enhanced_theme_generator.py:144-180 | the list `generate_scheme` returns; `Schemes.SchemeEntries` and `Schemes.SchemeArity` state its meaning |
| Schemes.Count | enhanced_theme_generator.py:144-180 | Split-Complementary and Triadic give 3 colours, Tetradic 4, and every other scheme `max(n, 0)` |
| Schemes.Colors | enhanced_theme_generator.py:149-180 | the first `k` colours are `k` colours |
| Schemes.FixedIgnoresCount | enhanced_theme_generator.py:164-175 | the fixed-arity schemes do not depend on the requested count |
| Schemes.GenerateScheme | enhanced_theme_generator.py:144-180 | the method computes the specification `Scheme`: the fallback list for an invalid base, else the chosen scheme's colours, or the raise |
| Schemes.MonochromaticColors | enhanced_theme_generator.py:150-154 | the loop paints each clamped lightness step in order, and raises for a count of one |
| Schemes.AnalogousColors | enhanced_theme_generator.py:155-159 | the loop paints hues spread over 60 degrees around the base, and raises for a count of one |
| Schemes.ComplementaryColors | enhanced_theme_generator.py:160-163 | the loop paints hues spread over half the wheel, and raises for a count of one |
| Schemes.SplitComplementaryColors | enhanced_theme_generator.py:164-167 | the loop paints the base hue and the hues 150 and 210 degrees away |
| Schemes.TriadicColors | enhanced_theme_generator.py:168-171 | the loop paints three hues a third of the wheel apart |
| Schemes.TetradicColors | enhanced_theme_generator.py:172-175 | the loop paints four hues a quarter of the wheel apart |
| Schemes.EvenColors | enhanced_theme_generator.py:176-179 | the loop paints `n` hues spaced evenly around the wheel |
| Schemes.ColorsAt | enhanced_theme_generator.py:149-179 | colour `j` of the list is member `j` of the scheme, painted |
| Schemes.MemberShape | enhanced_theme_generator.py:150-179 | every member keeps the base saturation; Monochromatic keeps the hue with a lightness in [0.1, 0.9]; the others keep the lightness with a hue in [0, 1) |
| Schemes.KindOfNames | enhanced_theme_generator.py:150-177 | each scheme name selects its own kind, and any other name selects the even spread |
| Schemes.SchemeEntries | enhanced_theme_generator.py:144-180 | for a valid base: it raises exactly for a count of one in a spreading scheme; otherwise every colour is its member, painted, in canonical hex |
| Schemes.SchemeArity | enhanced_theme_generator.py:144-180 | an invalid base gives `max(n, 0)` copies of `#3498DB`; a valid base gives 3, 4 or `max(n, 0)` colours by the scheme's name |
| Schemes.FallbackCanonical | enhanced_theme_generator.py:146 | the fallback colour is canonical and valid |
| Schemes.SchemeStartsAtBase | enhanced_theme_generator.py:144-180 | outside Monochromatic and Analogous, the first colour of a six-digit base's scheme is the base itself in upper case |
| Schemes.MemberZero | enhanced_theme_generator.py:160-179 | outside Monochromatic and Analogous, the first member is the base colour |
| Schemes.EvenlySpaced | enhanced_theme_generator.py:168-175 | Triadic hues step by a third of the wheel and Tetradic hues by a quarter |
| Schemes.SpreadEnds | enhanced_theme_generator.py:155-163 | Complementary runs from the base hue to its opposite; Analogous runs from 30 degrees below to 30 degrees above |
| Schemes.MonochromaticRises | enhanced_theme_generator.py:150-154 | Monochromatic lightness never falls along the list |
| Vision.MatrixOf | enhanced_theme_generator.py:1969-1980 | the matrix of each colour-vision deficiency; `Vision.RowsSumToOne` states that every row sums to one |
| Vision.Transform | enhanced_theme_generator.py:1968-1990 | the matrix product, or the grey weights for Grayscale; `Vision.GrayscaleIsGray` and `Vision.RowsSumToOne` state its meaning |
| Vision.Simulate | enhanced_theme_generator.py:1950-1997 | `simulate_colorblindness`; `Vision.SimulateOutcome` and `Vision.SimulateKeepsGray` state its meaning |
| Vision.Clip | enhanced_theme_generator.py:1993 | `np.clip(_, 0, 1)` puts every channel in [0, 1] |
| Vision.Simulated | enhanced_theme_generator.py:1964-1996 | the simulated channels are always bytes |
| Vision.SimulateAs | enhanced_theme_generator.py:1964-1997 | every simulation yields canonical `#RRGGBB` |
| Vision.SimulateOutcome | enhanced_theme_generator.py:1950-1997 | a name the function does not simulate leaves the colour as it is, and every name it simulates yields canonical hex |
| Vision.DeficiencyNames | enhanced_theme_generator.py:1961-1986 | the simulated names are exactly Protanopia, Deuteranopia, Tritanopia and Grayscale; "Normal Vision" is not one of them |
| Vision.GrayscaleIsGray | enhanced_theme_generator.py:1981-1997 | grey simulation gives equal red, green and blue |
| Vision.RowsSumToOne | enhanced_theme_generator.py:1969-1984 | every row of the three matrices and the grey weights sum to one, so a grey input is fixed |
| Vision.SimulatedGray | enhanced_theme_generator.py:1964-1996 | grey bytes come out of every simulation unchanged |
| Vision.SimulateKeepsGray | enhanced_theme_generator.py:1950-1997 | a grey colour in canonical form looks the same under every simulation |
| Vision.GrayscaleIdempotent | enhanced_theme_generator.py:1981-1997 | simulating grey twice is the same as once |
| Vision.SimulatePalette | enhanced_theme_generator.py:1999-2003 | the palette keeps its length, and entry `i` is the simulation of entry `i` |
| Vision.SimulatePaletteUnknown | enhanced_theme_generator.py:1999-2003 | a name the function does not simulate leaves the whole palette unchanged |
| Vision.SimulatePaletteCanonical | enhanced_theme_generator.py:1999-2003 | every entry of a simulated palette is canonical |
| Variant.Slot | enhanced_theme_generator.py:1880-1891 | the dark rule of one slot; `Variant.DarkSlots` states its meaning |
| Variant.Entry | enhanced_theme_generator.py:1877-1895 | one entry of the variant; `Variant.VariantCanonical` and `Variant.LightIsIdentity` state its meaning |
| Variant.VariantOf | enhanced_theme_generator.py:1873-1897 | the palette `_create_variant` returns; `Variant.VariantPointwise`, `Variant.VariantCanonical`, `Variant.LightIsIdentity` and `Variant.LightTurnsShorthandBlack` state its meaning |
| Variant.CreateVariant | enhanced_theme_generator.py:1873-1897 | the method computes the specification `VariantOf`: every entry recoloured by its position and mode, the first raise ending it |
| Variant.VariantEach | enhanced_theme_generator.py:1875-1897 | the loop applies the entry rule to each entry and its position, in order |
| Variant.VariantFails | enhanced_theme_generator.py:1876-1878 | once a prefix raises, the whole variant raises |
| Variant.VariantPointwise | enhanced_theme_generator.py:1876-1896 | the variant succeeds exactly when every entry does, and then has the input's length with entry `i` at position `i` |
| Variant.DarkSlots | enhanced_theme_generator.py:1880-1891 | dark mode keeps every hue; slots 0 and 1 cross to the other side of mid-lightness; slot 2 ends at lightness 0.75 or above; slot 3 is at lightness 0.1 with saturation capped at 0.3; later slots mirror their lightness, so applying the rule twice restores them |
| Variant.RecolorInUnit | enhanced_theme_generator.py:1880-1893 | every rule keeps lightness and saturation in [0, 1] |
| Variant.VariantCanonical | enhanced_theme_generator.py:1873-1897 | an in-gamut palette never raises, and in either mode its variant has the same length, in canonical hex |
| Variant.LightIsIdentity | enhanced_theme_generator.py:1892-1897 | called with any mode but "dark" (the program never does so), `_create_variant` gives back a canonical palette unchanged |
| Variant.LightTurnsShorthandBlack | enhanced_theme_generator.py:1877-1897 | in any mode but "dark", every valid three-digit entry comes back as `#000000` |
| Variant.ShorthandExample | enhanced_theme_generator.py:45-47 | `#FFF` is a valid three-digit colour |

## Left out

- The Qt user interface: widgets, tables, previews, dialogs and stylesheets. `_update_theme_variant` is modelled only for the palette it computes; its calls to `update_table_with_palette` and `update_preview_components` are not modelled.
- Export, file I/O, settings persistence and every other part of the program outside the colour core. `create_icon_script.py` and `setup.py` are not part of this model.
- Floating point. All arithmetic is on exact reals. In IEEE doubles, `int(c * 255)` truncates, so a result a hair below a whole number loses one unit in any channel. These lemmas hold over exact reals only: ColorSpace.HlsRoundTrip, ColorSpace.HlsToHexOfRgbToHls, ColorSpace.ValidHexHlsRoundTrip, ColorSpace.CanonicalHlsRoundTrip, Variant.LightIsIdentity, Schemes.SchemeStartsAtBase, Metrics.AdjustLuminanceIdentity, Vision.SimulatedGray, Vision.SimulateKeepsGray and Vision.GrayscaleIdempotent. The worked values of ColorSpace.HlsToHexExample and ColorSpace.RgbToHlsExample are also exact-real values.
- Metrics.Linearize: `x ** 2.4` is a parameter `pow` with only the properties the proofs need: it maps [0, 1] into [0, 1] and maps 1 to 1. Real exponentiation is not available to the verifier.
- HexCodec.ParseInt16: the non-ASCII decimal digits that Python's `int()` also accepts are not modelled; only ASCII digits, letters, sign and white space are handled.
- NumPy is modelled by its arithmetic: `np.dot` as three dot products and `np.clip` per channel.
- `colorsys` is a standard-library module, not a file of the repository, so its `rgb_to_hls` and `hls_to_rgb` are modelled from their documented algorithm.
- Schemes.MonochromaticColors, AnalogousColors, ComplementaryColors, SplitComplementaryColors, TriadicColors, TetradicColors and EvenColors take the HLS-to-hex painter as a parameter. `GenerateScheme` passes `hls_to_hex` itself. The loops are proved for any painter.
- Variant.VariantEach takes the per-entry rule as a parameter, and `CreateVariant` passes the rule of its mode. The loop is proved for any rule.
- The "preserve character" option has no effect in the source, since both of its branches are the same. The model accepts the flag and ignores it.
- Variant.DarkSlots states the meaning of the slot table, not each constant.
- `create_dark_variant` and `create_light_variant` are UI handlers and are not modelled. `create_dark_variant` calls `_create_variant` with "dark" and shows the result. `create_light_variant` does not call `_create_variant`: it shows the stored light palette again, or generates a palette when there is none.
