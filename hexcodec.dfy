/** The hex codec of the colour core: `is_valid_hex`, `hex_to_rgb` and the
    `"#{:02X}{:02X}{:02X}"` formatting shared by `hls_to_hex` and
    `simulate_colorblindness`. Strings are sequences of Unicode scalars. */
module HexCodec {
  import opened Results

  /** An (r, g, b) triple of Python ints, as `hex_to_rgb` returns it. */
  datatype Rgb = Rgb(r: int, g: int, b: int)

  predicate IsByte(v: int) { 0 <= v <= 255 }

  /** All three channels are bytes. */
  predicate InGamut(c: Rgb) { IsByte(c.r) && IsByte(c.g) && IsByte(c.b) }

  predicate IsHexDigit(c: char) {
    ('0' <= c <= '9') || ('A' <= c <= 'F') || ('a' <= c <= 'f')
  }

  predicate IsUpperHexDigit(c: char) {
    ('0' <= c <= '9') || ('A' <= c <= 'F')
  }

  predicate AllHex(d: string) {
    forall i :: 0 <= i < |d| ==> IsHexDigit(d[i])
  }

  function DigitValue(c: char): (v: nat)
    requires IsHexDigit(c)
    ensures v < 16
  {
    if '0' <= c <= '9' then c as int - '0' as int
    else if 'A' <= c <= 'F' then c as int - 'A' as int + 10
    else c as int - 'a' as int + 10
  }

  function UpperDigit(v: nat): (c: char)
    requires v < 16
    ensures IsUpperHexDigit(c) && DigitValue(c) == v
  {
    if v < 10 then ('0' as int + v) as char else ('A' as int + v - 10) as char
  }

  /** `str.upper` restricted to what it does on hex digits. */
  function ToUpperHex(c: char): char {
    if 'a' <= c <= 'f' then (c as int - 32) as char else c
  }

  function UpperAll(d: string): (u: string)
    ensures |u| == |d|
  {
    seq(|d|, i requires 0 <= i < |d| => ToUpperHex(d[i]))
  }

  /** The characters `int()` ignores around the digits: the ASCII tab to
      carriage return and the space, and the non-ASCII characters Python
      counts as whitespace (which `int()` first turns into a space). The
      ASCII separators U+001C to U+001F are not among them. */
  predicate IsPySpace(c: char) {
    ('\t' <= c <= '\r') || c == ' ' || c == '\U{85}' || c == '\U{A0}'
    || c == '\U{1680}' || ('\U{2000}' <= c <= '\U{200A}') || c == '\U{2028}'
    || c == '\U{2029}' || c == '\U{202F}' || c == '\U{205F}' || c == '\U{3000}'
  }

  /** Python's `int(p, 16)` on a slice of at most two characters: the
      digits may carry a sign or stand next to whitespace; anything else
      raises `ValueError` (here `None`). */
  function ParseInt16(p: string): (v: Option<int>)
    requires |p| <= 2
    ensures v.Some? ==> -15 <= v.value <= 255
    ensures |p| == 2 && IsHexDigit(p[0]) && IsHexDigit(p[1]) ==> v == Some(16 * DigitValue(p[0]) + DigitValue(p[1]))
    ensures |p| == 0 ==> v.None?
  {
    if |p| == 1 then
      if IsHexDigit(p[0]) then Some(DigitValue(p[0])) else None
    else if |p| == 2 then
      if IsHexDigit(p[0]) && IsHexDigit(p[1]) then Some(16 * DigitValue(p[0]) + DigitValue(p[1]))
      else if IsHexDigit(p[1]) && (IsPySpace(p[0]) || p[0] == '+') then Some(DigitValue(p[1]))
      else if IsHexDigit(p[1]) && p[0] == '-' then Some(-(DigitValue(p[1]) as int))
      else if IsHexDigit(p[0]) && IsPySpace(p[1]) then Some(DigitValue(p[0]))
      else None
    else None
  }

  /** The index of the first character at or after `i` that is not `#`. */
  function HashEnd(s: string, i: nat): (j: nat)
    requires i <= |s|
    ensures i <= j <= |s|
    decreases |s| - i
  {
    if i < |s| && s[i] == '#' then HashEnd(s, i + 1) else i
  }

  /** `s.lstrip("#")`: every leading `#` is removed. */
  function LStripHash(s: string): string {
    s[HashEnd(s, 0)..]
  }

  /** What `lstrip` leaves does not start with `#`, and everything it
      removed is `#`. */
  lemma {:induction false} HashEndSpec(s: string, i: nat)
    requires i <= |s|
    ensures var j := HashEnd(s, i);
      (j == |s| || s[j] != '#') && forall k :: i <= k < j ==> s[k] == '#'
    decreases |s| - i
  {
    if i < |s| && s[i] == '#' {
      HashEndSpec(s, i + 1);
    }
  }

  /** The Python slice `t[i : i + 2]`, which is shorter near the end. */
  function Piece(t: string, i: nat): (p: string)
    ensures |p| <= 2
  {
    if i >= |t| then [] else if i + 2 <= |t| then t[i..i + 2] else t[i..]
  }

  /** The channels parsed from slot `k` on: slot `k` is the slice starting
      at `2 * k`, and the first slice `int(_, 16)` rejects fails them all. */
  function Channels(t: string, k: nat): (v: Option<seq<int>>)
    requires k <= 3
    ensures v.Some? ==> |v.value| == 3 - k
    ensures v.Some? ==> forall j :: 0 <= j < |v.value| ==> -15 <= v.value[j] <= 255
    decreases 3 - k
  {
    if k == 3 then Some([])
    else
      match ParseInt16(Piece(t, 2 * k))
      case None => None
      case Some(x) =>
        match Channels(t, k + 1)
        case None => None
        case Some(rest) => Some([x] + rest)
  }

  /** `hex_to_rgb`: the slots 0, 2 and 4 of the `#`-stripped text, each
      parsed by `int(_, 16)`; a failing slice turns the whole result into
      black. */
  function HexToRgb(s: string): (c: Rgb)
    ensures -15 <= c.r <= 255 && -15 <= c.g <= 255 && -15 <= c.b <= 255
  {
    match Channels(LStripHash(s), 0)
    case None => Rgb(0, 0, 0)
    case Some(v) => Rgb(v[0], v[1], v[2])
  }

  /** `hex_to_rgb` as three slices parsed one after the other: black as soon
      as one of them fails, else their three values in order. */
  lemma HexToRgbBySlices(s: string)
    ensures var t := LStripHash(s);
      var p0, p1, p2 := ParseInt16(Piece(t, 0)), ParseInt16(Piece(t, 2)), ParseInt16(Piece(t, 4));
      HexToRgb(s) == if p0.Some? && p1.Some? && p2.Some? then Rgb(p0.value, p1.value, p2.value) else Rgb(0, 0, 0)
  {
    var t := LStripHash(s);
    var p0, p1, p2 := ParseInt16(Piece(t, 0)), ParseInt16(Piece(t, 2)), ParseInt16(Piece(t, 4));
    assert Channels(t, 3) == Some([]);
    if p2.Some? {
      assert [p2.value] + [] == [p2.value];
    }
    assert Channels(t, 2) == if p2.Some? then Some([p2.value]) else None;
    if p1.Some? && p2.Some? {
      assert [p1.value] + [p2.value] == [p1.value, p2.value];
    }
    assert Channels(t, 1) == if p1.Some? && p2.Some? then Some([p1.value, p2.value]) else None;
    if p0.Some? && p1.Some? && p2.Some? {
      assert [p0.value] + [p1.value, p2.value] == [p0.value, p1.value, p2.value];
    }
  }

  /** What `^#?(...)$` leaves for the digit group: one optional `#` is
      dropped, and so is one trailing newline, which Python's `$` lets
      through. */
  function HexBody(s: string): string {
    var t := if |s| > 0 && s[0] == '#' then s[1..] else s;
    if |t| > 0 && t[|t| - 1] == '\n' then t[..|t| - 1] else t
  }

  /** `is_valid_hex`. */
  predicate IsValidHex(s: string) {
    var d := HexBody(s);
    (|d| == 6 || |d| == 3) && AllHex(d)
  }

  /** The language of `^#?([A-Fa-f0-9]{6}|[A-Fa-f0-9]{3})$` under `re.match`,
      written as the four ways the optional parts can be present. */
  ghost predicate MatchesHexPattern(s: string) {
    exists d: string :: AllHex(d) && (|d| == 6 || |d| == 3)
      && (s == d || s == "#" + d || s == d + "\n" || s == "#" + d + "\n")
  }

  lemma ValidHexIffPattern(s: string)
    ensures IsValidHex(s) <==> MatchesHexPattern(s)
  {
    if IsValidHex(s) {
      ValidHexMatches(s);
    }
    if MatchesHexPattern(s) {
      var d: string :| AllHex(d) && (|d| == 6 || |d| == 3)
        && (s == d || s == "#" + d || s == d + "\n" || s == "#" + d + "\n");
      PatternBody(s, d);
    }
  }

  /** A string the validator accepts is some body of hex digits with an
      optional `#` in front and an optional newline behind. */
  lemma ValidHexMatches(s: string)
    requires IsValidHex(s)
    ensures MatchesHexPattern(s)
  {
    var d := HexBody(s);
    var t := if |s| > 0 && s[0] == '#' then s[1..] else s;
    if |s| > 0 && s[0] == '#' {
      assert s == "#" + t;
    }
    if |t| > 0 && t[|t| - 1] == '\n' {
      assert t == d + "\n";
    }
    assert s == d || s == "#" + d || s == d + "\n" || s == "#" + d + "\n";
  }

  /** Wrapping a body of hex digits in an optional `#` and newline leaves
      that body for the validator to read. */
  lemma PatternBody(s: string, d: string)
    requires AllHex(d) && (|d| == 6 || |d| == 3)
    requires s == d || s == "#" + d || s == d + "\n" || s == "#" + d + "\n"
    ensures HexBody(s) == d && IsValidHex(s)
  {
    assert IsHexDigit(d[0]) && IsHexDigit(d[|d| - 1]);
    if s == d + "\n" {
      assert (d + "\n")[..|d|] == d;
    } else if s == "#" + d + "\n" {
      assert s[1..] == d + "\n";
      assert (d + "\n")[..|d|] == d;
    } else if s == "#" + d {
      assert s[1..] == d;
    }
  }

  /** The number a string of hex digits spells, most significant first. */
  function HexValue(d: string): nat
    requires AllHex(d)
  {
    if |d| == 0 then 0 else 16 * HexValue(d[..|d| - 1]) + DigitValue(d[|d| - 1])
  }

  /** Uppercase hex digits of a natural number, most significant first. */
  function HexDigits(n: nat): (d: string)
    ensures |d| >= 1
    ensures forall i :: 0 <= i < |d| ==> IsUpperHexDigit(d[i])
    ensures n < 16 <==> |d| == 1
  {
    if n < 16 then [UpperDigit(n)] else HexDigits(n / 16) + [UpperDigit(n % 16)]
  }

  /** The digits of `n` spell `n` and have no leading zero; a byte takes
      at most two of them. */
  lemma {:induction false} HexDigitsSpell(n: nat)
    ensures AllHex(HexDigits(n)) && HexValue(HexDigits(n)) == n
    ensures HexDigits(n)[0] == '0' <==> n == 0
    ensures n < 256 <==> |HexDigits(n)| <= 2
  {
    var d := HexDigits(n);
    if n >= 16 {
      HexDigitsSpell(n / 16);
      assert d[..|d| - 1] == HexDigits(n / 16);
    }
  }

  /** `format(n, "02X")`: zero-padded to width two, with a leading minus
      sign (which counts towards the width) for negative numbers. */
  function Format02X(n: int): (d: string)
    ensures |d| >= 2
  {
    if n < 0 then "-" + HexDigits(-n)
    else if n < 16 then "0" + HexDigits(n)
    else HexDigits(n)
  }

  /** What `format(n, "02X")` writes: exactly two characters for every
      `n` from -15 to 255; for `n >= 0`, uppercase digits that spell `n`;
      for negative `n`, a minus sign and uppercase digits spelling `-n`. */
  lemma Format02XSpells(n: int)
    ensures -16 < n < 256 <==> |Format02X(n)| == 2
    ensures n >= 0 ==> AllHex(Format02X(n)) && HexValue(Format02X(n)) == n
    ensures n >= 0 ==> forall i :: 0 <= i < |Format02X(n)| ==> IsUpperHexDigit(Format02X(n)[i])
    ensures n < 0 ==> Format02X(n)[0] == '-' && AllHex(Format02X(n)[1..]) && HexValue(Format02X(n)[1..]) == -n
    ensures n < 0 ==> forall i :: 1 <= i < |Format02X(n)| ==> IsUpperHexDigit(Format02X(n)[i])
  {
    var d := Format02X(n);
    if n < 0 {
      HexDigitsSpell(-n);
      assert d[1..] == HexDigits(-n);
    } else if n < 16 {
      HexDigitsSpell(n);
      assert d[..1] == "0" && d[1..] == HexDigits(n);
      assert HexValue("0") == 0;
    } else {
      HexDigitsSpell(n);
    }
  }

  /** The `{:02X}` fields of a format string, one after the other. */
  function FormatFields(vs: seq<int>): string
    decreases |vs|
  {
    if |vs| == 0 then "" else Format02X(vs[0]) + FormatFields(vs[1..])
  }

  /** `"#{:02X}{:02X}{:02X}".format(r, g, b)`. */
  function FormatRgb(r: int, g: int, b: int): string {
    "#" + FormatFields([r, g, b])
  }

  /** The three fields written out. */
  lemma FormatRgbFields(r: int, g: int, b: int)
    ensures FormatRgb(r, g, b) == "#" + Format02X(r) + Format02X(g) + Format02X(b)
  {
    var fr, fg, fb := Format02X(r), Format02X(g), Format02X(b);
    assert FormatFields([b]) == fb by {
      assert [b][1..] == [];
      assert fb + "" == fb;
    }
    assert FormatFields([g, b]) == fg + fb by {
      assert [g, b][1..] == [b];
    }
    assert FormatFields([r, g, b]) == fr + (fg + fb) by {
      assert [r, g, b][1..] == [g, b];
    }
    assert "#" + (fr + (fg + fb)) == "#" + fr + fg + fb;
  }

  /** `#` followed by exactly six uppercase hex digits. */
  predicate IsCanonicalHex(s: string) {
    |s| == 7 && s[0] == '#' && forall i :: 1 <= i < 7 ==> IsUpperHexDigit(s[i])
  }

  lemma FormatByte(n: int)
    requires IsByte(n)
    ensures Format02X(n) == [UpperDigit(n / 16), UpperDigit(n % 16)]
  {
    if n >= 16 {
      assert HexDigits(n / 16) == [UpperDigit(n / 16)];
    }
  }

  /** Formatting bytes always yields the canonical seven-character form. */
  lemma FormatRgbCanonical(r: int, g: int, b: int)
    requires IsByte(r) && IsByte(g) && IsByte(b)
    ensures IsCanonicalHex(FormatRgb(r, g, b))
    ensures FormatRgb(r, g, b) == ['#', UpperDigit(r / 16), UpperDigit(r % 16),
      UpperDigit(g / 16), UpperDigit(g % 16), UpperDigit(b / 16), UpperDigit(b % 16)]
  {
    FormatRgbFields(r, g, b);
    FormatByte(r);
    FormatByte(g);
    FormatByte(b);
  }

  /** A valid six-digit string decodes to the bytes its digit pairs spell. */
  lemma HexToRgbOfValidLong(s: string)
    requires IsValidHex(s) && |HexBody(s)| == 6
    ensures var d := HexBody(s);
      HexToRgb(s) == Rgb(16 * DigitValue(d[0]) + DigitValue(d[1]),
                         16 * DigitValue(d[2]) + DigitValue(d[3]),
                         16 * DigitValue(d[4]) + DigitValue(d[5]))
    ensures InGamut(HexToRgb(s))
  {
    var d := HexBody(s);
    var t := if |s| > 0 && s[0] == '#' then s[1..] else s;
    assert IsHexDigit(d[0]);
    assert d == t[..6];
    StripOptionalHash(s);
    assert Piece(t, 0) == d[0..2] && Piece(t, 2) == d[2..4] && Piece(t, 4) == d[4..6];
    assert AllHex(d[0..2]) && AllHex(d[2..4]) && AllHex(d[4..6]);
  }

  /** A valid three-digit string is accepted by the validator but decodes
      to black: its third slice is empty (or a lone newline). */
  lemma HexToRgbOfValidShort(s: string)
    requires IsValidHex(s) && |HexBody(s)| == 3
    ensures HexToRgb(s) == Rgb(0, 0, 0)
  {
    var d := HexBody(s);
    var t := if |s| > 0 && s[0] == '#' then s[1..] else s;
    assert IsHexDigit(d[0]);
    assert d == t[..3] && |t| <= 4;
    StripOptionalHash(s);
    assert Piece(t, 4) == [];
  }

  /** Every valid string decodes to bytes. */
  lemma ValidHexInGamut(s: string)
    requires IsValidHex(s)
    ensures InGamut(HexToRgb(s))
  {
    if |HexBody(s)| == 6 { HexToRgbOfValidLong(s); } else { HexToRgbOfValidShort(s); }
  }

  lemma UpperDigitOfValue(c: char)
    requires IsHexDigit(c)
    ensures UpperDigit(DigitValue(c)) == ToUpperHex(c)
  {
  }

  lemma SplitByte(hi: nat, lo: nat)
    requires hi < 16 && lo < 16
    ensures (16 * hi + lo) / 16 == hi && (16 * hi + lo) % 16 == lo
  {
  }

  lemma UpperAllSix(d: string)
    requires |d| == 6 && AllHex(d)
    ensures UpperAll(d) == [UpperDigit(DigitValue(d[0])), UpperDigit(DigitValue(d[1])),
      UpperDigit(DigitValue(d[2])), UpperDigit(DigitValue(d[3])),
      UpperDigit(DigitValue(d[4])), UpperDigit(DigitValue(d[5]))]
  {
    var u := UpperAll(d);
    forall k | 0 <= k < 6 ensures IsHexDigit(d[k]) && u[k] == UpperDigit(DigitValue(d[k])) {
      assert IsHexDigit(d[k]);
      UpperDigitOfValue(d[k]);
    }
  }

  /** Bytes spelled by six hex digits format back to those digits in upper case. */
  lemma FormatPairs(d: string, r: int, g: int, b: int)
    requires |d| == 6 && AllHex(d)
    requires r == 16 * DigitValue(d[0]) + DigitValue(d[1])
    requires g == 16 * DigitValue(d[2]) + DigitValue(d[3])
    requires b == 16 * DigitValue(d[4]) + DigitValue(d[5])
    ensures FormatRgb(r, g, b) == "#" + UpperAll(d)
  {
    UpperAllSix(d);
    FormatNibbles(DigitValue(d[0]), DigitValue(d[1]), DigitValue(d[2]),
      DigitValue(d[3]), DigitValue(d[4]), DigitValue(d[5]));
  }

  /** Three bytes given by their six nibbles format as those nibbles' digits. */
  lemma FormatNibbles(a0: nat, a1: nat, a2: nat, a3: nat, a4: nat, a5: nat)
    requires a0 < 16 && a1 < 16 && a2 < 16 && a3 < 16 && a4 < 16 && a5 < 16
    ensures FormatRgb(16 * a0 + a1, 16 * a2 + a3, 16 * a4 + a5)
      == ['#', UpperDigit(a0), UpperDigit(a1), UpperDigit(a2), UpperDigit(a3), UpperDigit(a4), UpperDigit(a5)]
  {
    SplitByte(a0, a1);
    SplitByte(a2, a3);
    SplitByte(a4, a5);
    FormatRgbCanonical(16 * a0 + a1, 16 * a2 + a3, 16 * a4 + a5);
  }

  /** Re-encoding a valid six-digit string gives its digits in upper case
      behind a single `#`. */
  lemma FormatOfValidLong(s: string)
    requires IsValidHex(s) && |HexBody(s)| == 6
    ensures var c := HexToRgb(s); FormatRgb(c.r, c.g, c.b) == "#" + UpperAll(HexBody(s))
  {
    HexToRgbOfValidLong(s);
    var c := HexToRgb(s);
    FormatPairs(HexBody(s), c.r, c.g, c.b);
  }

  /** Formatting bytes and decoding the text gives the bytes back. */
  lemma HexToRgbOfFormat(r: int, g: int, b: int)
    requires IsByte(r) && IsByte(g) && IsByte(b)
    ensures HexToRgb(FormatRgb(r, g, b)) == Rgb(r, g, b)
  {
    var s := FormatRgb(r, g, b);
    FormatRgbCanonical(r, g, b);
    CanonicalIsValid(s);
    HexToRgbOfValidLong(s);
    assert HexBody(s) == s[1..];
  }

  /** A canonical string is valid, in gamut and its own re-encoding. */
  lemma CanonicalIsValid(s: string)
    requires IsCanonicalHex(s)
    ensures IsValidHex(s) && |HexBody(s)| == 6 && HexBody(s) == s[1..]
  {
    assert IsUpperHexDigit(s[6]);
  }

  lemma CanonicalRoundTrip(s: string)
    requires IsCanonicalHex(s)
    ensures InGamut(HexToRgb(s))
    ensures var c := HexToRgb(s); FormatRgb(c.r, c.g, c.b) == s
  {
    CanonicalIsValid(s);
    HexToRgbOfValidLong(s);
    FormatOfValidLong(s);
    var d := s[1..];
    assert UpperAll(d) == d by {
      forall k | 0 <= k < 6 ensures UpperAll(d)[k] == d[k] {
        assert IsUpperHexDigit(s[k + 1]);
      }
    }
    assert s == "#" + d;
  }

  /** The decodings the test suite checks. */
  lemma HexToRgbWhite()
    ensures HexToRgb("#FFFFFF") == Rgb(255, 255, 255)
  {
    var s := "#FFFFFF";
    assert HexBody(s) == "FFFFFF";
    assert AllHex(HexBody(s));
    HexToRgbOfValidLong(s);
  }

  lemma HexToRgbBlack()
    ensures HexToRgb("#000000") == Rgb(0, 0, 0)
  {
    var s := "#000000";
    assert HexBody(s) == "000000";
    assert AllHex(HexBody(s));
    HexToRgbOfValidLong(s);
  }

  lemma HexToRgbExample()
    ensures HexToRgb("3498DB") == Rgb(52, 152, 219)
  {
    var t := "3498DB";
    assert LStripHash(t) == t;
    assert Piece(t, 0) == "34" && Piece(t, 2) == "98" && Piece(t, 4) == "DB";
    assert ParseInt16("34") == Some(52);
    assert ParseInt16("98") == Some(152);
    assert ParseInt16("DB") == Some(219);
    HexToRgbBySlices(t);
  }

  lemma ParseSignedDigit()
    ensures ParseInt16("-F") == Some(-15)
  {
  }

  /** `int()` accepts a signed slice, so `hex_to_rgb` can return negative
      channels for text the validator rejects. */
  lemma HexToRgbSignedSlices()
    ensures !IsValidHex("#-F-F-F") && HexToRgb("#-F-F-F") == Rgb(-15, -15, -15)
  {
    var s := "#-F-F-F";
    StripOneHash(s);
    var t := s[1..];
    assert t == "-F-F-F";
    assert t[0..2] == "-F" && t[2..4] == "-F" && t[4..6] == "-F";
    ParseSignedDigit();
    assert HexBody(s) == t;
    assert !IsHexDigit(t[0]);
  }

  /** Only two characters of the third slice are needed, so a five-digit
      string, which the validator rejects, still decodes. */
  lemma HexToRgbFiveDigits()
    ensures !IsValidHex("ABCDE") && HexToRgb("ABCDE") == Rgb(171, 205, 14)
  {
    var t := "ABCDE";
    assert LStripHash(t) == t;
    assert Piece(t, 0) == "AB" && Piece(t, 2) == "CD" && Piece(t, 4) == "E";
    assert ParseInt16("AB") == Some(171);
    assert ParseInt16("CD") == Some(205);
    assert ParseInt16("E") == Some(14);
    HexToRgbBySlices(t);
    assert |HexBody(t)| == 5 by {
      assert HexBody(t) == t;
    }
  }

  lemma ParseMinusFive()
    ensures ParseInt16("-5") == Some(-5) && ParseInt16("05") == Some(5) && ParseInt16("00") == Some(0)
  {
  }

  lemma StripMixedSigns()
    ensures var t := LStripHash("#-50500");
      Piece(t, 0) == "-5" && Piece(t, 2) == "05" && Piece(t, 4) == "00"
  {
    var s := "#-50500";
    StripOneHash(s);
    var t := s[1..];
    assert t == "-50500";
    assert t[0..2] == "-5" && t[2..4] == "05" && t[4..6] == "00";
  }

  /** A single leading `#` is all `lstrip("#")` removes. */
  lemma StripOneHash(s: string)
    requires |s| > 1 && s[0] == '#' && s[1] != '#'
    ensures LStripHash(s) == s[1..]
  {
    StripOptionalHash(s);
  }

  /** When at most one `#` leads, `lstrip` and the optional `#?` of the
      pattern remove the same prefix. */
  lemma StripOptionalHash(s: string)
    requires var t := if |s| > 0 && s[0] == '#' then s[1..] else s; t == [] || t[0] != '#'
    ensures LStripHash(s) == if |s| > 0 && s[0] == '#' then s[1..] else s
  {
    if |s| > 0 && s[0] == '#' {
      assert HashEnd(s, 1) == 1;
    }
  }

  /** Mixed signs: `"#-50500"` decodes to (-5, 5, 0), whose largest and
      smallest channels cancel. */
  lemma HexToRgbMixedSigns()
    ensures !IsValidHex("#-50500") && HexToRgb("#-50500") == Rgb(-5, 5, 0)
  {
    var s := "#-50500";
    StripMixedSigns();
    ParseMinusFive();
    assert HexBody(s) == "-50500";
    assert !IsHexDigit(HexBody(s)[0]);
  }

  /** Bytes that are not all zero do not format as black. */
  lemma FormatNotBlack(r: int, g: int, b: int)
    requires IsByte(r) && IsByte(g) && IsByte(b) && (r > 0 || g > 0 || b > 0)
    ensures FormatRgb(r, g, b) != "#000000"
  {
    HexToRgbOfFormat(r, g, b);
    HexToRgbBlack();
  }

  /** Bytes that are not all 255 do not format as white. */
  lemma FormatNotWhite(r: int, g: int, b: int)
    requires IsByte(r) && IsByte(g) && IsByte(b) && (r < 255 || g < 255 || b < 255)
    ensures FormatRgb(r, g, b) != "#FFFFFF"
  {
    HexToRgbOfFormat(r, g, b);
    HexToRgbWhite();
  }
}
