/** The accessibility pass the theme window runs over a palette when a WCAG
    level is requested: each colour gets its readable text colour, and a
    colour below the target ratio is repaired by `ensure_wcag_compliant`. */
module Repair {
  import opened Results
  import opened HexCodec
  import opened Metrics
  import opened Compliance

  /** Python's `pat in text` on strings. */
  predicate Contains(text: string, pat: string)
    decreases |text|
  {
    |pat| <= |text| && (text[..|pat|] == pat || Contains(text[1..], pat))
  }

  /** `Contains` holds exactly when `pat` occurs at some position of `text`. */
  lemma {:induction false} ContainsAt(text: string, pat: string)
    ensures Contains(text, pat) <==> exists i :: 0 <= i <= |text| - |pat| && Occurs(text, pat, i)
    decreases |text|
  {
    if |pat| <= |text| && text[..|pat|] != pat {
      ContainsAt(text[1..], pat);
      if Contains(text[1..], pat) {
        var i :| 0 <= i <= |text| - 1 - |pat| && Occurs(text[1..], pat, i);
        assert Occurs(text, pat, i + 1);
      }
      if exists i :: 0 <= i <= |text| - |pat| && Occurs(text, pat, i) {
        var i :| 0 <= i <= |text| - |pat| && Occurs(text, pat, i);
        assert i != 0;
        assert Occurs(text[1..], pat, i - 1);
      }
    } else if |pat| <= |text| {
      assert Occurs(text, pat, 0);
    }
  }

  predicate Occurs(text: string, pat: string, i: int)
    requires 0 <= i <= |text| - |pat|
  {
    text[i..i + |pat|] == pat
  }

  /** The target ratio chosen from the level box: 7 when its text names AAA,
      4.5 otherwise. */
  function TargetRatio(levelText: string): (k: real)
    ensures k == 4.5 || k == 7.0
  {
    if Contains(levelText, "AAA") then 7.0 else 4.5
  }

  /** The level box offers "AA (4.5:1)" and "AAA (7:1)"; each gives the
      ratio its label states. */
  lemma TargetRatioOfChoices()
    ensures TargetRatio("AA (4.5:1)") == 4.5
    ensures TargetRatio("AAA (7:1)") == 7.0
  {
    assert "AAA (7:1)"[..3] == "AAA";
    var t := "AA (4.5:1)";
    assert t[..3][2] == ' ' && t[1..][..3][1] == ' ';
    assert t[..3] != "AAA" && t[1..][..3] != "AAA";
    assert !Contains(t[2..], "AAA") by {
      assert t[2..][0] != 'A';
      assert forall j :: 0 <= j < |t[2..]| ==> t[2..][j] != 'A';
      NoLetterNoOccurrence(t[2..], "AAA");
    }
    assert t[1..][1..] == t[2..];
  }

  /** A pattern whose first letter never occurs in `text` is not contained. */
  lemma {:induction false} NoLetterNoOccurrence(text: string, pat: string)
    requires |pat| > 0 && forall j :: 0 <= j < |text| ==> text[j] != pat[0]
    ensures !Contains(text, pat)
    decreases |text|
  {
    if |pat| <= |text| {
      assert text[..|pat|][0] == text[0];
      NoLetterNoOccurrence(text[1..], pat);
    }
  }

  /** One colour of the pass: keep it when its picked text colour already
      reaches AAA or the target, else repair the background against that
      text colour. */
  function RepairColor(pow: Power24, minRatio: real, color: string): Result<string> {
    var fg := PickForeground(pow, color);
    var ratio := ContrastRatio(pow, color, fg);
    if WcagLevel(ratio) != AAA && ratio < minRatio then Compliant(pow, fg, color, minRatio)
    else Ok(color)
  }

  /** `f` applied to every entry in order; the first failure fails the whole. */
  function MapResult(f: string -> Result<string>, p: seq<string>): Result<seq<string>>
    decreases |p|
  {
    if |p| == 0 then Ok([])
    else
      match MapResult(f, p[..|p| - 1])
      case DivisionByZero => DivisionByZero
      case Ok(front) =>
        match f(p[|p| - 1])
        case DivisionByZero => DivisionByZero
        case Ok(c) => Ok(front + [c])
  }

  /** The pass on a whole palette; with the check box off the palette is
      shown as it is. */
  function RepairPalette(pow: Power24, palette: seq<string>, levelText: string, wcagCheck: bool): Result<seq<string>> {
    if wcagCheck then MapResult(RepairTest(pow, TargetRatio(levelText)), palette) else Ok(palette)
  }

  function RepairTest(pow: Power24, minRatio: real): string -> Result<string> {
    c => RepairColor(pow, minRatio, c)
  }

  /** The mapped list succeeds exactly when every entry does, and then holds
      each entry's result at its own position. */
  lemma {:induction false} MapResultPointwise(f: string -> Result<string>, p: seq<string>)
    ensures MapResult(f, p).Ok? <==> forall i :: 0 <= i < |p| ==> f(p[i]).Ok?
    ensures MapResult(f, p).Ok? ==>
      |MapResult(f, p).value| == |p| && forall i :: 0 <= i < |p| ==> MapResult(f, p).value[i] == f(p[i]).value
    decreases |p|
  {
    if |p| > 0 {
      var front := p[..|p| - 1];
      MapResultPointwise(f, front);
      assert forall i :: 0 <= i < |front| ==> front[i] == p[i];
    }
  }

  lemma MapResultSnoc(f: string -> Result<string>, p: seq<string>, c: string)
    ensures MapResult(f, p + [c]) ==
      match MapResult(f, p)
      case DivisionByZero => DivisionByZero
      case Ok(front) => if f(c).Ok? then Ok(front + [f(c).value]) else DivisionByZero
  {
    assert (p + [c])[..|p + [c]| - 1] == p;
  }

  lemma TakeOneMore(p: seq<string>, i: nat)
    requires i < |p|
    ensures p[..i + 1] == p[..i] + [p[i]]
  {
  }

  /** Once a prefix fails, every longer list fails: the failure is kept. */
  lemma {:induction false} PrefixFails(f: string -> Result<string>, p: seq<string>, i: nat)
    requires i <= |p| && MapResult(f, p[..i]).DivisionByZero?
    ensures MapResult(f, p).DivisionByZero?
    decreases |p| - i
  {
    if i < |p| {
      assert p[..i + 1][..i] == p[..i];
      assert MapResult(f, p[..i + 1]).DivisionByZero?;
      PrefixFails(f, p, i + 1);
    } else {
      assert p[..i] == p;
    }
  }

  lemma RepairTestAt(pow: Power24, minRatio: real, c: string)
    ensures RepairTest(pow, minRatio)(c) == RepairColor(pow, minRatio, c)
  {
  }

  /** The loop body for one colour. */
  method AdjustColor(pow: Power24, minRatio: real, color: string, preserveCharacter: bool) returns (r: Result<string>)
    ensures r == RepairColor(pow, minRatio, color)
    ensures r == RepairTest(pow, minRatio)(color)
  {
    RepairTestAt(pow, minRatio, color);
    var fg := PickForeground(pow, color);
    var ratio := ContrastRatio(pow, color, fg);
    var wcag := WcagLevel(ratio);
    if wcag != AAA && ratio < minRatio {
      r := EnsureWcagCompliant(pow, fg, color, minRatio, preserveCharacter);
    } else {
      r := Ok(color);
    }
  }

  /** The pass: nothing to do with the check box off; otherwise the level
      text picks the target and every colour goes through the loop. */
  method AdjustPalette(pow: Power24, palette: seq<string>, levelText: string, wcagCheck: bool, preserveCharacter: bool)
    returns (r: Result<seq<string>>)
    ensures r == RepairPalette(pow, palette, levelText, wcagCheck)
  {
    if !wcagCheck {
      return Ok(palette);
    }
    var minRatio := if Contains(levelText, "AAA") then 7.0 else 4.5;
    r := AdjustEach(pow, minRatio, palette, preserveCharacter);
  }

  /** The repair loop over a palette: colours in order, the first raise
      ends the pass. */
  method AdjustEach(pow: Power24, minRatio: real, palette: seq<string>, preserveCharacter: bool)
    returns (r: Result<seq<string>>)
    ensures r == MapResult(RepairTest(pow, minRatio), palette)
  {
    ghost var f := RepairTest(pow, minRatio);
    var adjusted: seq<string> := [];
    for i := 0 to |palette|
      invariant MapResult(f, palette[..i]) == Ok(adjusted)
    {
      var color := palette[i];
      TakeOneMore(palette, i);
      var adjustedColor := AdjustColor(pow, minRatio, color, preserveCharacter);
      MapResultSnoc(f, palette[..i], color);
      if adjustedColor.DivisionByZero? {
        PrefixFails(f, palette, i + 1);
        return DivisionByZero;
      }
      adjusted := adjusted + [adjustedColor.value];
    }
    assert palette[..|palette|] == palette;
    return Ok(adjusted);
  }

  /** When the target is at most 7, the AAA test is implied by the ratio
      test and a colour is repaired exactly when it falls short. */
  lemma RepairColorBelowTarget(pow: Power24, minRatio: real, color: string)
    requires minRatio <= 7.0
    ensures var fg := PickForeground(pow, color);
      ContrastRatio(pow, color, fg) >= minRatio ==> RepairColor(pow, minRatio, color) == Ok(color)
    ensures var fg := PickForeground(pow, color);
      ContrastRatio(pow, color, fg) < minRatio ==> RepairColor(pow, minRatio, color) == Compliant(pow, fg, color, minRatio)
  {
  }

  /** Against its picked text colour every in-gamut colour comes out of the
      pass at the target ratio or above. */
  lemma RepairColorMeetsTarget(pow: Power24, minRatio: real, color: string)
    requires minRatio <= 7.0 && InGamut(HexToRgb(color))
    ensures RepairColor(pow, minRatio, color).Ok?
    ensures ContrastRatio(pow, PickForeground(pow, color), RepairColor(pow, minRatio, color).value) >= minRatio
  {
    var fg := PickForeground(pow, color);
    ContrastSymmetric(pow, color, fg);
    RepairColorBelowTarget(pow, minRatio, color);
    if ContrastRatio(pow, color, fg) < minRatio {
      CompliantReachesTarget(pow, fg, color, minRatio);
    }
  }

  /** The pass keeps the palette's length and order and, on in-gamut
      colours, never raises and leaves every colour readable at the target
      against its own picked text colour. */
  lemma RepairPaletteMeetsTarget(pow: Power24, palette: seq<string>, levelText: string)
    requires forall i :: 0 <= i < |palette| ==> InGamut(HexToRgb(palette[i]))
    ensures var r := RepairPalette(pow, palette, levelText, true);
      r.Ok? && |r.value| == |palette| &&
      forall i :: 0 <= i < |palette| ==>
        ContrastRatio(pow, PickForeground(pow, palette[i]), r.value[i]) >= TargetRatio(levelText)
  {
    var minRatio := TargetRatio(levelText);
    var f := RepairTest(pow, minRatio);
    forall i | 0 <= i < |palette|
      ensures f(palette[i]).Ok?
      ensures ContrastRatio(pow, PickForeground(pow, palette[i]), f(palette[i]).value) >= minRatio
    {
      RepairTestAt(pow, minRatio, palette[i]);
      RepairColorMeetsTarget(pow, minRatio, palette[i]);
    }
    MapResultPointwise(f, palette);
  }
}
