/** `ensure_wcag_compliant`, the bounded lightness search that repairs a
    background against a text colour, and the per-colour repair the theme
    window applies to a palette when a WCAG level is requested. */
module Compliance {
  import opened Results
  import opened HexCodec
  import opened ColorSpace
  import opened Metrics

  /** The pair reaches the requested ratio. */
  predicate Meets(pow: Power24, fg: string, c: string, minRatio: real) {
    ContrastRatio(pow, fg, c) >= minRatio
  }

  /** The step direction: darken (-1) when the text is closer to white than
      to black, that is when black contrasts with it more strongly than
      white does; otherwise lighten (+1). */
  function Direction(pow: Power24, fg: string): (d: int)
    ensures d == -1 || d == 1
  {
    if ContrastRatio(pow, fg, "#000000") > ContrastRatio(pow, fg, "#FFFFFF") then -1 else 1
  }

  /** One loop step: move the lightness by 0.01 and clamp it to [0, 1]. */
  function Step(l: real, dir: int): (l': real)
    ensures InUnit(l')
  {
    Clamp(l + dir as real * 0.01, 0.0, 1.0)
  }

  /** The lightness after `j` steps from `l`. */
  function Walk(l: real, dir: int, j: nat): real
    decreases j
  {
    if j == 0 then l else Walk(Step(l, dir), dir, j - 1)
  }

  /** The background at lightness `l`, hue and saturation kept. */
  function Paint(h: real, s: real): real -> string {
    l => HlsToHex(h, l, s)
  }

  /** The `j`-th candidate background (counting from 1): lightness walked
      `j` steps, then painted. */
  function Candidate(paint: real -> string, dir: int, l: real, j: nat): string {
    paint(Walk(l, dir, j))
  }

  /** The loop body run `k` more times from lightness `l`: the first
      candidate that passes `ok`, or `None` when all `k` fail. */
  function Search(ok: string -> bool, paint: real -> string, dir: int, l: real, k: nat): Option<string>
    decreases k
  {
    if k == 0 then None
    else
      var l' := Step(l, dir);
      var c := paint(l');
      if ok(c) then Some(c)
      else Search(ok, paint, dir, l', k - 1)
  }

  /** The test the loop applies to each candidate. */
  function MeetsTest(pow: Power24, fg: string, minRatio: real): string -> bool {
    c => Meets(pow, fg, c, minRatio)
  }

  /** What `ensure_wcag_compliant` returns: the background itself when it
      already meets the ratio; otherwise the first of 100 candidates that
      does, or the background when none does. Raises where `rgb_to_hls`
      divides by zero. */
  function Compliant(pow: Power24, fg: string, bg: string, minRatio: real): Result<string> {
    if Meets(pow, fg, bg, minRatio) then Ok(bg)
    else
      match RgbToHls(HexToRgb(bg))
      case DivisionByZero => DivisionByZero
      case Ok(x) =>
        var found := Search(MeetsTest(pow, fg, minRatio), Paint(x.h, x.s), Direction(pow, fg), x.l, 100);
        Ok(if found.Some? then found.value else bg)
  }

  /** The search branch of `Compliant`, spelled out. */
  lemma CompliantBySearch(pow: Power24, fg: string, bg: string, minRatio: real)
    requires !Meets(pow, fg, bg, minRatio) && RgbToHls(HexToRgb(bg)).Ok?
    ensures var x := RgbToHls(HexToRgb(bg)).value;
      var found := Search(MeetsTest(pow, fg, minRatio), Paint(x.h, x.s), Direction(pow, fg), x.l, 100);
      Compliant(pow, fg, bg, minRatio) == Ok(if found.Some? then found.value else bg)
  {
  }

  /** One round of the search. */
  lemma SearchStep(ok: string -> bool, paint: real -> string, dir: int, l: real, k: nat)
    requires k > 0
    ensures Search(ok, paint, dir, l, k) ==
      if ok(paint(Step(l, dir))) then Some(paint(Step(l, dir))) else Search(ok, paint, dir, Step(l, dir), k - 1)
  {
  }

  lemma PaintAt(h: real, s: real, l: real)
    ensures Paint(h, s)(l) == HlsToHex(h, l, s)
  {
  }

  lemma MeetsTestAt(pow: Power24, fg: string, minRatio: real, c: string)
    ensures MeetsTest(pow, fg, minRatio)(c) == (ContrastRatio(pow, fg, c) >= minRatio)
  {
  }

  /** `ensure_wcag_compliant`. Both branches on `preserveCharacter` compute
      the same colour, so the result does not depend on it. */
  method EnsureWcagCompliant(pow: Power24, fg: string, bg: string, minRatio: real, preserveCharacter: bool)
    returns (r: Result<string>)
    ensures r == Compliant(pow, fg, bg, minRatio)
  {
    if ContrastRatio(pow, fg, bg) >= minRatio {
      return Ok(bg);
    }
    var hls := RgbToHls(HexToRgb(bg));
    if hls.DivisionByZero? {
      return DivisionByZero;
    }
    CompliantBySearch(pow, fg, bg, minRatio);
    var direction;
    if ContrastRatio(pow, fg, "#000000") > ContrastRatio(pow, fg, "#FFFFFF") {
      direction := -1;
    } else {
      direction := 1;
    }
    var adjusted := SearchLoop(pow, fg, bg, minRatio, preserveCharacter, hls.value, direction);
    return Ok(adjusted);
  }

  /** The 100-step loop of `ensure_wcag_compliant`, from the background's
      HLS form `x`: the first candidate that meets the ratio, else `bg`. */
  method SearchLoop(pow: Power24, fg: string, bg: string, minRatio: real, preserveCharacter: bool, x: Hls, direction: int)
    returns (r: string)
    ensures var found := Search(MeetsTest(pow, fg, minRatio), Paint(x.h, x.s), direction, x.l, 100);
      r == if found.Some? then found.value else bg
  {
    var h, l, s := x.h, x.l, x.s;
    ghost var ok, paint := MeetsTest(pow, fg, minRatio), Paint(h, s);
    ghost var found := Search(ok, paint, direction, l, 100);
    for i := 0 to 100
      invariant found == Search(ok, paint, direction, l, 100 - i)
    {
      SearchStep(ok, paint, direction, l, 100 - i);
      ghost var next := Step(l, direction);
      l := l + direction as real * 0.01;
      l := Max(0.0, Min(1.0, l));
      assert l == next;
      var adjusted;
      if preserveCharacter {
        adjusted := HlsToHex(h, l, s);
      } else {
        adjusted := HlsToHex(h, l, s);
      }
      PaintAt(h, s, l);
      MeetsTestAt(pow, fg, minRatio, adjusted);
      if ContrastRatio(pow, fg, adjusted) >= minRatio {
        return adjusted;
      }
    }
    return bg;
  }

  /** Candidate `j` is the first to pass `ok`. */
  predicate FirstFit(ok: string -> bool, paint: real -> string, dir: int, l: real, j: nat) {
    ok(Candidate(paint, dir, l, j)) && forall i :: 1 <= i < j ==> !ok(Candidate(paint, dir, l, i))
  }

  /** The search finds nothing exactly when every one of its `k` candidates
      falls short. */
  lemma {:induction false} SearchNone(ok: string -> bool, paint: real -> string, dir: int, l: real, k: nat)
    ensures Search(ok, paint, dir, l, k).None?
      <==> forall j :: 1 <= j <= k ==> !ok(Candidate(paint, dir, l, j))
    decreases k
  {
    if k > 0 {
      var l' := Step(l, dir);
      SearchNone(ok, paint, dir, l', k - 1);
      assert Candidate(paint, dir, l, 1) == paint(l');
      forall j | 1 <= j <= k - 1
        ensures Candidate(paint, dir, l', j) == Candidate(paint, dir, l, j + 1)
      {
      }
      if forall j :: 1 <= j <= k ==> !ok(Candidate(paint, dir, l, j)) {
        forall j | 1 <= j <= k - 1
          ensures !ok(Candidate(paint, dir, l', j))
        {
          assert !ok(Candidate(paint, dir, l, j + 1));
        }
      }
      if Search(ok, paint, dir, l, k).None? {
        forall j | 1 <= j <= k
          ensures !ok(Candidate(paint, dir, l, j))
        {
          if j > 1 {
            assert Candidate(paint, dir, l, j) == Candidate(paint, dir, l', j - 1);
          }
        }
      }
    }
  }

  /** A found colour is the first candidate that meets the ratio. */
  lemma {:induction false} SearchFirstFit(ok: string -> bool, paint: real -> string, dir: int, l: real, k: nat)
    requires Search(ok, paint, dir, l, k).Some?
    ensures exists j :: (1 <= j <= k && FirstFit(ok, paint, dir, l, j) &&
      Search(ok, paint, dir, l, k).value == Candidate(paint, dir, l, j))
    decreases k
  {
    var l' := Step(l, dir);
    var c := paint(l');
    assert Candidate(paint, dir, l, 1) == c;
    if !ok(c) {
      SearchFirstFit(ok, paint, dir, l', k - 1);
      var j :| 1 <= j <= k - 1 && FirstFit(ok, paint, dir, l', j)
        && Search(ok, paint, dir, l', k - 1).value == Candidate(paint, dir, l', j);
      assert Candidate(paint, dir, l', j) == Candidate(paint, dir, l, j + 1);
      forall i | 1 <= i < j + 1
        ensures !ok(Candidate(paint, dir, l, i))
      {
        if i > 1 {
          assert Candidate(paint, dir, l, i) == Candidate(paint, dir, l', i - 1);
        }
      }
    }
  }

  /** Lightening from a lightness in [0, 1] adds 0.01 per step up to 1. */
  lemma {:induction false} WalkUp(l: real, j: nat)
    requires InUnit(l)
    ensures Walk(l, 1, j) == Min(1.0, l + 0.01 * j as real)
    decreases j
  {
    if j > 0 {
      WalkUp(Step(l, 1), j - 1);
    }
  }

  /** Darkening from a lightness in [0, 1] subtracts 0.01 per step down to 0. */
  lemma {:induction false} WalkDown(l: real, j: nat)
    requires InUnit(l)
    ensures Walk(l, -1, j) == Max(0.0, l - 0.01 * j as real)
    decreases j
  {
    if j > 0 {
      WalkDown(Step(l, -1), j - 1);
    }
  }

  /** The result is the background or a colour that meets the ratio. */
  lemma CompliantSound(pow: Power24, fg: string, bg: string, minRatio: real)
    ensures var r := Compliant(pow, fg, bg, minRatio);
      r.Ok? ==> r.value == bg || Meets(pow, fg, r.value, minRatio)
  {
    var r := Compliant(pow, fg, bg, minRatio);
    if r.Ok? && !Meets(pow, fg, bg, minRatio) {
      var x := RgbToHls(HexToRgb(bg)).value;
      var dir := Direction(pow, fg);
      var found := Search(MeetsTest(pow, fg, minRatio), Paint(x.h, x.s), dir, x.l, 100);
      if found.Some? {
        SearchFirstFit(MeetsTest(pow, fg, minRatio), Paint(x.h, x.s), dir, x.l, 100);
      }
    }
  }

  /** A compliant background comes back unchanged; otherwise the result is
      a different colour exactly when some candidate meets the ratio, and
      it raises only when `rgb_to_hls` does. */
  lemma CompliantCases(pow: Power24, fg: string, bg: string, minRatio: real)
    ensures Meets(pow, fg, bg, minRatio) ==> Compliant(pow, fg, bg, minRatio) == Ok(bg)
    ensures Compliant(pow, fg, bg, minRatio) == DivisionByZero
      <==> !Meets(pow, fg, bg, minRatio) && RgbToHls(HexToRgb(bg)).DivisionByZero?
    ensures !Meets(pow, fg, bg, minRatio) && RgbToHls(HexToRgb(bg)).Ok? ==>
      var x := RgbToHls(HexToRgb(bg)).value;
      (Compliant(pow, fg, bg, minRatio) == Ok(bg) <==>
        forall j :: 1 <= j <= 100 ==> !Meets(pow, fg, Candidate(Paint(x.h, x.s), Direction(pow, fg), x.l, j), minRatio))
  {
    if !Meets(pow, fg, bg, minRatio) && RgbToHls(HexToRgb(bg)).Ok? {
      var x := RgbToHls(HexToRgb(bg)).value;
      var dir := Direction(pow, fg);
      SearchNone(MeetsTest(pow, fg, minRatio), Paint(x.h, x.s), dir, x.l, 100);
      var found := Search(MeetsTest(pow, fg, minRatio), Paint(x.h, x.s), dir, x.l, 100);
      if found.Some? {
        SearchFirstFit(MeetsTest(pow, fg, minRatio), Paint(x.h, x.s), dir, x.l, 100);
      }
    }
  }

  /** When every lightness in [0, 1] paints a canonical colour, so is
      every colour the search finds. */
  lemma {:induction false} SearchCanonical(ok: string -> bool, paint: real -> string, dir: int, l: real, k: nat)
    requires forall u :: InUnit(u) ==> IsCanonicalHex(paint(u))
    ensures var found := Search(ok, paint, dir, l, k);
      found.Some? ==> IsCanonicalHex(found.value)
    decreases k
  {
    if k > 0 {
      SearchCanonical(ok, paint, dir, Step(l, dir), k - 1);
    }
  }

  /** A saturation in [0, 1] paints canonical colours at every lightness in [0, 1]. */
  lemma PaintCanonical(h: real, s: real)
    requires InUnit(s)
    ensures forall u :: InUnit(u) ==> IsCanonicalHex(Paint(h, s)(u))
  {
    forall u | InUnit(u)
      ensures IsCanonicalHex(Paint(h, s)(u))
    {
      HlsToHexCanonical(h, u, s);
    }
  }

  /** An in-gamut background never raises, and the result is the
      background or a canonical colour. */
  lemma CompliantInGamut(pow: Power24, fg: string, bg: string, minRatio: real)
    requires InGamut(HexToRgb(bg))
    ensures var r := Compliant(pow, fg, bg, minRatio);
      r.Ok? && (r.value == bg || IsCanonicalHex(r.value))
  {
    RgbToHlsInGamut(HexToRgb(bg));
    var x := RgbToHls(HexToRgb(bg)).value;
    PaintCanonical(x.h, x.s);
    if !Meets(pow, fg, bg, minRatio) {
      CompliantBySearch(pow, fg, bg, minRatio);
    }
    SearchCanonical(MeetsTest(pow, fg, minRatio), Paint(x.h, x.s), Direction(pow, fg), x.l, 100);
  }

  /** Black text lightens the background and white text darkens it. */
  lemma DirectionOfExtremes(pow: Power24)
    ensures Direction(pow, "#000000") == 1 && Direction(pow, "#FFFFFF") == -1
  {
    ContrastSelf(pow, "#000000", "#000000");
    ContrastSelf(pow, "#FFFFFF", "#FFFFFF");
    ContrastWhiteBlack(pow);
    ContrastSymmetric(pow, "#FFFFFF", "#000000");
  }

  /** With black or white text, any ratio up to 21 is always reached from
      an in-gamut background: 100 steps of 0.01 take any lightness to the
      far extreme, which is pure white or pure black at ratio 21. */
  lemma CompliantReachesTarget(pow: Power24, fg: string, bg: string, minRatio: real)
    requires fg == "#000000" || fg == "#FFFFFF"
    requires InGamut(HexToRgb(bg)) && minRatio <= 21.0
    ensures Compliant(pow, fg, bg, minRatio).Ok?
    ensures Meets(pow, fg, Compliant(pow, fg, bg, minRatio).value, minRatio)
  {
    RgbToHlsInGamut(HexToRgb(bg));
    if !Meets(pow, fg, bg, minRatio) {
      var x := RgbToHls(HexToRgb(bg)).value;
      var dir := Direction(pow, fg);
      DirectionOfExtremes(pow);
      ContrastWhiteBlack(pow);
      ContrastSymmetric(pow, "#FFFFFF", "#000000");
      if fg == "#000000" {
        WalkUp(x.l, 100);
        HlsToHexExtremes(x.h, x.s);
        assert Candidate(Paint(x.h, x.s), dir, x.l, 100) == "#FFFFFF";
      } else {
        WalkDown(x.l, 100);
        HlsToHexExtremes(x.h, x.s);
        assert Candidate(Paint(x.h, x.s), dir, x.l, 100) == "#000000";
      }
      SearchNone(MeetsTest(pow, fg, minRatio), Paint(x.h, x.s), dir, x.l, 100);
      SearchFirstFit(MeetsTest(pow, fg, minRatio), Paint(x.h, x.s), dir, x.l, 100);
    }
  }
}
