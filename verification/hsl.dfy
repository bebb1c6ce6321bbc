/**
 * `ColorHSL`: an immutable colour given by alpha, hue, saturation and
 * lightness; in a valid colour (`Valid`) each is a fraction in [0,1].  A grey has no hue and no saturation;
 * where the C# type stores NaN in both, this model has the `Achromatic` case,
 * so that "both NaN or neither" holds by construction.  Channels are real
 * numbers: the conversion is exact here, where doubles round.
 */
module HSL {
  import opened Wrappers
  import opened ColorUtil
  import opened RGB

  datatype Chroma = Achromatic | Chromatic(hue: real, saturation: real)

  datatype ColorHSL = ColorHSL(alpha: real, chroma: Chroma, l: real)

  const TypeName := "ColorHSL"

  /** The `H` property: NaN exactly for a grey, otherwise the stored hue. */
  function H(c: ColorHSL): (h: Double)
    ensures h.NaN? <==> c.chroma.Achromatic?
    ensures c.chroma.Chromatic? ==> h == Num(c.chroma.hue)
  {
    match c.chroma
    case Achromatic => NaN
    case Chromatic(h, _) => Num(h)
  }

  /** The `S` property: NaN exactly for a grey, otherwise the stored saturation. */
  function S(c: ColorHSL): (s: Double)
    ensures s.NaN? <==> c.chroma.Achromatic?
    ensures c.chroma.Chromatic? ==> s == Num(c.chroma.saturation)
  {
    match c.chroma
    case Achromatic => NaN
    case Chromatic(_, s) => Num(s)
  }

  /** The values `CheckHSLInRange` lets through. */
  predicate ValidHSL(a: real, h: Double, s: Double, l: real) {
    && InUnit(a)
    && (h.NaN? || InUnit(h.value))
    && (s.NaN? || InUnit(s.value))
    && InUnit(l)
    && (h.NaN? <==> s.NaN?)
  }

  /** A stored colour that the checking constructors would accept. */
  predicate Valid(c: ColorHSL) {
    ValidHSL(c.alpha, H(c), S(c), c.l)
  }

  // ------------------------------------------------------------------ checks

  /**
   * `CheckHSLInRange(a, h, s, l)`: checks alpha, hue, saturation and lightness
   * in that order, then that hue and saturation are NaN together; the first
   * check that fails decides the exception.
   */
  function CheckHSLInRange(a: real, h: Double, s: Double, l: real): (c: Check)
    ensures c.Pass? <==> ValidHSL(a, h, s, l)
    ensures !InUnit(a) ==> c == Fail(RangeError(TypeName, "A"))
    ensures InUnit(a) && h.Num? && !InUnit(h.value) ==> c == Fail(RangeError(TypeName, "H"))
    ensures InUnit(a) && (h.NaN? || InUnit(h.value)) && s.Num? && !InUnit(s.value) ==>
      c == Fail(RangeError(TypeName, "S"))
    ensures InUnit(a) && (h.NaN? || InUnit(h.value)) && (s.NaN? || InUnit(s.value)) && !InUnit(l) ==>
      c == Fail(RangeError(TypeName, "L"))
    ensures c.Fail? && InUnit(a) && InUnit(l) && (h.NaN? || InUnit(h.value)) && (s.NaN? || InUnit(s.value)) ==>
      c == Fail(IncompatibleValue)
  {
    AndThen(CheckRange01(a, TypeName, "A"),
    AndThen(CheckRange01NaN(h, TypeName, "H"),
    AndThen(CheckRange01NaN(s, TypeName, "S"),
    AndThen(CheckRange01(l, TypeName, "L"),
            CheckCompatibleHS(h, s)))))
  }

  /** `CheckHSLInRange(h, s, l)`: the same checks with alpha 1.0, so alpha never fails. */
  function CheckHSLInRangeDefaultAlpha(h: Double, s: Double, l: real): (c: Check)
    ensures c.Pass? <==> ValidHSL(1.0, h, s, l)
    ensures c.Fail? ==> c.error != RangeError(TypeName, "A")
  {
    CheckHSLInRange(1.0, h, s, l)
  }

  /** `IsChromatic`: neither hue nor saturation is NaN, which is to say the colour is not a grey. */
  function IsChromatic(c: ColorHSL): (b: bool)
    ensures b <==> c.chroma.Chromatic?
  {
    !H(c).NaN? && !S(c).NaN?
  }

  // ------------------------------------------------------------ constructors

  /** Hue and saturation as stored: a pair of numbers, or a grey when either is NaN. */
  function PairChroma(h: Double, s: Double): Chroma {
    if h.Num? && s.Num? then Chromatic(h.value, s.value) else Achromatic
  }

  /** `ColorHSL(double alpha, double h, double s, double l)`: checks the values, then stores them. */
  function FromAHSL(alpha: real, h: Double, s: Double, l: real): (r: Result<ColorHSL, ColorError>)
    ensures r.Success? <==> ValidHSL(alpha, h, s, l)
    ensures r.Success? ==> r.value.alpha == alpha && H(r.value) == h && S(r.value) == s && r.value.l == l
    ensures r.Failure? ==> CheckHSLInRange(alpha, h, s, l) == Fail(r.error)
  {
    match CheckHSLInRange(alpha, h, s, l)
    case Fail(e) => Failure(e)
    case Pass => Success(ColorHSL(alpha, PairChroma(h, s), l))
  }

  /** `ColorHSL(double h, double s, double l)`: checks the values with alpha 1.0, then stores them with alpha 1.0. */
  function FromHSL(h: Double, s: Double, l: real): (r: Result<ColorHSL, ColorError>)
    ensures r.Success? <==> ValidHSL(1.0, h, s, l)
    ensures r.Success? ==> r.value.alpha == 1.0 && H(r.value) == h && S(r.value) == s && r.value.l == l
    ensures r.Failure? ==> CheckHSLInRange(1.0, h, s, l) == Fail(r.error)
  {
    match CheckHSLInRangeDefaultAlpha(h, s, l)
    case Fail(e) => Failure(e)
    case Pass => Success(ColorHSL(1.0, PairChroma(h, s), l))
  }

  /** `ColorHSL(ColorHSL hsl)`: copies all four fields, without checking them. */
  function Copy(hsl: ColorHSL): (r: ColorHSL)
    ensures r.alpha == hsl.alpha && H(r) == H(hsl) && S(r) == S(hsl) && r.l == hsl.l
  {
    ColorHSL(hsl.alpha, hsl.chroma, hsl.l)
  }

  // ------------------------------------------------------------ RGB to HSL

  function Max(a: real, b: real): real {
    if a >= b then a else b
  }

  function Min(a: real, b: real): real {
    if a <= b then a else b
  }

  function MaxChannel(c: ColorRGB): (m: real)
    ensures m == c.r || m == c.g || m == c.b
    ensures m >= c.r && m >= c.g && m >= c.b
  {
    Max(c.r, Max(c.g, c.b))
  }

  function MinChannel(c: ColorRGB): (m: real)
    ensures m == c.r || m == c.g || m == c.b
    ensures m <= c.r && m <= c.g && m <= c.b
  {
    Min(c.r, Min(c.g, c.b))
  }

  /**
   * `ColorHSL(ColorRGB rgb)`: lightness is the mean of the largest and the
   * smallest channel and alpha is copied; equal channels give a grey;
   * otherwise saturation and hue follow the largest channel, R before G
   * before B.  Unlike the other constructors this one runs no check.
   */
  function FromRGB(rgb: ColorRGB): (hsl: ColorHSL)
    requires InRange(rgb)
    ensures hsl.alpha == rgb.alpha
    ensures hsl.l == (MaxChannel(rgb) + MinChannel(rgb)) / 2.0
    ensures hsl.chroma.Achromatic? <==> rgb.r == rgb.g == rgb.b
  {
    var maxc := MaxChannel(rgb);
    var minc := MinChannel(rgb);
    var delta := maxc - minc;
    var l := (maxc + minc) / 2.0;
    if maxc == minc then
      ColorHSL(rgb.alpha, Achromatic, l)
    else
      var s := if l < 0.5 then delta / (maxc + minc) else delta / (2.0 - maxc - minc);
      ColorHSL(rgb.alpha, Chromatic(NormalizeHue(Num(RawHue(rgb))).value, s), l)
  }

  /** The hue before it is wrapped into [0,1), from the `rc`, `gc`, `bc` terms, R before G before B. */
  function RawHue(rgb: ColorRGB): real
    requires !(rgb.r == rgb.g == rgb.b)
  {
    var maxc, minc := MaxChannel(rgb), MinChannel(rgb);
    var delta := maxc - minc;
    var rc := (((maxc - rgb.r) / 6.0) + (delta / 2.0)) / delta;
    var gc := (((maxc - rgb.g) / 6.0) + (delta / 2.0)) / delta;
    var bc := (((maxc - rgb.b) / 6.0) + (delta / 2.0)) / delta;
    if rgb.r == maxc then bc - gc
    else if rgb.g == maxc then (1.0 / 3.0) + rc - bc
    else if rgb.b == maxc then (2.0 / 3.0) + gc - rc
    else 0.0
  }

  /** A grey (all three channels equal) has no hue and no saturation, and its lightness is that channel. */
  lemma GreyIsAchromatic(rgb: ColorRGB)
    requires InRange(rgb) && rgb.r == rgb.g == rgb.b
    ensures FromRGB(rgb) == ColorHSL(rgb.alpha, Achromatic, rgb.r)
    ensures !IsChromatic(FromRGB(rgb))
  {
  }

  /** 1 - |2l - 1|: the largest chroma a colour of lightness `l` can have. */
  function ChromaLimit(l: real): real {
    if 2.0 * l - 1.0 < 0.0 then 2.0 * l else 2.0 - 2.0 * l
  }

  /**
   * Saturation is chroma (largest minus smallest channel) relative to the
   * largest chroma that lightness allows, and lies in (0,1].
   */
  lemma SaturationOfRGB(rgb: ColorRGB)
    requires InRange(rgb) && !(rgb.r == rgb.g == rgb.b)
    ensures var hsl, delta := FromRGB(rgb), MaxChannel(rgb) - MinChannel(rgb);
      && hsl.chroma.Chromatic?
      && ChromaLimit(hsl.l) > 0.0
      && hsl.chroma.saturation == delta / ChromaLimit(hsl.l)
      && 0.0 < hsl.chroma.saturation <= 1.0
  {
    var maxc, minc := MaxChannel(rgb), MinChannel(rgb);
    var delta, l := maxc - minc, (maxc + minc) / 2.0;
    assert delta > 0.0;
    var limit := ChromaLimit(l);
    if l < 0.5 {
      assert limit == maxc + minc;
    } else {
      assert limit == 2.0 - maxc - minc;
    }
    assert 0.0 < delta <= limit;
    FractionInUnit(delta, limit);
  }

  lemma FractionInUnit(x: real, y: real)
    requires 0.0 < x <= y
    ensures 0.0 < x / y <= 1.0
  {
  }

  /** The hue of the hexcone model, in turns: which sixth of the circle the largest channel puts the colour in. */
  function HexconeHue(rgb: ColorRGB): real
    requires !(rgb.r == rgb.g == rgb.b)
  {
    var maxc, minc := MaxChannel(rgb), MinChannel(rgb);
    var chroma := maxc - minc;
    if rgb.r == maxc then
      var x := (rgb.g - rgb.b) / chroma / 6.0;
      x - x.Floor as real
    else if rgb.g == maxc then ((rgb.b - rgb.r) / chroma + 2.0) / 6.0
    else ((rgb.r - rgb.g) / chroma + 4.0) / 6.0
  }

  /**
   * The hue `ColorHSL(ColorRGB)` computes through its `rc`, `gc`, `bc` terms
   * is the hexcone hue, lies in [0,1), and falls in the sixths of the circle
   * around the largest channel: red near 0, green near 1/3, blue near 2/3.
   */
  lemma HueOfRGB(rgb: ColorRGB)
    requires InRange(rgb) && !(rgb.r == rgb.g == rgb.b)
    ensures var hsl := FromRGB(rgb);
      && hsl.chroma.Chromatic?
      && hsl.chroma.hue == HexconeHue(rgb)
      && 0.0 <= hsl.chroma.hue < 1.0
      && (rgb.r == MaxChannel(rgb) ==> hsl.chroma.hue <= 1.0 / 6.0 || 5.0 / 6.0 <= hsl.chroma.hue)
      && (rgb.r != MaxChannel(rgb) && rgb.g == MaxChannel(rgb) ==>
            1.0 / 6.0 <= hsl.chroma.hue <= 1.0 / 2.0)
      && (rgb.r != MaxChannel(rgb) && rgb.g != MaxChannel(rgb) ==>
            1.0 / 2.0 <= hsl.chroma.hue <= 5.0 / 6.0)
  {
    if rgb.r == MaxChannel(rgb) {
      RedHue(rgb);
    } else if rgb.g == MaxChannel(rgb) {
      GreenHue(rgb);
    } else {
      BlueHue(rgb);
    }
  }

  /** Red largest: the hue is `bc - gc` wrapped into [0,1), within a sixth of a turn of 0. */
  lemma RedHue(rgb: ColorRGB)
    requires InRange(rgb) && !(rgb.r == rgb.g == rgb.b) && rgb.r == MaxChannel(rgb)
    ensures var h := NormalizeHue(Num(RawHue(rgb))).value;
      h == HexconeHue(rgb) && (h <= 1.0 / 6.0 || 5.0 / 6.0 <= h)
  {
    var maxc, minc := MaxChannel(rgb), MinChannel(rgb);
    var delta := maxc - minc;
    TermDifference(maxc, rgb.b, rgb.g, delta);
    var x := (rgb.g - rgb.b) / delta / 6.0;
    assert RawHue(rgb) == x;
    SextantBound(rgb.g - rgb.b, delta);
    if x < 0.0 {
      assert x.Floor == -1;
    } else {
      assert x.Floor == 0;
    }
  }

  /** Green largest (red not): the hue is `1/3 + rc - bc`, between 1/6 and 1/2. */
  lemma GreenHue(rgb: ColorRGB)
    requires InRange(rgb) && !(rgb.r == rgb.g == rgb.b)
    requires rgb.r != MaxChannel(rgb) && rgb.g == MaxChannel(rgb)
    ensures var h := NormalizeHue(Num(RawHue(rgb))).value;
      h == HexconeHue(rgb) && 1.0 / 6.0 <= h <= 1.0 / 2.0
  {
    var maxc, minc := MaxChannel(rgb), MinChannel(rgb);
    var delta := maxc - minc;
    TermDifference(maxc, rgb.r, rgb.b, delta);
    var h := ((rgb.b - rgb.r) / delta + 2.0) / 6.0;
    assert RawHue(rgb) == h;
    SextantBound(rgb.b - rgb.r, delta);
    assert h.Floor == 0;
  }

  /** Blue largest (red and green not): the hue is `2/3 + gc - rc`, between 1/2 and 5/6. */
  lemma BlueHue(rgb: ColorRGB)
    requires InRange(rgb) && !(rgb.r == rgb.g == rgb.b)
    requires rgb.r != MaxChannel(rgb) && rgb.g != MaxChannel(rgb)
    ensures var h := NormalizeHue(Num(RawHue(rgb))).value;
      h == HexconeHue(rgb) && 1.0 / 2.0 <= h <= 5.0 / 6.0
  {
    var maxc, minc := MaxChannel(rgb), MinChannel(rgb);
    var delta := maxc - minc;
    assert rgb.b == maxc;
    TermDifference(maxc, rgb.g, rgb.r, delta);
    var h := ((rgb.r - rgb.g) / delta + 4.0) / 6.0;
    assert RawHue(rgb) == h;
    SextantBound(rgb.r - rgb.g, delta);
    assert h.Floor == 0;
  }

  /** The difference of two of the `rc`, `gc`, `bc` terms. */
  lemma TermDifference(maxc: real, x: real, y: real, delta: real)
    requires delta > 0.0
    ensures (((maxc - x) / 6.0) + (delta / 2.0)) / delta - (((maxc - y) / 6.0) + (delta / 2.0)) / delta
            == (y - x) / delta / 6.0
  {
  }

  lemma SextantBound(d: real, delta: real)
    requires delta > 0.0 && -delta <= d <= delta
    ensures -1.0 <= d / delta <= 1.0
  {
  }

  /**
   * Although `ColorHSL(ColorRGB)` runs no check, what it builds passes
   * `CheckHSLInRange`, and the checking constructor rebuilds the same colour
   * from its four properties.
   */
  lemma FromRGBIsValid(rgb: ColorRGB)
    requires InRange(rgb)
    ensures Valid(FromRGB(rgb))
    ensures CheckHSLInRange(rgb.alpha, H(FromRGB(rgb)), S(FromRGB(rgb)), FromRGB(rgb).l) == Pass
    ensures FromAHSL(rgb.alpha, H(FromRGB(rgb)), S(FromRGB(rgb)), FromRGB(rgb).l) == Success(FromRGB(rgb))
  {
    if !(rgb.r == rgb.g == rgb.b) {
      SaturationOfRGB(rgb);
      HueOfRGB(rgb);
    }
  }

  /** Hue, saturation and lightness of three reference colours (in turns: 1/3 is 120 degrees). */
  lemma ReferenceVectors()
    ensures FromRGB(ColorRGB(1.0, 1.0, 0.0, 0.0)) == ColorHSL(1.0, Chromatic(0.0, 1.0), 0.5)
    ensures FromRGB(ColorRGB(1.0, 0.5, 1.0, 0.5)) == ColorHSL(1.0, Chromatic(1.0 / 3.0, 1.0), 0.75)
    ensures FromRGB(ColorRGB(1.0, 0.0, 0.0, 0.5)) == ColorHSL(1.0, Chromatic(2.0 / 3.0, 1.0), 0.25)
  {
    RedReference();
    GreenReference();
    BlueReference();
  }

  lemma RedReference()
    ensures FromRGB(ColorRGB(1.0, 1.0, 0.0, 0.0)) == ColorHSL(1.0, Chromatic(0.0, 1.0), 0.5)
  {
    var rgb := ColorRGB(1.0, 1.0, 0.0, 0.0);
    assert MaxChannel(rgb) == 1.0 && MinChannel(rgb) == 0.0;
    assert RawHue(rgb) == 0.0;
  }

  lemma GreenReference()
    ensures FromRGB(ColorRGB(1.0, 0.5, 1.0, 0.5)) == ColorHSL(1.0, Chromatic(1.0 / 3.0, 1.0), 0.75)
  {
    var rgb := ColorRGB(1.0, 0.5, 1.0, 0.5);
    assert MaxChannel(rgb) == 1.0 && MinChannel(rgb) == 0.5;
    assert RawHue(rgb) == 1.0 / 3.0;
    assert (1.0 / 3.0).Floor == 0;
  }

  lemma BlueReference()
    ensures FromRGB(ColorRGB(1.0, 0.0, 0.0, 0.5)) == ColorHSL(1.0, Chromatic(2.0 / 3.0, 1.0), 0.25)
  {
    var rgb := ColorRGB(1.0, 0.0, 0.0, 0.5);
    assert MaxChannel(rgb) == 0.5 && MinChannel(rgb) == 0.0;
    assert RawHue(rgb) == 2.0 / 3.0;
    assert (2.0 / 3.0).Floor == 0;
  }

  // --------------------------------------------------------------------- Add

  /**
   * `Add(h, s, l)`: a new colour, built by the three-argument constructor,
   * whose hue is shifted and wrapped into [0,1) and whose saturation and
   * lightness are shifted and clamped into [0,1].  Alpha becomes 1.0.  A grey
   * stays a grey: NaN plus anything is NaN, and the normalisers keep NaN.
   */
  function Add(c: ColorHSL, h: real, s: real, l: real): (r: Result<ColorHSL, ColorError>)
    ensures r.Success? && Valid(r.value)
    ensures r.value.alpha == 1.0
    ensures IsChromatic(r.value) <==> IsChromatic(c)
    ensures r.value.l == Clamp(c.l + l)
    ensures c.chroma.Chromatic? ==>
      && r.value.chroma.saturation == Clamp(c.chroma.saturation + s)
      && 0.0 <= r.value.chroma.hue < 1.0
      && IsWhole(c.chroma.hue + h - r.value.chroma.hue)
  {
    var newH := NormalizeHue(Plus(H(c), h));
    var newS := NormalizeSaturation(Plus(S(c), s));
    var newL := NormalizeLightness(c.l + l);
    FromHSL(newH, newS, newL)
  }

  /**
   * Adding a whole number of turns to the hue, and nothing to saturation and
   * lightness, gives back the colour with alpha 1.0.
   */
  lemma AddWholeTurns(c: ColorHSL, k: int)
    requires Valid(c) && (c.chroma.Chromatic? ==> c.chroma.hue < 1.0)
    ensures Add(c, k as real, 0.0, 0.0) == Success(ColorHSL(1.0, c.chroma, c.l))
  {
    var r := Add(c, k as real, 0.0, 0.0).value;
    if c.chroma.Chromatic? {
      var hue := c.chroma.hue;
      var wrapped := r.chroma.hue;
      var n := (hue + k as real - wrapped).Floor;
      assert hue + k as real - wrapped == n as real;
      assert -1.0 < hue - wrapped < 1.0;
      assert n == k;
    }
  }

  /** Turning pure red by -2.3 turns gives hue 0.7 (the colour `Add` is called on in the test suite). */
  lemma AddRedExample()
    ensures Add(FromRGB(ColorRGB(1.0, 1.0, 0.0, 0.0)), -2.3, 0.0, 0.0) ==
      Success(ColorHSL(1.0, Chromatic(0.7, 1.0), 0.5))
  {
    ReferenceVectors();
    assert (-2.3).Floor == -3;
  }
}
