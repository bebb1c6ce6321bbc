/**
 * `ColorUtil`, the helper that `ColorHSL` calls to normalise hue, saturation
 * and lightness and to check channel ranges.  ColorUtil's own source is not
 * part of this model: each member here is defined by the behaviour its
 * callers rely on, and its contract states that behaviour.
 */
module ColorUtil {

  /** A `double` as the colour types use it: a number or NaN.  Infinities are not modelled. */
  datatype Double = NaN | Num(value: real)

  /** The exceptions the range checks throw. */
  datatype ColorError =
    | RangeError(typeName: string, field: string)  // a channel outside [0,1]
    | IncompatibleValue                             // exactly one of hue and saturation is NaN

  /** The outcome of a check that throws: `Fail` carries the exception. */
  datatype Check = Pass | Fail(error: ColorError)

  predicate InUnit(v: real) {
    0.0 <= v <= 1.0
  }

  predicate IsWhole(x: real) {
    x.Floor as real == x
  }

  /** `x + d` on doubles: NaN stays NaN. */
  function Plus(x: Double, d: real): (r: Double)
    ensures r.NaN? <==> x.NaN?
  {
    match x
    case NaN => NaN
    case Num(v) => Num(v + d)
  }

  /** Runs `first`, then `next` only if `first` passed: the first check that throws wins. */
  function AndThen(first: Check, next: Check): (c: Check)
    ensures c.Pass? <==> first.Pass? && next.Pass?
  {
    if first.Fail? then first else next
  }

  /** `NormalizeHue`: wraps a hue into [0,1) by whole turns; NaN stays NaN. */
  function NormalizeHue(h: Double): (r: Double)
    ensures r.NaN? <==> h.NaN?
    ensures r.Num? ==> 0.0 <= r.value < 1.0 && IsWhole(h.value - r.value)
  {
    match h
    case NaN => NaN
    case Num(v) => Num(v - v.Floor as real)
  }

  function Clamp(v: real): (r: real)
    ensures InUnit(r)
    ensures InUnit(v) ==> r == v
    ensures v < 0.0 ==> r == 0.0
    ensures v > 1.0 ==> r == 1.0
  {
    if v < 0.0 then 0.0 else if v > 1.0 then 1.0 else v
  }

  /** `NormalizeSaturation`: clamps into [0,1]; NaN stays NaN. */
  function NormalizeSaturation(s: Double): (r: Double)
    ensures r.NaN? <==> s.NaN?
    ensures r.Num? ==> InUnit(r.value) && r.value == Clamp(s.value)
  {
    match s
    case NaN => NaN
    case Num(v) => Num(Clamp(v))
  }

  /** `NormalizeLightness`: clamps into [0,1]. */
  function NormalizeLightness(l: real): (r: real)
    ensures InUnit(r) && r == Clamp(l)
  {
    Clamp(l)
  }

  /** `CheckRange_0_1`: passes exactly on [0,1], otherwise throws a range error naming the field. */
  function CheckRange01(v: real, typeName: string, field: string): (c: Check)
    ensures c.Pass? <==> InUnit(v)
    ensures c.Fail? ==> c.error == RangeError(typeName, field)
  {
    if InUnit(v) then Pass else Fail(RangeError(typeName, field))
  }

  /** `CheckRange_0_1_NAN`: as `CheckRange_0_1`, and NaN passes too. */
  function CheckRange01NaN(v: Double, typeName: string, field: string): (c: Check)
    ensures c.Pass? <==> v.NaN? || InUnit(v.value)
    ensures c.Fail? ==> c.error == RangeError(typeName, field)
  {
    match v
    case NaN => Pass
    case Num(x) => CheckRange01(x, typeName, field)
  }

  /** `CheckCompatibleHS`: hue and saturation are NaN together or not at all. */
  function CheckCompatibleHS(h: Double, s: Double): (c: Check)
    ensures c.Pass? <==> (h.NaN? <==> s.NaN?)
    ensures c.Fail? ==> c.error == IncompatibleValue
  {
    if h.NaN? == s.NaN? then Pass else Fail(IncompatibleValue)
  }
}
