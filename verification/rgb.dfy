/**
 * `ColorRGB`, the RGB colour with channels in [0,1] that `ColorHSL` is built
 * from.  Its source is not part of this model; only its data and the range
 * its constructors enforce are.
 */
module RGB {

  datatype ColorRGB = ColorRGB(alpha: real, r: real, g: real, b: real)

  /** What every `ColorRGB` satisfies: all four channels lie in [0,1]. */
  predicate InRange(c: ColorRGB) {
    0.0 <= c.alpha <= 1.0 && 0.0 <= c.r <= 1.0 && 0.0 <= c.g <= 1.0 && 0.0 <= c.b <= 1.0
  }
}
