/** The third-party `colord` colour library, whose source is not part of
    this model. A colour is an abstract value; the library is a record of
    the operations the engine calls on it, so every property proved about
    the engine holds for whatever those operations compute. */
module Colord {
  import opened Numbers

  /** A `colord` colour object. */
  type Color(==, !new)

  /** `toRgb()`: integer channels and an alpha. */
  datatype Rgba = Rgba(r: int, g: int, b: int, a: real)

  /** `toHsl()`: hue in degrees, saturation and lightness in percent. */
  datatype Hsla = Hsla(h: real, s: real, l: real, a: real)

  datatype Library = Library(
    /** `colord(text)` */
    parse: string -> Color,
    /** `colord({ r, g, b, a })`; a missing channel is `Undefined`. */
    fromRgb: (Numeric, Numeric, Numeric, real) -> Color,
    /** `colord({ h, s, l, a })`, saturation and lightness in percent. */
    fromHsl: (Numeric, Numeric, Numeric, real) -> Color,
    isValid: Color -> bool,
    toRgb: Color -> Rgba,
    toHsl: Color -> Hsla,
    /** `toHex()`: `#` and hexadecimal digits. */
    toHex: Color -> string,
    /** `alpha(a)`: the same colour with alpha `a`. */
    withAlpha: (Color, real) -> Color,
    lighten: (Color, real) -> Color,
    darken: (Color, real) -> Color,
    saturate: (Color, real) -> Color,
    desaturate: (Color, real) -> Color,
    /** `rotate(degrees)` */
    rotate: (Color, real) -> Color)

  /** The one law assumed of the library: an alpha set in the unit interval
      reads back unchanged. */
  ghost predicate AlphaReadsBack(lib: Library) {
    forall c: Color, a: real {:trigger lib.withAlpha(c, a)} :: 0.0 <= a <= 1.0 ==> lib.toRgb(lib.withAlpha(c, a)).a == a
  }
}
