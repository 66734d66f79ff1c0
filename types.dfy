/** The engine's shared vocabulary: colour models, format requests,
    transformation steps with their allowed ranges, typed errors and the
    plugin record. */
module Types {
  import opened Results
  import opened Text
  import opened Numbers

  /** The `space` of a model. Models from plugins or untyped callers may
      carry any other name; `OtherSpace` keeps it. */
  datatype ColorSpace = HexSpace | RgbSpace | HslSpace | OklchSpace | OtherSpace(name: UnknownSpaceName)

  /** A space name other than the four the engine knows. */
  type UnknownSpaceName = s: string | s !in {"hex", "rgb", "hsl", "oklch"} witness ""

  function SpaceName(s: ColorSpace): string {
    match s
    case HexSpace => "hex"
    case RgbSpace => "rgb"
    case HslSpace => "hsl"
    case OklchSpace => "oklch"
    case OtherSpace(name) => name
  }

  datatype ColorValues =
    | HexValues(hex: string)
    | RgbValues(r: real, g: real, b: real)
    | HslValues(h: real, s: real, l: real)
    | OklchValues(l: real, c: real, h: real)

  datatype ColorModel = ColorModel(space: ColorSpace, values: ColorValues, alpha: real, source: string)

  // `model.values as any`: a field the values do not have reads as undefined.

  /** `values.hex` inside a template literal: a missing field prints as
      "undefined". */
  function HexField(v: ColorValues): string {
    if v.HexValues? then v.hex else "undefined"
  }

  function FieldR(v: ColorValues): Numeric { if v.RgbValues? then Finite(v.r) else Undefined }
  function FieldG(v: ColorValues): Numeric { if v.RgbValues? then Finite(v.g) else Undefined }
  function FieldB(v: ColorValues): Numeric { if v.RgbValues? then Finite(v.b) else Undefined }

  /** `values.h`: both HSL and OKLCH values have a hue. */
  function FieldH(v: ColorValues): Numeric {
    match v
    case HslValues(h, _, _) => Finite(h)
    case OklchValues(_, _, h) => Finite(h)
    case _ => Undefined
  }

  function FieldS(v: ColorValues): Numeric { if v.HslValues? then Finite(v.s) else Undefined }

  /** `values.l`: both HSL and OKLCH values have a lightness. */
  function FieldL(v: ColorValues): Numeric {
    match v
    case HslValues(_, _, l) => Finite(l)
    case OklchValues(l, _, _) => Finite(l)
    case _ => Undefined
  }

  /** `x * k` on a JavaScript number: undefined and NaN give NaN. */
  function Scale(n: Numeric, k: real): (r: Numeric)
    ensures n.Finite? <==> r.Finite?
    ensures n.Finite? ==> r.x == n.x * k
  {
    if n.Finite? then Finite(n.x * k) else NaN
  }

  /** The `rgb(r, g, b)` notation the engine writes. */
  function RgbText(r: int, g: int, b: int): string {
    "rgb(" + IntToString(r) + ", " + IntToString(g) + ", " + IntToString(b) + ")"
  }

  /** The output notation a caller asks for; `OtherTarget` is any other name
      an untyped caller passes. */
  datatype FormatTarget = HexTarget | RgbaTarget | RgbTarget | HslaTarget | HslTarget | OklchTarget | OtherTarget(name: UnknownTargetName)

  /** A target name other than the six the engine knows. */
  type UnknownTargetName = s: string | s !in {"hex", "rgba", "rgb", "hsla", "hsl", "oklch"} witness ""

  function TargetName(t: FormatTarget): string {
    match t
    case HexTarget => "hex"
    case RgbaTarget => "rgba"
    case RgbTarget => "rgb"
    case HslaTarget => "hsla"
    case HslTarget => "hsl"
    case OklchTarget => "oklch"
    case OtherTarget(name) => name
  }

  /** Every space name has one representation. */
  lemma SpaceNameInjective(a: ColorSpace, b: ColorSpace)
    ensures SpaceName(a) == SpaceName(b) ==> a == b
  {
  }

  /** Every target name has one representation. */
  lemma TargetNameInjective(a: FormatTarget, b: FormatTarget)
    ensures TargetName(a) == TargetName(b) ==> a == b
  {
  }

  datatype FormatRequest = FormatRequest(target: FormatTarget, precision: Option<int>, includeAlpha: Option<bool>)

  datatype TransformKind = Lighten | Darken | Saturate | Desaturate | HueShift | AlphaShift | OtherKind(name: UnknownKindName)

  /** A transformation name other than the six in `TRANSFORM_RANGES`. */
  type UnknownKindName = s: string
    | s !in {"lighten", "darken", "saturate", "desaturate", "hueShift", "alpha"} witness ""

  function KindName(k: TransformKind): string {
    match k
    case Lighten => "lighten"
    case Darken => "darken"
    case Saturate => "saturate"
    case Desaturate => "desaturate"
    case HueShift => "hueShift"
    case AlphaShift => "alpha"
    case OtherKind(name) => name
  }

  /** Every transformation name has one representation. */
  lemma KindNameInjective(a: TransformKind, b: TransformKind)
    ensures KindName(a) == KindName(b) ==> a == b
  {
  }

  datatype Transformation = Transformation(kind: TransformKind, value: real)

  datatype Range = Range(min: int, max: int)

  /** `TRANSFORM_RANGES[kind]`: the relative kinds move by at most the whole
      unit interval either way, a hue shift by at most a full turn. A kind
      outside the table has no entry. */
  function RangeOf(kind: TransformKind): (r: Option<Range>)
    ensures r.None? <==> kind.OtherKind?
    ensures kind.HueShift? ==> r == Some(Range(-360, 360))
    ensures !kind.HueShift? && r.Some? ==> r == Some(Range(-1, 1))
  {
    match kind
    case HueShift => Some(Range(-360, 360))
    case OtherKind(_) => None
    case _ => Some(Range(-1, 1))
  }

  /** Every range in the table is a proper interval. */
  lemma RangesProper(kind: TransformKind)
    requires RangeOf(kind).Some?
    ensures RangeOf(kind).value.min < 0 < RangeOf(kind).value.max
    ensures RangeOf(kind).value.min == -RangeOf(kind).value.max
  {
  }

  function RangeMessage(kind: TransformKind, range: Range): string {
    "Value for " + KindName(kind) + " must be between " + IntToString(range.min) + " and " + IntToString(range.max)
  }

  /** `assertWithinRange`: `Fail` carries the `RangeError`'s message. */
  function AssertWithinRange(step: Transformation): (r: Outcome<string>)
    ensures r.Pass? <==> (RangeOf(step.kind).None?
      || RangeOf(step.kind).value.min as real <= step.value <= RangeOf(step.kind).value.max as real)
    ensures r.Fail? ==> r.error == RangeMessage(step.kind, RangeOf(step.kind).value)
  {
    match RangeOf(step.kind)
    case None => Pass
    case Some(range) =>
      if step.value < range.min as real || step.value > range.max as real then Fail(RangeMessage(step.kind, range))
      else Pass
  }

  /** Both ends of every range are accepted, and anything past either end
      is refused. */
  lemma RangeBoundsInclusive(kind: TransformKind, x: real)
    requires RangeOf(kind).Some?
    ensures AssertWithinRange(Transformation(kind, RangeOf(kind).value.min as real)).Pass?
    ensures AssertWithinRange(Transformation(kind, RangeOf(kind).value.max as real)).Pass?
    ensures x < RangeOf(kind).value.min as real || x > RangeOf(kind).value.max as real
      ==> AssertWithinRange(Transformation(kind, x)).Fail?
  {
  }

  datatype ColorErrorType = ParseError | FormatError | TransformError | PluginError

  datatype ColorError = ColorError(code: string, errorType: ColorErrorType, field: Option<string>, message: string)

  /** A plugin: a name and up to three optional hooks. `parse` yields a model
      or null, `format` a string (the empty string counts as no answer) or
      null, `transform` a model or null. */
  datatype Plugin = Plugin(
    name: string,
    parse: Option<string -> Option<ColorModel>>,
    format: Option<(ColorModel, FormatRequest) -> Option<string>>,
    transform: Option<(ColorModel, Transformation) -> Option<ColorModel>>)
}
