/** `formatColor`: plugins first, then the precision is checked, the model
    turned into a `colord` colour and written in the requested notation. */
module Format {
  import opened Results
  import opened Text
  import opened Numbers
  import opened Types
  import opened Errors
  import opened Colord
  import opened Plugins
  import opened Parse

  /** `DEFAULT_PRECISION` */
  const DefaultPrecision: nat := 4

  /** `formatNumber`: the value rounded to `p` digits, written with exactly
      `p` fractional digits; the text reads back as the rounded value. */
  function FormatNumber(x: real, p: nat): (s: string)
    ensures ParseFloat(s) == Finite(Round(x, p))
    ensures p == 0 ==> '.' !in s
    ensures p > 0 ==> |s| >= p + 2 && s[|s| - p - 1] == '.'
    ensures forall i :: |s| - p <= i < |s| ==> IsDigit(s[i])
  {
    ToFixedReadsBackAsRound(Round(x, p), p);
    RoundIdempotent(x, p);
    ToFixed(Round(x, p), p)
  }

  /** `formatNumber` writes digits, a point and a sign only. */
  lemma FormatNumberNumeral(x: real, p: nat)
    ensures FormatNumber(x, p) != [] && Numeral(FormatNumber(x, p))
  {
    ToFixedChars(Round(x, p), p);
  }

  /** What `formatNumber` writes can stand as a call's last argument. */
  lemma FormatNumberCapturable(x: real, p: nat)
    ensures FormatNumber(x, p) != [] && AllCapturable(FormatNumber(x, p))
    ensures ')' !in FormatNumber(x, p) && ',' !in FormatNumber(x, p)
  {
    FormatNumberNumeral(x, p);
    NumeralCapturable(FormatNumber(x, p));
  }

  // ------------------------------------------------------------- precision

  /** `resolvePrecision`: the requested precision, 4 when absent; outside
      0..6 an `INVALID_PRECISION` format error. */
  function ResolvePrecision(request: FormatRequest): (r: Result<nat, ColorError>)
    ensures var p := request.precision.GetOr(DefaultPrecision as int);
      (r.Success? <==> 0 <= p <= 6) && (r.Success? ==> r.value == p)
    ensures r.Failure? ==>
      r.error == CreateError(FormatError, "INVALID_PRECISION", "Precision must be between 0 and 6", None)
  {
    var precision := request.precision.GetOr(DefaultPrecision as int);
    if precision < 0 || precision > 6 then
      ThrowError(FormatError, "INVALID_PRECISION", "Precision must be between 0 and 6", None)
    else Success(precision)
  }

  // ------------------------------------------------------ model to colour

  /** `modelToColord` of the formatter: hex values are parsed with a `#`
      in front and must be valid; HSL saturation and lightness go back to
      percent; a space other than hex, hsl and rgb is unsupported. */
  function ModelToColor(lib: Library, model: ColorModel): (r: Result<Color, ColorError>)
    ensures model.space == HexSpace ==>
      (r.Success? <==> lib.isValid(lib.parse("#" + HexField(model.values))))
      && (r.Success? ==> r.value == lib.withAlpha(lib.parse("#" + HexField(model.values)), model.alpha))
      && (r.Failure? ==> r.error == CreateError(FormatError, "INVALID_MODEL", "Invalid hex color model", None))
    ensures model.space == HslSpace ==>
      r == Success(lib.fromHsl(FieldH(model.values), Scale(FieldS(model.values), 100.0),
                               Scale(FieldL(model.values), 100.0), model.alpha))
    ensures model.space == RgbSpace ==>
      r == Success(lib.fromRgb(FieldR(model.values), FieldG(model.values), FieldB(model.values), model.alpha))
    ensures model.space.OklchSpace? || model.space.OtherSpace? ==>
      r == ThrowError(FormatError, "UNSUPPORTED_SPACE", "Unsupported color space: " + SpaceName(model.space), None)
  {
    var alpha := model.alpha;
    match model.space
    case HexSpace =>
      var color := lib.parse("#" + HexField(model.values));
      if !lib.isValid(color) then ThrowError(FormatError, "INVALID_MODEL", "Invalid hex color model", None)
      else Success(lib.withAlpha(color, alpha))
    case HslSpace =>
      var v := model.values;
      Success(lib.fromHsl(FieldH(v), Scale(FieldS(v), 100.0), Scale(FieldL(v), 100.0), alpha))
    case RgbSpace =>
      var v := model.values;
      Success(lib.fromRgb(FieldR(v), FieldG(v), FieldB(v), alpha))
    case _ =>
      ThrowError(FormatError, "UNSUPPORTED_SPACE", "Unsupported color space: " + SpaceName(model.space), None)
  }

  /** HSL values that are fractions reach the library as percentages; values
      of another space leave the saturation NaN. */
  lemma HslModelInPercent(model: ColorModel)
    requires model.space == HslSpace
    ensures model.values.HslValues? ==>
      Scale(FieldS(model.values), 100.0) == Finite(100.0 * model.values.s)
      && Scale(FieldL(model.values), 100.0) == Finite(100.0 * model.values.l)
    ensures !model.values.HslValues? ==> Scale(FieldS(model.values), 100.0) == NaN
  {
  }

  // ------------------------------------------------------------- hex text

  /** `hexFromRgb`: `#` and two lower-case hexadecimal digits per channel. */
  function HexFromRgb(rgb: Rgba): string {
    "#" + HexByte(rgb.r) + HexByte(rgb.g) + HexByte(rgb.b)
  }

  /** `hexWithAlpha`: the digits of `hexFromRgb` without `#`, then the
      alpha scaled to 0..255 and rounded, as two more digits. */
  function HexWithAlpha(rgb: Rgba, alpha: real): string {
    var base := ReplaceFirst(HexFromRgb(rgb), '#');
    "#" + base + HexByte(MathRound(alpha * 255.0))
  }

  predicate IsByte(n: int) {
    0 <= n < 256
  }

  /** `#` followed by lower-case hexadecimal digits only. */
  predicate HexDigitsAfterHash(s: string) {
    |s| >= 1 && s[0] == '#' && forall i :: 1 <= i < |s| ==> IsLowerHexDigit(s[i])
  }

  /** The value of the two hexadecimal digits at `i` and `i + 1`. */
  function HexChannel(s: string, i: nat): nat
    requires HexDigitsAfterHash(s) && 1 <= i && i + 2 <= |s|
  {
    assert IsLowerHexDigit(s[i]) && IsLowerHexDigit(s[i + 1]);
    16 * HexDigitValue(s[i]) + HexDigitValue(s[i + 1])
  }

  /** `#` and three pairs of lower-case digits read back pair by pair. */
  lemma ReadPairs(a: string, b: string, c: string)
    requires |a| == 2 && |b| == 2 && |c| == 2
    requires IsLowerHexDigit(a[0]) && IsLowerHexDigit(a[1]) && IsLowerHexDigit(b[0])
    requires IsLowerHexDigit(b[1]) && IsLowerHexDigit(c[0]) && IsLowerHexDigit(c[1])
    ensures var s := "#" + a + b + c;
      |s| == 7 && HexDigitsAfterHash(s)
      && HexChannel(s, 1) == HexPairValue(a) && HexChannel(s, 3) == HexPairValue(b)
      && HexChannel(s, 5) == HexPairValue(c)
  {
    var s := "#" + a + b + c;
    assert s == ['#', a[0], a[1], b[0], b[1], c[0], c[1]];
    forall i | 1 <= i < 7 ensures IsLowerHexDigit(s[i]) {
      if i < 3 { assert s[i] == a[i - 1]; }
      else if i < 5 { assert s[i] == b[i - 3]; }
      else { assert s[i] == c[i - 5]; }
    }
  }

  /** A colour with byte channels is written as seven characters: `#` and
      three pairs of lower-case digits that read back as the channels. */
  lemma HexFromRgbRoundTrip(rgb: Rgba)
    requires IsByte(rgb.r) && IsByte(rgb.g) && IsByte(rgb.b)
    ensures var s := HexFromRgb(rgb);
      |s| == 7 && HexDigitsAfterHash(s)
      && HexChannel(s, 1) == rgb.r && HexChannel(s, 3) == rgb.g && HexChannel(s, 5) == rgb.b
  {
    HexByteRoundTrip(rgb.r);
    HexByteRoundTrip(rgb.g);
    HexByteRoundTrip(rgb.b);
    ReadPairs(HexByte(rgb.r), HexByte(rgb.g), HexByte(rgb.b));
  }

  /** With an alpha in [0, 1] the text has nine characters: the seven of
      `hexFromRgb`, then a pair that reads back as the alpha scaled to
      0..255 and rounded. */
  lemma HexWithAlphaRoundTrip(rgb: Rgba, alpha: real)
    requires IsByte(rgb.r) && IsByte(rgb.g) && IsByte(rgb.b) && 0.0 <= alpha <= 1.0
    ensures var s := HexWithAlpha(rgb, alpha);
      |s| == 9 && HexDigitsAfterHash(s) && s[..7] == HexFromRgb(rgb)
      && IsByte(MathRound(alpha * 255.0)) && HexChannel(s, 7) == MathRound(alpha * 255.0)
  {
    HexFromRgbRoundTrip(rgb);
    var x, y, z := HexByte(rgb.r), HexByte(rgb.g), HexByte(rgb.b);
    HexByteRoundTrip(rgb.r);
    HexByteRoundTrip(rgb.g);
    HexByteRoundTrip(rgb.b);
    var a := MathRound(alpha * 255.0);
    HexByteRoundTrip(a);
    ReadPairsThenAlpha(x, y, z, HexByte(a));
  }

  /** Dropping the `#` of `#` and three pairs, then adding a fourth pair
      behind a new `#`, gives nine characters whose last pair reads back. */
  lemma ReadPairsThenAlpha(a: string, b: string, c: string, d: string)
    requires |a| == 2 && |b| == 2 && |c| == 2 && |d| == 2
    requires IsLowerHexDigit(a[0]) && IsLowerHexDigit(a[1]) && IsLowerHexDigit(b[0])
    requires IsLowerHexDigit(b[1]) && IsLowerHexDigit(c[0]) && IsLowerHexDigit(c[1])
    requires IsLowerHexDigit(d[0]) && IsLowerHexDigit(d[1])
    ensures var s := "#" + ReplaceFirst("#" + a + b + c, '#') + d;
      |s| == 9 && HexDigitsAfterHash(s) && s[..7] == "#" + a + b + c
      && HexChannel(s, 7) == HexPairValue(d)
  {
    var h := "#" + a + b + c;
    assert h == ['#'] + (a + b + c);
    ReplaceFirstLeading('#', a + b + c);
    assert "#" + ReplaceFirst(h, '#') + d == h + d;
    ReadPairs(a, b, c);
    ReadFourthPair(h, d);
  }

  lemma ReadFourthPair(h: string, d: string)
    requires |h| == 7 && HexDigitsAfterHash(h) && |d| == 2
    requires IsLowerHexDigit(d[0]) && IsLowerHexDigit(d[1])
    ensures var s := h + d;
      |s| == 9 && HexDigitsAfterHash(s) && s[..7] == h && HexChannel(s, 7) == HexPairValue(d)
  {
    var s := h + d;
    assert s[..7] == h;
    assert s[7] == d[0] && s[8] == d[1];
    assert HexDigitsAfterHash(s) by {
      forall i | 1 <= i < 9 ensures IsLowerHexDigit(s[i]) {
        if i < 7 { assert s[i] == h[i]; }
      }
    }
  }

  /** Hex output is read back by the parser as hex notation. */
  lemma HexTextInfersHex(s: string)
    requires HexDigitsAfterHash(s) && (|s| == 7 || |s| == 9)
    ensures InferSpace(s) == HexSpace
  {
    var digits := s[1..];
    assert s == "#" + digits;
    assert HexBody(digits);
    HexNotationInfersHex(digits);
  }

  // --------------------------------------------------------- other texts

  function RgbaText(rgb: Rgba, p: nat): string {
    "rgba(" + IntToString(rgb.r) + ", " + IntToString(rgb.g) + ", " + IntToString(rgb.b) + ", " + FormatNumber(rgb.a, p) + ")"
  }

  /** The `hsla` and `hsl` targets' texts. */
  function HslaText(hsl: Hsla, alpha: real, p: nat): string {
    HslCall("hsla(", FormatNumber(hsl.h, p), FormatNumber(hsl.s, p), FormatNumber(hsl.l, p))
      + ", " + FormatNumber(alpha, p) + ")"
  }

  function HslText(hsl: Hsla, p: nat): string {
    HslCall("hsl(", FormatNumber(hsl.h, p), FormatNumber(hsl.s, p), FormatNumber(hsl.l, p)) + ")"
  }

  /** `formatByTarget`: the notation the target names, from the colour's
      RGB and HSL readings; hex carries an alpha pair only when asked to and
      the colour is not opaque; OKLCH and unknown targets are refused. */
  function FormatByTarget(lib: Library, color: Color, target: FormatTarget, p: nat, includeAlpha: bool): (r: Result<string, ColorError>)
    ensures target.OklchTarget? ==>
      r == ThrowError(FormatError, "UNSUPPORTED_TARGET", "OKLCH formatting not supported yet", None)
    ensures target.OtherTarget? ==>
      r == ThrowError(FormatError, "UNSUPPORTED_TARGET", "Unsupported format target: " + target.name, None)
    ensures r.Success? <==> !target.OklchTarget? && !target.OtherTarget?
    ensures target.HexTarget? ==>
      r == Success(if includeAlpha && lib.toRgb(color).a < 1.0 then HexWithAlpha(lib.toRgb(color), lib.toRgb(color).a)
                   else HexFromRgb(lib.toRgb(color)))
    ensures target.RgbaTarget? ==> r == Success(RgbaText(lib.toRgb(color), p))
    ensures target.RgbTarget? ==> r == Success(RgbText(lib.toRgb(color).r, lib.toRgb(color).g, lib.toRgb(color).b))
    ensures target.HslaTarget? ==> r == Success(HslaText(lib.toHsl(color), lib.toRgb(color).a, p))
    ensures target.HslTarget? ==> r == Success(HslText(lib.toHsl(color), p))
  {
    var rgb := lib.toRgb(color);
    var hsl := lib.toHsl(color);
    var alpha := rgb.a;
    match target
    case HexTarget =>
      if includeAlpha && alpha < 1.0 then Success(HexWithAlpha(rgb, alpha)) else Success(HexFromRgb(rgb))
    case RgbaTarget => Success(RgbaText(rgb, p))
    case RgbTarget => Success(RgbText(rgb.r, rgb.g, rgb.b))
    case HslaTarget => Success(HslaText(hsl, alpha, p))
    case HslTarget => Success(HslText(hsl, p))
    case OklchTarget =>
      ThrowError(FormatError, "UNSUPPORTED_TARGET", "OKLCH formatting not supported yet", None)
    case OtherTarget(name) =>
      ThrowError(FormatError, "UNSUPPORTED_TARGET", "Unsupported format target: " + name, None)
  }

  /** For byte channels and an alpha in [0, 1], hex output has nine
      characters exactly when the alpha was asked for and is below 1, and is
      always read back as hex notation. */
  lemma HexTargetLength(lib: Library, color: Color, p: nat, includeAlpha: bool)
    requires var rgb := lib.toRgb(color); IsByte(rgb.r) && IsByte(rgb.g) && IsByte(rgb.b) && 0.0 <= rgb.a <= 1.0
    ensures var s := FormatByTarget(lib, color, HexTarget, p, includeAlpha).value;
      (|s| == 9 <==> includeAlpha && lib.toRgb(color).a < 1.0)
      && (|s| == 7 || |s| == 9) && InferSpace(s) == HexSpace && HexDigitsAfterHash(s)
      && HexChannel(s, 1) == lib.toRgb(color).r && HexChannel(s, 3) == lib.toRgb(color).g
      && HexChannel(s, 5) == lib.toRgb(color).b
      && (|s| == 9 ==> HexChannel(s, 7) == MathRound(lib.toRgb(color).a * 255.0))
  {
    var rgb := lib.toRgb(color);
    HexFromRgbRoundTrip(rgb);
    if includeAlpha && rgb.a < 1.0 {
      HexWithAlphaRoundTrip(rgb, rgb.a);
      var s := HexWithAlpha(rgb, rgb.a);
      var t := HexFromRgb(rgb);
      assert s[1] == t[1] && s[2] == t[2] && s[3] == t[3] && s[4] == t[4] && s[5] == t[5] && s[6] == t[6] by {
        assert s[..7] == t;
      }
      HexTextInfersHex(s);
    } else {
      HexTextInfersHex(HexFromRgb(rgb));
    }
  }

  /** What the parser reads back as the alpha of each text target's output:
      the colour's alpha rounded to the precision from `rgba` and `hsla`;
      from `rgb` and `hsl` nothing when only a fourth argument counts, and,
      as written, the lightness of `hsl` text. */
  lemma FormatByTargetAlpha(lib: Library, color: Color, target: FormatTarget, p: nat, includeAlpha: bool)
    requires target.RgbaTarget? || target.RgbTarget? || target.HslaTarget? || target.HslTarget?
    ensures var s := FormatByTarget(lib, color, target, p, includeAlpha).value;
      (target.RgbaTarget? || target.HslaTarget? ==>
         ParseAlphaFromInput(s) == Finite(Round(lib.toRgb(color).a, p))
         && ParseAlphaFourth(s) == Finite(Round(lib.toRgb(color).a, p)))
      && (target.RgbTarget? || target.HslTarget? ==> ParseAlphaFourth(s).Undefined?)
      && (target.HslTarget? ==> ParseAlphaFromInput(s) == Finite(Round(lib.toHsl(color).l, p)))
  {
    var rgb, hsl := lib.toRgb(color), lib.toHsl(color);
    FormattedAlphaFourth(rgb, hsl, rgb.a, p);
    match target
    case RgbaTarget => RgbaTextAlphaReadsBack(rgb, p);
    case HslaTarget => HslaTextAlphaReadsBack(hsl, rgb.a, p);
    case RgbTarget =>
    case HslTarget => FormattedHslAlphaAsWritten(hsl, p);
  }

  /** The alpha written by the `rgba` target is read back by the parser as
      the alpha rounded to the precision. */
  lemma RgbaTextAlphaReadsBack(rgb: Rgba, p: nat)
    ensures ParseAlphaFromInput(RgbaText(rgb, p)) == Finite(Round(rgb.a, p))
  {
    IntToStringCapturable(rgb.r);
    IntToStringCapturable(rgb.g);
    IntToStringCapturable(rgb.b);
    FormatNumberCapturable(rgb.a, p);
    RgbaOpens(IntToString(rgb.r), IntToString(rgb.g), IntToString(rgb.b));
    var q := "rgba(" + IntToString(rgb.r) + ", " + IntToString(rgb.g) + ", " + IntToString(rgb.b);
    ReadsLastArgument(q, FormatNumber(rgb.a, p), "rgb");
  }

  /** The three channels of an `rgba` text, before the alpha, sit inside an
      opening that the alpha pattern recognises. */
  lemma RgbaOpens(x: string, y: string, z: string)
    requires ')' !in x && ')' !in y && ')' !in z
    ensures Opens("rgba(" + x + ", " + y + ", " + z, "rgb")
  {
    var head := "rgba(";
    assert StartsWithCI(head, "rgba(");
    StartsWithCIExtend(head, x, "rgba(");
    StartsWithCIExtend(head + x, ", ", "rgba(");
    StartsWithCIExtend(head + x + ", ", y, "rgba(");
    StartsWithCIExtend(head + x + ", " + y, ", ", "rgba(");
    StartsWithCIExtend(head + x + ", " + y + ", ", z, "rgba(");
    assert ')' !in head && ')' !in ", ";
  }

  /** The alpha written by the `hsla` target is read back by the parser as
      the alpha rounded to the precision. */
  lemma HslaTextAlphaReadsBack(hsl: Hsla, alpha: real, p: nat)
    ensures ParseAlphaFromInput(HslaText(hsl, alpha, p)) == Finite(Round(alpha, p))
  {
    FormatNumberNumeral(hsl.h, p);
    FormatNumberNumeral(hsl.s, p);
    FormatNumberNumeral(hsl.l, p);
    FormatNumberNumeral(alpha, p);
    HslaCallAlpha(FormatNumber(hsl.h, p), FormatNumber(hsl.s, p), FormatNumber(hsl.l, p), FormatNumber(alpha, p));
  }

  /** As written, text of the `hsl` target is read back by the parser with
      the rounded lightness, in percent, as its alpha. */
  lemma FormattedHslAlphaAsWritten(hsl: Hsla, p: nat)
    ensures ParseAlphaFromInput(HslText(hsl, p)) == Finite(Round(hsl.l, p))
  {
    FormatNumberNumeral(hsl.h, p);
    FormatNumberNumeral(hsl.s, p);
    FormatNumberNumeral(hsl.l, p);
    HslCallAlphaAsWritten(FormatNumber(hsl.h, p), FormatNumber(hsl.s, p), FormatNumber(hsl.l, p));
    ToFixedReadsBackBefore(Round(hsl.l, p), p, "%");
    RoundIdempotent(hsl.l, p);
  }

  /** Read from a fourth argument only, the alpha of every text the
      formatter writes comes back: rounded from `rgba` and `hsla`, and
      left to the colour itself for `rgb` and `hsl`. */
  lemma FormattedAlphaFourth(rgb: Rgba, hsl: Hsla, alpha: real, p: nat)
    ensures ParseAlphaFourth(RgbaText(rgb, p)) == Finite(Round(rgb.a, p))
    ensures ParseAlphaFourth(HslaText(hsl, alpha, p)) == Finite(Round(alpha, p))
    ensures ParseAlphaFourth(RgbText(rgb.r, rgb.g, rgb.b)).Undefined?
    ensures ParseAlphaFourth(HslText(hsl, p)).Undefined?
  {
    RgbaTextCommas(rgb, p);
    RgbaTextAlphaReadsBack(rgb, p);
    FormatNumberNumeral(hsl.h, p);
    FormatNumberNumeral(hsl.s, p);
    FormatNumberNumeral(hsl.l, p);
    FormatNumberNumeral(alpha, p);
    HslTextCommas("hsla(", FormatNumber(hsl.h, p), FormatNumber(hsl.s, p), FormatNumber(hsl.l, p), FormatNumber(alpha, p));
    HslTextCommas("hsl(", FormatNumber(hsl.h, p), FormatNumber(hsl.s, p), FormatNumber(hsl.l, p), FormatNumber(alpha, p));
    HslaTextAlphaReadsBack(hsl, alpha, p);
    RgbTextCommas(rgb.r, rgb.g, rgb.b);
  }

  lemma RgbaTextCommas(rgb: Rgba, p: nat)
    ensures CommaCount(RgbaText(rgb, p)) == 3
  {
    var x, y, z := IntToString(rgb.r), IntToString(rgb.g), IntToString(rgb.b);
    var a := FormatNumber(rgb.a, p);
    IntToStringCapturable(rgb.r);
    IntToStringCapturable(rgb.g);
    IntToStringCapturable(rgb.b);
    FormatNumberNumeral(rgb.a, p);
    NoCommaCount(a);
    SeparatorCommas();
    CommaCountSeven("rgba(", x, ", ", y, ", ", z, ", ");
    var c := "rgba(" + x + ", " + y + ", " + z + ", ";
    CommaCountAppend(c, a);
    CommaCountAppend(c + a, ")");
  }

  // ------------------------------------------------------------ formatColor

  /** `formatColor` over the registered plugins: a plugin's non-empty text
      wins; otherwise the precision is checked first, then the model is
      turned into a colour, which must be valid, then written out. */
  function FormatColor(plugins: seq<Plugin>, lib: Library, model: ColorModel, request: FormatRequest): (r: Result<string, ColorError>)
    ensures FirstFormat(plugins, model, request).Some? ==> r == Success(FirstFormat(plugins, model, request).value)
    ensures (FirstFormat(plugins, model, request).None? && ResolvePrecision(request).Failure?) ==>
      r == Failure(ResolvePrecision(request).error)
    ensures (FirstFormat(plugins, model, request).None? && ResolvePrecision(request).Success?
             && ModelToColor(lib, model).Failure?) ==>
      r == Failure(ModelToColor(lib, model).error)
    ensures (FirstFormat(plugins, model, request).None? && ResolvePrecision(request).Success?
             && ModelToColor(lib, model).Success? && !lib.isValid(ModelToColor(lib, model).value)) ==>
      r == ThrowError(FormatError, "INVALID_MODEL", "Cannot format invalid color model", None)
    ensures (FirstFormat(plugins, model, request).None? && ResolvePrecision(request).Success?
             && ModelToColor(lib, model).Success? && lib.isValid(ModelToColor(lib, model).value)) ==>
      r == FormatByTarget(lib, ModelToColor(lib, model).value, request.target,
                          ResolvePrecision(request).value, request.includeAlpha.GetOr(true))
  {
    match FirstFormat(plugins, model, request)
    case Some(text) => Success(text)
    case None =>
      var precision :- ResolvePrecision(request);
      var includeAlpha := request.includeAlpha.GetOr(true);
      var color :- ModelToColor(lib, model);
      if !lib.isValid(color) then ThrowError(FormatError, "INVALID_MODEL", "Cannot format invalid color model", None)
      else FormatByTarget(lib, color, request.target, precision, includeAlpha)
  }

  /** Whatever `formatColor` returns is non-empty text or a format error
      whose message has at least `MinMessageLength` characters. */
  lemma FormatColorOutcome(plugins: seq<Plugin>, lib: Library, model: ColorModel, request: FormatRequest)
    ensures var r := FormatColor(plugins, lib, model, request);
      (r.Success? ==> r.value != [])
      && (r.Failure? ==> r.error.errorType == FormatError && |r.error.message| >= MinMessageLength)
  {
    FirstFormatNonEmpty(plugins, model, request);
  }
}
