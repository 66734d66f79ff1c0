/** `parseColor`: plugins first, then `colord`; the model's space is
    inferred from the text, its alpha read from the text when an `rgb(...)`
    or `hsl(...)` call ends in a comma-separated argument. */
module Parse {
  import opened Results
  import opened Text
  import opened Numbers
  import opened Types
  import opened Errors
  import opened Colord
  import opened Plugins

  /** `PRECISION`: the fractional digits kept in alpha and HSL values. */
  const Precision: nat := 4

  // ------------------------------------------------------------ the space

  /** `HEX_REGEX`: an optional `#` and 3, 4, 6 or 8 hexadecimal digits of
      either case, and nothing else. */
  predicate HexShape(t: string) {
    HexBody(if t != [] && t[0] == '#' then t[1..] else t)
  }

  predicate HexBody(body: string) {
    (|body| == 3 || |body| == 4 || |body| == 6 || |body| == 8)
    && forall i :: 0 <= i < |body| ==> IsHexDigit(body[i])
  }

  /** `inferSpace`: hex when the trimmed text is hexadecimal notation, else
      hsl when "hsl" occurs anywhere (any case), else rgb. */
  function InferSpace(input: string): (r: ColorSpace)
    ensures r == HexSpace <==> HexShape(Trim(input))
    ensures r == HslSpace <==> !HexShape(Trim(input)) && ContainsCI(input, "hsl")
    ensures r == HexSpace || r == HslSpace || r == RgbSpace
  {
    if HexShape(Trim(input)) then HexSpace
    else if ContainsCI(input, "hsl") then HslSpace
    else RgbSpace
  }

  /** `#` and 3, 4, 6 or 8 hexadecimal digits is inferred as hex. */
  lemma HexNotationInfersHex(digits: string)
    requires HexBody(digits)
    ensures InferSpace("#" + digits) == HexSpace
  {
    var t := "#" + digits;
    assert t[1..] == digits;
    assert t[|t| - 1] == digits[|digits| - 1];
    TrimUnspaced(t);
  }

  /** A text opening with `hsl` (any case) is inferred as hsl. */
  lemma HslNotationInfersHsl(s: string)
    requires StartsWithCI(s, "hsl")
    ensures InferSpace(s) == HslSpace
  {
    assert ContainsCI(s, "hsl") by { assert s[0..] == s; }
    assert !HexShape(Trim(s)) by {
      assert LowerAscii(s[0]) == 'h';
      assert TrimStart(s) == s;
      var t := Trim(s);
      if t != [] {
        assert t[0] == s[0];
        assert !IsHexDigit(t[0]);
      }
    }
  }

  // ------------------------------------------------------------ the alpha

  /** A character `[^,\s)]` admits. */
  predicate Capturable(c: char) {
    c != ',' && c != ')' && !IsSpace(c)
  }

  predicate AllCapturable(s: string) {
    forall i :: 0 <= i < |s| ==> Capturable(s[i])
  }

  /** The index of the last `c` in `s`. */
  function LastIndex(s: string, c: char): (r: Option<nat>)
    ensures r.Some? ==> r.value < |s| && s[r.value] == c && c !in s[r.value + 1..]
    ensures r.None? ==> c !in s
  {
    if s == [] then None
    else if s[|s| - 1] == c then Some(|s| - 1)
    else
      var r := LastIndex(s[..|s| - 1], c);
      assert s == s[..|s| - 1] + [s[|s| - 1]];
      if r.Some? then
        assert s[r.value + 1..] == s[..|s| - 1][r.value + 1..] + [s[|s| - 1]];
        r
      else r
  }

  /** `name` or `name` + "a", then `(`, at the start of `u`, and no `)` in
      the rest of `u`: where `rgba?\([^)]*` can begin. */
  predicate Opens(u: string, name: string) {
    (StartsWithCI(u, name + "(") || StartsWithCI(u, name + "a(")) && ')' !in u
  }

  predicate HasOpening(t: string, name: string) {
    exists i :: 0 <= i <= |t| && Opens(t[i..], name)
  }

  /** The capture of `/<name>a?\([^)]*,\s*([^,\s)]+)\s*\)$/i`. The text ends
      in `)`; `[^,\s)]+` and the white space around it contain no comma, so
      the comma before the capture is the last one, and what follows it is
      the capture between white space. Every opening that matches yields the
      same capture, so the leftmost one need not be singled out. */
  function AlphaArgument(s: string, name: string): (r: Option<string>)
    ensures r.Some? ==> r.value != [] && AllCapturable(r.value)
  {
    if s == [] || s[|s| - 1] != ')' then None else LastArgument(s[..|s| - 1], name)
  }

  /** The capture, given the text before the final `)`. */
  function LastArgument(inner: string, name: string): (r: Option<string>)
    ensures r.Some? ==> r.value != [] && AllCapturable(r.value)
  {
    match LastIndex(inner, ',')
    case None => None
    case Some(c) => ArgumentAt(inner, c, name)
  }

  /** The capture, given the position of the last comma. */
  function ArgumentAt(inner: string, c: nat, name: string): (r: Option<string>)
    requires c < |inner|
    ensures r.Some? ==> r.value != [] && AllCapturable(r.value)
  {
    var cap := TrimEnd(TrimStart(inner[c + 1..]));
    if cap != [] && AllCapturable(cap) && HasOpening(inner[..c], name) then Some(cap) else None
  }

  /** `parseAlphaFromInput`: the rgb capture read as a number, else the hsl
      capture, else undefined. */
  function ParseAlphaFromInput(input: string): (r: Numeric)
    ensures r.Undefined? <==> AlphaArgument(input, "rgb").None? && AlphaArgument(input, "hsl").None?
  {
    match AlphaArgument(input, "rgb")
    case Some(a) => ParseFloatNeverUndefined(a); ParseFloat(a)
    case None =>
      match AlphaArgument(input, "hsl")
      case Some(a) => ParseFloatNeverUndefined(a); ParseFloat(a)
      case None => Undefined
  }

  lemma ParseFloatNeverUndefined(s: string)
    ensures !ParseFloat(s).Undefined?
  {
  }

  /** A call whose last argument is `capture`, after a comma and a space,
      yields that argument. */
  lemma ReadsLastArgument(q: string, capture: string, name: string)
    requires Opens(q, name)
    requires capture != [] && AllCapturable(capture)
    ensures AlphaArgument(q + ", " + capture + ")", name) == Some(capture)
  {
    var tail := [' '] + capture;
    assert q + ", " + capture + ")" == q + [','] + tail + [')'];
    assert ',' !in tail;
    assert TrimEnd(TrimStart(tail)) == capture by {
      TrimSpaceBefore(capture);
    }
    ArgumentAfterLastComma(q, tail, capture, name);
  }

  lemma ArgumentAfterLastComma(q: string, tail: string, capture: string, name: string)
    requires Opens(q, name) && ',' !in tail
    requires TrimEnd(TrimStart(tail)) == capture && capture != [] && AllCapturable(capture)
    ensures AlphaArgument(q + [','] + tail + [')'], name) == Some(capture)
  {
    AppendSlices(q + [','] + tail, [')']);
    LastArgumentAtComma(q, tail, capture, name);
  }

  lemma LastArgumentAtComma(q: string, tail: string, capture: string, name: string)
    requires Opens(q, name) && ',' !in tail
    requires TrimEnd(TrimStart(tail)) == capture && capture != [] && AllCapturable(capture)
    ensures LastArgument(q + [','] + tail, name) == Some(capture)
  {
    LastIndexAfter(q, tail, ',');
    ArgumentAtComma(q, tail, capture, name);
  }

  lemma ArgumentAtComma(q: string, tail: string, capture: string, name: string)
    requires Opens(q, name)
    requires TrimEnd(TrimStart(tail)) == capture && capture != [] && AllCapturable(capture)
    ensures ArgumentAt(q + [','] + tail, |q|, name) == Some(capture)
  {
    var inner := q + [','] + tail;
    AppendSlices(q + [','], tail);
    AppendPrefix(q, [','], tail);
    assert HasOpening(q, name) by { assert q[0..] == q; }
  }

  lemma {:induction false} LastIndexAfter(q: string, t: string, c: char)
    requires c !in t
    ensures LastIndex(q + [c] + t, c) == Some(|q|)
  {
    var s := q + [c] + t;
    if t != [] {
      assert s[..|s| - 1] == q + [c] + t[..|t| - 1];
      LastIndexAfter(q, t[..|t| - 1], c);
    }
  }

  /** A name whose first letter the text lacks opens nowhere in it. */
  lemma NoOpeningWithout(t: string, name: string)
    requires name != [] && Lacks(t, name[0])
    ensures !HasOpening(t, name)
  {
    forall i | 0 <= i <= |t| ensures !Opens(t[i..], name) {
      if i < |t| {
        assert t[i..][0] == t[i];
        assert (name + "(")[0] == name[0] && (name + "a(")[0] == name[0];
      }
    }
  }

  /** Nor is there a capture for that name. */
  lemma AlphaArgumentWithout(s: string, name: string)
    requires name != [] && Lacks(s, name[0])
    ensures AlphaArgument(s, name).None?
  {
    if s != [] && s[|s| - 1] == ')' {
      var inner := s[..|s| - 1];
      var c := LastIndex(inner, ',');
      if c.Some? {
        var t := inner[..c.value];
        forall j | 0 <= j < |t| ensures LowerAscii(t[j]) != name[0] {
          assert t[j] == s[j];
        }
        NoOpeningWithout(t, name);
      }
    }
  }

  /** An opening stays one when text without `)` follows it. */
  lemma OpensExtend(q: string, t: string, name: string)
    requires Opens(q, name) && ')' !in t
    ensures Opens(q + t, name)
  {
    if StartsWithCI(q, name + "(") {
      StartsWithCIExtend(q, t, name + "(");
    } else {
      StartsWithCIExtend(q, t, name + "a(");
    }
  }

  /** What `toFixed` or `String` writes can stand as a call's last
      argument. */
  lemma NumeralCapturable(s: string)
    requires Numeral(s)
    ensures AllCapturable(s) && ')' !in s && ',' !in s
  {
  }

  /** `hsl(` or `hsla(`, then a hue, a saturation and a lightness, the last
      two with `%`, as the formatter writes them. */
  function HslCall(head: string, h: string, s: string, l: string): string {
    head + h + ", " + s + "%, " + l + "%"
  }

  lemma HslCallOpens(head: string, h: string, s: string, l: string)
    requires head == "hsl(" || head == "hsla("
    requires Numeral(h) && Numeral(s) && Numeral(l)
    ensures Opens(head + h + ", " + s + "%", "hsl")
    ensures Opens(HslCall(head, h, s, l), "hsl")
  {
    NumeralCapturable(h);
    NumeralCapturable(s);
    NumeralCapturable(l);
    assert Opens(head, "hsl") by {
      assert head[0] == 'h' && head[1] == 's' && head[2] == 'l';
    }
    OpensExtend(head, h, "hsl");
    OpensExtend(head + h, ", ", "hsl");
    OpensExtend(head + h + ", ", s, "hsl");
    OpensExtend(head + h + ", " + s, "%", "hsl");
    OpensExtend(head + h + ", " + s, "%, ", "hsl");
    OpensExtend(head + h + ", " + s + "%, ", l, "hsl");
    OpensExtend(head + h + ", " + s + "%, " + l, "%", "hsl");
  }

  /** The call has no `r`, so the `rgb` pattern finds nothing in it. */
  lemma HslCallLacksR(head: string, h: string, s: string, l: string, tail: string)
    requires head == "hsl(" || head == "hsla("
    requires Numeral(h) && Numeral(s) && Numeral(l) && Numeral(tail)
    ensures Lacks(HslCall(head, h, s, l) + ")", 'r')
    ensures Lacks(HslCall(head, h, s, l) + ", " + tail + ")", 'r')
  {
    NumeralLacks(h, 'r');
    NumeralLacks(s, 'r');
    NumeralLacks(l, 'r');
    NumeralLacks(tail, 'r');
    assert Lacks(head, 'r') && Lacks(", ", 'r') && Lacks("%, ", 'r') && Lacks("%", 'r') && Lacks(")", 'r');
    LacksAppend(head, h, 'r');
    LacksAppend(head + h, ", ", 'r');
    LacksAppend(head + h + ", ", s, 'r');
    LacksAppend(head + h + ", " + s, "%, ", 'r');
    LacksAppend(head + h + ", " + s + "%, ", l, 'r');
    LacksAppend(head + h + ", " + s + "%, " + l, "%", 'r');
    var c := HslCall(head, h, s, l);
    LacksAppend(c, ")", 'r');
    LacksAppend(c, ", ", 'r');
    LacksAppend(c + ", ", tail, 'r');
    LacksAppend(c + ", " + tail, ")", 'r');
  }

  /** `hsla(h, s%, l%, a)` has its alpha read from `a`. */
  lemma HslaCallAlpha(h: string, s: string, l: string, a: string)
    requires Numeral(h) && Numeral(s) && Numeral(l) && Numeral(a) && a != []
    ensures ParseAlphaFromInput(HslCall("hsla(", h, s, l) + ", " + a + ")") == ParseFloat(a)
  {
    HslCallOpens("hsla(", h, s, l);
    HslCallLacksR("hsla(", h, s, l, a);
    NumeralCapturable(a);
    ReadsHslArgument(HslCall("hsla(", h, s, l), a);
  }

  /** As written, `hsl(h, s%, l%)` has its alpha read from `l%`. */
  lemma HslCallAlphaAsWritten(h: string, s: string, l: string)
    requires Numeral(h) && Numeral(s) && Numeral(l) && l != []
    ensures ParseAlphaFromInput(HslCall("hsl(", h, s, l) + ")") == ParseFloat(l + "%")
  {
    HslCallOpens("hsl(", h, s, l);
    HslCallLacksR("hsl(", h, s, l, "");
    NumeralCapturable(l);
    var q := "hsl(" + h + ", " + s + "%";
    assert HslCall("hsl(", h, s, l) + ")" == q + ", " + (l + "%") + ")";
    ReadsHslArgument(q, l + "%");
  }

  /** Without an `r` in the text, the alpha comes from the `hsl` capture. */
  lemma ReadsHslArgument(q: string, capture: string)
    requires Opens(q, "hsl") && capture != [] && AllCapturable(capture)
    requires Lacks(q + ", " + capture + ")", 'r')
    ensures ParseAlphaFromInput(q + ", " + capture + ")") == ParseFloat(capture)
  {
    assert "rgb"[0] == 'r';
    AlphaArgumentWithout(q + ", " + capture + ")", "rgb");
    ReadsLastArgument(q, capture, "hsl");
  }

  lemma IntToStringCapturable(i: int)
    ensures IntToString(i) != [] && AllCapturable(IntToString(i)) && ')' !in IntToString(i)
    ensures CommaCount(IntToString(i)) == 0
  {
    var n: nat := if i < 0 then -i else i;
    var d := NatToString(n);
    assert AllDigits(d);
    assert AllCapturable(d);
    NoCommaCount(IntToString(i));
  }

  /** The number of commas in `s`. */
  function CommaCount(s: string): (n: nat)
    ensures n <= |s|
  {
    if s == [] then 0 else (if s[|s| - 1] == ',' then 1 else 0) + CommaCount(s[..|s| - 1])
  }

  lemma {:induction false} NoCommaCount(s: string)
    requires forall i :: 0 <= i < |s| ==> s[i] != ','
    ensures CommaCount(s) == 0
  {
    if s != [] {
      NoCommaCount(s[..|s| - 1]);
    }
  }

  lemma {:induction false} CommaCountAppend(a: string, b: string)
    ensures CommaCount(a + b) == CommaCount(a) + CommaCount(b)
  {
    if b != [] {
      assert (a + b)[..|a + b| - 1] == a + b[..|b| - 1];
      assert (a + b)[|a + b| - 1] == b[|b| - 1];
      CommaCountAppend(a, b[..|b| - 1]);
    } else {
      assert a + b == a;
    }
  }

  /** `normalizeAlpha`: undefined and NaN mean opaque; anything else is
      rounded to `Precision` digits and clamped into [0, 1]. */
  function NormalizeAlpha(a: Numeric): (r: real)
    ensures 0.0 <= r <= 1.0
    ensures !a.Finite? ==> r == 1.0
    ensures a.Finite? && a.x >= 1.0 ==> r == 1.0
    ensures a.Finite? && a.x <= 0.0 ==> r == 0.0
    ensures a.Finite? && 0.0 <= a.x <= 1.0 ==> Abs(r - a.x) <= Shift(0.5, -(Precision as int))
    ensures a.Finite? && 0.0 <= a.x <= 1.0 ==> r == Round(a.x, Precision)
    ensures a.Finite? ==> Round(r, Precision) == r
  {
    if !a.Finite? then 1.0
    else
      var x := a.x;
      RoundClose(x, Precision);
      RoundBounds(x, Precision);
      RoundIdempotent(x, Precision);
      RoundBounds(0.0, Precision);
      RoundBounds(1.0, Precision);
      Clamp(Round(x, Precision), 0.0, 1.0)
  }

  /** Rounding keeps a value on its side of 0 and of 1. */
  lemma RoundBounds(x: real, p: nat)
    ensures x >= 1.0 ==> Round(x, p) >= 1.0
    ensures x <= 1.0 ==> Round(x, p) <= 1.0
    ensures x >= 0.0 ==> Round(x, p) >= 0.0
    ensures x <= 0.0 ==> Round(x, p) <= 0.0
  {
    if x >= 1.0 { RoundAtLeastOne(x, p); }
    if x <= 1.0 { RoundAtMostOne(x, p); }
    if x >= 0.0 { RoundNonNegative(x, p); }
    if x <= 0.0 { RoundNonPositive(x, p); }
  }

  /** Normalising a normalised alpha changes nothing: it follows from every
      result lying in [0, 1] and being already rounded. */
  lemma NormalizeAlphaIdempotent(a: Numeric)
    ensures NormalizeAlpha(Finite(NormalizeAlpha(a))) == NormalizeAlpha(a)
  {
  }

  // ----------------------------------------------------------- the values

  /** `toValues` (shared by `parseColor` and `transformColor`): the hex digits
      without `#` in lower case; HSL hue as is and saturation and lightness
      as fractions, each rounded to `Precision` digits; or the RGB channels. */
  function ToValues(lib: Library, space: ColorSpace, color: Color): (v: ColorValues)
    ensures space == HexSpace ==>
      v.HexValues? && v.hex == ToLowerAscii(ReplaceFirst(lib.toHex(color), '#'))
    ensures space == HslSpace ==>
      v.HslValues?
      && Abs(v.h - lib.toHsl(color).h) <= Shift(0.5, -(Precision as int))
      && Abs(v.s - lib.toHsl(color).s / 100.0) <= Shift(0.5, -(Precision as int))
      && Abs(v.l - lib.toHsl(color).l / 100.0) <= Shift(0.5, -(Precision as int))
      && Round(v.h, Precision) == v.h && Round(v.s, Precision) == v.s && Round(v.l, Precision) == v.l
    ensures space == HslSpace ==>
      v == HslValues(Round(lib.toHsl(color).h, Precision), Round(lib.toHsl(color).s / 100.0, Precision),
                     Round(lib.toHsl(color).l / 100.0, Precision))
    ensures space != HexSpace && space != HslSpace ==>
      v == RgbValues(lib.toRgb(color).r as real, lib.toRgb(color).g as real, lib.toRgb(color).b as real)
  {
    if space == HexSpace then HexValues(ToLowerAscii(ReplaceFirst(lib.toHex(color), '#')))
    else if space == HslSpace then
      var hsl := lib.toHsl(color);
      RoundClose(hsl.h, Precision);
      RoundClose(hsl.s / 100.0, Precision);
      RoundClose(hsl.l / 100.0, Precision);
      RoundIdempotent(hsl.h, Precision);
      RoundIdempotent(hsl.s / 100.0, Precision);
      RoundIdempotent(hsl.l / 100.0, Precision);
      HslValues(Round(hsl.h, Precision), Round(hsl.s / 100.0, Precision), Round(hsl.l / 100.0, Precision))
    else
      var rgb := lib.toRgb(color);
      RgbValues(rgb.r as real, rgb.g as real, rgb.b as real)
  }

  /** When the library writes `#` and hexadecimal digits, the hex value is
      those digits in lower case. */
  lemma HexValueDigits(lib: Library, color: Color, digits: string)
    requires lib.toHex(color) == "#" + digits
    requires forall i :: 0 <= i < |digits| ==> IsHexDigit(digits[i])
    ensures var v := ToValues(lib, HexSpace, color);
      |v.hex| == |digits| && forall i :: 0 <= i < |digits| ==> IsLowerHexDigit(v.hex[i]) && v.hex[i] == LowerAscii(digits[i])
  {
    assert lib.toHex(color) == ['#'] + digits;
    ReplaceFirstLeading('#', digits);
  }

  // ------------------------------------------------------------ parseColor

  /** The model `parseColor` builds from a valid colour, given the alpha
      read from the text. */
  function BuildModel(lib: Library, input: string, color: Color, inputAlpha: Numeric): (m: ColorModel)
    ensures m.source == input && m.space == InferSpace(input)
    ensures m.values == ToValues(lib, m.space, color)
    ensures 0.0 <= m.alpha <= 1.0
    ensures inputAlpha.Undefined? ==> m.alpha == NormalizeAlpha(Finite(lib.toRgb(color).a))
    ensures !inputAlpha.Undefined? ==> m.alpha == NormalizeAlpha(inputAlpha)
  {
    var space := InferSpace(input);
    var alpha := NormalizeAlpha(if inputAlpha.Undefined? then Finite(lib.toRgb(color).a) else inputAlpha);
    ColorModel(space, ToValues(lib, space, color), alpha, input)
  }

  function ParseColorReading(plugins: seq<Plugin>, lib: Library, input: string, inputAlpha: Numeric): Result<ColorModel, ColorError> {
    match FirstParse(plugins, input)
    case Some(model) => Success(model)
    case None =>
      var color := lib.parse(input);
      if !lib.isValid(color) then ThrowError(ParseError, "INVALID_INPUT", "Invalid color input", None)
      else Success(BuildModel(lib, input, color, inputAlpha))
  }

  /** `parseColor` over the registered plugins: the first plugin's model
      wins; otherwise text the library rejects is an `INVALID_INPUT` parse
      error, and a valid colour becomes a model of the inferred space whose
      alpha is in [0, 1] and whose source is the input. */
  function ParseColor(plugins: seq<Plugin>, lib: Library, input: string): (r: Result<ColorModel, ColorError>)
    ensures FirstParse(plugins, input).Some? ==> r == Success(FirstParse(plugins, input).value)
    ensures FirstParse(plugins, input).None? ==> (r.Failure? <==> !lib.isValid(lib.parse(input)))
    ensures FirstParse(plugins, input).None? && r.Failure? ==>
      r.error == CreateError(ParseError, "INVALID_INPUT", "Invalid color input", None)
    ensures FirstParse(plugins, input).None? && r.Success? ==>
      r.value == BuildModel(lib, input, lib.parse(input), ParseAlphaFromInput(input))
  {
    ParseColorReading(plugins, lib, input, ParseAlphaFromInput(input))
  }

  /** A parsed model always has the space its values belong to, an alpha in
      [0, 1] and the input as its source, unless a plugin supplied it. */
  lemma ParsedModelWellFormed(plugins: seq<Plugin>, lib: Library, input: string)
    requires FirstParse(plugins, input).None? && ParseColor(plugins, lib, input).Success?
    ensures var m := ParseColor(plugins, lib, input).value;
      m.source == input && 0.0 <= m.alpha <= 1.0
      && (m.space == HexSpace <==> m.values.HexValues?)
      && (m.space == HslSpace <==> m.values.HslValues?)
      && (m.space == RgbSpace <==> m.values.RgbValues?)
  {
  }

  // ---------------------------------------- the alpha of a three-argument call

  /** As written, `rgb(r, g, b)` has its blue channel read as the alpha. */
  lemma RgbTextAlphaAsWritten(r: int, g: int, b: int)
    ensures ParseAlphaFromInput(RgbText(r, g, b)) == Finite(b as real)
  {
    IntToStringCapturable(r);
    IntToStringCapturable(g);
    IntToStringCapturable(b);
    var q := "rgb(" + IntToString(r) + ", " + IntToString(g);
    assert StartsWithCI(q, "rgb(") by {
      assert q[0] == 'r' && q[1] == 'g' && q[2] == 'b' && q[3] == '(';
    }
    ReadsLastArgument(q, IntToString(b), "rgb");
    ParseFloatOfInt(b);
  }

  /** As written, a valid `rgb(r, g, 0)` parses to a fully transparent
      model, whatever alpha the library reads. */
  lemma RgbTextTransparentAsWritten(plugins: seq<Plugin>, lib: Library, r: int, g: int)
    requires FirstParse(plugins, RgbText(r, g, 0)).None? && lib.isValid(lib.parse(RgbText(r, g, 0)))
    ensures ParseColor(plugins, lib, RgbText(r, g, 0)).Success?
    ensures ParseColor(plugins, lib, RgbText(r, g, 0)).value.alpha == 0.0
  {
    RgbTextAlphaAsWritten(r, g, 0);
  }

  /** As written, `hsl(h, s%, l%)` has its lightness read as the alpha. */
  lemma HslTextAlphaAsWritten(h: int, s: int, l: int)
    ensures ParseAlphaFromInput(HslCall("hsl(", IntToString(h), IntToString(s), IntToString(l)) + ")")
      == Finite(l as real)
  {
    IntToStringNumeral(h);
    IntToStringNumeral(s);
    IntToStringNumeral(l);
    HslCallAlphaAsWritten(IntToString(h), IntToString(s), IntToString(l));
    ParseFloatOfIntBefore(l, "%");
  }

  /** As written, valid black `hsl(h, s%, 0%)` parses fully transparent. */
  lemma HslBlackTransparentAsWritten(plugins: seq<Plugin>, lib: Library, h: int, s: int)
    requires var text := HslCall("hsl(", IntToString(h), IntToString(s), "0") + ")";
      FirstParse(plugins, text).None? && lib.isValid(lib.parse(text))
    ensures var text := HslCall("hsl(", IntToString(h), IntToString(s), "0") + ")";
      ParseColor(plugins, lib, text).Success? && ParseColor(plugins, lib, text).value.alpha == 0.0
  {
    assert IntToString(0) == "0";
    HslTextAlphaAsWritten(h, s, 0);
  }

  /** The alpha read only from a fourth argument, as `rgba(r, g, b, a)` and
      `hsla(h, s, l, a)` carry it. */
  function ParseAlphaFourth(input: string): (r: Numeric)
    ensures CommaCount(input) != 3 ==> r.Undefined?
    ensures CommaCount(input) == 3 ==> r == ParseAlphaFromInput(input)
  {
    if CommaCount(input) == 3 then ParseAlphaFromInput(input) else Undefined
  }

  /** `parseColor` reading the alpha only from a fourth argument. */
  function ParseColorFourth(plugins: seq<Plugin>, lib: Library, input: string): (r: Result<ColorModel, ColorError>)
    ensures FirstParse(plugins, input).None? && r.Success? ==>
      r.value == BuildModel(lib, input, lib.parse(input), ParseAlphaFourth(input))
  {
    ParseColorReading(plugins, lib, input, ParseAlphaFourth(input))
  }

  /** Read from the fourth argument only, `rgb(r, g, b)` keeps the alpha of
      the colour the library parsed. */
  lemma RgbTextKeepsAlpha(plugins: seq<Plugin>, lib: Library, r: int, g: int, b: int)
    requires FirstParse(plugins, RgbText(r, g, b)).None? && lib.isValid(lib.parse(RgbText(r, g, b)))
    ensures ParseColorFourth(plugins, lib, RgbText(r, g, b)).Success?
    ensures ParseColorFourth(plugins, lib, RgbText(r, g, b)).value.alpha
      == NormalizeAlpha(Finite(lib.toRgb(lib.parse(RgbText(r, g, b))).a))
  {
    RgbTextCommas(r, g, b);
  }

  /** `hsl(h, s%, l%)` has two commas, `hsla(h, s%, l%, a)` three. */
  lemma HslTextCommas(head: string, h: string, s: string, l: string, a: string)
    requires head == "hsl(" || head == "hsla("
    requires Numeral(h) && Numeral(s) && Numeral(l) && Numeral(a)
    ensures CommaCount(HslCall(head, h, s, l) + ")") == 2
    ensures CommaCount(HslCall(head, h, s, l) + ", " + a + ")") == 3
  {
    HslCallCommas(head, h, s, l);
    NoCommaCount(a);
    SeparatorCommas();
    var c := HslCall(head, h, s, l);
    CommaCountAppend(c, ")");
    CommaCountAppend(c, ", ");
    CommaCountAppend(c + ", ", a);
    CommaCountAppend(c + ", " + a, ")");
  }

  lemma HslCallCommas(head: string, h: string, s: string, l: string)
    requires head == "hsl(" || head == "hsla("
    requires Numeral(h) && Numeral(s) && Numeral(l)
    ensures CommaCount(HslCall(head, h, s, l)) == 2
  {
    NoCommaCount(head);
    NoCommaCount(h);
    NoCommaCount(s);
    NoCommaCount(l);
    SeparatorCommas();
    CommaCountSeven(head, h, ", ", s, "%, ", l, "%");
  }

  /** The separators between arguments carry one comma each. */
  lemma SeparatorCommas()
    ensures CommaCount(", ") == 1 && CommaCount("%, ") == 1
    ensures CommaCount(")") == 0 && CommaCount("%") == 0
    ensures CommaCount("rgb(") == 0 && CommaCount("rgba(") == 0
  {
    assert ", "[..1] == [','] && [','][..0] == [];
    NoCommaCount("%");
    CommaCountAppend("%", ", ");
    assert "%" + ", " == "%, ";
    NoCommaCount(")");
    NoCommaCount("%");
    NoCommaCount("rgb(");
    NoCommaCount("rgba(");
  }

  lemma CommaCountSeven(a: string, b: string, c: string, d: string, e: string, f: string, g: string)
    ensures CommaCount(a + b + c + d + e + f + g)
      == CommaCount(a) + CommaCount(b) + CommaCount(c) + CommaCount(d) + CommaCount(e) + CommaCount(f) + CommaCount(g)
  {
    CommaCountAppend(a, b);
    CommaCountAppend(a + b, c);
    CommaCountAppend(a + b + c, d);
    CommaCountAppend(a + b + c + d, e);
    CommaCountAppend(a + b + c + d + e, f);
    CommaCountAppend(a + b + c + d + e + f, g);
  }

  lemma RgbTextCommas(r: int, g: int, b: int)
    ensures CommaCount(RgbText(r, g, b)) == 2
  {
    IntToStringCapturable(r);
    IntToStringCapturable(g);
    IntToStringCapturable(b);
    SeparatorCommas();
    CommaCountSeven("rgb(", IntToString(r), ", ", IntToString(g), ", ", IntToString(b), ")");
  }
}
