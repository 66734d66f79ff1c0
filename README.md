# pickolor colour engine and input model, in Dafny

This project models the colour engine of pickolor and the Vue composable that
binds a text box to it, and proves properties of the model.

- **Errors.** Errors are typed. Every message is padded with dots to at least
  15 characters.
- **Transformation steps.** A step is checked against its allowed range
  before it runs.
- **Plugin registry.** Plugins are kept in registration order and must have
  distinct names. For each lookup, the first plugin that answers wins.
- **CMYK codec.** It converts between RGB and CMYK. It also rewrites
  `cmyk(c,m,y,k)` text to `rgb(r, g, b)`.
- **`parseColor`.** Plugins are tried first, then the `colord` library.
  The result's space is inferred from the text. The alpha is read from the
  last argument of an `rgb…(…)` or `hsl…(…)` call, else from the colour,
  then rounded to 4 digits and clamped to [0, 1].
- **`formatColor`.** Plugins are tried first. Then the precision is checked
  (0..6, default 4) and the model is rebuilt as a `colord` colour. The colour
  is written as hex, `rgba`, `rgb`, `hsla` or `hsl`. `oklch` and any other
  target are refused.
- **`transformColor`.** The model becomes a `colord` colour and the steps
  are applied in order. The first refused step ends the run with an error.
  The colour is then read back in the model's own space.
- **`useInputModel`.** This is the Vue composable. It holds a current and a
  last valid model, the text being edited, the last value it emitted and the
  last error it reported. Its handlers and watchers move that state.

## How the model is built

- **JavaScript numbers** are exact reals.
- **`number | undefined` with NaN** is `Numbers.Numeric`.
- **`toFixed`, `round`, `Math.round` and `parseFloat`** are written out over
  decimal digits in `Numbers`.
- **JavaScript's string built-ins** are in `Text`.
- **Exceptions** become `Result` values. `assertWithinRange`'s `RangeError`
  becomes an `Outcome` that carries the message.
- **`colord`** is a third-party library, and its source is not part of this
  model. It is a record of functions over an abstract colour type
  (`Colord.Library`). So everything proved about the engine holds whatever
  those functions compute.
- **Plugins** are records of optional functions.
- **The plugin registry** is a class with a `seq` field. Its lookups are
  methods with loops, proved against `Plugins.FirstSome`.
- **`transformColor`** is a method with a loop, proved against the fold
  `Transform.ApplySteps`.
- **The composable** is the class `InputModel.InputModel`:
  - its refs are fields;
  - every handler and watcher is a method;
  - each method's new state is given by a pure transition function. The
    properties are proved as lemmas about those transitions;
  - every method keeps the class invariant `Valid()`: the current and the
    last valid model are equal, and the last reported error was thrown
    before.
- **What the composable calls out to.** The core `formatColor` and
  `parseColor` are parameters (`InputModel.Env`), because the composable
  passes them its own hue/saturation/value model. Emitted events are
  appended to a log.

Some facts about the code that the model follows:
- `parseColor` does not call `cmykInputToColor`;
- the format targets are `hex`, `rgba`, `rgb`, `hsla`, `hsl` and `oklch`;
- `DEFAULT_PRECISION` is 4;
- `hsl` and `hsla` text is written with the requested precision;
- a percentage alpha such as `50%` is read by `parseFloat` as 50 and is then
  clamped to 1;
- `transformColor` runs no plugins and does not stabilise the hue;
- the core tests read `result.a` and `result.v` of a transformed model, but
  `transformColor` returns a model whose alpha field is `alpha`.

## Model

| member | source | states |
|---|---|---|
| Errors.CreateError | packages/core/src/errors.ts:5-21 | type, code and field are copied. The message is at least 15 characters long and starts with the given message. A shorter message is padded with '.' to exactly 15; a long enough one is kept as is. |
| Errors.ThrowError | packages/core/src/errors.ts:23-30 | always fails, with exactly the error `createError` builds |
| Errors.CreateErrorIdempotent | packages/core/src/errors.ts:11-13 | feeding an error's padded message back in gives the same error |
| Types.SpaceNameInjective | packages/core/src/types.ts:1 | each space name has exactly one representation |
| Types.TargetNameInjective | packages/core/src/types.ts:17 | each format target name has exactly one representation |
| Types.KindNameInjective | packages/core/src/types.ts:25-31 | each transformation name has exactly one representation |
| Types.Scale | packages/core/src/format.ts:35-36 | multiplying a missing or NaN field gives NaN; a number is scaled |
| Types.RangeOf | packages/core/src/types.ts:38-45 | hueShift is limited to [-360, 360] and every other known kind to [-1, 1]. An unknown kind has no entry. |
| Types.RangesProper | packages/core/src/types.ts:38-45 | every range is symmetric around 0 |
| Types.AssertWithinRange | packages/core/src/types.ts:47-55 | passes iff the kind has no range or the value lies within it. A failure carries the "Value for … must be between … and …" message. |
| Types.RangeBoundsInclusive | packages/core/src/types.ts:52-54 | both ends of a range are accepted, and any value past either end is refused |
| Plugins.FormatYield | packages/core/src/plugins.ts:29-32 | a plugin's format answer is never the empty string, which is falsy |
| Plugins.FirstSome | packages/core/src/plugins.ts:14-21 | there is no answer iff no plugin answers. Otherwise the answer comes from a plugin with no answering plugin before it. |
| Plugins.FirstSomeAt | packages/core/src/plugins.ts:14-21 | the answer at position i wins when every earlier plugin gave none |
| Plugins.FirstParseEarliest | packages/core/src/plugins.ts:13-22 | an earlier parse plugin shadows every later one |
| Plugins.FirstFormatNonEmpty | packages/core/src/plugins.ts:24-36 | the format lookup never returns the empty string |
| Plugins.FirstSomeAppendNone | packages/core/src/plugins.ts:10 | appending a plugin with no hook changes no lookup |
| Plugins.Registry.constructor | packages/core/src/plugins.ts:3 | the registry starts empty and valid |
| Plugins.Registry.Register | packages/core/src/plugins.ts:5-11 | a name already taken gives the "already registered" error and leaves the registry as it was. Otherwise the plugin is appended. Names stay distinct. |
| Plugins.Registry.RunParse | packages/core/src/plugins.ts:13-22 | the loop returns the first parse answer in registration order |
| Plugins.Registry.RunFormat | packages/core/src/plugins.ts:24-36 | the loop returns the first truthy format answer in registration order |
| Plugins.Registry.RunTransform | packages/core/src/plugins.ts:38-50 | the loop returns the first transform answer in registration order |
| Cmyk.Trunc | packages/core/src/cmyk.ts:7-9 | `parseInt(String(x))` truncates toward zero |
| Cmyk.RgbToCmyk | packages/core/src/cmyk.ts:1-27 | the step-by-step computation equals the closed-form CMYK of the truncated channels |
| Cmyk.RelativeShortfall | packages/core/src/cmyk.ts:16-23 | the source's division `(C - K) / (1 - K)` equals `(max - x) / max` |
| Cmyk.CmykOfRange | packages/core/src/cmyk.ts:11-26 | for channels in 0..255, all four outputs lie in [0, 1] and one of C, M, Y is 0. K is 1 - max/255, and black is (0, 0, 0, 1). |
| Cmyk.CmykToRgb | packages/core/src/cmyk.ts:29-48 | each channel is `round(255 (1 - x/100)(1 - k/100))` |
| Cmyk.CmykChannelRange | packages/core/src/cmyk.ts:35-45 | components in 0..100 give channels in 0..255. Full black gives 0, and no ink gives 255. |
| Cmyk.ChannelBack | packages/core/src/cmyk.ts:35-45 | a single channel survives the round trip through CMYK percentages |
| Cmyk.RgbCmykRoundTrip | packages/core/src/cmyk.ts:1-48 | converting RGB to CMYK and back, in percent, gives every channel back |
| Cmyk.Component | packages/core/src/cmyk.ts:50 | a matched `\d+%?` component starts with a digit and is consumed from the text |
| Cmyk.MatchPrefix | packages/core/src/cmyk.ts:50 | every capture of the pattern starts with a digit |
| Cmyk.FirstMatch | packages/core/src/cmyk.ts:59 | the leftmost match's captures all start with digits |
| Cmyk.ClampedValue | packages/core/src/cmyk.ts:52-54 | the leading digits' value, clamped to [0, limit] |
| Cmyk.ComponentOfDigits | packages/core/src/cmyk.ts:50 | a run of digits followed by the delimiter is captured whole |
| Cmyk.MatchOfComponents | packages/core/src/cmyk.ts:50 | "cmyk(" followed by four components matches with exactly those captures |
| Cmyk.CmykDisplayMatches | packages/core/src/cmyk.ts:58-59 | a printed `cmyk(c,m,y,k)` matches, and its captures are the printed numbers |
| Cmyk.ClampedValueOfDigits | packages/core/src/cmyk.ts:52-54 | a printed number reads back as itself, clamped |
| Cmyk.Rewrite | packages/core/src/cmyk.ts:56-71 | text without "cmyk", or without a match once white space is removed, comes back unchanged. Otherwise the result is `rgb(…)` of the clamped components. |
| Cmyk.RewriteDisplay | packages/core/src/cmyk.ts:56-71 | a printed `cmyk(c,m,y,k)` becomes the `rgb` text of its clamped components |
| Cmyk.CmykOverflowAsWritten | packages/core/src/cmyk.ts:53 | as written, `cmyk(0,0,0,k)` with 100 < k <= 255 gives negative channels, e.g. `rgb(-255, -255, -255)` for k = 200 |
| Cmyk.InkFreeOverflow | packages/core/src/cmyk.ts:35-45 | a K past 100 percent with no ink gives a negative channel |
| Cmyk.CmykInputToColorClamped | packages/core/src/cmyk.ts:56-71 | the corrected rewrite clamps to [0, 100]. It leaves non-matching text unchanged and otherwise yields `rgb(…)`. |
| Cmyk.CmykClampedDisplay | packages/core/src/cmyk.ts:56-71 | corrected: a K past 100 gives black. Components up to 100 convert exactly as `cmykToRgb` does. |
| Numbers.Clamp | packages/vue/src/composable/useInputModel.ts:137 | the result lies in [lo, hi]. It equals x inside the interval and the nearer bound outside it. |
| Numbers.MathRound | packages/core/src/cmyk.ts:43-45 | the nearest integer, halves rounded up |
| Numbers.RoundClose | packages/core/src/parse.ts:11-13 | rounding moves a value by at most half a unit in the last kept place |
| Numbers.RoundIdempotent | packages/core/src/format.ts:12-14 | rounding a rounded value changes nothing |
| Numbers.ToFixed | packages/core/src/format.ts:13 | `toFixed(p)` writes exactly p digits after a point (no point when p = 0) |
| Numbers.ToFixedReadsBackAsRound | packages/core/src/format.ts:8-10 | `Number(x.toFixed(p))` is x rounded to p digits, halves away from zero |
| Numbers.ToFixedReadsBackBefore | packages/core/src/parse.ts:18 | `parseFloat` of `toFixed` text followed by a non-numeric suffix reads the rounded value |
| Numbers.ParseFloatOfInt | packages/core/src/parse.ts:18 | `parseFloat(String(i))` is i |
| Text.Repeat | packages/core/src/errors.ts:13 | n copies of the character |
| Text.TrimStart | packages/core/src/parse.ts:34 | drops exactly the leading run of white space |
| Text.TrimEnd | packages/core/src/parse.ts:34 | drops exactly the trailing run of white space |
| Text.StripSpaces | packages/core/src/cmyk.ts:58 | the result contains no white space |
| Text.StripSpacesUnspaced | packages/core/src/cmyk.ts:58 | text without white space is left as it is |
| Text.ToLowerAscii | packages/core/src/parse.ts:42 | each character is lowered, length kept |
| Text.ReplaceFirst | packages/core/src/format.ts:54 | without the character the text is unchanged; otherwise exactly one character goes |
| Text.ReplaceFirstLeading | packages/core/src/format.ts:54 | removing the leading `#` gives the rest |
| Text.DigitsValueOfNatToString | packages/core/src/cmyk.ts:53 | printing a number in decimal and reading the digits back gives the number |
| Text.NatToHex | packages/core/src/format.ts:49 | `toString(16)` writes lower-case hexadecimal digits: one below 16, two below 256 |
| Text.PadStart2 | packages/core/src/format.ts:49 | `padStart(2, '0')` keeps long text and pads short text to two characters, ending in it |
| Text.HexByteRoundTrip | packages/core/src/format.ts:49 | a byte is written as two lower-case digits that read back as the byte |
| Parse.InferSpace | packages/core/src/parse.ts:33-39 | hex iff the trimmed text is hex notation. hsl iff it is not and contains "hsl" in any case. rgb otherwise. |
| Parse.HexNotationInfersHex | packages/core/src/parse.ts:8 | `#` and 3, 4, 6 or 8 hexadecimal digits is hex |
| Parse.HslNotationInfersHsl | packages/core/src/parse.ts:36-37 | text opening with "hsl" in any case is hsl |
| Parse.AlphaArgument | packages/core/src/parse.ts:16 | a capture is non-empty and holds no comma, white space or ')' |
| Parse.ParseAlphaFromInput | packages/core/src/parse.ts:15-23 | undefined iff neither the rgb pattern nor the hsl pattern captures |
| Parse.ParseFloatNeverUndefined | packages/core/src/parse.ts:17-21 | a capture always yields a number, possibly NaN |
| Parse.ReadsLastArgument | packages/core/src/parse.ts:16-18 | in an opened call, the argument after the last ", " is the capture |
| Parse.ArgumentAfterLastComma | packages/core/src/parse.ts:16 | the capture is the trimmed text after the last comma |
| Parse.AlphaArgumentWithout | packages/core/src/parse.ts:19 | text lacking the name's first letter has no capture for that name |
| Parse.ReadsHslArgument | packages/core/src/parse.ts:19-21 | in text with no `r`, the alpha comes from the hsl capture |
| Parse.HslaCallAlpha | packages/core/src/parse.ts:15-23 | `hsla(h, s%, l%, a)` has its alpha read from a |
| Parse.HslCallAlphaAsWritten | packages/core/src/parse.ts:19-21 | as written, `hsl(h, s%, l%)` has its alpha read from `l%` |
| Parse.NormalizeAlpha | packages/core/src/parse.ts:25-31 | undefined and NaN mean 1. The result lies in [0, 1] and is 1 from 1 up and 0 from 0 down. Inside, it is the value rounded to 4 digits with halves away from zero, so within half a unit of the 4th digit. Every result is already rounded. |
| Parse.RoundBounds | packages/core/src/parse.ts:30 | rounding keeps a value on its side of 0 and of 1 |
| Parse.NormalizeAlphaIdempotent | packages/core/src/parse.ts:25-31 | normalising twice is normalising once |
| Parse.ToValues | packages/core/src/parse.ts:45-66 | hex gives the lower-cased digits without `#`. hsl gives the hue, and the saturation and lightness as fractions, each rounded to 4 digits with halves away from zero: within half a unit of the library's value and already rounded. Anything else gives the RGB channels. |
| Parse.HexValueDigits | packages/core/src/parse.ts:41-43 | the hex value is the library's digits, lower-cased |
| Parse.BuildModel | packages/core/src/parse.ts:83-92 | the source is the input and the space is inferred. The values match that space, and the alpha lies in [0, 1]: the text's alpha if any, else the colour's. |
| Parse.ParseColor | packages/core/src/parse.ts:68-93 | a plugin's model wins. Otherwise the result fails iff the library finds the text invalid, with the padded INVALID_INPUT parse error. |
| Parse.ParsedModelWellFormed | packages/core/src/parse.ts:68-93 | a parsed model's values belong to its space, its alpha is in [0, 1] and its source is the input |
| Parse.RgbTextAlphaAsWritten | packages/core/src/parse.ts:16-18 | as written, `rgb(r, g, b)` has its blue channel read as the alpha |
| Parse.RgbTextTransparentAsWritten | packages/core/src/parse.ts:84-85 | as written, a valid `rgb(r, g, 0)` parses fully transparent |
| Parse.HslTextAlphaAsWritten | packages/core/src/parse.ts:19-21 | as written, `hsl(h, s%, l%)` has its lightness read as the alpha |
| Parse.HslBlackTransparentAsWritten | packages/core/src/parse.ts:84-85 | as written, a valid `hsl(h, s%, 0%)` parses fully transparent |
| Parse.ParseAlphaFourth | packages/core/src/parse.ts:15-23 | corrected: an alpha is read only from a fourth argument (three commas) |
| Parse.ParseColorFourth | packages/core/src/parse.ts:68-93 | corrected `parseColor`: the model reads its alpha from a fourth argument only |
| Parse.RgbTextKeepsAlpha | packages/core/src/parse.ts:85 | corrected: `rgb(r, g, b)` keeps the alpha of the colour the library parsed |
| Format.FormatNumber | packages/core/src/format.ts:12-14 | the text has exactly p fractional digits and reads back as the value rounded to p |
| Format.ResolvePrecision | packages/core/src/format.ts:16-22 | precision defaults to 4. Outside 0..6 it fails with INVALID_PRECISION. |
| Format.ModelToColor | packages/core/src/format.ts:24-45 | hex values are parsed with a leading `#` and refused with INVALID_MODEL when invalid. hsl goes in percent and rgb as is, with the model's alpha. Any other space is UNSUPPORTED_SPACE. |
| Format.HslModelInPercent | packages/core/src/format.ts:34-37 | HSL fractions reach the library multiplied by 100. A model without HSL values passes NaN. |
| Format.HexFromRgbRoundTrip | packages/core/src/format.ts:47-51 | byte channels are written as `#` and three pairs that read back as the channels |
| Format.HexWithAlphaRoundTrip | packages/core/src/format.ts:53-58 | the text is nine characters: `hexFromRgb`'s seven, then a pair reading back as `round(alpha * 255)` |
| Format.HexTextInfersHex | packages/core/src/format.ts:71-74 | hex output is inferred as hex by the parser |
| Format.FormatByTarget | packages/core/src/format.ts:60-88 | oklch and unknown targets fail with UNSUPPORTED_TARGET and their own messages. Every other target succeeds with its notation: hex, with the alpha pair only when asked for and the alpha is below 1. rgba gives the channels and the alpha at the precision. rgb gives only the channels. hsla gives hue, saturation and lightness at the precision, then the alpha. hsl gives the same without the alpha. |
| Format.HexTargetLength | packages/core/src/format.ts:71-74 | hex output has nine characters when alpha is included and below 1, else seven. It is read back as hex, and its pairs give the colour's channels and, when there are nine characters, round(alpha · 255). |
| Format.FormatByTargetAlpha | packages/core/src/format.ts:75-82 | the parser reads the output of `rgba` and `hsla` back with the colour's alpha rounded to the precision. Read from a fourth argument only, `rgb` and `hsl` output carries no alpha. As written, `hsl` output reads back its rounded lightness as the alpha. |
| Format.RgbaTextAlphaReadsBack | packages/core/src/format.ts:75-76 | the parser reads an `rgba` text's alpha as the alpha rounded to the precision |
| Format.HslaTextAlphaReadsBack | packages/core/src/format.ts:79-80 | the parser reads an `hsla` text's alpha as the alpha rounded to the precision |
| Format.FormattedHslAlphaAsWritten | packages/core/src/format.ts:81-82 | as written, the parser reads an `hsl` text's alpha from its rounded lightness |
| Format.FormattedAlphaFourth | packages/core/src/format.ts:75-82 | corrected: the alpha of `rgba` and `hsla` output reads back rounded. `rgb` and `hsl` output carries none. |
| Format.FormatColor | packages/core/src/format.ts:90-109 | a plugin's non-empty text wins. Otherwise the precision error comes first, then the model error, then INVALID_MODEL for an invalid colour. Then the text of the target. |
| Format.FormatColorOutcome | packages/core/src/format.ts:90-109 | the result is non-empty text or a format error with a message of at least 15 characters |
| Transform.ModelToColor | packages/core/src/transform.ts:34-50 | fails, with UNSUPPORTED_SPACE of type transform, iff the space is oklch or unknown. A hex model is never checked for validity. |
| Transform.ModelToColorAgrees | packages/core/src/transform.ts:34-50 | builds the same colour as the formatter wherever the formatter succeeds. It fails on exactly the same spaces, apart from hex. |
| Transform.RejectionOf | packages/core/src/transform.ts:53-58 | a refused step fails with OUT_OF_RANGE when out of range, else UNSUPPORTED_TRANSFORM |
| Transform.ApplyStep | packages/core/src/transform.ts:52-87 | fails iff the step is out of range or of unknown kind, with that error. A hue shift rotates by the value. |
| Transform.LightenOppositeDarken | packages/core/src/transform.ts:61-68 | within range, lightening by -v is darkening by v |
| Transform.SaturateOppositeDesaturate | packages/core/src/transform.ts:69-76 | within range, saturating by -v is desaturating by v |
| Transform.LightenInPercent | packages/core/src/transform.ts:61-64 | a lighten step calls `lighten`, or `darken` when negative, with the fraction in percent |
| Transform.SaturateInPercent | packages/core/src/transform.ts:69-76 | a saturate step calls `saturate`, or `desaturate` when negative, with the fraction in percent. A desaturate step does the reverse. |
| Transform.AlphaStepClamps | packages/core/src/transform.ts:79-83 | an alpha step leaves the alpha at the rounded, clamped sum |
| Transform.ApplyStepsAppend | packages/core/src/transform.ts:96-98 | running two lists in turn is running their concatenation |
| Transform.ApplyStepsFailsAtFirstRejected | packages/core/src/transform.ts:96-98 | a run fails iff some step is refused, with the first refused step's error, whatever the colour |
| Transform.ResultModel | packages/core/src/transform.ts:100-107 | the space and source are kept, the values are re-read in that space, and the alpha is normalised |
| Transform.TransformColor | packages/core/src/transform.ts:89-108 | the loop's result is the model error, or the first step error, or the result model of the folded steps |
| Transform.TransformOutcome | packages/core/src/transform.ts:89-108 | succeeds iff no step is refused, keeping space and source with an alpha in [0, 1] |
| InputModel.CurrentValue | packages/vue/src/composable/useInputModel.ts:33-39 | a given `modelValue` wins, even when it is empty. Else a given `value` wins. An uncontrolled component shows its internal value. |
| InputModel.Swatch | packages/vue/src/composable/useInputModel.ts:53-62 | the formatted current model, or "transparent" when there is none or formatting fails |
| InputModel.Stabilize | packages/vue/src/composable/useInputModel.ts:77-84 | only the hue may change. A non-black grey takes the hue of the current model, else of the last valid one, else keeps its own. |
| InputModel.StabilizeIdempotent | packages/vue/src/composable/useInputModel.ts:77-84 | stabilising twice is stabilising once |
| InputModel.StabilizeCurrent | packages/vue/src/composable/useInputModel.ts:77-84 | stabilising the current model against itself changes nothing |
| InputModel.BaseModel | packages/vue/src/composable/useInputModel.ts:115-129 | the current model, else the last valid one, else opaque black in the target notation with the current text |
| InputModel.ModelForContext | packages/vue/src/composable/useInputModel.ts:145-151 | always equals the base model |
| InputModel.WithChannelInRange | packages/vue/src/composable/useInputModel.ts:135-143 | the set channel is the value clamped to [0, 360] for hue and [0, 1] otherwise. Every other channel and field is kept. |
| InputModel.NotifyOnce | packages/vue/src/composable/useInputModel.ts:65-75 | the same error is reported once however often it repeats. A null clears the memory, so the error is reported again. |
| InputModel.RaiseReports | packages/vue/src/composable/useInputModel.ts:65-75 | in a reachable state, each error a core call throws is a new object and is always reported |
| InputModel.ApplyFailureKeepsModels | packages/vue/src/composable/useInputModel.ts:102-113 | a model that cannot be formatted changes neither model, nor the text, nor the echo marker. The new error object is reported exactly when it is not the last one reported, which in a reachable state is always. |
| InputModel.ApplySuccessShowsText | packages/vue/src/composable/useInputModel.ts:102-113 | a formatted model becomes current and last valid and its text is shown. It is emitted as an update and a change exactly when asked. |
| InputModel.ChannelSetFromBase | packages/vue/src/composable/useInputModel.ts:135-143 | with no model yet, setting a channel applies opaque black with only that channel clamped in |
| InputModel.CommitBlankClears | packages/vue/src/composable/useInputModel.ts:167-174 | committing blank text clears both models and emits "" with no model |
| InputModel.ValueWatcherNeverEmitsChange | packages/vue/src/composable/useInputModel.ts:189-208 | the value watcher drops an echo once and otherwise only ever adds error events |
| InputModel.EmittedValueEchoIgnored | packages/vue/src/composable/useInputModel.ts:189-193 | an uncontrolled component's own emitted text comes back as an echo and is ignored |
| InputModel.RequestChangeKeepsModel | packages/vue/src/composable/useInputModel.ts:153-158 | a new format request never changes the current model when the current and last valid models agree, as they do in every reachable state |
| InputModel.ApplyKeepsWellFormed | packages/vue/src/composable/useInputModel.ts:102-113 | applying a model keeps the current and last valid models equal and the last reported error an already thrown one |
| InputModel.CommitKeepsWellFormed | packages/vue/src/composable/useInputModel.ts:167-182 | committing keeps a reachable state reachable |
| InputModel.ValueChangedKeepsWellFormed | packages/vue/src/composable/useInputModel.ts:189-208 | the value watcher keeps a reachable state reachable |
| InputModel.TransitionsKeepWellFormed | packages/vue/src/composable/useInputModel.ts:135-208 | every handler and watcher keeps a reachable state reachable |
| InputModel.FailingCommitReportedEachTime | packages/vue/src/composable/useInputModel.ts:167-182 | committing text that does not parse twice reports two distinct error objects |
| InputModel.InputModel.constructor | packages/vue/src/composable/useInputModel.ts:29-51 | the refs start empty with the default value, then the value watcher runs at once |
| InputModel.InputModel.SetProps | packages/vue/src/composable/useInputModel.ts:30 | new properties change no ref |
| InputModel.InputModel.Throw | packages/core/src/errors.ts:23-30 | a throw makes a new error object whose identity no earlier object has |
| InputModel.InputModel.NotifyError | packages/vue/src/composable/useInputModel.ts:65-75 | the new state is the `notifyError` transition, and the state stays reachable |
| InputModel.InputModel.SyncOutput | packages/vue/src/composable/useInputModel.ts:90-100 | the new state is the `syncOutput` transition |
| InputModel.InputModel.ApplyModel | packages/vue/src/composable/useInputModel.ts:102-113 | the new state is the `applyModel` transition |
| InputModel.InputModel.SetModel | packages/vue/src/composable/useInputModel.ts:131-133 | applies the model and emits |
| InputModel.InputModel.SetChannel | packages/vue/src/composable/useInputModel.ts:135-143 | applies the base model with one clamped channel replaced |
| InputModel.InputModel.HandleInput | packages/vue/src/composable/useInputModel.ts:160-165 | only the text being edited changes |
| InputModel.InputModel.HandleInputKeydown | packages/vue/src/composable/useInputModel.ts:184-187 | Enter commits; any other key changes nothing |
| InputModel.InputModel.CommitInput | packages/vue/src/composable/useInputModel.ts:167-182 | the new state is the `commitInput` transition |
| InputModel.InputModel.OnRequestChange | packages/vue/src/composable/useInputModel.ts:153-158 | the new state is the format-request watcher's transition, and the current model stays as it was |
| InputModel.InputModel.OnValueChange | packages/vue/src/composable/useInputModel.ts:189-208 | the new state is the value watcher's transition |

## Left out

- IEEE-754 doubles are exact reals here. `toFixed` is modelled for values below 1e21 only, and exponent notation, `Infinity` and `-0` are not modelled.
- A non-integer precision is not modelled, because `FormatRequest.precision` is an integer here.
- `transformColor`'s `INVALID_STEPS` error for a non-array `steps` is not modelled, because the steps are a sequence by type.
- The colour arithmetic of `colord` (parsing, conversions, lighten, rotate and the rest) is not modelled, because its source is not part of this model. Only the law that an alpha set in [0, 1] reads back is assumed, and only where a lemma says so.
- The `clamp` the composable imports from the core package is not in the visible source. `Numbers.Clamp` (`Math.min(hi, Math.max(lo, x))`) is assumed.
- Vue reactivity, watcher scheduling and DOM events are not modelled. Watchers are methods the caller runs, `handleInput` takes the text, and `handleInputKeydown` takes the key.
- The `onChange` and `onError` callbacks are not modelled separately; they receive the same payloads as the emitted events in the log.
- The identity of a thrown error object is modelled by an id in `InputModel.Raised`. Every core failure throws a new object, so the composable draws a new id from `nextErrorId` for each one.
- The composable passes its own hue/saturation/value model to the core `parseColor` and `formatColor`. Those are parameters here, so the mismatch with the core model's shape is not modelled.
- Plugins are assumed to be pure functions.
- Cmyk.RgbToCmyk: requires that the truncated channels are either all 0 or have a non-zero maximum. Otherwise the source divides by zero, giving NaN for the zero channels and Infinity for the negative ones, which is not modelled.
- Cmyk.CmykToRgb: uses `Math.round` on exact reals. JavaScript's rounding of products such as `255 * 0.45` is not modelled.
- Parse.AlphaArgument: does not single out the leftmost opening the regular expression would use. Every opening that matches gives the same capture, so the result is the same.
- Transform.LightenOppositeDarken: requires a non-zero value, because `lighten(0)` and `darken(0)` are distinct library calls.
- Transform.SaturateOppositeDesaturate: requires a non-zero value, because `saturate(0)` and `desaturate(0)` are distinct library calls.
- Transform.AlphaStepClamps: assumes the library law that an alpha set in [0, 1] reads back.

## Findings

| source | as written | input that shows it | evidently intended | confidence | as-written member | corrected member |
|---|---|---|---|---|---|---|
| packages/core/src/parse.ts:16-21 | The alpha pattern takes the last argument of any `rgb(…)` or `hsl(…)` call, including a three-argument one. | `rgb(255, 136, 0)` parses with alpha 0, and `hsl(h, s%, 0%)` parses fully transparent. | Alpha is read only from a fourth argument. Without one, the colour's own alpha is kept. | not executed | Parse.RgbTextTransparentAsWritten | Parse.RgbTextKeepsAlpha |
| packages/core/src/parse.ts:19-21 | The formatter's own `hsl` output is read back with its lightness as the alpha. | Formatting to `hsl` and parsing the text back. | Only `rgba`/`hsla` output carries an alpha. | not executed | Format.FormattedHslAlphaAsWritten | Format.FormattedAlphaFourth |
| packages/core/src/cmyk.ts:53 | CMYK components are clamped to [0, 255], although they are percentages. | `cmyk(0,0,0,200)` gives `rgb(-255, -255, -255)`. | Components are clamped to [0, 100]. | not executed | Cmyk.CmykOverflowAsWritten | Cmyk.CmykClampedDisplay |
