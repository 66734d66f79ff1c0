/** `transformColor`: the model becomes a `colord` colour, each step is
    range-checked and applied in order, and the result is read back as a
    model of the original space with the original source. */
module Transform {
  import opened Results
  import opened Numbers
  import opened Types
  import opened Errors
  import opened Colord
  import Format
  import opened Parse

  /** `modelToColord` of the transformer: like the formatter's, except that
      a hex model is not checked for validity and an unsupported space is a
      transform error. */
  function ModelToColor(lib: Library, model: ColorModel): (r: Result<Color, ColorError>)
    ensures r.Failure? <==> model.space.OklchSpace? || model.space.OtherSpace?
    ensures r.Failure? ==>
      r.error == CreateError(TransformError, "UNSUPPORTED_SPACE", "Unsupported color space: " + SpaceName(model.space), None)
    ensures model.space == HexSpace ==>
      r == Success(lib.withAlpha(lib.parse("#" + HexField(model.values)), model.alpha))
  {
    var alpha := model.alpha;
    match model.space
    case HexSpace => Success(lib.withAlpha(lib.parse("#" + HexField(model.values)), alpha))
    case HslSpace =>
      var v := model.values;
      Success(lib.fromHsl(FieldH(v), Scale(FieldS(v), 100.0), Scale(FieldL(v), 100.0), alpha))
    case RgbSpace =>
      var v := model.values;
      Success(lib.fromRgb(FieldR(v), FieldG(v), FieldB(v), alpha))
    case _ =>
      ThrowError(TransformError, "UNSUPPORTED_SPACE", "Unsupported color space: " + SpaceName(model.space), None)
  }

  /** The transformer builds the same colour as the formatter wherever the
      formatter builds one; it differs only in accepting an invalid hex model
      and in the type of the error for an unsupported space. */
  lemma ModelToColorAgrees(lib: Library, model: ColorModel)
    ensures Format.ModelToColor(lib, model).Success? ==>
      ModelToColor(lib, model) == Format.ModelToColor(lib, model)
    ensures model.space != HexSpace ==>
      (ModelToColor(lib, model).Success? <==> Format.ModelToColor(lib, model).Success?)
    ensures ModelToColor(lib, model).Failure? ==>
      Format.ModelToColor(lib, model).Failure?
      && Format.ModelToColor(lib, model).error.message == ModelToColor(lib, model).error.message
  {
  }

  // ---------------------------------------------------------------- a step

  /** A step the range check or the kind switch refuses, whatever the
      colour. */
  predicate Rejected(step: Transformation) {
    AssertWithinRange(step).Fail? || step.kind.OtherKind?
  }

  /** The error a rejected step raises. */
  function RejectionOf(step: Transformation): (e: ColorError)
    requires Rejected(step)
    ensures e.errorType == TransformError
    ensures e.code == (if AssertWithinRange(step).Fail? then "OUT_OF_RANGE" else "UNSUPPORTED_TRANSFORM")
  {
    match AssertWithinRange(step)
    case Fail(message) => CreateError(TransformError, "OUT_OF_RANGE", message, None)
    case Pass => CreateError(TransformError, "UNSUPPORTED_TRANSFORM", "Unsupported transform type: " + KindName(step.kind), None)
  }

  /** The relative operations take percent: a signed fraction picks the
      operation by its sign and passes its magnitude times 100. */
  function Signed(lib: Library, color: Color, value: real,
                  up: (Color, real) -> Color, down: (Color, real) -> Color): Color {
    if value >= 0.0 then up(color, value * 100.0) else down(color, Abs(value) * 100.0)
  }

  /** `applyStep`: the range check first (its message becomes an
      `OUT_OF_RANGE` error), then the kind's operation; an unknown kind is
      `UNSUPPORTED_TRANSFORM`. */
  function ApplyStep(lib: Library, color: Color, step: Transformation): (r: Result<Color, ColorError>)
    ensures r.Failure? <==> Rejected(step)
    ensures r.Failure? ==> r.error == RejectionOf(step)
    ensures step.kind == HueShift && r.Success? ==> r.value == lib.rotate(color, step.value)
  {
    match AssertWithinRange(step)
    case Fail(message) => ThrowError(TransformError, "OUT_OF_RANGE", message, None)
    case Pass =>
      var v := step.value;
      match step.kind
      case Lighten => Success(Signed(lib, color, v, lib.lighten, lib.darken))
      case Darken => Success(Signed(lib, color, v, lib.darken, lib.lighten))
      case Saturate => Success(Signed(lib, color, v, lib.saturate, lib.desaturate))
      case Desaturate => Success(Signed(lib, color, v, lib.desaturate, lib.saturate))
      case HueShift => Success(lib.rotate(color, v))
      case AlphaShift =>
        var current := lib.toRgb(color).a;
        Success(lib.withAlpha(color, NormalizeAlpha(Finite(current + v))))
      case OtherKind(name) =>
        ThrowError(TransformError, "UNSUPPORTED_TRANSFORM", "Unsupported transform type: " + name, None)
  }

  /** Within range, lightening by a negative amount is darkening by its
      magnitude, and the other way round. A zero step still calls the
      operation its kind names, and a refused step names its own kind in
      the message. */
  lemma LightenOppositeDarken(lib: Library, color: Color, v: real)
    requires v != 0.0 && -1.0 <= v <= 1.0
    ensures ApplyStep(lib, color, Transformation(Lighten, v)) == ApplyStep(lib, color, Transformation(Darken, -v))
  {
  }

  /** Within range, saturating by a negative amount is desaturating by its
      magnitude, and the other way round. */
  lemma SaturateOppositeDesaturate(lib: Library, color: Color, v: real)
    requires v != 0.0 && -1.0 <= v <= 1.0
    ensures ApplyStep(lib, color, Transformation(Saturate, v)) == ApplyStep(lib, color, Transformation(Desaturate, -v))
  {
  }

  /** In range, a lighten step calls `lighten` with the fraction in percent
      when it is not negative, and `darken` with its magnitude otherwise. */
  lemma LightenInPercent(lib: Library, color: Color, v: real)
    requires -1.0 <= v <= 1.0
    ensures v >= 0.0 ==> ApplyStep(lib, color, Transformation(Lighten, v)) == Success(lib.lighten(color, 100.0 * v))
    ensures v < 0.0 ==> ApplyStep(lib, color, Transformation(Lighten, v)) == Success(lib.darken(color, -100.0 * v))
  {
  }

  /** In range, a saturate step calls `saturate` with the fraction in
      percent when it is not negative, and `desaturate` with its magnitude
      otherwise; a desaturate step does the reverse. */
  lemma SaturateInPercent(lib: Library, color: Color, v: real)
    requires -1.0 <= v <= 1.0
    ensures v >= 0.0 ==> ApplyStep(lib, color, Transformation(Saturate, v)) == Success(lib.saturate(color, 100.0 * v))
    ensures v < 0.0 ==> ApplyStep(lib, color, Transformation(Saturate, v)) == Success(lib.desaturate(color, -100.0 * v))
    ensures v >= 0.0 ==> ApplyStep(lib, color, Transformation(Desaturate, v)) == Success(lib.desaturate(color, 100.0 * v))
    ensures v < 0.0 ==> ApplyStep(lib, color, Transformation(Desaturate, v)) == Success(lib.saturate(color, -100.0 * v))
  {
  }

  /** An alpha step adds to the colour's alpha, then rounds and clamps the
      sum into [0, 1]; the colour reads back with that alpha. */
  lemma AlphaStepClamps(lib: Library, color: Color, v: real)
    requires AlphaReadsBack(lib) && -1.0 <= v <= 1.0
    ensures var r := ApplyStep(lib, color, Transformation(AlphaShift, v));
      var sum := lib.toRgb(color).a + v;
      r.Success?
      && lib.toRgb(r.value).a == NormalizeAlpha(Finite(sum))
      && 0.0 <= lib.toRgb(r.value).a <= 1.0
      && (sum >= 1.0 ==> lib.toRgb(r.value).a == 1.0)
      && (sum <= 0.0 ==> lib.toRgb(r.value).a == 0.0)
  {
    var a := NormalizeAlpha(Finite(lib.toRgb(color).a + v));
    assert lib.toRgb(lib.withAlpha(color, a)).a == a;
  }

  // --------------------------------------------------------------- steps

  /** The steps applied in order; the first refused step ends the run with
      its error. */
  function ApplySteps(lib: Library, color: Color, steps: seq<Transformation>): (r: Result<Color, ColorError>)
    decreases |steps|
  {
    if steps == [] then Success(color)
    else
      match ApplyStep(lib, color, steps[0])
      case Failure(e) => Failure(e)
      case Success(next) => ApplySteps(lib, next, steps[1..])
  }

  /** Running two lists of steps one after the other is running their
      concatenation. */
  lemma {:induction false} ApplyStepsAppend(lib: Library, color: Color, s1: seq<Transformation>, s2: seq<Transformation>)
    ensures ApplySteps(lib, color, s1 + s2) ==
      match ApplySteps(lib, color, s1)
      case Failure(e) => Failure(e)
      case Success(mid) => ApplySteps(lib, mid, s2)
    decreases |s1|
  {
    if s1 != [] {
      assert (s1 + s2)[0] == s1[0];
      assert (s1 + s2)[1..] == s1[1..] + s2;
      match ApplyStep(lib, color, s1[0])
      case Failure(_) =>
      case Success(next) => ApplyStepsAppend(lib, next, s1[1..], s2);
    } else {
      assert s1 + s2 == s2;
    }
  }

  /** Whether a list of steps fails does not depend on the colour: it fails
      exactly when one of its steps is refused, and with the error of the
      first such step. */
  lemma {:induction false} ApplyStepsFailsAtFirstRejected(lib: Library, color: Color, steps: seq<Transformation>)
    ensures ApplySteps(lib, color, steps).Failure? <==> exists i :: 0 <= i < |steps| && Rejected(steps[i])
    ensures ApplySteps(lib, color, steps).Failure? ==>
      exists i :: 0 <= i < |steps| && Rejected(steps[i])
        && (forall j :: 0 <= j < i ==> !Rejected(steps[j]))
        && ApplySteps(lib, color, steps).error == RejectionOf(steps[i])
    decreases |steps|
  {
    if steps != [] {
      if Rejected(steps[0]) {
        assert ApplySteps(lib, color, steps).error == RejectionOf(steps[0]);
      } else {
        var next := ApplyStep(lib, color, steps[0]).value;
        var rest := steps[1..];
        ApplyStepsFailsAtFirstRejected(lib, next, rest);
        assert forall i :: 1 <= i < |steps| ==> steps[i] == rest[i - 1];
        if ApplySteps(lib, next, rest).Failure? {
          var k :| 0 <= k < |rest| && Rejected(rest[k])
            && (forall j :: 0 <= j < k ==> !Rejected(rest[j]))
            && ApplySteps(lib, next, rest).error == RejectionOf(rest[k]);
          assert steps[k + 1] == rest[k];
          assert forall j :: 0 <= j < k + 1 ==> !Rejected(steps[j]) by {
            forall j | 0 <= j < k + 1 ensures !Rejected(steps[j]) {
              if j > 0 { assert steps[j] == rest[j - 1]; }
            }
          }
        } else {
          assert forall i :: 0 <= i < |steps| ==> !Rejected(steps[i]) by {
            forall i | 0 <= i < |steps| ensures !Rejected(steps[i]) {
              if i > 0 { assert steps[i] == rest[i - 1]; }
            }
          }
        }
      }
    }
  }

  // --------------------------------------------------------- transformColor

  /** The model `transformColor` returns for the final colour: the original
      space and source, the colour's values in that space, and its alpha
      normalised. */
  function ResultModel(lib: Library, model: ColorModel, color: Color): (m: ColorModel)
    ensures m.space == model.space && m.source == model.source
    ensures m.values == ToValues(lib, model.space, color)
    ensures 0.0 <= m.alpha <= 1.0 && m.alpha == NormalizeAlpha(Finite(lib.toRgb(color).a))
  {
    ColorModel(model.space, ToValues(lib, model.space, color), NormalizeAlpha(Finite(lib.toRgb(color).a)), model.source)
  }

  /** `transformColor`: converts the model, applies the steps one by one
      in a loop, stopping at the first error, and reads the result back. */
  method TransformColor(lib: Library, model: ColorModel, steps: seq<Transformation>) returns (r: Result<ColorModel, ColorError>)
    ensures ModelToColor(lib, model).Failure? ==> r == Failure(ModelToColor(lib, model).error)
    ensures ModelToColor(lib, model).Success? ==>
      match ApplySteps(lib, ModelToColor(lib, model).value, steps)
      case Failure(e) => r == Failure(e)
      case Success(c) => r == Success(ResultModel(lib, model, c))
  {
    var start := ModelToColor(lib, model);
    if start.Failure? {
      return Failure(start.error);
    }
    var color := start.value;
    var i := 0;
    while i < |steps|
      invariant 0 <= i <= |steps|
      invariant ApplySteps(lib, start.value, steps) == ApplySteps(lib, color, steps[i..])
    {
      assert steps[i..][0] == steps[i] && steps[i..][1..] == steps[i + 1..];
      var next := ApplyStep(lib, color, steps[i]);
      if next.Failure? {
        return Failure(next.error);
      }
      color := next.value;
      i := i + 1;
    }
    assert steps[i..] == [];
    return Success(ResultModel(lib, model, color));
  }

  /** A transformed model keeps its space and source, has an alpha in
      [0, 1], and fails only for an unsupported space or a refused step. */
  lemma TransformOutcome(lib: Library, model: ColorModel, steps: seq<Transformation>, c: Color)
    requires ModelToColor(lib, model) == Success(c)
    ensures ApplySteps(lib, c, steps).Success? <==> forall i :: 0 <= i < |steps| ==> !Rejected(steps[i])
    ensures ApplySteps(lib, c, steps).Success? ==>
      var m := ResultModel(lib, model, ApplySteps(lib, c, steps).value);
      m.space == model.space && m.source == model.source && 0.0 <= m.alpha <= 1.0
  {
    ApplyStepsFailsAtFirstRejected(lib, c, steps);
  }
}
