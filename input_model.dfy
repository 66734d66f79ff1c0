/** The Vue input-model composable: a text box bound to a colour model. It
    keeps the current and the last valid model, the text being edited, the
    last value it emitted (to recognise the parent echoing it back) and the
    last error it reported (so as not to report it twice in a row).

    This file works on the composable's own model shape, hue, saturation,
    value and alpha. The formatter and parser it calls are parameters, and
    the events it emits are appended to a log. */
module InputModel {
  import opened Results
  import opened Text
  import opened Numbers
  import opened Types

  /** The model as the composable sees it. */
  datatype Hsv = Hsv(h: real, s: real, v: real, a: real, format: FormatTarget, source: string)

  datatype Channel = H | S | V | A

  /** A thrown error object. The core builds a new object for every throw;
      `id` stands for that object's identity, which is what the composable
      compares. */
  datatype Raised = Raised(id: nat, error: ColorError)

  /** What the composable emits, in order. */
  datatype Event =
    | ModelValueUpdate(value: string)
    | ChangeEvent(value: string, formatted: string, model: Option<Hsv>)
    | ErrorEvent(raised: Raised)

  /** The component's properties. */
  datatype Props = Props(
    modelValue: Option<string>, value: Option<string>, defaultValue: Option<string>,
    target: FormatTarget, precision: Option<int>, includeAlpha: Option<bool>)

  /** The core calls the composable makes. */
  datatype Env = Env(
    format: (Hsv, FormatRequest) -> Result<string, ColorError>,
    parse: string -> Result<Hsv, ColorError>)

  /** The composable's refs, and the identity the next thrown error object
      will have. */
  datatype Refs = Refs(
    internalValue: string,
    lastValidModel: Option<Hsv>,
    modelState: Option<Hsv>,
    lastNotifiedError: Option<Raised>,
    inputValue: string,
    lastEmittedValue: Option<string>,
    events: seq<Event>,
    nextErrorId: nat)

  /** What every reachable state satisfies: the current and the last valid
      model are always set together, and the last reported error object
      was thrown before. */
  predicate WellFormed(r: Refs) {
    r.modelState == r.lastValidModel
    && (r.lastNotifiedError.Some? ==> r.lastNotifiedError.value.id < r.nextErrorId)
  }

  // --------------------------------------------------------- computed refs

  predicate Controlled(props: Props) {
    props.modelValue.Some? || props.value.Some?
  }

  /** `currentValue`: `modelValue`, else `value`, else the internal value. */
  function CurrentValue(props: Props, r: Refs): (s: string)
    ensures props.modelValue.Some? ==> s == props.modelValue.value
    ensures props.modelValue.None? && props.value.Some? ==> s == props.value.value
    ensures !Controlled(props) ==> s == r.internalValue
  {
    if props.modelValue.Some? then props.modelValue.value
    else if props.value.Some? then props.value.value
    else r.internalValue
  }

  function Request(props: Props): FormatRequest {
    FormatRequest(props.target, props.precision, props.includeAlpha)
  }

  function OrElse<T>(a: Option<T>, b: Option<T>): (r: Option<T>)
    ensures r.Some? <==> a.Some? || b.Some?
  {
    if a.Some? then a else b
  }

  /** `swatchColor`: the formatted current model, or `transparent` when
      there is none or it cannot be formatted. */
  function Swatch(env: Env, props: Props, r: Refs): (s: string)
    ensures r.modelState.None? ==> s == "transparent"
    ensures r.modelState.Some? && env.format(r.modelState.value, Request(props)).Failure? ==> s == "transparent"
    ensures r.modelState.Some? && env.format(r.modelState.value, Request(props)).Success? ==>
      s == env.format(r.modelState.value, Request(props)).value
  {
    match r.modelState
    case None => "transparent"
    case Some(m) =>
      match env.format(m, Request(props))
      case Success(text) => text
      case Failure(_) => "transparent"
  }

  // ----------------------------------------------------------- pure helpers

  /** `stabilizeModel`: a grey (zero saturation) colour that is not black
      takes its hue from the current model, else the last valid one, else
      keeps its own; nothing else is ever changed. */
  function Stabilize(next: Hsv, state: Option<Hsv>, lastValid: Option<Hsv>): (r: Hsv)
    ensures r.(h := next.h) == next
    ensures next.v == 0.0 || next.s != 0.0 ==> r == next
    ensures next.v != 0.0 && next.s == 0.0 ==> r.h == OrElse(OrElse(state, lastValid), Some(next)).value.h
  {
    var base := if state.Some? then state.value else if lastValid.Some? then lastValid.value else next;
    if next.v == 0.0 then next
    else if next.s == 0.0 then next.(h := base.h)
    else next
  }

  /** Stabilising twice against the same models is stabilising once. */
  lemma StabilizeIdempotent(next: Hsv, state: Option<Hsv>, lastValid: Option<Hsv>)
    ensures Stabilize(Stabilize(next, state, lastValid), state, lastValid) == Stabilize(next, state, lastValid)
  {
  }

  /** Stabilising the current model against itself changes nothing. */
  lemma StabilizeCurrent(m: Hsv, lastValid: Option<Hsv>)
    ensures Stabilize(m, Some(m), lastValid) == m
  {
  }

  /** `getBaseModel`: the current model, else the last valid one, else black
      and opaque in the target notation, with the current text as source. */
  function BaseModel(props: Props, r: Refs): (m: Hsv)
    ensures r.modelState.Some? ==> m == r.modelState.value
    ensures r.modelState.None? && r.lastValidModel.Some? ==> m == r.lastValidModel.value
    ensures r.modelState.None? && r.lastValidModel.None? ==>
      m == Hsv(0.0, 0.0, 0.0, 1.0, props.target, CurrentValue(props, r))
  {
    if r.modelState.Some? then r.modelState.value
    else if r.lastValidModel.Some? then r.lastValidModel.value
    else Hsv(0.0, 0.0, 0.0, 1.0, props.target, CurrentValue(props, r))
  }

  /** `modelForContext`: the same cascade as `getBaseModel`. */
  function ModelForContext(props: Props, r: Refs): (m: Hsv)
    ensures m == BaseModel(props, r)
  {
    if r.modelState.Some? then r.modelState.value
    else if r.lastValidModel.Some? then r.lastValidModel.value
    else BaseModel(props, r)
  }

  /** The base model with one channel replaced: the hue clamped into
      [0, 360], any other channel into [0, 1]. */
  function WithChannel(base: Hsv, channel: Channel, value: real): Hsv {
    var next := if channel == H then Clamp(value, 0.0, 360.0) else Clamp(value, 0.0, 1.0);
    match channel
    case H => base.(h := next)
    case S => base.(s := next)
    case V => base.(v := next)
    case A => base.(a := next)
  }

  function ChannelValue(m: Hsv, channel: Channel): real {
    match channel
    case H => m.h
    case S => m.s
    case V => m.v
    case A => m.a
  }

  /** The named channel lands in its range, and every other channel and
      field of the base model is kept. */
  lemma WithChannelInRange(base: Hsv, channel: Channel, value: real)
    ensures var x := ChannelValue(WithChannel(base, channel, value), channel);
      0.0 <= x && x <= (if channel == H then 360.0 else 1.0)
    ensures ChannelValue(WithChannel(base, channel, value), channel)
      == if channel == H then Clamp(value, 0.0, 360.0) else Clamp(value, 0.0, 1.0)
    ensures forall other :: other != channel ==>
      ChannelValue(WithChannel(base, channel, value), other) == ChannelValue(base, other)
    ensures WithChannel(base, channel, value).format == base.format
    ensures WithChannel(base, channel, value).source == base.source
  {
  }

  // ------------------------------------------------------- state transitions

  /** `notifyError`. */
  function Notify(r: Refs, error: Option<Raised>): Refs {
    if error.None? then r.(lastNotifiedError := None)
    else if r.lastNotifiedError == error then r
    else r.(lastNotifiedError := error, events := r.events + [ErrorEvent(error.value)])
  }

  /** A core call throws: a new error object is made, then reported. */
  function Raise(r: Refs, e: ColorError): Refs {
    Notify(r.(nextErrorId := r.nextErrorId + 1), Some(Raised(r.nextErrorId, e)))
  }

  /** `syncOutput`. */
  function Sync(r: Refs, controlled: bool, formatted: string, model: Option<Hsv>, shouldEmit: bool): Refs {
    var kept := if controlled then r else r.(internalValue := formatted);
    var shown := kept.(inputValue := formatted);
    if !shouldEmit then shown
    else shown.(lastEmittedValue := Some(formatted),
                events := shown.events + [ModelValueUpdate(formatted), ChangeEvent(formatted, formatted, model)])
  }

  /** `applyModel`: the stabilised model is formatted; on success it becomes
      both the current and the last valid model and the text is shown (and
      emitted when asked); a formatting error is reported instead. */
  function Apply(r: Refs, env: Env, props: Props, next: Hsv, shouldEmit: bool): Refs {
    var stabilized := Stabilize(next, r.modelState, r.lastValidModel);
    match env.format(stabilized, Request(props))
    case Failure(e) => Raise(r, e)
    case Success(formatted) =>
      Sync(r.(modelState := Some(stabilized), lastValidModel := Some(stabilized)),
           Controlled(props), formatted, Some(stabilized), shouldEmit)
  }

  /** `setChannel`. */
  function ChannelSet(r: Refs, env: Env, props: Props, channel: Channel, value: real): Refs {
    Apply(r, env, props, WithChannel(BaseModel(props, r), channel, value), true)
  }

  /** `commitInput`: blank text clears both models and emits the empty
      string; other text is parsed and applied, or the parse error is
      reported. */
  function Commit(r: Refs, env: Env, props: Props): Refs {
    var text := Trim(r.inputValue);
    if text == [] then
      Sync(r.(modelState := None, lastValidModel := None), Controlled(props), "", None, true)
    else
      match env.parse(text)
      case Failure(e) => Raise(r, e)
      case Success(m) => Apply(r, env, props, m, true)
  }

  /** The watcher on `formatRequest`: the model, if any, is applied again
      under the new request. */
  function RequestChanged(r: Refs, env: Env, props: Props): Refs {
    match OrElse(r.modelState, r.lastValidModel)
    case None => r
    case Some(m) => Apply(r, env, props, m, true)
  }

  /** The watcher on `currentValue`: an echo of the last emitted value is
      dropped once; an empty value clears both models and the text; any
      other value is parsed and applied without emitting, or the error is
      reported and the text shown as is. */
  function ValueChanged(r: Refs, env: Env, props: Props, next: string): Refs {
    if r.lastEmittedValue == Some(next) then r.(lastEmittedValue := None)
    else if next == [] then r.(modelState := None, lastValidModel := None, inputValue := "")
    else
      match env.parse(next)
      case Failure(e) => Raise(r, e).(inputValue := next)
      case Success(m) => Apply(r, env, props, m, false)
  }

  /** The refs before the immediate first run of the value watcher. */
  function InitialRefs(props: Props): Refs {
    Refs(props.defaultValue.GetOr(""), None, None, None, "", None, [], 0)
  }

  // ------------------------------------------------------------- properties

  /** The same error object is reported once however often it is raised in
      a row; a cleared memory lets it be reported again. */
  lemma NotifyOnce(r: Refs, e: Raised)
    ensures Notify(Notify(r, Some(e)), Some(e)) == Notify(r, Some(e))
    ensures Notify(r, None).events == r.events && Notify(r, None).lastNotifiedError.None?
    ensures r.lastNotifiedError != Some(e) ==>
      Notify(Notify(Notify(r, Some(e)), None), Some(e)).events == r.events + [ErrorEvent(e), ErrorEvent(e)]
  {
  }

  /** In a reachable state every thrown error is a new object, so it is
      always reported, and the state stays reachable. */
  lemma RaiseReports(r: Refs, e: ColorError)
    requires WellFormed(r)
    ensures Raise(r, e).events == r.events + [ErrorEvent(Raised(r.nextErrorId, e))]
    ensures WellFormed(Raise(r, e))
  {
  }

  /** A model that cannot be formatted leaves both models, the text and
      the echo marker as they were. The new error object is reported
      exactly when it is not the last one reported, which in a reachable
      state it never is. */
  lemma ApplyFailureKeepsModels(r: Refs, env: Env, props: Props, next: Hsv, shouldEmit: bool)
    requires env.format(Stabilize(next, r.modelState, r.lastValidModel), Request(props)).Failure?
    ensures var raised := Raised(r.nextErrorId, env.format(Stabilize(next, r.modelState, r.lastValidModel), Request(props)).error);
      var n := Apply(r, env, props, next, shouldEmit);
      n.modelState == r.modelState && n.lastValidModel == r.lastValidModel
      && n.inputValue == r.inputValue && n.internalValue == r.internalValue
      && n.lastEmittedValue == r.lastEmittedValue
      && n.lastNotifiedError == Some(raised) && n.nextErrorId == r.nextErrorId + 1
      && (r.lastNotifiedError != Some(raised) <==> n.events == r.events + [ErrorEvent(raised)])
      && (r.lastNotifiedError == Some(raised) ==> n.events == r.events)
      && (WellFormed(r) ==> n.events == r.events + [ErrorEvent(raised)])
  {
  }

  /** A model that formats becomes the current and the last valid model,
      and its text is shown; it is emitted, as a value update and a change
      carrying the model, exactly when asked. */
  lemma ApplySuccessShowsText(r: Refs, env: Env, props: Props, next: Hsv, shouldEmit: bool)
    requires env.format(Stabilize(next, r.modelState, r.lastValidModel), Request(props)).Success?
    ensures var m := Stabilize(next, r.modelState, r.lastValidModel);
      var text := env.format(m, Request(props)).value;
      var n := Apply(r, env, props, next, shouldEmit);
      n.modelState == Some(m) && n.lastValidModel == Some(m) && n.inputValue == text
      && (shouldEmit ==> n.events == r.events + [ModelValueUpdate(text), ChangeEvent(text, text, Some(m))]
                         && n.lastEmittedValue == Some(text))
      && (!shouldEmit ==> n.events == r.events && n.lastEmittedValue == r.lastEmittedValue)
      && CurrentValue(props, n) == (if Controlled(props) then CurrentValue(props, r) else text)
  {
  }

  /** Setting a channel applies the base model with only that channel
      replaced and clamped. */
  lemma ChannelSetFromBase(r: Refs, env: Env, props: Props, channel: Channel, value: real)
    requires r.modelState.None? && r.lastValidModel.None?
    ensures ChannelSet(r, env, props, channel, value)
      == Apply(r, env, props, WithChannel(Hsv(0.0, 0.0, 0.0, 1.0, props.target, CurrentValue(props, r)), channel, value), true)
  {
  }

  /** Committing blank text clears both models and the text and emits the
      empty string with no model. */
  lemma CommitBlankClears(r: Refs, env: Env, props: Props)
    requires Trim(r.inputValue) == []
    ensures var n := Commit(r, env, props);
      n.modelState.None? && n.lastValidModel.None? && n.inputValue == ""
      && n.lastEmittedValue == Some("")
      && n.events == r.events + [ModelValueUpdate(""), ChangeEvent("", "", None)]
  {
  }

  /** The value watcher drops an echo of the last emitted value once, and
      on any path it never emits a value update or a change. */
  lemma ValueWatcherNeverEmitsChange(r: Refs, env: Env, props: Props, next: string)
    ensures r.lastEmittedValue == Some(next) ==> ValueChanged(r, env, props, next) == r.(lastEmittedValue := None)
    ensures var n := ValueChanged(r, env, props, next);
      |r.events| <= |n.events| && n.events[..|r.events|] == r.events
      && forall i :: |r.events| <= i < |n.events| ==> n.events[i].ErrorEvent?
  {
    var n := ValueChanged(r, env, props, next);
    if r.lastEmittedValue != Some(next) && next != [] && env.parse(next).Success? {
      var m := env.parse(next).value;
      var st := Stabilize(m, r.modelState, r.lastValidModel);
      if env.format(st, Request(props)).Success? {
        assert n.events == r.events;
      }
    }
  }

  /** What an uncontrolled component emits comes back to it through its
      own value as an echo, which the value watcher drops. */
  lemma EmittedValueEchoIgnored(r: Refs, env: Env, props: Props, next: Hsv)
    requires !Controlled(props)
    requires env.format(Stabilize(next, r.modelState, r.lastValidModel), Request(props)).Success?
    ensures var n := Apply(r, env, props, next, true);
      ValueChanged(n, env, props, CurrentValue(props, n)) == n.(lastEmittedValue := None)
  {
    ApplySuccessShowsText(r, env, props, next, true);
  }

  /** A new format request re-formats the model but never changes it. */
  lemma RequestChangeKeepsModel(r: Refs, env: Env, props: Props)
    requires r.modelState.Some? || r.lastValidModel.None?
    ensures RequestChanged(r, env, props).modelState == r.modelState
  {
    if r.modelState.Some? {
      StabilizeCurrent(r.modelState.value, r.lastValidModel);
    }
  }

  /** Applying a model keeps a reachable state reachable. */
  lemma ApplyKeepsWellFormed(r: Refs, env: Env, props: Props, next: Hsv, shouldEmit: bool)
    requires WellFormed(r)
    ensures WellFormed(Apply(r, env, props, next, shouldEmit))
  {
    var stabilized := Stabilize(next, r.modelState, r.lastValidModel);
    match env.format(stabilized, Request(props))
    case Failure(e) => RaiseReports(r, e);
    case Success(_) =>
  }

  /** Committing the text keeps a reachable state reachable. */
  lemma CommitKeepsWellFormed(r: Refs, env: Env, props: Props)
    requires WellFormed(r)
    ensures WellFormed(Commit(r, env, props))
  {
    var trimmed := Trim(r.inputValue);
    if trimmed != [] {
      match env.parse(trimmed)
      case Failure(e) => RaiseReports(r, e);
      case Success(m) => ApplyKeepsWellFormed(r, env, props, m, true);
    }
  }

  /** A new value from the parent keeps a reachable state reachable. */
  lemma ValueChangedKeepsWellFormed(r: Refs, env: Env, props: Props, text: string)
    requires WellFormed(r)
    ensures WellFormed(ValueChanged(r, env, props, text))
  {
    if r.lastEmittedValue != Some(text) && text != [] {
      match env.parse(text)
      case Failure(e) => RaiseReports(r, e);
      case Success(m) => ApplyKeepsWellFormed(r, env, props, m, false);
    }
  }

  /** Every handler and watcher keeps a reachable state reachable. */
  lemma TransitionsKeepWellFormed(r: Refs, env: Env, props: Props, channel: Channel, value: real, text: string)
    requires WellFormed(r)
    ensures WellFormed(ChannelSet(r, env, props, channel, value))
    ensures WellFormed(Commit(r, env, props))
    ensures WellFormed(RequestChanged(r, env, props))
    ensures WellFormed(ValueChanged(r, env, props, text))
    ensures WellFormed(r.(inputValue := text))
  {
    ApplyKeepsWellFormed(r, env, props, WithChannel(BaseModel(props, r), channel, value), true);
    CommitKeepsWellFormed(r, env, props);
    ValueChangedKeepsWellFormed(r, env, props, text);
    if r.modelState.Some? {
      ApplyKeepsWellFormed(r, env, props, r.modelState.value, true);
    }
  }

  /** Text that does not parse is reported on every commit: committing it
      twice reports two distinct error objects. */
  lemma FailingCommitReportedEachTime(r: Refs, env: Env, props: Props)
    requires WellFormed(r)
    requires Trim(r.inputValue) != [] && env.parse(Trim(r.inputValue)).Failure?
    ensures var e := env.parse(Trim(r.inputValue)).error;
      Commit(Commit(r, env, props), env, props).events
        == r.events + [ErrorEvent(Raised(r.nextErrorId, e)), ErrorEvent(Raised(r.nextErrorId + 1, e))]
  {
    var text := Trim(r.inputValue);
    var e := env.parse(text).error;
    RaiseReports(r, e);
    var n := Raise(r, e);
    assert Commit(r, env, props) == n;
    assert n.inputValue == r.inputValue;
    RaiseReports(n, e);
    assert Commit(n, env, props) == Raise(n, e);
  }

  // ------------------------------------------------------------- the class

  /** `useInputModel`: the refs as fields; each handler and watcher is a
      method that moves them as the transition above says. */
  class InputModel {
    var props: Props
    const env: Env

    var internalValue: string
    var lastValidModel: Option<Hsv>
    var modelState: Option<Hsv>
    var lastNotifiedError: Option<Raised>
    var inputValue: string
    var lastEmittedValue: Option<string>
    var events: seq<Event>
    var nextErrorId: nat

    function State(): Refs
      reads this
    {
      Refs(internalValue, lastValidModel, modelState, lastNotifiedError, inputValue, lastEmittedValue, events,
           nextErrorId)
    }

    predicate Valid()
      reads this
    {
      WellFormed(State())
    }

    /** Sets up the refs and runs the value watcher at once. */
    constructor(props: Props, env: Env)
      ensures Valid()
      ensures this.props == props && this.env == env
      ensures State() == ValueChanged(InitialRefs(props), env, props, CurrentValue(props, InitialRefs(props)))
    {
      this.props := props;
      this.env := env;
      internalValue := props.defaultValue.GetOr("");
      lastValidModel := None;
      modelState := None;
      lastNotifiedError := None;
      inputValue := "";
      lastEmittedValue := None;
      events := [];
      nextErrorId := 0;
      new;
      OnValueChange(CurrentValue(props, State()));
    }

    /** The parent passes new properties; the watchers run separately. */
    method SetProps(p: Props)
      requires Valid()
      modifies this
      ensures Valid()
      ensures props == p && State() == old(State())
    {
      props := p;
    }

    /** A core call throws `e`: a new error object is made. */
    method Throw(e: ColorError) returns (raised: Raised)
      requires Valid()
      modifies this
      ensures raised == Raised(old(nextErrorId), e) && raised.id < nextErrorId
      ensures props == old(props) && State() == old(State()).(nextErrorId := old(nextErrorId) + 1)
      ensures Valid()
    {
      raised := Raised(nextErrorId, e);
      nextErrorId := nextErrorId + 1;
    }

    /** `notifyError`, given an error object already thrown, or null. */
    method NotifyError(error: Option<Raised>)
      requires Valid() && (error.Some? ==> error.value.id < nextErrorId)
      modifies this
      ensures Valid()
      ensures props == old(props) && State() == Notify(old(State()), error)
    {
      if error.None? {
        lastNotifiedError := None;
        return;
      }
      if lastNotifiedError == error {
        return;
      }
      lastNotifiedError := error;
      events := events + [ErrorEvent(error.value)];
    }

    method SyncOutput(formatted: string, model: Option<Hsv>, shouldEmit: bool)
      requires Valid()
      modifies this
      ensures Valid()
      ensures props == old(props)
      ensures State() == Sync(old(State()), Controlled(props), formatted, model, shouldEmit)
    {
      if !Controlled(props) {
        internalValue := formatted;
      }
      inputValue := formatted;
      if !shouldEmit {
        return;
      }
      lastEmittedValue := Some(formatted);
      events := events + [ModelValueUpdate(formatted), ChangeEvent(formatted, formatted, model)];
    }

    method ApplyModel(next: Hsv, shouldEmit: bool)
      requires Valid()
      modifies this
      ensures Valid()
      ensures props == old(props) && State() == Apply(old(State()), env, props, next, shouldEmit)
    {
      var stabilized := Stabilize(next, modelState, lastValidModel);
      var formatted := env.format(stabilized, Request(props));
      if formatted.Failure? {
        var raised := Throw(formatted.error);
        NotifyError(Some(raised));
        return;
      }
      modelState := Some(stabilized);
      lastValidModel := Some(stabilized);
      SyncOutput(formatted.value, Some(stabilized), shouldEmit);
    }

    /** `setModel` */
    method SetModel(next: Hsv)
      requires Valid()
      modifies this
      ensures Valid()
      ensures props == old(props) && State() == Apply(old(State()), env, props, next, true)
    {
      ApplyModel(next, true);
    }

    /** `setChannel` */
    method SetChannel(channel: Channel, value: real)
      requires Valid()
      modifies this
      ensures Valid()
      ensures props == old(props) && State() == ChannelSet(old(State()), env, props, channel, value)
    {
      var base := BaseModel(props, State());
      var nextValue := if channel == H then Clamp(value, 0.0, 360.0) else Clamp(value, 0.0, 1.0);
      var nextModel := match channel
        case H => base.(h := nextValue)
        case S => base.(s := nextValue)
        case V => base.(v := nextValue)
        case A => base.(a := nextValue);
      ApplyModel(nextModel, true);
    }

    /** `handleInput`: the text box's new content. */
    method HandleInput(text: string)
      requires Valid()
      modifies this
      ensures Valid()
      ensures props == old(props) && State() == old(State()).(inputValue := text)
    {
      inputValue := text;
    }

    /** `commitInput` */
    method CommitInput()
      requires Valid()
      modifies this
      ensures Valid()
      ensures props == old(props) && State() == Commit(old(State()), env, props)
    {
      var nextValue := Trim(inputValue);
      if nextValue == [] {
        modelState := None;
        lastValidModel := None;
        SyncOutput("", None, true);
        return;
      }
      var model := env.parse(nextValue);
      if model.Failure? {
        var raised := Throw(model.error);
        NotifyError(Some(raised));
        return;
      }
      ApplyModel(model.value, true);
    }

    /** `handleInputKeydown`: Enter commits the text, any other key does
        nothing. */
    method HandleInputKeydown(key: string)
      requires Valid()
      modifies this
      ensures Valid()
      ensures props == old(props)
      ensures State() == if key == "Enter" then Commit(old(State()), env, props) else old(State())
    {
      if key == "Enter" {
        CommitInput();
      }
    }

    /** The watcher on `formatRequest`: the current model stays as it was. */
    method OnRequestChange()
      requires Valid()
      modifies this
      ensures Valid()
      ensures props == old(props) && State() == RequestChanged(old(State()), env, props)
      ensures modelState == old(modelState)
    {
      RequestChangeKeepsModel(State(), env, props);
      var model := OrElse(modelState, lastValidModel);
      if model.None? {
        return;
      }
      ApplyModel(model.value, true);
    }

    /** The watcher on `currentValue`, given its new value. */
    method OnValueChange(next: string)
      requires Valid()
      modifies this
      ensures Valid()
      ensures props == old(props)
      ensures State() == ValueChanged(old(State()), env, props, next)
    {
      if lastEmittedValue == Some(next) {
        lastEmittedValue := None;
        return;
      }
      if next == [] {
        modelState := None;
        lastValidModel := None;
        inputValue := "";
        return;
      }
      var model := env.parse(next);
      if model.Failure? {
        var raised := Throw(model.error);
        NotifyError(Some(raised));
        inputValue := next;
        return;
      }
      ApplyModel(model.value, false);
    }
  }
}
