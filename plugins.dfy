/** The plugin registry: an ordered list of plugins with distinct names.
    Each lookup walks it in registration order and returns the first
    plugin's answer that is truthy. */
module Plugins {
  import opened Results
  import opened Types

  // ------------------------------------------------------ what a plugin says

  /** What `plugin.parse` contributes: nothing when the hook is absent. */
  function ParseYield(p: Plugin, input: string): Option<ColorModel> {
    match p.parse
    case None => None
    case Some(parse) => parse(input)
  }

  /** What `plugin.format` contributes: a falsy answer (null or the empty
      string) is no answer. */
  function FormatYield(p: Plugin, model: ColorModel, request: FormatRequest): (r: Option<string>)
    ensures r.Some? ==> r.value != ""
  {
    match p.format
    case None => None
    case Some(format) =>
      match format(model, request)
      case Some(s) => if s != "" then Some(s) else None
      case None => None
  }

  function TransformYield(p: Plugin, model: ColorModel, step: Transformation): Option<ColorModel> {
    match p.transform
    case None => None
    case Some(transform) => transform(model, step)
  }

  function ParseYields(plugins: seq<Plugin>, input: string): (ys: seq<Option<ColorModel>>)
    ensures |ys| == |plugins| && forall i :: 0 <= i < |plugins| ==> ys[i] == ParseYield(plugins[i], input)
  {
    seq(|plugins|, i requires 0 <= i < |plugins| => ParseYield(plugins[i], input))
  }

  function FormatYields(plugins: seq<Plugin>, model: ColorModel, request: FormatRequest): (ys: seq<Option<string>>)
    ensures |ys| == |plugins| && forall i :: 0 <= i < |plugins| ==> ys[i] == FormatYield(plugins[i], model, request)
  {
    seq(|plugins|, i requires 0 <= i < |plugins| => FormatYield(plugins[i], model, request))
  }

  function TransformYields(plugins: seq<Plugin>, model: ColorModel, step: Transformation): (ys: seq<Option<ColorModel>>)
    ensures |ys| == |plugins| && forall i :: 0 <= i < |plugins| ==> ys[i] == TransformYield(plugins[i], model, step)
  {
    seq(|plugins|, i requires 0 <= i < |plugins| => TransformYield(plugins[i], model, step))
  }

  // ------------------------------------------------------- first answer wins

  /** The first answer in a list of answers, `None` when there is none. */
  function FirstSome<T(==)>(ys: seq<Option<T>>): (r: Option<T>)
    ensures r.None? <==> forall i :: 0 <= i < |ys| ==> ys[i].None?
    ensures r.Some? ==> exists i :: 0 <= i < |ys| && ys[i] == r && forall j :: 0 <= j < i ==> ys[j].None?
  {
    if ys == [] then None
    else if ys[0].Some? then ys[0]
    else
      var r := FirstSome(ys[1..]);
      assert r.Some? ==> exists i :: 1 <= i < |ys| && ys[i] == r && forall j :: 0 <= j < i ==> ys[j].None? by {
        if r.Some? {
          var k :| 0 <= k < |ys| - 1 && ys[1..][k] == r && forall j :: 0 <= j < k ==> ys[1..][j].None?;
          assert forall j :: 0 <= j < k + 1 ==> ys[j].None? by {
            forall j | 0 <= j < k + 1 ensures ys[j].None? {
              if j > 0 { assert ys[j] == ys[1..][j - 1]; }
            }
          }
        }
      }
      r
  }

  /** The answer at `i` wins when every earlier one is absent. */
  lemma {:induction false} FirstSomeAt<T>(ys: seq<Option<T>>, i: nat)
    requires i < |ys| && ys[i].Some?
    requires forall j :: 0 <= j < i ==> ys[j].None?
    ensures FirstSome(ys) == ys[i]
  {
    if i > 0 {
      assert forall j :: 0 <= j < i - 1 ==> ys[1..][j].None? by {
        forall j | 0 <= j < i - 1 ensures ys[1..][j].None? { assert ys[1..][j] == ys[j + 1]; }
      }
      FirstSomeAt(ys[1..], i - 1);
    }
  }

  /** `runParsePlugins` over the plugins registered so far. */
  function FirstParse(plugins: seq<Plugin>, input: string): Option<ColorModel> {
    FirstSome(ParseYields(plugins, input))
  }

  /** `runFormatPlugins` over the plugins registered so far. */
  function FirstFormat(plugins: seq<Plugin>, model: ColorModel, request: FormatRequest): Option<string> {
    FirstSome(FormatYields(plugins, model, request))
  }

  /** `runTransformPlugins` over the plugins registered so far. */
  function FirstTransform(plugins: seq<Plugin>, model: ColorModel, step: Transformation): Option<ColorModel> {
    FirstSome(TransformYields(plugins, model, step))
  }

  /** A plugin earlier in the list shadows every later one that answers. */
  lemma FirstParseEarliest(plugins: seq<Plugin>, input: string, i: nat)
    requires i < |plugins| && ParseYield(plugins[i], input).Some?
    requires forall j :: 0 <= j < i ==> ParseYield(plugins[j], input).None?
    ensures FirstParse(plugins, input) == ParseYield(plugins[i], input)
  {
    FirstSomeAt(ParseYields(plugins, input), i);
  }

  /** A format answer, when there is one, is never the empty string. */
  lemma FirstFormatNonEmpty(plugins: seq<Plugin>, model: ColorModel, request: FormatRequest)
    ensures FirstFormat(plugins, model, request).Some? ==> FirstFormat(plugins, model, request).value != ""
  {
    var ys := FormatYields(plugins, model, request);
    if FirstSome(ys).Some? {
      var i :| 0 <= i < |ys| && ys[i] == FirstSome(ys);
      assert ys[i] == FormatYield(plugins[i], model, request);
    }
  }

  /** Registering a plugin that offers no hook changes no lookup. */
  lemma {:induction false} FirstSomeAppendNone<T>(ys: seq<Option<T>>)
    ensures FirstSome(ys + [None]) == FirstSome(ys)
  {
    if ys != [] {
      assert (ys + [None])[1..] == ys[1..] + [None];
      FirstSomeAppendNone(ys[1..]);
    }
  }

  predicate NamesDistinct(plugins: seq<Plugin>) {
    forall i, j :: 0 <= i < j < |plugins| ==> plugins[i].name != plugins[j].name
  }

  predicate NameTaken(plugins: seq<Plugin>, name: string) {
    exists i :: 0 <= i < |plugins| && plugins[i].name == name
  }

  function DuplicateMessage(name: string): string {
    "Plugin with name \"" + name + "\" already registered"
  }

  /** The module-level `registry` array and the functions that use it. */
  class Registry {
    var plugins: seq<Plugin>

    ghost predicate Valid()
      reads this
    {
      NamesDistinct(plugins)
    }

    constructor()
      ensures plugins == [] && Valid()
    {
      plugins := [];
    }

    /** `registerPlugin`: refuses a name already present (the registry is
        left as it was) and otherwise appends the plugin at the end. */
    method Register(p: Plugin) returns (err: Option<string>)
      requires Valid()
      modifies this
      ensures Valid()
      ensures NameTaken(old(plugins), p.name) ==> err == Some(DuplicateMessage(p.name)) && plugins == old(plugins)
      ensures !NameTaken(old(plugins), p.name) ==> err == None && plugins == old(plugins) + [p]
    {
      var i := 0;
      while i < |plugins|
        invariant 0 <= i <= |plugins|
        invariant forall j :: 0 <= j < i ==> plugins[j].name != p.name
      {
        if plugins[i].name == p.name {
          return Some(DuplicateMessage(p.name));
        }
        i := i + 1;
      }
      plugins := plugins + [p];
      err := None;
    }

    /** `runParsePlugins` */
    method RunParse(input: string) returns (r: Option<ColorModel>)
      ensures r == FirstParse(plugins, input)
    {
      ghost var ys := ParseYields(plugins, input);
      var i := 0;
      while i < |plugins|
        invariant 0 <= i <= |plugins|
        invariant forall j :: 0 <= j < i ==> ys[j].None?
      {
        var p := plugins[i];
        if p.parse.Some? {
          var result := p.parse.value(input);
          if result.Some? {
            FirstSomeAt(ys, i);
            return result;
          }
        }
        i := i + 1;
      }
      return None;
    }

    /** `runFormatPlugins` */
    method RunFormat(model: ColorModel, request: FormatRequest) returns (r: Option<string>)
      ensures r == FirstFormat(plugins, model, request)
    {
      ghost var ys := FormatYields(plugins, model, request);
      var i := 0;
      while i < |plugins|
        invariant 0 <= i <= |plugins|
        invariant forall j :: 0 <= j < i ==> ys[j].None?
      {
        var p := plugins[i];
        if p.format.Some? {
          var result := p.format.value(model, request);
          if result.Some? && result.value != "" {
            FirstSomeAt(ys, i);
            return result;
          }
        }
        i := i + 1;
      }
      return None;
    }

    /** `runTransformPlugins` */
    method RunTransform(model: ColorModel, step: Transformation) returns (r: Option<ColorModel>)
      ensures r == FirstTransform(plugins, model, step)
    {
      ghost var ys := TransformYields(plugins, model, step);
      var i := 0;
      while i < |plugins|
        invariant 0 <= i <= |plugins|
        invariant forall j :: 0 <= j < i ==> ys[j].None?
      {
        var p := plugins[i];
        if p.transform.Some? {
          var result := p.transform.value(model, step);
          if result.Some? {
            FirstSomeAt(ys, i);
            return result;
          }
        }
        i := i + 1;
      }
      return None;
    }
  }
}
