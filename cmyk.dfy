/** The CMYK codec: RGB to CMYK fractions, CMYK percentages to RGB, and the
    rewriting of a `cmyk(c, m, y, k)` text into `rgb(r, g, b)` text. */
module Cmyk {
  import opened Results
  import opened Text
  import opened Numbers
  import opened Types

  // --------------------------------------------------------- rgb to cmyk

  /** `Number.parseInt(String(x), 10)` for a number written without an
      exponent: the integer part, truncated toward zero. */
  function Trunc(x: real): (n: int)
    ensures x >= 0.0 ==> 0 <= n && n as real <= x < n as real + 1.0
    ensures x < 0.0 ==> n <= 0 && n as real - 1.0 < x <= n as real
  {
    if x >= 0.0 then x.Floor else -((-x).Floor)
  }

  function Max3(r: int, g: int, b: int): int {
    if r >= g && r >= b then r else if g >= b then g else b
  }

  /** The inputs on which `rgbToCmyk` does not divide zero by zero: black,
      or a largest channel other than 0. */
  predicate Divisible(r: int, g: int, b: int) {
    (r == 0 && g == 0 && b == 0) || Max3(r, g, b) != 0
  }

  /** The CMYK fractions of an RGB colour in closed form: black is
      (0, 0, 0, 1); otherwise, with `M` the largest channel, each of C, M, Y
      is its channel's shortfall from `M` relative to `M`, and K is
      `1 - M / 255`. */
  function CmykOf(r: int, g: int, b: int): (real, real, real, real)
    requires Divisible(r, g, b)
  {
    if r == 0 && g == 0 && b == 0 then (0.0, 0.0, 0.0, 1.0)
    else
      var top := Max3(r, g, b) as real;
      ((top - r as real) / top, (top - g as real) / top, (top - b as real) / top, 1.0 - top / 255.0)
  }

  /** `rgbToCmyk`, step by step as the source computes it. */
  method RgbToCmyk(red: real, green: real, blue: real) returns (c: real, m: real, y: real, k: real)
    requires Divisible(Trunc(red), Trunc(green), Trunc(blue))
    ensures (c, m, y, k) == CmykOf(Trunc(red), Trunc(green), Trunc(blue))
  {
    c, m, y, k := 0.0, 0.0, 0.0, 0.0;
    var r, g, b := Trunc(red), Trunc(green), Trunc(blue);
    if r == 0 && g == 0 && b == 0 {
      k := 1.0;
      return 0.0, 0.0, 0.0, 1.0;
    }
    c := 1.0 - r as real / 255.0;
    m := 1.0 - g as real / 255.0;
    y := 1.0 - b as real / 255.0;
    var minCmy := Min(c, Min(m, y));
    var top := Max3(r, g, b) as real;
    assert minCmy == 1.0 - top / 255.0;
    RelativeShortfall(r as real, top);
    RelativeShortfall(g as real, top);
    RelativeShortfall(b as real, top);
    c := (c - minCmy) / (1.0 - minCmy);
    m := (m - minCmy) / (1.0 - minCmy);
    y := (y - minCmy) / (1.0 - minCmy);
    k := minCmy;
  }

  /** The division the source performs equals the closed form's. */
  lemma RelativeShortfall(x: real, top: real)
    requires top != 0.0
    ensures ((1.0 - x / 255.0) - (1.0 - top / 255.0)) / (1.0 - (1.0 - top / 255.0)) == (top - x) / top
  {
    var q := (top - x) / top;
    assert (top - x) / 255.0 == q * (top / 255.0);
  }

  lemma UnitQuotient(a: real, d: real)
    requires 0.0 <= a <= d && d > 0.0
    ensures 0.0 <= a / d <= 1.0
  {
    var q := a / d;
    assert q * d == a;
  }

  /** For channels in 0..255 every output lies in [0, 1], K is
      `1 - max / 255`, the largest channel's own component is 0, and black
      is no ink and full K. */
  lemma CmykOfRange(r: int, g: int, b: int)
    requires 0 <= r <= 255 && 0 <= g <= 255 && 0 <= b <= 255
    ensures Divisible(r, g, b)
    ensures var (c, m, y, k) := CmykOf(r, g, b);
      0.0 <= c <= 1.0 && 0.0 <= m <= 1.0 && 0.0 <= y <= 1.0 && 0.0 <= k <= 1.0
      && (c == 0.0 || m == 0.0 || y == 0.0)
    ensures !(r == 0 && g == 0 && b == 0) ==> CmykOf(r, g, b).3 == 1.0 - Max3(r, g, b) as real / 255.0
    ensures r == 0 && g == 0 && b == 0 ==> CmykOf(r, g, b) == (0.0, 0.0, 0.0, 1.0)
  {
    if !(r == 0 && g == 0 && b == 0) {
      var top := Max3(r, g, b) as real;
      UnitQuotient(top - r as real, top);
      UnitQuotient(top - g as real, top);
      UnitQuotient(top - b as real, top);
    }
  }

  // --------------------------------------------------------- cmyk to rgb

  /** One RGB channel from a CMYK component and K, both in percent, in
      closed form: `round(255 · (1 - x/100) · (1 - k/100))`. */
  function CmykChannel(x: real, k: real): int {
    MathRound(255.0 * ((1.0 - x / 100.0) * (1.0 - k / 100.0)))
  }

  /** `cmykToRgb`, step by step as the source computes it. */
  method CmykToRgb(cyan: real, magenta: real, yellow: real, black: real) returns (r: int, g: int, b: int)
    ensures r == CmykChannel(cyan, black) && g == CmykChannel(magenta, black) && b == CmykChannel(yellow, black)
  {
    var c := cyan / 100.0;
    var m := magenta / 100.0;
    var y := yellow / 100.0;
    var k := black / 100.0;
    Factor(c, k);
    Factor(m, k);
    Factor(y, k);
    c := c * (1.0 - k) + k;
    m := m * (1.0 - k) + k;
    y := y * (1.0 - k) + k;
    var rr := 1.0 - c;
    var gg := 1.0 - m;
    var bb := 1.0 - y;
    r := MathRound(255.0 * rr);
    g := MathRound(255.0 * gg);
    b := MathRound(255.0 * bb);
  }

  lemma Factor(c: real, k: real)
    ensures 1.0 - (c * (1.0 - k) + k) == (1.0 - c) * (1.0 - k)
  {
  }

  lemma ProductNonNegative(a: real, b: real)
    requires 0.0 <= a && 0.0 <= b
    ensures 0.0 <= a * b
  {
  }

  lemma ProductAtMost(a: real, b: real)
    requires a <= 1.0 && 0.0 <= b
    ensures a * b <= b
  {
  }

  lemma Cancel(a: real, t: real)
    requires t > 0.0 && a * t == 0.0
    ensures a == 0.0
  {
  }

  lemma UnitProduct(a: real, b: real)
    requires 0.0 <= a <= 1.0 && 0.0 <= b <= 1.0
    ensures 0.0 <= a * b <= 1.0
  {
    ProductNonNegative(a, b);
    ProductAtMost(a, b);
  }

  /** Components in 0..100 give channels in 0..255; full black gives 0 and
      no ink at all gives 255. */
  lemma CmykChannelRange(x: real, k: real)
    requires 0.0 <= x <= 100.0 && 0.0 <= k <= 100.0
    ensures 0 <= CmykChannel(x, k) <= 255
    ensures k == 100.0 ==> CmykChannel(x, k) == 0
    ensures x == 0.0 && k == 0.0 ==> CmykChannel(x, k) == 255
  {
    var u, v := 1.0 - x / 100.0, 1.0 - k / 100.0;
    UnitProduct(u, v);
    assert 0.0 <= 255.0 * (u * v) <= 255.0;
    if k == 100.0 {
      assert v == 0.0;
      assert u * v == 0.0;
    }
    if x == 0.0 && k == 0.0 {
      assert u * v == 1.0;
    }
  }

  /** Converting to CMYK and back, in percent, gives every channel back. */
  lemma RgbCmykRoundTrip(r: int, g: int, b: int)
    requires 0 <= r <= 255 && 0 <= g <= 255 && 0 <= b <= 255
    ensures Divisible(r, g, b)
    ensures var (c, m, y, k) := CmykOf(r, g, b);
      CmykChannel(100.0 * c, 100.0 * k) == r
      && CmykChannel(100.0 * m, 100.0 * k) == g
      && CmykChannel(100.0 * y, 100.0 * k) == b
  {
    if !(r == 0 && g == 0 && b == 0) {
      var top := Max3(r, g, b) as real;
      ChannelBack(r as real, top);
      ChannelBack(g as real, top);
      ChannelBack(b as real, top);
    }
  }

  lemma ChannelBack(x: real, top: real)
    requires top > 0.0
    ensures CmykChannel(100.0 * ((top - x) / top), 100.0 * (1.0 - top / 255.0)) == MathRound(x)
  {
    var q := (top - x) / top;
    var u := x / top;
    assert q * top == top - x;
    assert u * top == x;
    assert (1.0 - q - u) * top == 0.0;
    Cancel(1.0 - q - u, top);
    assert 1.0 - 100.0 * q / 100.0 == u;
    assert 1.0 - 100.0 * (1.0 - top / 255.0) / 100.0 == top / 255.0;
    assert u * (top / 255.0) == x / 255.0;
  }

  // --------------------------------------------------- cmyk(...) rewriting

  /** The four texts captured by `cmyk\((\d+%?),(\d+%?),(\d+%?),(\d+%?)\)`. */
  datatype Captures = Captures(c: string, m: string, y: string, k: string)

  /** Every capture starts with a digit, as `\d+` guarantees. */
  predicate LeadingDigits(caps: Captures) {
    caps.c != [] && IsDigit(caps.c[0]) && caps.m != [] && IsDigit(caps.m[0])
    && caps.y != [] && IsDigit(caps.y[0]) && caps.k != [] && IsDigit(caps.k[0])
  }

  /** `\d+%?` at the start of `t`, followed by `delim`: the capture and the
      text after the delimiter. Digits are taken greedily; backing off cannot
      help, since a digit is neither `%` nor a delimiter. */
  function Component(t: string, delim: char): (r: Option<(string, string)>)
    ensures r.Some? ==> |r.value.1| < |t| && r.value.0 != [] && IsDigit(r.value.0[0])
  {
    var n := DigitRun(t);
    if n == 0 then None
    else
      var j := if n < |t| && t[n] == '%' then n + 1 else n;
      if j < |t| && t[j] == delim then
        assert t[..j][0] == t[0];
        Some((t[..j], t[j + 1..]))
      else None
  }

  /** The regular expression tried at the start of `t` (case-insensitively). */
  function MatchPrefix(t: string): (r: Option<Captures>)
    ensures r.Some? ==> LeadingDigits(r.value)
  {
    if !StartsWithCI(t, "cmyk(") then None
    else
      match Component(t[5..], ',')
      case None => None
      case Some((c, t1)) =>
        match Component(t1, ',')
        case None => None
        case Some((m, t2)) =>
          match Component(t2, ',')
          case None => None
          case Some((y, t3)) =>
            match Component(t3, ')')
            case None => None
            case Some((k, _)) => Some(Captures(c, m, y, k))
  }

  /** `str.match(REG_CMYK_STRING)`: the leftmost match at or after `i`. */
  function FirstMatch(s: string, i: nat): (r: Option<Captures>)
    requires i <= |s|
    ensures r.Some? ==> LeadingDigits(r.value)
    decreases |s| - i
  {
    match MatchPrefix(s[i..])
    case Some(caps) => Some(caps)
    case None => if i < |s| then FirstMatch(s, i + 1) else None
  }

  /** `Math.max(0, Math.min(limit, Number.parseInt(value, 10)))` for a
      captured `\d+%?`. */
  function ClampedValue(value: string, limit: nat): (n: int)
    requires value != [] && IsDigit(value[0])
    ensures 0 <= n <= limit
    ensures n == if DigitsValue(value[..DigitRun(value)]) > limit then limit else DigitsValue(value[..DigitRun(value)])
  {
    var d := DigitsValue(value[..DigitRun(value)]);
    if d > limit then limit else d
  }

  /** `toNumber`: the source's clamp, to [0, 255]. */
  function ToNumber(value: string): int
    requires value != [] && IsDigit(value[0])
  {
    ClampedValue(value, 255)
  }

  /** The rewriting with captured components clamped to `[0, limit]`. */
  function Rewrite(input: string, limit: nat): (out: string)
    ensures !ContainsCI(input, "cmyk") ==> out == input
    ensures FirstMatch(StripSpaces(input), 0).None? ==> out == input
    ensures ContainsCI(input, "cmyk") && FirstMatch(StripSpaces(input), 0).Some? ==>
      var caps := FirstMatch(StripSpaces(input), 0).value;
      var k := ClampedValue(caps.k, limit) as real;
      out == RgbText(CmykChannel(ClampedValue(caps.c, limit) as real, k),
                     CmykChannel(ClampedValue(caps.m, limit) as real, k),
                     CmykChannel(ClampedValue(caps.y, limit) as real, k))
  {
    if !ContainsCI(input, "cmyk") then input
    else
      match FirstMatch(StripSpaces(input), 0)
      case None => input
      case Some(caps) =>
        var k := ClampedValue(caps.k, limit) as real;
        RgbText(CmykChannel(ClampedValue(caps.c, limit) as real, k),
                CmykChannel(ClampedValue(caps.m, limit) as real, k),
                CmykChannel(ClampedValue(caps.y, limit) as real, k))
  }

  /** `cmykInputToColor` as written: components clamped to [0, 255] although
      they are percentages. */
  function CmykInputToColor(input: string): string {
    Rewrite(input, 255)
  }

  /** `cmykInputToColor` with components clamped to [0, 100], as
      percentages must be: every rewritten channel lies in 0..255. */
  function CmykInputToColorClamped(input: string): (out: string)
    ensures !ContainsCI(input, "cmyk") || FirstMatch(StripSpaces(input), 0).None? ==> out == input
    ensures ContainsCI(input, "cmyk") && FirstMatch(StripSpaces(input), 0).Some? ==>
      exists r, g, b :: 0 <= r <= 255 && 0 <= g <= 255 && 0 <= b <= 255 && out == RgbText(r, g, b)
  {
    var out := Rewrite(input, 100);
    if ContainsCI(input, "cmyk") && FirstMatch(StripSpaces(input), 0).Some? then
      var caps := FirstMatch(StripSpaces(input), 0).value;
      var k := ClampedValue(caps.k, 100) as real;
      CmykChannelRange(ClampedValue(caps.c, 100) as real, k);
      CmykChannelRange(ClampedValue(caps.m, 100) as real, k);
      CmykChannelRange(ClampedValue(caps.y, 100) as real, k);
      out
    else out
  }
  // ------------------------------------------------ the printed cmyk(...) text

  /** `cmyk(c,m,y,k)` written with whole numbers. */
  function CmykDisplay(c: nat, m: nat, y: nat, k: nat): string {
    "cmyk(" + (NatToString(c) + ("," + (NatToString(m) + ("," + (NatToString(y) + ("," + (NatToString(k) + ")")))))))
  }

  lemma ComponentOfDigits(d: string, delim: char, rest: string)
    requires d != [] && AllDigits(d) && !IsDigit(delim) && delim != '%'
    ensures Component(d + ([delim] + rest), delim) == Some((d, rest))
  {
    var t := d + ([delim] + rest);
    DigitRunPrefix(d, t);
    assert t[..|d|] == d;
    assert t[|d| + 1..] == rest;
  }

  lemma OpensCmyk(t: string)
    ensures StartsWithCI("cmyk(" + t, "cmyk(") && ("cmyk(" + t)[5..] == t
  {
    var s := "cmyk(" + t;
    assert s[0] == 'c' && s[1] == 'm' && s[2] == 'y' && s[3] == 'k' && s[4] == '(';
  }

  /** The matcher accepts "cmyk(" followed by four components. */
  lemma MatchOfComponents(t1: string, t2: string, t3: string, t4: string, rest: string, caps: Captures)
    requires Component(t1, ',') == Some((caps.c, t2))
    requires Component(t2, ',') == Some((caps.m, t3))
    requires Component(t3, ',') == Some((caps.y, t4))
    requires Component(t4, ')') == Some((caps.k, rest))
    ensures FirstMatch("cmyk(" + t1, 0) == Some(caps)
  {
    OpensCmyk(t1);
    assert ("cmyk(" + t1)[0..] == "cmyk(" + t1;
  }

  /** A printed `cmyk(c,m,y,k)` is matched where it starts, and the four
      captures are the four numbers' digits. */
  lemma CmykDisplayMatches(c: nat, m: nat, y: nat, k: nat)
    ensures FirstMatch(CmykDisplay(c, m, y, k), 0)
      == Some(Captures(NatToString(c), NatToString(m), NatToString(y), NatToString(k)))
  {
    var dc, dm, dy, dk := NatToString(c), NatToString(m), NatToString(y), NatToString(k);
    var t4 := dk + ")";
    var t3 := dy + ("," + t4);
    var t2 := dm + ("," + t3);
    var t1 := dc + ("," + t2);
    ComponentOfDigits(dc, ',', t2);
    ComponentOfDigits(dm, ',', t3);
    ComponentOfDigits(dy, ',', t4);
    assert [')'] + [] == ")";
    ComponentOfDigits(dk, ')', []);
    MatchOfComponents(t1, t2, t3, t4, [], Captures(dc, dm, dy, dk));
  }
  /** A captured run of digits reads back as its number, clamped. */
  lemma ClampedValueOfDigits(n: nat, limit: nat)
    ensures ClampedValue(NatToString(n), limit) == if n > limit then limit else n
  {
    var d := NatToString(n);
    DigitRunAll(d);
    assert d[..|d|] == d;
    DigitsValueOfNatToString(n);
  }

  lemma DisplayUnspaced(c: nat, m: nat, y: nat, k: nat)
    ensures Unspaced(CmykDisplay(c, m, y, k))
  {
    var dc, dm, dy, dk := NatToString(c), NatToString(m), NatToString(y), NatToString(k);
    var t4 := dk + ")";
    UnspacedAppend(dk, ")");
    UnspacedAppend(",", t4);
    var t3 := dy + ("," + t4);
    UnspacedAppend(dy, "," + t4);
    UnspacedAppend(",", t3);
    var t2 := dm + ("," + t3);
    UnspacedAppend(dm, "," + t3);
    UnspacedAppend(",", t2);
    var t1 := dc + ("," + t2);
    UnspacedAppend(dc, "," + t2);
    UnspacedAppend("cmyk(", t1);
  }

  /** The rewriting of a printed `cmyk(c,m,y,k)`: each number clamped to
      `[0, limit]` and converted as a percentage. */
  lemma RewriteDisplay(c: nat, m: nat, y: nat, k: nat, limit: nat)
    ensures var kk := (if k > limit then limit else k) as real;
      Rewrite(CmykDisplay(c, m, y, k), limit)
        == RgbText(CmykChannel((if c > limit then limit else c) as real, kk),
                   CmykChannel((if m > limit then limit else m) as real, kk),
                   CmykChannel((if y > limit then limit else y) as real, kk))
  {
    var s := CmykDisplay(c, m, y, k);
    DisplayUnspaced(c, m, y, k);
    StripSpacesUnspaced(s);
    CmykDisplayMatches(c, m, y, k);
    OpensCmyk(s[5..]);
    assert s[0..] == s && StartsWithCI(s[0..], "cmyk");
    ClampedValueOfDigits(c, limit);
    ClampedValueOfDigits(m, limit);
    ClampedValueOfDigits(y, limit);
    ClampedValueOfDigits(k, limit);
  }

  /** As written, a K past 100 percent (up to the 255 the clamp lets
      through) turns an ink-free `cmyk(0,0,0,k)` into negative channels;
      `cmyk(0,0,0,200)` gives `rgb(-255, -255, -255)`. */
  lemma CmykOverflowAsWritten(k: nat)
    requires 100 < k <= 255
    ensures var n := CmykChannel(0.0, k as real);
      n < 0 && CmykInputToColor(CmykDisplay(0, 0, 0, k)) == RgbText(n, n, n)
    ensures k == 200 ==> CmykChannel(0.0, k as real) == -255
  {
    var n := CmykChannel(0.0, k as real);
    assert CmykChannel((if 0 > 255 then 255 else 0) as real, (if k > 255 then 255 else k) as real) == n;
    RewriteDisplay(0, 0, 0, k, 255);
    InkFreeOverflow(k as real);
  }

  lemma InkFreeOverflow(k: real)
    requires 101.0 <= k
    ensures CmykChannel(0.0, k) < 0
    ensures k == 200.0 ==> CmykChannel(0.0, k) == -255
  {
    assert 255.0 * ((1.0 - 0.0 / 100.0) * (1.0 - k / 100.0)) == 255.0 - 255.0 * k / 100.0;
  }

  /** Clamped to percentages, a K past 100 gives black whatever the other
      components, and a printed `cmyk(c,m,y,k)` with components up to 100
      converts exactly as `cmykToRgb` does. */
  lemma CmykClampedDisplay(c: nat, m: nat, y: nat, k: nat)
    ensures k > 100 ==> CmykInputToColorClamped(CmykDisplay(c, m, y, k)) == RgbText(0, 0, 0)
    ensures c <= 100 && m <= 100 && y <= 100 && k <= 100 ==>
      CmykInputToColorClamped(CmykDisplay(c, m, y, k))
        == RgbText(CmykChannel(c as real, k as real), CmykChannel(m as real, k as real), CmykChannel(y as real, k as real))
  {
    RewriteDisplay(c, m, y, k, 100);
    if k > 100 {
      CmykChannelRange((if c > 100 then 100 else c) as real, 100.0);
      CmykChannelRange((if m > 100 then 100 else m) as real, 100.0);
      CmykChannelRange((if y > 100 then 100 else y) as real, 100.0);
    }
  }
}
