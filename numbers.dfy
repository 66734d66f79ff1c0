/** JavaScript number handling over exact reals: `toFixed`, the engine's
    `round(value, precision) = Number(value.toFixed(precision))`,
    `Math.round`, `Math.min`/`Math.max` clamping and `parseFloat`.

    Powers of ten are applied one factor at a time (`Shift`), so that every
    proof here stays within linear arithmetic. */
module Numbers {
  import opened Text

  /** A JavaScript `number | undefined`: NaN is kept apart from the reals. */
  datatype Numeric = Undefined | NaN | Finite(x: real)

  function Abs(x: real): (r: real)
    ensures r >= 0.0 && (r == x || r == -x)
  {
    if x < 0.0 then -x else x
  }

  function Min(a: real, b: real): real { if a <= b then a else b }
  function Max(a: real, b: real): real { if a >= b then a else b }

  /** `Math.min(hi, Math.max(lo, x))`. */
  function Clamp(x: real, lo: real, hi: real): (r: real)
    requires lo <= hi
    ensures lo <= r <= hi
    ensures lo <= x <= hi ==> r == x
    ensures x < lo ==> r == lo
    ensures x > hi ==> r == hi
  {
    Min(hi, Max(lo, x))
  }

  /** `Math.round`: the nearest integer, halves rounded up. */
  function MathRound(x: real): (n: int)
    ensures x - 0.5 < n as real <= x + 0.5
  {
    (x + 0.5).Floor
  }

  // ------------------------------------------------------- powers of ten

  /** `m · 10^e`. */
  function Shift(m: real, e: int): real
    decreases if e >= 0 then e else -e
  {
    if e == 0 then m
    else if e > 0 then Shift(m, e - 1) * 10.0
    else Shift(m, e + 1) / 10.0
  }

  function Pow10Nat(k: nat): (r: nat)
    ensures r >= 1
  {
    if k == 0 then 1 else 10 * Pow10Nat(k - 1)
  }

  lemma ShiftStep(m: real, e: int)
    ensures Shift(m, e + 1) == Shift(m, e) * 10.0
  {
  }

  lemma {:induction false} ShiftCompose(m: real, a: int, b: int)
    ensures Shift(Shift(m, a), b) == Shift(m, a + b)
    decreases if b >= 0 then b else -b
  {
    if b > 0 {
      ShiftCompose(m, a, b - 1);
      ShiftStep(m, a + b - 1);
    } else if b < 0 {
      ShiftCompose(m, a, b + 1);
      ShiftStep(m, a + b);
    }
  }

  /** Shifting back undoes a shift. */
  lemma ShiftBack(m: real, e: int)
    ensures Shift(Shift(m, e), -e) == m
  {
    ShiftCompose(m, e, -e);
  }

  lemma {:induction false} ShiftAdd(a: real, b: real, e: int)
    ensures Shift(a + b, e) == Shift(a, e) + Shift(b, e)
    decreases if e >= 0 then e else -e
  {
    if e > 0 {
      ShiftAdd(a, b, e - 1);
    } else if e < 0 {
      ShiftAdd(a, b, e + 1);
    }
  }

  lemma {:induction false} ShiftNegate(a: real, e: int)
    ensures Shift(-a, e) == -Shift(a, e)
    decreases if e >= 0 then e else -e
  {
    if e > 0 {
      ShiftNegate(a, e - 1);
    } else if e < 0 {
      ShiftNegate(a, e + 1);
    }
  }

  /** Shifting is strictly increasing in the shifted value. */
  lemma {:induction false} ShiftMonotone(a: real, b: real, e: int)
    ensures a <= b ==> Shift(a, e) <= Shift(b, e)
    ensures a < b ==> Shift(a, e) < Shift(b, e)
    decreases if e >= 0 then e else -e
  {
    if e > 0 {
      ShiftMonotone(a, b, e - 1);
    } else if e < 0 {
      ShiftMonotone(a, b, e + 1);
    }
  }

  lemma {:induction false} ShiftZero(e: int)
    ensures Shift(0.0, e) == 0.0
    decreases if e >= 0 then e else -e
  {
    if e > 0 {
      ShiftZero(e - 1);
    } else if e < 0 {
      ShiftZero(e + 1);
    }
  }

  lemma ShiftNonNegative(a: real, e: int)
    requires a >= 0.0
    ensures Shift(a, e) >= 0.0
  {
    ShiftZero(e);
    ShiftMonotone(0.0, a, e);
  }

  /** `10^p` is a whole number. */
  lemma {:induction false} ShiftOne(p: nat)
    ensures Shift(1.0, p) == Pow10Nat(p) as real
  {
    if p > 0 {
      ShiftOne(p - 1);
    }
  }

  // ------------------------------------------------------------- rounding

  /** The integer `n` that `x.toFixed(p)` prints (before the decimal point is
      placed): `n / 10^p` is as close as possible to `|x|`, ties taking the
      larger `n`. */
  function Units(x: real, p: nat): (n: nat)
    ensures n as real - 0.5 <= Shift(Abs(x), p) < n as real + 0.5
  {
    var y := Shift(Abs(x), p);
    assert y >= 0.0 by { ShiftNonNegative(Abs(x), p); }
    (y + 0.5).Floor
  }

  /** `Number(x.toFixed(p))`: `x` rounded to `p` fractional digits, halves
      away from zero. */
  function Round(x: real, p: nat): real {
    var u := Shift(Units(x, p) as real, -(p as int));
    if x < 0.0 then -u else u
  }

  /** Rounding moves a value by at most half a unit in the last place. */
  lemma RoundClose(x: real, p: nat)
    ensures Abs(Round(x, p) - x) <= Shift(0.5, -(p as int))
  {
    var n, y := Units(x, p) as real, Shift(Abs(x), p);
    var d := Shift(n - y, -(p as int));
    assert Shift(n, -(p as int)) == d + Abs(x) by {
      ShiftAdd(n - y, y, -(p as int));
      ShiftBack(Abs(x), p);
    }
    assert -Shift(0.5, -(p as int)) <= d <= Shift(0.5, -(p as int)) by {
      ShiftMonotone(n - y, 0.5, -(p as int));
      ShiftMonotone(-0.5, n - y, -(p as int));
      ShiftNegate(0.5, -(p as int));
    }
  }

  /** Rounding never crosses an integer bound: 1 stays reached. */
  lemma RoundAtLeastOne(x: real, p: nat)
    requires x >= 1.0
    ensures Round(x, p) >= 1.0
  {
    var n := Units(x, p);
    assert n >= Pow10Nat(p) by {
      ShiftMonotone(1.0, x, p);
      ShiftOne(p);
    }
    assert Shift(n as real, -(p as int)) >= 1.0 by {
      ShiftMonotone(Pow10Nat(p) as real, n as real, -(p as int));
      ShiftOne(p);
      ShiftBack(1.0, p);
    }
  }

  /** Rounding never crosses an integer bound: 1 is not exceeded. */
  lemma RoundAtMostOne(x: real, p: nat)
    requires x <= 1.0
    ensures Round(x, p) <= 1.0
  {
    var n := Units(x, p);
    if x >= 0.0 {
      assert n <= Pow10Nat(p) by {
        ShiftMonotone(x, 1.0, p);
        ShiftOne(p);
      }
      assert Shift(n as real, -(p as int)) <= 1.0 by {
        ShiftMonotone(n as real, Pow10Nat(p) as real, -(p as int));
        ShiftOne(p);
        ShiftBack(1.0, p);
      }
    } else {
      ShiftNonNegative(n as real, -(p as int));
    }
  }

  /** Rounding keeps the sign: a non-negative value rounds to one. */
  lemma RoundNonNegative(x: real, p: nat)
    requires x >= 0.0
    ensures Round(x, p) >= 0.0
  {
    ShiftNonNegative(Units(x, p) as real, -(p as int));
  }

  /** Rounding keeps the sign: a non-positive value rounds to one. */
  lemma RoundNonPositive(x: real, p: nat)
    requires x <= 0.0
    ensures Round(x, p) <= 0.0
  {
    if x < 0.0 {
      ShiftNonNegative(Units(x, p) as real, -(p as int));
    } else {
      assert Units(x, p) == 0 by { ShiftZero(p); }
      ShiftZero(-(p as int));
    }
  }

  /** Rounding an already rounded value changes nothing. */
  lemma RoundIdempotent(x: real, p: nat)
    ensures Round(Round(x, p), p) == Round(x, p)
  {
    var n := Units(x, p);
    var u := Shift(n as real, -(p as int));
    assert u >= 0.0 by { ShiftNonNegative(n as real, -(p as int)); }
    assert Shift(u, p) == n as real by { ShiftBack(n as real, -(p as int)); }
    assert Units(Round(x, p), p) == n;
  }

  // --------------------------------------------------------------- toFixed

  /** `x.toFixed(p)` for `|x| < 1e21`: an optional `-` (when `x < 0`), the
      integer part, and when `p > 0` a point followed by exactly `p` digits. */
  function ToFixed(x: real, p: nat): (s: string)
    ensures p == 0 ==> '.' !in s
    ensures p > 0 ==> |s| >= p + 2 && s[|s| - p - 1] == '.'
    ensures forall i :: |s| - p <= i < |s| ==> IsDigit(s[i])
  {
    FixedText(Units(x, p), p, x < 0.0)
  }

  /** The text `toFixed` prints for `n` units of `10^-p`, negative or not. */
  function FixedText(n: nat, p: nat, neg: bool): (s: string)
    ensures p == 0 ==> '.' !in s
    ensures p > 0 ==> |s| >= p + 2 && s[|s| - p - 1] == '.'
    ensures forall i :: |s| - p <= i < |s| ==> IsDigit(s[i])
  {
    SignText(neg) + Pointed(FixedDigits(n, p), p)
  }

  function SignText(neg: bool): string {
    if neg then "-" else ""
  }

  /** Digits with a point inserted before the last `p` of them (none when
      `p == 0`). */
  function Pointed(m: string, p: nat): (s: string)
    requires |m| >= p + 1
    ensures p == 0 ==> s == m
    ensures p > 0 ==> |s| == |m| + 1 && s[|s| - p - 1] == '.' && s[..|m| - p] == m[..|m| - p] && s[|s| - p..] == m[|m| - p..]
  {
    if p == 0 then m else m[..|m| - p] + "." + m[|m| - p..]
  }

  /** The digits of `n`, left-padded with zeros to at least `p + 1` of them. */
  function FixedDigits(n: nat, p: nat): (m: string)
    ensures |m| >= p + 1 && AllDigits(m)
    ensures DigitsValue(m) == n
  {
    var d := NatToString(n);
    DigitsValueOfNatToString(n);
    if |d| <= p then
      DigitsValueLeadingZeros(p + 1 - |d|, d);
      Repeat('0', p + 1 - |d|) + d
    else d
  }

  /** `toFixed` writes a sign, digits and a point, and starts with a sign
      or a digit. */
  lemma ToFixedChars(x: real, p: nat)
    ensures var s := ToFixed(x, p);
      s != [] && (s[0] == '-' || IsDigit(s[0]))
      && forall i :: 0 <= i < |s| ==> IsDigit(s[i]) || s[i] == '.' || s[i] == '-'
  {
    var m := FixedDigits(Units(x, p), p);
    PointedChars(m, p);
  }

  lemma PointedChars(m: string, p: nat)
    requires AllDigits(m) && |m| >= p + 1
    ensures var s := Pointed(m, p);
      s != [] && IsDigit(s[0]) && forall i :: 0 <= i < |s| ==> IsDigit(s[i]) || s[i] == '.'
  {
    if p > 0 {
      var k := |m| - p;
      DigitsSplit(m, k);
    }
  }

  /** Reading `toFixed`'s text back as a number gives `Round`: the engine's
      `round` is exactly "print with `p` digits, then parse". */
  lemma ToFixedReadsBackAsRound(x: real, p: nat)
    ensures ParseFloat(ToFixed(x, p)) == Finite(Round(x, p))
  {
    ToFixedReadsBackBefore(x, p, []);
    assert ToFixed(x, p) + [] == ToFixed(x, p);
  }

  /** Text that cannot continue a decimal literal: `parseFloat` stops
      before it. */
  predicate EndsLiteral(rest: string) {
    rest == [] || (!IsDigit(rest[0]) && rest[0] != '.' && rest[0] != 'e' && rest[0] != 'E')
  }

  /** The same with text that ends the literal written after the number,
      as `%` or `)` are. */
  lemma ToFixedReadsBackBefore(x: real, p: nat, rest: string)
    requires EndsLiteral(rest)
    ensures ParseFloat(ToFixed(x, p) + rest) == Finite(Round(x, p))
  {
    var n := Units(x, p);
    var m := FixedDigits(n, p);
    ReadPointed(m, p, n, -(p as int), rest);
    var u := Shift(n as real, -(p as int));
    ReadSigned(x < 0.0, Pointed(m, p), rest, u);
    assert ToFixed(x, p) == SignText(x < 0.0) + Pointed(m, p);
    assert Round(x, p) == if x < 0.0 then -u else u;
  }

  /** Digits with a point placed `p` places from the right read as the
      digits' value shifted `p` places down. */
  lemma ReadPointed(m: string, p: nat, n: nat, e: int, rest: string)
    requires AllDigits(m) && |m| >= p + 1 && EndsLiteral(rest)
    requires DigitsValue(m) == n && e == -(p as int)
    ensures IsDigit(Pointed(m, p)[0])
    ensures UnsignedValue(Pointed(m, p) + rest) == Finite(Shift(n as real, e))
  {
    if p == 0 {
      ReadInteger(m, rest);
    } else {
      var k := |m| - p;
      assert Pointed(m, p)[0] == m[0];
      DigitsSplit(m, k);
      ReadFraction(m[..k], m[k..], m, e, rest);
    }
  }

  lemma DigitsSplit(m: string, k: nat)
    requires AllDigits(m) && k <= |m|
    ensures AllDigits(m[..k]) && AllDigits(m[k..]) && m == m[..k] + m[k..]
  {
    forall i | 0 <= i < |m| - k ensures IsDigit(m[k..][i]) { assert m[k..][i] == m[k + i]; }
  }

  // ------------------------------------------------------------ parseFloat

  /** The unsigned decimal literal at the start of `u`: its integer digits,
      its fraction digits (after a point) and how many characters it spans. */
  function ScanMantissa(u: string): (r: (string, string, nat))
    ensures AllDigits(r.0) && AllDigits(r.1) && r.2 <= |u|
  {
    var i := DigitRun(u);
    if i < |u| && u[i] == '.' then
      var f := DigitRun(u[i + 1..]);
      (u[..i], u[i + 1..][..f], i + 1 + f)
    else (u[..i], "", i)
  }

  /** The exponent part `[eE][+-]?digits` at the start of `s`, 0 when absent. */
  function ExponentOf(s: string): int {
    if |s| > 0 && (s[0] == 'e' || s[0] == 'E') then
      var t := s[1..];
      var neg := |t| > 0 && t[0] == '-';
      var d := if |t| > 0 && (t[0] == '-' || t[0] == '+') then t[1..] else t;
      var k := DigitRun(d);
      if neg then -(DigitsValue(d[..k]) as int) else DigitsValue(d[..k])
    else 0
  }

  /** The value of an unsigned decimal literal at the start of `u`, `NaN`
      when no digit starts it: all its digits as one integer, shifted by the
      exponent less the number of fraction digits. */
  function UnsignedValue(u: string): Numeric {
    var (a, b, k) := ScanMantissa(u);
    if a == [] && b == [] then NaN
    else Finite(Shift(DigitsValue(a + b) as real, ExponentOf(u[k..]) - |b|))
  }

  /** `Number.parseFloat`: skips leading white space and reads the longest
      decimal literal prefix (sign, digits, fraction, exponent). */
  function ParseFloat(s: string): Numeric {
    var t := TrimStart(s);
    if |t| > 0 && t[0] == '-' then
      match UnsignedValue(t[1..])
      case Finite(v) => Finite(-v)
      case other => other
    else if |t| > 0 && t[0] == '+' then UnsignedValue(t[1..])
    else UnsignedValue(t)
  }

  /** An integer literal reads as its digits' value. */
  lemma ReadInteger(a: string, rest: string)
    requires AllDigits(a) && a != [] && EndsLiteral(rest)
    ensures UnsignedValue(a + rest) == Finite(DigitsValue(a) as real)
  {
    var s := a + rest;
    AppendSlices(a, rest);
    DigitRunPrefix(a, s);
    assert ScanMantissa(s) == (a, "", |a|);
    assert a + "" == a;
    assert ExponentOf(s[|a|..]) == 0;
  }

  /** A literal `a.b` reads as the integer `ab` over `10^|b|`. */
  lemma ReadFraction(a: string, b: string, m: string, e: int, rest: string)
    requires AllDigits(a) && AllDigits(b) && a != [] && EndsLiteral(rest)
    requires m == a + b && e == -|b|
    ensures UnsignedValue(a + "." + b + rest) == Finite(Shift(DigitsValue(m) as real, e))
  {
    var s := a + "." + b + rest;
    ScanPointed(a, b, rest);
    AppendSlices(a + "." + b, rest);
    assert ExponentOf(s[|a| + 1 + |b|..]) == 0;
  }

  lemma ScanPointed(a: string, b: string, rest: string)
    requires AllDigits(a) && AllDigits(b) && EndsLiteral(rest)
    ensures ScanMantissa(a + "." + b + rest) == (a, b, |a| + 1 + |b|)
  {
    var s := a + "." + b + rest;
    AppendPrefix(a, "." + b, rest);
    assert s == a + ("." + b + rest);
    DigitRunPrefix(a, s);
    var t := s[|a| + 1..];
    assert t == b + rest;
    AppendSlices(b, rest);
    DigitRunPrefix(b, t);
  }

  lemma {:induction false} DigitRunPrefix(a: string, s: string)
    requires AllDigits(a) && |a| <= |s| && s[..|a|] == a
    requires |a| < |s| ==> !IsDigit(s[|a|])
    ensures DigitRun(s) == |a|
  {
    if a != [] {
      assert s[1..][..|a| - 1] == a[1..];
      DigitRunPrefix(a[1..], s[1..]);
    }
  }

  lemma ReadSigned(neg: bool, body: string, rest: string, v: real)
    requires body != [] && IsDigit(body[0])
    requires UnsignedValue(body + rest) == Finite(v)
    ensures ParseFloat(SignText(neg) + body + rest) == Finite(if neg then -v else v)
  {
    var s := SignText(neg) + body + rest;
    assert !IsSpace(s[0]);
    if neg {
      assert s[1..] == body + rest;
    } else {
      assert s == body + rest;
    }
  }

  /** `parseFloat(String(i))` gives `i` back. */
  lemma ParseFloatOfInt(i: int)
    ensures ParseFloat(IntToString(i)) == Finite(i as real)
  {
    ParseFloatOfIntBefore(i, []);
    assert IntToString(i) + [] == IntToString(i);
  }

  /** The same with text that ends the literal written after the number. */
  lemma ParseFloatOfIntBefore(i: int, rest: string)
    requires EndsLiteral(rest)
    ensures ParseFloat(IntToString(i) + rest) == Finite(i as real)
  {
    var n: nat := if i < 0 then -i else i;
    var d := NatToString(n);
    DigitsValueOfNatToString(n);
    ReadInteger(d, rest);
    assert IntToString(i) == SignText(i < 0) + d;
    ReadSigned(i < 0, d, rest, n as real);
  }
}
