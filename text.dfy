/** The JavaScript string built-ins the engine relies on (`trim`, `\s`,
    case-insensitive ASCII matching, `replace`, `toLowerCase`, integer
    `toString` in base 10 and 16, `padStart`), over `seq<char>`. */
module Text {

  /** The characters of JavaScript's `\s` class, which `trim` also removes:
      WhiteSpace and LineTerminator of ECMA-262. */
  predicate IsSpace(c: char) {
    c == ' ' || c == '\t' || c == '\n' || c == '\r' || c == '\U{000B}' || c == '\U{000C}'
    || c == '\U{00A0}' || c == '\U{1680}' || ('\U{2000}' <= c <= '\U{200A}')
    || c == '\U{2028}' || c == '\U{2029}' || c == '\U{202F}' || c == '\U{205F}'
    || c == '\U{3000}' || c == '\U{FEFF}'
  }

  function Repeat(c: char, n: nat): (r: string)
    ensures |r| == n && forall i :: 0 <= i < n ==> r[i] == c
  {
    if n == 0 then [] else [c] + Repeat(c, n - 1)
  }

  /** `trimStart`: drops the leading run of white space. */
  function TrimStart(s: string): (r: string)
    ensures |r| <= |s| && r == s[|s| - |r|..]
    ensures r == [] || !IsSpace(r[0])
    ensures forall i :: 0 <= i < |s| - |r| ==> IsSpace(s[i])
  {
    if s != [] && IsSpace(s[0]) then TrimStart(s[1..]) else s
  }

  /** `trimEnd`: drops the trailing run of white space. */
  function TrimEnd(s: string): (r: string)
    ensures |r| <= |s| && r == s[..|r|]
    ensures r == [] || !IsSpace(r[|r| - 1])
    ensures forall i :: |r| <= i < |s| ==> IsSpace(s[i])
  {
    if s != [] && IsSpace(s[|s| - 1]) then TrimEnd(s[..|s| - 1]) else s
  }

  /** `String.prototype.trim`. */
  function Trim(s: string): string {
    TrimEnd(TrimStart(s))
  }

  lemma TrimUnspaced(s: string)
    requires s != [] && !IsSpace(s[0]) && !IsSpace(s[|s| - 1])
    ensures Trim(s) == s
  {
  }

  lemma AppendSlices(a: string, b: string)
    ensures (a + b)[..|a|] == a && (a + b)[|a|..] == b
  {
  }

  lemma AppendPrefix(a: string, b: string, c: string)
    ensures (a + b + c)[..|a|] == a
  {
    assert (a + b + c)[..|a|] == (a + (b + c))[..|a|];
  }

  /** One space before a word without white space at its ends is trimmed
      away, and nothing else is. */
  lemma TrimSpaceBefore(w: string)
    requires w != [] && !IsSpace(w[0]) && !IsSpace(w[|w| - 1])
    ensures TrimEnd(TrimStart([' '] + w)) == w
  {
    assert ([' '] + w)[1..] == w;
    assert TrimStart(w) == w;
  }

  /** `s.replace(/\s/g, '')`. */
  function StripSpaces(s: string): (r: string)
    ensures |r| <= |s|
    ensures forall i :: 0 <= i < |r| ==> !IsSpace(r[i])
  {
    if s == [] then []
    else if IsSpace(s[0]) then StripSpaces(s[1..])
    else [s[0]] + StripSpaces(s[1..])
  }

  predicate Unspaced(s: string) {
    forall i :: 0 <= i < |s| ==> !IsSpace(s[i])
  }

  lemma UnspacedAppend(a: string, b: string)
    requires Unspaced(a) && Unspaced(b)
    ensures Unspaced(a + b)
  {
  }

  /** Stripping leaves text without white space as it is. */
  lemma {:induction false} StripSpacesUnspaced(s: string)
    requires Unspaced(s)
    ensures StripSpaces(s) == s
  {
    if s != [] {
      StripSpacesUnspaced(s[1..]);
      assert s == [s[0]] + s[1..];
    }
  }

  /** Case folding as a non-Unicode `/i` regular expression sees it: only the
      ASCII letters have a second case. */
  function LowerAscii(c: char): (r: char)
    ensures !('A' <= r <= 'Z')
  {
    if 'A' <= c <= 'Z' then (c as int + 32) as char else c
  }

  /** `toLowerCase` on the ASCII letters. */
  function ToLowerAscii(s: string): (r: string)
    ensures |r| == |s|
    ensures forall i :: 0 <= i < |s| ==> r[i] == LowerAscii(s[i])
  {
    if s == [] then [] else [LowerAscii(s[0])] + ToLowerAscii(s[1..])
  }

  /** `s` begins with `pat` (given in lower case) under `/i` matching. */
  predicate StartsWithCI(s: string, pat: string) {
    |pat| <= |s| && forall i :: 0 <= i < |pat| ==> LowerAscii(s[i]) == pat[i]
  }

  lemma StartsWithCIExtend(s: string, t: string, pat: string)
    requires StartsWithCI(s, pat)
    ensures StartsWithCI(s + t, pat)
  {
    forall i | 0 <= i < |pat| ensures (s + t)[i] == s[i] { }
  }

  /** `/pat/i.test(s)` for a literal pattern given in lower case. */
  predicate ContainsCI(s: string, pat: string) {
    exists i :: 0 <= i <= |s| && StartsWithCI(s[i..], pat)
  }

  /** `s.replace(c, '')` with a one-character string pattern: only the first
      occurrence goes. */
  function ReplaceFirst(s: string, c: char): (r: string)
    ensures c !in s ==> r == s
    ensures c in s ==> |r| == |s| - 1
  {
    if s == [] then []
    else if s[0] == c then s[1..]
    else [s[0]] + ReplaceFirst(s[1..], c)
  }

  lemma ReplaceFirstLeading(c: char, s: string)
    ensures ReplaceFirst([c] + s, c) == s
  {
  }

  /** No character of `s` folds to `c`. */
  predicate Lacks(s: string, c: char) {
    forall i :: 0 <= i < |s| ==> LowerAscii(s[i]) != c
  }

  lemma LacksAppend(a: string, b: string, c: char)
    requires Lacks(a, c) && Lacks(b, c)
    ensures Lacks(a + b, c)
  {
    forall i | 0 <= i < |a + b| ensures LowerAscii((a + b)[i]) != c {
      if i >= |a| { assert (a + b)[i] == b[i - |a|]; }
    }
  }

  // ---------------------------------------------------------------- decimal

  predicate IsDigit(c: char) {
    '0' <= c <= '9'
  }

  predicate AllDigits(s: string) {
    forall i :: 0 <= i < |s| ==> IsDigit(s[i])
  }

  function DigitChar(d: nat): (c: char)
    requires d < 10
    ensures IsDigit(c)
  {
    ('0' as int + d) as char
  }

  function DigitValue(c: char): (d: nat)
    requires IsDigit(c)
    ensures d < 10
  {
    c as int - '0' as int
  }

  /** Base-10 `toString` of a non-negative integer, without leading zeros. */
  function NatToString(n: nat): (s: string)
    ensures |s| >= 1 && AllDigits(s)
    ensures n >= 10 ==> s[0] != '0'
  {
    if n < 10 then [DigitChar(n)] else NatToString(n / 10) + [DigitChar(n % 10)]
  }

  /** `String(n)` / `${n}` for an integer. */
  function IntToString(i: int): string {
    if i < 0 then "-" + NatToString(-i) else NatToString(i)
  }

  /** The value of a run of decimal digits, most significant first. */
  function DigitsValue(s: string): nat
    requires AllDigits(s)
  {
    if s == [] then 0 else DigitsValue(s[..|s| - 1]) * 10 + DigitValue(s[|s| - 1])
  }

  /** Length of the leading run of decimal digits. */
  function DigitRun(s: string): (n: nat)
    ensures n <= |s| && AllDigits(s[..n])
    ensures n < |s| ==> !IsDigit(s[n])
  {
    if s != [] && IsDigit(s[0]) then
      var k := DigitRun(s[1..]);
      assert s[..k + 1] == [s[0]] + s[1..][..k];
      k + 1
    else 0
  }

  lemma DigitRunAll(s: string)
    requires AllDigits(s)
    ensures DigitRun(s) == |s|
  {
  }

  /** Decimal printing and digit reading are inverse. */
  lemma {:induction false} DigitsValueOfNatToString(n: nat)
    ensures DigitsValue(NatToString(n)) == n
  {
    if n >= 10 {
      var s := NatToString(n);
      assert s[..|s| - 1] == NatToString(n / 10);
      DigitsValueOfNatToString(n / 10);
    }
  }

  /** Leading zeros do not change a digit run's value. */
  lemma {:induction false} DigitsValueLeadingZeros(n: nat, s: string)
    requires AllDigits(s)
    ensures AllDigits(Repeat('0', n) + s)
    ensures DigitsValue(Repeat('0', n) + s) == DigitsValue(s)
  {
    var z := Repeat('0', n);
    if s == [] {
      assert z + s == z;
      DigitsValueZeros(n);
    } else {
      var zs := z + s;
      assert zs[..|zs| - 1] == z + s[..|s| - 1];
      DigitsValueLeadingZeros(n, s[..|s| - 1]);
    }
  }

  lemma {:induction false} DigitsValueZeros(n: nat)
    ensures AllDigits(Repeat('0', n)) && DigitsValue(Repeat('0', n)) == 0
  {
    if n > 0 {
      var z := Repeat('0', n);
      assert z[..n - 1] == Repeat('0', n - 1);
      DigitsValueZeros(n - 1);
    }
  }

  /** What `toFixed` and `String` write for a number: digits, a point and
      a sign. */
  predicate Numeral(s: string) {
    forall i :: 0 <= i < |s| ==> IsDigit(s[i]) || s[i] == '.' || s[i] == '-'
  }

  lemma IntToStringNumeral(i: int)
    ensures IntToString(i) != [] && Numeral(IntToString(i))
  {
    var d := NatToString(if i < 0 then -i else i);
    if i < 0 {
      assert IntToString(i) == ['-'] + d;
      forall k | 0 <= k < |IntToString(i)| ensures IsDigit(IntToString(i)[k]) || IntToString(i)[k] == '-' {
        if k > 0 { assert IntToString(i)[k] == d[k - 1]; }
      }
    }
  }

  /** A numeral has no letter in it. */
  lemma NumeralLacks(s: string, c: char)
    requires Numeral(s) && 'a' <= c <= 'z'
    ensures Lacks(s, c)
  {
  }

  // ------------------------------------------------------------ hexadecimal

  /** `[0-9a-f]` under the `/i` flag. */
  predicate IsHexDigit(c: char) {
    IsDigit(c) || 'a' <= c <= 'f' || 'A' <= c <= 'F'
  }

  /** A digit as `Number.prototype.toString(16)` writes it: lower case. */
  predicate IsLowerHexDigit(c: char) {
    IsDigit(c) || 'a' <= c <= 'f'
  }

  function HexDigitChar(d: nat): (c: char)
    requires d < 16
    ensures IsLowerHexDigit(c)
  {
    if d < 10 then DigitChar(d) else ('a' as int + d - 10) as char
  }

  function HexDigitValue(c: char): (d: nat)
    requires IsHexDigit(c)
    ensures d < 16
  {
    if IsDigit(c) then DigitValue(c)
    else if 'a' <= c <= 'f' then c as int - 'a' as int + 10
    else c as int - 'A' as int + 10
  }

  /** Base-16 `toString` of a non-negative integer. */
  function NatToHex(n: nat): (s: string)
    ensures |s| >= 1 && forall i :: 0 <= i < |s| ==> IsLowerHexDigit(s[i])
    ensures n < 16 ==> s == [HexDigitChar(n)]
    ensures 16 <= n < 256 ==> s == [HexDigitChar(n / 16), HexDigitChar(n % 16)]
  {
    if n < 16 then [HexDigitChar(n)] else NatToHex(n / 16) + [HexDigitChar(n % 16)]
  }

  /** `n.toString(16)` for an integer `n`. */
  function IntToHex(i: int): string {
    if i < 0 then "-" + NatToHex(-i) else NatToHex(i)
  }

  /** `s.padStart(2, '0')`. */
  function PadStart2(s: string): (r: string)
    ensures |s| >= 2 ==> r == s
    ensures |s| < 2 ==> |r| == 2 && r[2 - |s|..] == s
  {
    if |s| >= 2 then s else Repeat('0', 2 - |s|) + s
  }

  /** `n.toString(16).padStart(2, '0')`, as `hexFromRgb` and `hexWithAlpha`
      write each channel. */
  function HexByte(i: int): string {
    PadStart2(IntToHex(i))
  }

  /** The value of two hexadecimal digits. */
  function HexPairValue(s: string): nat
    requires |s| == 2 && IsHexDigit(s[0]) && IsHexDigit(s[1])
  {
    16 * HexDigitValue(s[0]) + HexDigitValue(s[1])
  }

  lemma HexDigitRoundTrip(d: nat)
    requires d < 16
    ensures HexDigitValue(HexDigitChar(d)) == d
  {
  }

  /** A byte is written as exactly two lower-case hexadecimal digits, and
      reading them back gives the byte. */
  lemma HexByteRoundTrip(n: int)
    requires 0 <= n < 256
    ensures |HexByte(n)| == 2
    ensures IsLowerHexDigit(HexByte(n)[0]) && IsLowerHexDigit(HexByte(n)[1])
    ensures HexPairValue(HexByte(n)) == n
  {
    if n < 16 {
      assert HexByte(n) == ['0', HexDigitChar(n)];
      HexDigitRoundTrip(n);
    } else {
      assert HexByte(n) == [HexDigitChar(n / 16), HexDigitChar(n % 16)];
      HexDigitRoundTrip(n / 16);
      HexDigitRoundTrip(n % 16);
    }
  }
}
