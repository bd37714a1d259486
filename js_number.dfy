/** The two string-to-number conversions the page script performs on
    `expires_in`: `parseInt(s)` (ECMA-262, section 19.2.5) when it computes the
    expiry instant, and the implicit ToNumber of `s / 3600` (ECMA-262, section
    7.1.4.1.1, StringToNumber) when it prints the hours, followed by
    `Math.round` and number-to-string. Numbers are exact rationals here:
    double rounding and overflow are not modelled. */
module JsNumber {
  import opened Common

  type Positive = n: nat | n > 0 witness 1

  /** A JavaScript number value as far as this page can produce one. */
  datatype Number = Finite(num: int, den: Positive) | NaN | Infinite(negative: bool)

  /** StrWhiteSpaceChar: the WhiteSpace and LineTerminator code points. */
  predicate IsWhiteSpace(c: char)
  {
    c == '\t' || c == '\n' || c == '\U{B}' || c == '\U{C}' || c == '\r' || c == ' '
    || c == '\U{A0}' || c == '\U{1680}' || ('\U{2000}' <= c <= '\U{200A}')
    || c == '\U{2028}' || c == '\U{2029}' || c == '\U{202F}' || c == '\U{205F}'
    || c == '\U{3000}' || c == '\U{FEFF}'
  }

  function TrimStart(s: string): (r: string)
    ensures |r| <= |s| && r == s[|s| - |r|..]
    ensures r != [] ==> !IsWhiteSpace(r[0])
  {
    if s != [] && IsWhiteSpace(s[0]) then TrimStart(s[1..]) else s
  }

  function TrimEnd(s: string): (r: string)
    ensures r <= s
    ensures r != [] ==> !IsWhiteSpace(r[|r| - 1])
  {
    if s != [] && IsWhiteSpace(s[|s| - 1]) then TrimEnd(s[..|s| - 1]) else s
  }

  /** The value of `c` as a digit in base `radix` (letters count from 10). */
  function DigitValue(c: char, radix: nat): (r: Option<nat>)
    ensures r.Some? ==> r.value < radix
  {
    var d :=
      if '0' <= c <= '9' then c as int - '0' as int
      else if 'a' <= c <= 'z' then c as int - 'a' as int + 10
      else if 'A' <= c <= 'Z' then c as int - 'A' as int + 10
      else radix;
    if d < radix then Some(d) else None
  }

  predicate AllDigits(s: string, radix: nat)
  {
    forall i :: 0 <= i < |s| ==> DigitValue(s[i], radix).Some?
  }

  /** The length of the longest prefix of `s` made of digits in base `radix`. */
  function LeadingDigits(s: string, radix: nat): (n: nat)
    ensures n <= |s| && AllDigits(s[..n], radix)
    ensures n < |s| ==> DigitValue(s[n], radix).None?
  {
    if s != [] && DigitValue(s[0], radix).Some? then
      var n := 1 + LeadingDigits(s[1..], radix);
      assert forall i :: 1 <= i < n ==> s[..n][i] == s[1..][..n - 1][i - 1];
      n
    else 0
  }

  /** The value of a digit string, most significant digit first. */
  function Value(s: string, radix: nat): nat
    requires AllDigits(s, radix)
  {
    if s == [] then 0
    else Value(s[..|s| - 1], radix) * radix + DigitValue(s[|s| - 1], radix).value
  }

  function Pow10(k: nat): Positive
  {
    if k == 0 then 1 else 10 * Pow10(k - 1)
  }

  // ---------------------------------------------------------------------
  // parseInt(string) with the radix left undefined

  /** `s` without one leading `+` or `-`. */
  function WithoutSign(t: string): string
  {
    if |t| > 0 && (t[0] == '-' || t[0] == '+') then t[1..] else t
  }

  predicate HexPrefixed(u: string)
  {
    |u| >= 2 && u[0] == '0' && (u[1] == 'x' || u[1] == 'X')
  }

  /** The longest digit prefix of `v` in base `radix`, negated when asked; NaN when empty. */
  function LeadingInteger(v: string, radix: nat, negative: bool): Option<int>
  {
    var n := LeadingDigits(v, radix);
    if n == 0 then None
    else
      var m: int := Value(v[..n], radix);
      Some(if negative then -m else m)
  }

  /** `parseInt(s)`: `None` is NaN. Leading white space and one sign are skipped, a
      `0x`/`0X` prefix selects base 16, and the longest digit prefix is read; the rest
      of the string is ignored. */
  function ParseInt(s: string): Option<int>
  {
    var t := TrimStart(s);
    var u := WithoutSign(t);
    if HexPrefixed(u) then LeadingInteger(u[2..], 16, |t| > 0 && t[0] == '-')
    else LeadingInteger(u, 10, |t| > 0 && t[0] == '-')
  }

  lemma {:induction false} ValueOfNatToString(n: nat)
    ensures AllDigits(NatToString(n), 10)
    ensures Value(NatToString(n), 10) == n
  {
    var s := NatToString(n);
    if n >= 10 {
      ValueOfNatToString(n / 10);
      assert s[..|s| - 1] == NatToString(n / 10);
    }
  }

  lemma DigitIsNotWhiteSpace(c: char)
    requires '0' <= c <= '9'
    ensures !IsWhiteSpace(c)
  {
  }

  lemma NoWhiteSpaceInDigits(s: string)
    requires forall i :: 0 <= i < |s| ==> '0' <= s[i] <= '9'
    ensures TrimStart(s) == s && TrimEnd(s) == s
  {
    if s != [] {
      DigitIsNotWhiteSpace(s[0]);
      DigitIsNotWhiteSpace(s[|s| - 1]);
    }
  }

  lemma {:induction false} LeadingDigitsAll(s: string, radix: nat)
    requires AllDigits(s, radix)
    ensures LeadingDigits(s, radix) == |s|
  {
    if s != [] {
      assert AllDigits(s[1..], radix) by {
        assert forall i :: 0 <= i < |s[1..]| ==> s[1..][i] == s[i + 1];
      }
      LeadingDigitsAll(s[1..], radix);
    }
  }

  lemma DecimalDigitsAll(s: string)
    requires forall i :: 0 <= i < |s| ==> '0' <= s[i] <= '9'
    ensures AllDigits(s, 10)
  {
  }

  /** A string of decimal digits is read whole, as a decimal number. */
  lemma ParseIntDigits(s: string)
    requires s != [] && forall i :: 0 <= i < |s| ==> '0' <= s[i] <= '9'
    ensures AllDigits(s, 10) && ParseInt(s) == Some(Value(s, 10))
  {
    assert s + [] == s;
    assert !HexPrefixed(s) by {
      if |s| >= 2 {
        assert '0' <= s[1] <= '9';
      }
    }
    ParseIntIgnoresTrailingText(s, []);
  }

  /** `parseInt` reads back what number-to-string wrote. */
  lemma ParseIntNatToString(n: nat)
    ensures ParseInt(NatToString(n)) == Some(n)
  {
    ParseIntDigits(NatToString(n));
    ValueOfNatToString(n);
  }

  /** A string without a decimal digit is NaN to `parseInt`. */
  lemma ParseIntNoDigit(s: string)
    requires forall i :: 0 <= i < |s| ==> !('0' <= s[i] <= '9')
    ensures ParseInt(s) == None
  {
    var t := TrimStart(s);
    var u := WithoutSign(t);
    if u != [] {
      assert u[0] == s[|s| - |u|];
      assert !('0' <= u[0] <= '9');
      assert !HexPrefixed(u);
      assert DigitValue(u[0], 10).None?;
    }
  }

  // ---------------------------------------------------------------------
  // StringToNumber, used by `expiresIn / 3600`

  function Negate(x: Number): Number
  {
    match x
    case Finite(n, d) => Finite(-n, d)
    case NaN => NaN
    case Infinite(neg) => Infinite(!neg)
  }

  /** The exponent part after `e`/`E`: an optional sign and at least one digit, and
      nothing after them. */
  function Exponent(s: string): Option<int>
  {
    var negative := |s| > 0 && s[0] == '-';
    var digits := if |s| > 0 && (s[0] == '-' || s[0] == '+') then s[1..] else s;
    if digits != [] && AllDigits(digits, 10) then
      var e: int := Value(digits, 10);
      Some(if negative then -e else e)
    else None
  }

  /** A decimal literal cut into its whole digits, its fraction digits (after a `.`)
      and whatever follows them. */
  datatype DecimalParts = DecimalParts(whole: string, fraction: string, tail: string)

  function SplitDecimal(u: string): (p: DecimalParts)
    ensures AllDigits(p.whole, 10) && AllDigits(p.fraction, 10)
  {
    var a := LeadingDigits(u, 10);
    var r := u[a..];
    if |r| > 0 && r[0] == '.' then
      var b := LeadingDigits(r[1..], 10);
      DecimalParts(u[..a], r[1..][..b], r[1..][b..])
    else DecimalParts(u[..a], "", r)
  }

  /** What may follow the digits: nothing, or an exponent. */
  function ExponentOf(tail: string): Option<int>
  {
    if tail == [] then Some(0)
    else if tail[0] == 'e' || tail[0] == 'E' then Exponent(tail[1..])
    else None
  }

  lemma AllDigitsAppend(a: string, b: string, radix: nat)
    requires AllDigits(a, radix) && AllDigits(b, radix)
    ensures AllDigits(a + b, radix)
  {
    assert forall i :: 0 <= i < |a + b| ==> (a + b)[i] == if i < |a| then a[i] else b[i - |a|];
  }

  /** The exact value of digits `whole.fraction` times ten to the `exponent`. */
  function Scaled(whole: string, fraction: string, exponent: int): Number
    requires AllDigits(whole, 10) && AllDigits(fraction, 10)
  {
    AllDigitsAppend(whole, fraction, 10);
    var m := Value(whole + fraction, 10);
    var scale := exponent - |fraction|;
    if scale >= 0 then Finite(m * Pow10(scale), 1) else Finite(m, Pow10(-scale))
  }

  /** StrUnsignedDecimalLiteral: `Infinity`, or digits with an optional fraction and
      an optional exponent, with at least one digit before the exponent. */
  function UnsignedDecimal(u: string): Number
  {
    if u == "Infinity" then Infinite(false)
    else
      var p := SplitDecimal(u);
      var exponent := ExponentOf(p.tail);
      if (p.whole == [] && p.fraction == []) || exponent.None? then NaN
      else Scaled(p.whole, p.fraction, exponent.value)
  }

  /** `0x`, `0o` or `0b` (either case) followed by at least one character. */
  predicate NonDecimalPrefixed(t: string)
  {
    |t| > 2 && t[0] == '0' && t[1] in "xXoObB"
  }

  function NonDecimalRadix(c: char): nat
  {
    if c == 'x' || c == 'X' then 16 else if c == 'o' || c == 'O' then 8 else 2
  }

  /** StringToNumber: white space around the literal is ignored, the empty string is
      0, `0x`/`0o`/`0b` literals take no sign, anything else that is not a
      StrDecimalLiteral is NaN. */
  function StringToNumber(s: string): Number
  {
    var t := TrimEnd(TrimStart(s));
    if t == [] then Finite(0, 1)
    else if NonDecimalPrefixed(t) then
      var radix := NonDecimalRadix(t[1]);
      if AllDigits(t[2..], radix) then Finite(Value(t[2..], radix), 1) else NaN
    else if t[0] == '-' then Negate(UnsignedDecimal(t[1..]))
    else if t[0] == '+' then UnsignedDecimal(t[1..])
    else UnsignedDecimal(t)
  }

  lemma UnsignedDecimalDigits(s: string)
    requires s != [] && AllDigits(s, 10) && s[0] != 'I'
    ensures UnsignedDecimal(s) == Finite(Value(s, 10), 1)
  {
    LeadingDigitsAll(s, 10);
    assert s[..|s|] == s && s[|s|..] == [];
    assert SplitDecimal(s) == DecimalParts(s, "", "");
    assert s + "" == s;
  }

  lemma StringToNumberDigits(s: string)
    requires s != [] && forall i :: 0 <= i < |s| ==> '0' <= s[i] <= '9'
    requires |s| > 1 ==> s[0] != '0'
    ensures StringToNumber(s) == UnsignedDecimal(s)
  {
    NoWhiteSpaceInDigits(s);
  }

  /** A decimal digit string denotes its own value. */
  lemma StringToNumberNatToString(n: nat)
    ensures StringToNumber(NatToString(n)) == Finite(n, 1)
  {
    var s := NatToString(n);
    ValueOfNatToString(n);
    StringToNumberDigits(s);
    UnsignedDecimalDigits(s);
  }

  // ---------------------------------------------------------------------
  // Math.round(x / 3600) and its rendering

  /** `Math.round(x / 3600)`: the integer nearest to x/3600, halves rounded up. */
  function RoundedHours(x: Number): (r: Number)
    ensures r.Finite? ==> r.den == 1
    ensures r.NaN? <==> x.NaN?
  {
    match x
    case Finite(n, d) => Finite((2 * n + 3600 * d) / (7200 * d), 1)
    case NaN => NaN
    case Infinite(neg) => Infinite(neg)
  }

  /** `RoundedHours` picks the integer k with k - 1/2 <= x/3600 < k + 1/2. */
  lemma RoundedHoursIsNearest(n: int, d: Positive)
    ensures RoundedHours(Finite(n, d)).Finite? && RoundedHours(Finite(n, d)).den == 1
    ensures var k := RoundedHours(Finite(n, d)).num;
      7200 * d * k <= 2 * n + 3600 * d < 7200 * d * (k + 1)
  {
    var q := 7200 * d;
    var k := (2 * n + 3600 * d) / q;
    assert q * k <= 2 * n + 3600 * d < q * (k + 1);
  }

  /** Number-to-string for the values `RoundedHours` yields (integers below 10^21). */
  function Render(x: Number): string
    requires x.Finite? ==> x.den == 1
  {
    match x
    case Finite(n, _) => IntToString(n)
    case NaN => "NaN"
    case Infinite(neg) => if neg then "-Infinity" else "Infinity"
  }

  /** The text `${Math.round(expiresIn / 3600)}`. */
  function HoursText(expiresIn: string): string
  {
    Render(RoundedHours(StringToNumber(expiresIn)))
  }

  /** For a decimal `expires_in` of n seconds the page shows round(n / 3600) hours. */
  lemma HoursTextOfSeconds(n: nat)
    ensures HoursText(NatToString(n)) == NatToString((2 * n + 3600) / 7200)
  {
    StringToNumberNatToString(n);
    var k := (2 * n + 3600) / 7200;
    assert RoundedHours(Finite(n, 1)) == Finite(k, 1);
    assert Render(Finite(k, 1)) == NatToString(k);
  }

  lemma Digits3600()
    ensures NatToString(3600) == "3600"
  {
    assert NatToString(3) == "3";
    assert NatToString(36) == NatToString(3) + "6";
    assert NatToString(360) == NatToString(36) + "0";
    assert NatToString(3600) == NatToString(360) + "0";
  }

  /** The default lifetime `'3600'` is shown as 1 hour. */
  lemma DefaultLifetimeIsOneHour()
    ensures HoursText("3600") == "1"
  {
    Digits3600();
    HoursTextOfSeconds(3600);
    assert (2 * 3600 + 3600) / 7200 == 1;
    assert NatToString(1) == "1";
  }

  lemma {:induction false} LeadingDigitsThen(a: string, b: string, radix: nat)
    requires AllDigits(a, radix)
    requires b == [] || DigitValue(b[0], radix).None?
    ensures LeadingDigits(a + b, radix) == |a|
  {
    if a != [] {
      assert AllDigits(a[1..], radix) by {
        assert forall i :: 0 <= i < |a[1..]| ==> a[1..][i] == a[i + 1];
      }
      LeadingDigitsThen(a[1..], b, radix);
      assert (a + b)[1..] == a[1..] + b;
    }
  }

  /** `parseInt` reads the digits at the front and ignores whatever follows them. */
  lemma ParseIntIgnoresTrailingText(d: string, tail: string)
    requires d != [] && forall i :: 0 <= i < |d| ==> '0' <= d[i] <= '9'
    requires tail != [] ==> !('0' <= tail[0] <= '9')
    requires !HexPrefixed(d + tail)
    ensures AllDigits(d, 10) && ParseInt(d + tail) == Some(Value(d, 10))
  {
    var s := d + tail;
    DecimalDigitsAll(d);
    StartsUntrimmed(d, tail);
    DigitsThenText(d, tail);
    assert s[..|d|] == d;
  }

  /** Text that starts with a digit has no leading white space or sign. */
  lemma StartsUntrimmed(d: string, tail: string)
    requires d != [] && '0' <= d[0] <= '9'
    ensures TrimStart(d + tail) == d + tail && WithoutSign(d + tail) == d + tail
  {
    DigitIsNotWhiteSpace(d[0]);
    assert (d + tail)[0] == d[0];
  }

  /** The digit prefix ends where the text begins. */
  lemma DigitsThenText(d: string, tail: string)
    requires AllDigits(d, 10)
    requires tail != [] ==> !('0' <= tail[0] <= '9')
    ensures LeadingDigits(d + tail, 10) == |d|
  {
    if tail != [] {
      var c := tail[0];
      assert DigitValue(c, 10).None?;
    }
    LeadingDigitsThen(d, tail, 10);
  }

  /** ToNumber takes the whole string, so the same digits followed by text that
      cannot continue a numeric literal are NaN, and the hours text reads `NaN`. */
  lemma HoursTextRejectsTrailingText(d: string, tail: string)
    requires d != [] && forall i :: 0 <= i < |d| ==> '0' <= d[i] <= '9'
    requires tail != [] && !('0' <= tail[0] <= '9') && tail[0] !in ".eE"
    requires !IsWhiteSpace(tail[|tail| - 1])
    requires !NonDecimalPrefixed(d + tail)
    ensures StringToNumber(d + tail) == NaN && HoursText(d + tail) == "NaN"
  {
    var s := d + tail;
    DecimalDigitsAll(d);
    StartsUntrimmed(d, tail);
    assert s[|s| - 1] == tail[|tail| - 1];
    assert TrimEnd(s) == s;
    DigitsThenText(d, tail);
    assert s[|d|..] == tail;
    assert SplitDecimal(s).tail == tail;
  }
}
