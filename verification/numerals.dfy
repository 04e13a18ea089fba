/** Decimal numerals: `str(n)` for integers, `int(s)` for the numerals it
    prints, `float(s)` for plain decimal fractions, and `int(x)` (truncation
    toward zero) on the value read. */
module Numerals {
  import opened Results

  predicate IsDigit(c: char) { '0' <= c <= '9' }

  predicate AllDigits(s: string) {
    forall i :: 0 <= i < |s| ==> IsDigit(s[i])
  }

  function DigitChar(d: nat): (c: char)
    requires d < 10
    ensures IsDigit(c)
  {
    ('0' as int + d) as char
  }

  function Pow10(n: nat): (r: nat)
    ensures r >= 1
  {
    if n == 0 then 1 else 10 * Pow10(n - 1)
  }

  /** The number a string of decimal digits denotes, most significant first. */
  function DigitsValue(s: string): nat
    requires AllDigits(s)
  {
    if |s| == 0 then 0 else 10 * DigitsValue(s[..|s| - 1]) + (s[|s| - 1] as int - '0' as int)
  }

  /** `k` digits denote a number below 10^k. */
  lemma {:induction false} DigitsValueBound(s: string)
    requires AllDigits(s)
    ensures DigitsValue(s) < Pow10(|s|)
  {
    if |s| > 0 {
      DigitsValueBound(s[..|s| - 1]);
    }
  }

  /** `str(n)` for `n >= 0`: its decimal digits without leading zeros. */
  function NatToString(n: nat): (r: string)
    ensures |r| >= 1 && AllDigits(r)
    ensures r[0] == '0' ==> r == "0"
  {
    if n < 10 then [DigitChar(n)] else NatToString(n / 10) + [DigitChar(n % 10)]
  }

  /** Reading back the digits `str` prints gives the number printed. */
  lemma {:induction false} NatToStringRoundTrip(n: nat)
    ensures DigitsValue(NatToString(n)) == n
  {
    if n >= 10 {
      NatToStringRoundTrip(n / 10);
      var s := NatToString(n);
      assert s[..|s| - 1] == NatToString(n / 10);
    }
  }

  /** `str(i)` for any integer. */
  function IntToString(i: int): (r: string)
    ensures |r| >= 1
    ensures forall k :: 0 <= k < |r| ==> IsDigit(r[k]) || (k == 0 && r[k] == '-')
    ensures forall c :: c in r ==> IsDigit(c) || c == '-'
  {
    if i < 0 then "-" + NatToString(-i) else NatToString(i)
  }

  /** `int(s)` for numerals made of an optional `-` and at least one digit. */
  function ParseInt(s: string): (r: Option<int>)
    ensures r.Some? ==> |s| >= 1
    ensures r.Some? && s[0] != '-' ==> r.value >= 0
  {
    if |s| > 0 && s[0] == '-' then
      if |s| > 1 && AllDigits(s[1..]) then Some(0 - DigitsValue(s[1..])) else None
    else if |s| > 0 && AllDigits(s) then Some(DigitsValue(s))
    else None
  }

  /** Printing an integer and reading it back gives the same integer. */
  lemma IntToStringRoundTrip(i: int)
    ensures ParseInt(IntToString(i)) == Some(i)
  {
    if i < 0 {
      NatToStringRoundTrip(-i);
      assert IntToString(i)[1..] == NatToString(-i);
    } else {
      NatToStringRoundTrip(i);
    }
  }

  /** A decimal numeral as this model lets `float()` read it: a sign, the
      digits before the point and the digits after it. */
  datatype Decimal = Decimal(negative: bool, whole: string, fraction: string)

  predicate ValidDecimal(d: Decimal) {
    AllDigits(d.whole) && AllDigits(d.fraction) && |d.whole| + |d.fraction| > 0
  }

  /** The value of the digits after the decimal point. */
  function FractionValue(digits: string): (f: real)
    requires AllDigits(digits)
    ensures 0.0 <= f < 1.0
  {
    DigitsValueBound(digits);
    QuotientBelowOne(DigitsValue(digits) as real, Pow10(|digits|) as real);
    DigitsValue(digits) as real / Pow10(|digits|) as real
  }

  lemma QuotientBelowOne(a: real, p: real)
    requires 0.0 <= a < p
    ensures 0.0 <= a / p < 1.0
  {
    var q := a / p;
    assert q * p == a;
  }

  function DecimalValue(d: Decimal): real
    requires ValidDecimal(d)
  {
    var magnitude := DigitsValue(d.whole) as real + FractionValue(d.fraction);
    if d.negative then -magnitude else magnitude
  }

  /** The longest run of digits at the start of `s`. */
  function DigitPrefix(s: string): (r: string)
    ensures |r| <= |s| && r == s[..|r|]
    ensures AllDigits(r)
    ensures |r| < |s| ==> !IsDigit(s[|r|])
  {
    if |s| > 0 && IsDigit(s[0]) then [s[0]] + DigitPrefix(s[1..]) else []
  }

  /** Reads `[+|-] digits [. digits]` with at least one digit in all; any
      other text is not a number. */
  function ParseDecimal(t: string): (r: Option<Decimal>)
    ensures r.Some? ==> ValidDecimal(r.value)
  {
    var negative := |t| > 0 && t[0] == '-';
    var body := if |t| > 0 && (t[0] == '-' || t[0] == '+') then t[1..] else t;
    var whole := DigitPrefix(body);
    var rest := body[|whole|..];
    if rest == [] then
      if whole != [] then Some(Decimal(negative, whole, [])) else None
    else if rest[0] == '.' && AllDigits(rest[1..]) && (whole != [] || |rest| > 1) then
      Some(Decimal(negative, whole, rest[1..]))
    else None
  }

  /** The canonical spelling of a decimal numeral. */
  function RenderDecimal(d: Decimal): string {
    (if d.negative then "-" else "") + d.whole + (if d.fraction == [] then "" else "." + d.fraction)
  }

  /** Every valid decimal reads back from its canonical spelling. */
  lemma ParseRenderRoundTrip(d: Decimal)
    requires ValidDecimal(d)
    ensures ParseDecimal(RenderDecimal(d)) == Some(d)
  {
    var tail := if d.fraction == [] then "" else "." + d.fraction;
    var t := RenderDecimal(d);
    var body := d.whole + tail;
    DigitPrefixOfDigits(d.whole, tail);
    assert body[|d.whole|..] == tail;
    if d.negative {
      assert t == "-" + body && t[1..] == body;
    } else {
      assert t == body;
      assert |t| > 0 && t[0] != '-' && t[0] != '+';
    }
  }

  lemma {:induction false} DigitPrefixOfDigits(a: string, b: string)
    requires AllDigits(a)
    requires b == [] || !IsDigit(b[0])
    ensures DigitPrefix(a + b) == a
    decreases |a|
  {
    if |a| > 0 {
      DigitPrefixOfDigits(a[1..], b);
      assert (a + b)[1..] == a[1..] + b;
    } else {
      assert a + b == b;
    }
  }

  /** `float(str(n))` is `n`. */
  lemma ReadPrintedInt(n: int)
    ensures ParseDecimal(IntToString(n)).Some?
    ensures DecimalValue(ParseDecimal(IntToString(n)).value) == n as real
  {
    var m: nat := if n < 0 then -n else n;
    var d := Decimal(n < 0, NatToString(m), "");
    assert RenderDecimal(d) == IntToString(n);
    ParseRenderRoundTrip(d);
    NatToStringRoundTrip(m);
    assert FractionValue("") == 0.0;
  }

  /** `int(x)`: the integer part of `x`, truncating toward zero. */
  function Truncate(x: real): (n: int)
    ensures 0.0 <= x ==> n as real <= x < n as real + 1.0
    ensures x < 0.0 ==> n as real - 1.0 < x <= n as real
  {
    if 0.0 <= x then x.Floor else -((-x).Floor)
  }

  /** Truncating a decimal's value keeps exactly its integer digits. */
  lemma TruncateDecimal(d: Decimal)
    requires ValidDecimal(d)
    ensures Truncate(DecimalValue(d)) == if d.negative then 0 - DigitsValue(d.whole) else DigitsValue(d.whole)
  {
    var n := DigitsValue(d.whole);
    var m := n as real + FractionValue(d.fraction);
    assert m.Floor == n;
  }
}
