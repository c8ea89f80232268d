/** Decimal digit strings and Python's `int(...)` on them. */
module Decimal {

  predicate IsDigit(c: char) {
    '0' <= c <= '9'
  }

  predicate AllDigits(s: string) {
    forall i :: 0 <= i < |s| ==> IsDigit(s[i])
  }

  /** What the pattern `\d+` matches: one or more decimal digits. */
  type DigitRun = s: string | |s| > 0 && AllDigits(s) witness "0"

  /** What the pattern `\d*` matches: zero or more decimal digits. */
  type Digits = s: string | AllDigits(s)

  function Pow10(n: nat): (r: nat)
    ensures r >= 1
  {
    if n == 0 then 1 else 10 * Pow10(n - 1)
  }

  /** The number a digit string denotes, most significant digit first; leading zeros count for nothing. */
  function DigitsValue(s: string): (r: nat)
    requires AllDigits(s)
    ensures r < Pow10(|s|)
    decreases |s|
  {
    if |s| == 0 then 0
    else DigitsValue(s[..|s| - 1]) * 10 + (s[|s| - 1] as int - '0' as int)
  }

  lemma AllDigitsAppend(a: string, b: string)
    requires AllDigits(a) && AllDigits(b)
    ensures AllDigits(a + b)
  {
    var ab := a + b;
    forall i | 0 <= i < |ab| ensures IsDigit(ab[i]) {
      if i < |a| { assert ab[i] == a[i]; } else { assert ab[i] == b[i - |a|]; }
    }
  }

  /** The value of `a + b` is the value of `a` shifted past the digits of `b`, plus the value of `b`. */
  lemma {:induction false} DigitsValueAppend(a: string, b: string)
    requires AllDigits(a) && AllDigits(b)
    ensures AllDigits(a + b)
    ensures DigitsValue(a + b) == DigitsValue(a) * Pow10(|b|) + DigitsValue(b)
    decreases |b|
  {
    AllDigitsAppend(a, b);
    var ab := a + b;
    if |b| == 0 {
      assert ab == a;
    } else {
      var b' := b[..|b| - 1];
      var d := b[|b| - 1] as int - '0' as int;
      assert ab[..|ab| - 1] == a + b';
      assert ab[|ab| - 1] == b[|b| - 1];
      DigitsValueAppend(a, b');
      var x, p, y := DigitsValue(a), Pow10(|b'|), DigitsValue(b');
      assert DigitsValue(ab) == DigitsValue(a + b') * 10 + d;
      assert DigitsValue(a + b') == x * p + y;
      assert DigitsValue(b) == y * 10 + d;
      assert Pow10(|b|) == p * 10;
      ShiftDistributes(x, p, y);
    }
  }

  lemma ShiftDistributes(x: int, p: int, y: int)
    ensures (x * p + y) * 10 == x * (p * 10) + y * 10
  {
  }

  function DigitChar(d: nat): (c: char)
    requires d < 10
    ensures IsDigit(c)
  {
    ('0' as int + d) as char
  }

  /** Python's `str(n)` for a natural number: its shortest decimal spelling. */
  function NatToDigits(n: nat): (s: string)
    ensures |s| > 0 && AllDigits(s)
    ensures |s| > 1 ==> s[0] != '0'
    decreases n
  {
    if n < 10 then [DigitChar(n)] else NatToDigits(n / 10) + [DigitChar(n % 10)]
  }

  /** `int(str(n)) == n`: reading back the decimal spelling of a number gives the number. */
  lemma {:induction false} DigitsRoundTrip(n: nat)
    ensures DigitsValue(NatToDigits(n)) == n
    decreases n
  {
    var s := NatToDigits(n);
    if n >= 10 {
      DigitsRoundTrip(n / 10);
      assert s[..|s| - 1] == NatToDigits(n / 10);
    }
  }
}
