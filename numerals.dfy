/**
 * Decimal numerals as Python's `int(str)` reads them, restricted to the
 * ASCII digits '0'..'9': an unsigned numeral is one or more digits (leading
 * zeros allowed), a signed numeral is '+' or '-' followed by one.
 */
module Numerals {

  predicate IsDigit(c: char) {
    '0' <= c <= '9'
  }

  predicate AllDigits(s: string) {
    forall i :: 0 <= i < |s| ==> IsDigit(s[i])
  }

  /** The text `\d+` matches. */
  predicate IsNumeral(s: string) {
    |s| > 0 && AllDigits(s)
  }

  /** The text `[+-]\d+` matches. */
  predicate IsSignedNumeral(m: string) {
    |m| >= 2 && (m[0] == '+' || m[0] == '-') && AllDigits(m[1..])
  }

  function DigitValue(c: char): nat
    requires IsDigit(c)
  {
    (c as int) - ('0' as int)
  }

  function DigitChar(d: nat): (c: char)
    requires d < 10
    ensures IsDigit(c) && DigitValue(c) == d
  {
    ('0' as int + d) as char
  }

  function Pow10(k: nat): nat {
    if k == 0 then 1 else 10 * Pow10(k - 1)
  }

  /** `int(s)` for a numeral, most significant digit first. */
  function Value(s: string): (n: nat)
    requires AllDigits(s)
    ensures n < Pow10(|s|)
  {
    if s == [] then 0
    else
      var init := s[..|s| - 1];
      var v := Value(init);
      assert v + 1 <= Pow10(|init|);
      10 * v + DigitValue(s[|s| - 1])
  }

  /** `int(m)` for a signed numeral: the sign is kept, so "-0" and "+0" are both 0. */
  function SignedValue(m: string): (v: int)
    requires IsSignedNumeral(m)
    ensures m[0] == '+' ==> 0 <= v < Pow10(|m| - 1)
    ensures m[0] == '-' ==> 0 - Pow10(|m| - 1) < v <= 0
  {
    var magnitude: int := Value(m[1..]);
    if m[0] == '-' then -magnitude else magnitude
  }

  /** The canonical decimal spelling of `n` (no leading zeros), `str(n)`. */
  function Decimal(n: nat): (s: string)
    ensures IsNumeral(s)
    ensures |s| > 1 ==> s[0] != '0'
  {
    if n < 10 then [DigitChar(n)] else Decimal(n / 10) + [DigitChar(n % 10)]
  }

  /** The modifier spelling of `v`, sign always written: "+6", "-6", "+0". */
  function SignedDecimal(v: int): string {
    if v < 0 then "-" + Decimal(-v) else "+" + Decimal(v)
  }

  /** Reading back the canonical spelling gives the number. */
  lemma {:induction false} ValueOfDecimal(n: nat)
    ensures Value(Decimal(n)) == n
  {
    var s := Decimal(n);
    if n >= 10 {
      ValueOfDecimal(n / 10);
      assert s[..|s| - 1] == Decimal(n / 10);
    }
  }

  lemma SignedValueOfSignedDecimal(v: int)
    ensures IsSignedNumeral(SignedDecimal(v))
    ensures SignedValue(SignedDecimal(v)) == v
  {
    var m := SignedDecimal(v);
    var u := if v < 0 then -v else v;
    assert m[1..] == Decimal(u);
    ValueOfDecimal(u);
  }

  /** A leading zero never changes the value: `int('007') == 7`. */
  lemma {:induction false} ValueLeadingZero(s: string)
    requires AllDigits(s)
    ensures AllDigits("0" + s) && Value("0" + s) == Value(s)
  {
    var z := "0" + s;
    if s != [] {
      assert z[..|z| - 1] == "0" + s[..|s| - 1];
      ValueLeadingZero(s[..|s| - 1]);
    }
  }

  /** The two spellings of zero as a modifier. */
  lemma SignedZero()
    ensures IsSignedNumeral("+0") && IsSignedNumeral("-0")
    ensures SignedValue("+0") == 0 && SignedValue("-0") == 0
  {
    assert "+0"[1..] == "0";
    assert "-0"[1..] == "0";
  }

}
