/**
 * Decimal text of integers: what Java's StringBuilder.append(int) and C++'s
 * `operator<<` on an unsigned integer write, and what Integer.parseInt reads.
 */
module Decimal {
  import opened Wrappers

  const IntMin: int := -0x8000_0000
  const IntMax: int := 0x7fff_ffff

  /** The range of a Java int (and of a C++ int on the platforms the program targets). */
  predicate IsInt32(x: int) {
    IntMin <= x <= IntMax
  }

  predicate IsDigit(c: char) {
    '0' <= c <= '9'
  }

  predicate AllDigits(s: string) {
    forall i :: 0 <= i < |s| ==> IsDigit(s[i])
  }

  function DigitChar(d: nat): (c: char)
    requires d < 10
    ensures IsDigit(c)
  {
    (48 + d) as char
  }

  function DigitValue(c: char): nat
    requires IsDigit(c)
  {
    (c as int) - 48
  }

  /** The shortest decimal numeral of n (no leading zeros). */
  function NatText(n: nat): (s: string)
    ensures |s| >= 1 && AllDigits(s)
    decreases n
  {
    if n < 10 then [DigitChar(n)] else NatText(n / 10) + [DigitChar(n % 10)]
  }

  /** The value of a numeral, read most significant digit first. */
  function DigitsValue(s: string): nat
    requires AllDigits(s)
  {
    if s == [] then 0 else 10 * DigitsValue(s[..|s| - 1]) + DigitValue(s[|s| - 1])
  }

  lemma {:induction false} NatTextValue(n: nat)
    ensures DigitsValue(NatText(n)) == n
    decreases n
  {
    if n >= 10 {
      var s := NatText(n);
      assert s[..|s| - 1] == NatText(n / 10);
      NatTextValue(n / 10);
    }
  }

  /** StringBuilder.append(int): a minus sign for a negative value, then the digits. */
  function IntText(x: int): string
  {
    if x < 0 then "-" + NatText(-x) else NatText(x)
  }

  /**
   * Integer.parseInt(s) in radix 10: an optional sign, at least one digit,
   * and a value inside the int range; anything else throws
   * NumberFormatException. Only the ASCII digits are modelled.
   */
  function ParseInt(s: string): (r: Result<int>)
    ensures r.Ok? ==> IsInt32(r.value)
    ensures r.Ok? ==> |s| >= 1 && AllDigits(if s[0] == '-' || s[0] == '+' then s[1..] else s)
  {
    if s == [] then Err(NumberFormat)
    else
      var body := if s[0] == '-' || s[0] == '+' then s[1..] else s;
      if body == [] || !AllDigits(body) then Err(NumberFormat)
      else
        var v: int := if s[0] == '-' then 0 - DigitsValue(body) as int else DigitsValue(body);
        if IsInt32(v) then Ok(v) else Err(NumberFormat)
  }

  /** Reading back what append(int) wrote gives the int again. */
  lemma IntTextRoundTrip(x: int)
    requires IsInt32(x)
    ensures ParseInt(IntText(x)) == Ok(x)
  {
    if x < 0 {
      NatTextValue(-x);
      assert IntText(x)[1..] == NatText(-x);
    } else {
      NatTextValue(x);
    }
  }

  /** Distinct ints have distinct decimal texts. */
  lemma IntTextInjective(a: int, b: int)
    requires IntText(a) == IntText(b)
    ensures a == b
  {
    assert (IntText(a)[0] == '-') == (a < 0);
    assert (IntText(b)[0] == '-') == (b < 0);
    if a < 0 {
      assert IntText(a)[1..] == NatText(-a) && IntText(b)[1..] == NatText(-b);
      NatTextValue(-a);
      NatTextValue(-b);
    } else {
      NatTextValue(a);
      NatTextValue(b);
    }
  }
}
