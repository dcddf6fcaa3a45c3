/** `QString::number` on an `int` (main.cpp:124): the decimal numeral of the
    exit status, with a leading `-` when it is negative and no leading zeros.
    Reading a numeral back gives the number it was made from, so two
    different statuses are never logged alike. */
module Decimal {
  import opened Text

  function DigitChar(d: nat): (c: char)
    requires d < 10
    ensures IsDigit(c) && c as int - '0' as int == d
  {
    ('0' as int + d) as char
  }

  /** The decimal digits of `n`, most significant first. */
  function DigitsOf(n: nat): (r: string)
    ensures |r| > 0 && AllDigits(r)
    ensures r[0] == '0' ==> n == 0
    decreases n
  {
    if n < 10 then [DigitChar(n)] else DigitsOf(n / 10) + [DigitChar(n % 10)]
  }

  /** The numeral `QString::number` renders for `n`. */
  function NumberString(n: int): (r: string)
    ensures |r| > 0
    ensures (r[0] == '-') == (n < 0)
    ensures n >= 0 ==> r == DigitsOf(n)
    ensures n < 0 ==> r[1..] == DigitsOf(-n)
  {
    if n < 0 then "-" + DigitsOf(-n) else DigitsOf(n)
  }

  /** The value of a string of decimal digits, most significant first. */
  function DigitsValue(s: string): (v: nat)
    requires AllDigits(s)
    decreases |s|
  {
    if s == [] then 0
    else DigitsValue(s[..|s| - 1]) * 10 + (s[|s| - 1] as int - '0' as int)
  }

  /** Reads an optionally negative numeral; the inverse of NumberString. */
  function ParseNumber(s: string): (r: int)
    requires |s| > 0 && (s[0] == '-' ==> |s| > 1)
    requires AllDigits(if s[0] == '-' then s[1..] else s)
  {
    if s[0] == '-' then -(DigitsValue(s[1..]) as int) else DigitsValue(s)
  }

  lemma {:induction false} DigitsRoundTrip(n: nat)
    ensures DigitsValue(DigitsOf(n)) == n
    decreases n
  {
    if n >= 10 {
      var r := DigitsOf(n);
      assert r[..|r| - 1] == DigitsOf(n / 10);
      DigitsRoundTrip(n / 10);
    }
  }

  /** Parsing a rendered number gives the number back. */
  lemma NumberRoundTrip(n: int)
    ensures var r := NumberString(n); |r| > 0 && (r[0] == '-' ==> |r| > 1)
    ensures AllDigits(if NumberString(n)[0] == '-' then NumberString(n)[1..] else NumberString(n))
    ensures ParseNumber(NumberString(n)) == n
  {
    if n < 0 {
      DigitsRoundTrip(-n);
    } else {
      DigitsRoundTrip(n);
    }
  }

  /** Different statuses are rendered differently. */
  lemma NumberStringInjective(a: int, b: int)
    requires NumberString(a) == NumberString(b)
    ensures a == b
  {
    NumberRoundTrip(a);
    NumberRoundTrip(b);
  }
}
