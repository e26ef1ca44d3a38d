/** Base-10 numerals: the reading strtol(p, &p, 10) performs on a run of
    digits, and the numeral printf("%d") writes for a value. */
module Decimal {
  import opened CType

  function DigitValue(c: char): (d: nat)
    requires IsDigit(c)
    ensures d < 10
  {
    c as int - '0' as int
  }

  function DigitChar(d: nat): (c: char)
    requires d < 10
    ensures IsDigit(c) && DigitValue(c) == d
  {
    ('0' as int + d) as char
  }

  /** The value of a digit string, most significant digit first. */
  function Value(s: string): nat
    requires AllDigits(s)
  {
    if s == [] then 0 else Value(s[..|s| - 1]) * 10 + DigitValue(s[|s| - 1])
  }

  /** The shortest numeral of n (no leading zero). */
  function Numeral(n: nat): (s: string)
    ensures |s| > 0 && AllDigits(s)
    ensures Value(s) == n
    decreases n
  {
    if n < 10 then [DigitChar(n)]
    else
      var s := Numeral(n / 10) + [DigitChar(n % 10)];
      assert s[..|s| - 1] == Numeral(n / 10);
      s
  }

  /** printf("%d", v) for any sign. */
  function SignedNumeral(v: int): (s: string)
    ensures |s| > 0
    ensures v >= 0 ==> AllDigits(s) && Value(s) == v
    ensures v < 0 ==> s[0] == '-' && AllDigits(s[1..]) && Value(s[1..]) == -v
  {
    if v >= 0 then Numeral(v) else "-" + Numeral(-v)
  }
}
