/** Decimal text of non-negative integers: what `int.Parse` reads from a run of
    digits and what `string.Format("{0}", index)` writes for a positive index. */
module Decimal {
  import opened Chars

  function DigitValue(c: char): (d: nat)
    requires IsAsciiDigit(c)
    ensures d < 10
  {
    (c as int) - ('0' as int)
  }

  function DigitChar(d: nat): (c: char)
    requires d < 10
    ensures IsAsciiDigit(c) && DigitValue(c) == d
  {
    (('0' as int) + d) as char
  }

  /** The value of a run of decimal digits, most significant first (leading zeros allowed). */
  function DecimalValue(s: string): nat
    requires AllDigits(s)
  {
    if s == [] then 0 else DecimalValue(s[..|s| - 1]) * 10 + DigitValue(s[|s| - 1])
  }

  /** The shortest decimal text of n. */
  function FormatNat(n: nat): (s: string)
    ensures |s| > 0 && AllDigits(s)
    ensures s[0] == '0' ==> n == 0
  {
    (if n < 10 then "" else FormatNat(n / 10)) + [DigitChar(n % 10)]
  }

  /** Parsing the text that FormatNat writes gives back the number. */
  lemma {:induction false} ParseFormatRoundTrip(n: nat)
    ensures DecimalValue(FormatNat(n)) == n
  {
    var s := FormatNat(n);
    var front := if n < 10 then "" else FormatNat(n / 10);
    assert s == front + [DigitChar(n % 10)];
    assert s[..|s| - 1] == front;
    assert DigitValue(s[|s| - 1]) == n % 10;
    if n >= 10 {
      ParseFormatRoundTrip(n / 10);
    }
    assert DecimalValue(s) == DecimalValue(front) * 10 + n % 10;
    assert DecimalValue(front) == n / 10;
  }

  /** Distinct numbers have distinct decimal texts. */
  lemma FormatNatInjective(m: nat, n: nat)
    requires FormatNat(m) == FormatNat(n)
    ensures m == n
  {
    ParseFormatRoundTrip(m);
    ParseFormatRoundTrip(n);
  }
}
