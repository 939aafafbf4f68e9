/** Decimal numerals: `str` of a natural number, and `isdigit` and `int` on ASCII digits. */
module Decimals {
  predicate IsDigit(c: char) {
    '0' <= c <= '9'
  }

  predicate IsNumeral(s: string) {
    s != "" && forall i :: 0 <= i < |s| ==> IsDigit(s[i])
  }

  function Digit(d: nat): (c: char)
    requires d < 10
    ensures IsDigit(c) && DigitValue(c) == d
  {
    (('0' as int) + d) as char
  }

  function Print(n: nat): (s: string)
    ensures IsNumeral(s)
  {
    if n < 10 then [Digit(n)] else Print(n / 10) + [Digit(n % 10)]
  }

  function DigitValue(c: char): nat
    requires IsDigit(c)
  {
    (c as int) - ('0' as int)
  }

  function Value(s: string): nat
    requires IsNumeral(s)
  {
    var low := DigitValue(s[|s| - 1]);
    if |s| == 1 then low else 10 * Value(s[..|s| - 1]) + low
  }

  lemma {:induction false} ValueOfPrint(n: nat)
    ensures Value(Print(n)) == n
  {
    if n >= 10 {
      ValueOfPrint(n / 10);
      assert Print(n)[..|Print(n)| - 1] == Print(n / 10);
    }
  }

  /** Printed numbers have no leading zeros, so that a number has one numeral. */
  lemma {:induction false} NoLeadingZero(n: nat)
    ensures Print(n)[0] == '0' ==> n == 0 && Print(n) == "0"
  {
    if n >= 10 {
      NoLeadingZero(n / 10);
      assert Print(n)[0] == Print(n / 10)[0];
    }
  }
}
