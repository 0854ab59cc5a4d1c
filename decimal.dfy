/**
 * Decimal rendering of a Java long, as string concatenation (`"..." + bookId`) performs it
 * through Long.toString: an optional '-' followed by the digits, with no leading zeros.
 */
module Decimal {

  predicate IsDigit(c: char) {
    '0' <= c <= '9'
  }

  predicate AllDigits(s: string) {
    forall i :: 0 <= i < |s| ==> IsDigit(s[i])
  }

  function DigitValue(c: char): nat
    requires IsDigit(c)
  {
    c as int - '0' as int
  }

  function DigitChar(d: nat): (c: char)
    requires d < 10
    ensures IsDigit(c) && DigitValue(c) == d
  {
    ('0' as int + d) as char
  }

  /** The digits of a non-negative number, most significant first. */
  function NatToDecimal(n: nat): (s: string)
    ensures 1 <= |s|
    ensures AllDigits(s)
    decreases n
  {
    if n < 10 then [DigitChar(n)] else NatToDecimal(n / 10) + [DigitChar(n % 10)]
  }

  /** Reads a string of digits back as a number: the inverse of NatToDecimal. */
  function ParseDecimal(s: string): nat
    requires AllDigits(s)
  {
    if s == [] then 0 else ParseDecimal(s[..|s| - 1]) * 10 + DigitValue(s[|s| - 1])
  }

  /** Long.toString for any value of the id. */
  function LongToString(n: int): string {
    if n < 0 then "-" + NatToDecimal(-n) else NatToDecimal(n)
  }

  lemma {:induction false} ParseNatToDecimal(n: nat)
    ensures ParseDecimal(NatToDecimal(n)) == n
    decreases n
  {
    var s := NatToDecimal(n);
    if n >= 10 {
      assert s[..|s| - 1] == NatToDecimal(n / 10);
      ParseNatToDecimal(n / 10);
    }
  }

  /** A negative id's text starts with '-', a non-negative one's with a digit. */
  lemma SignSeparates(neg: int, nonNeg: int)
    requires neg < 0 <= nonNeg
    ensures LongToString(neg) != LongToString(nonNeg)
  {
    assert LongToString(neg)[0] == '-';
    assert IsDigit(LongToString(nonNeg)[0]);
  }

  /** Different ids never render to the same text. */
  lemma LongToStringInjective(a: int, b: int)
    ensures LongToString(a) == LongToString(b) <==> a == b
  {
    if LongToString(a) == LongToString(b) {
      var sa, sb := LongToString(a), LongToString(b);
      if a < 0 && b < 0 {
        assert sa[1..] == NatToDecimal(-a);
        assert sb[1..] == NatToDecimal(-b);
        ParseNatToDecimal(-a);
        ParseNatToDecimal(-b);
      } else if a >= 0 && b >= 0 {
        ParseNatToDecimal(a);
        ParseNatToDecimal(b);
      } else if a < 0 {
        SignSeparates(a, b);
      } else {
        SignSeparates(b, a);
      }
    }
  }
}
