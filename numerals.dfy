/** Decimal text of integers, as JavaScript's `String(n)` writes an integral
    number, and the reverse reading used to state round trips. */
module Numerals {

  predicate IsDigit(c: char)
  {
    '0' <= c <= '9'
  }

  predicate AllDigits(s: string)
  {
    forall i :: 0 <= i < |s| ==> IsDigit(s[i])
  }

  function DigitChar(d: nat): (c: char)
    requires d < 10
    ensures IsDigit(c)
  {
    ('0' as int + d) as char
  }

  function DigitValue(c: char): (d: nat)
    requires IsDigit(c)
    ensures d < 10
  {
    c as int - '0' as int
  }

  /** The digits of `n`, most significant first, with no leading zero
      ("0" for zero). */
  function NatToDecimal(n: nat): (r: string)
    ensures 1 <= |r|
    ensures AllDigits(r)
    ensures n < 10 <==> |r| == 1
    ensures 1 < |r| ==> r[0] != '0'
  {
    if n < 10 then [DigitChar(n)] else NatToDecimal(n / 10) + [DigitChar(n % 10)]
  }

  /** `String(v)` for an integral number: a minus sign, then the digits of
      its magnitude. */
  function IntToString(v: int): (r: string)
    ensures v >= 0 ==> r == NatToDecimal(v)
    ensures v < 0 ==> r == "-" + NatToDecimal(-v)
  {
    if v < 0 then "-" + NatToDecimal(-v) else NatToDecimal(v)
  }

  /** The number a string of decimal digits denotes; leading zeros allowed. */
  function ParseDecimal(s: string): nat
    requires AllDigits(s)
  {
    if |s| == 0 then 0 else 10 * ParseDecimal(s[..|s| - 1]) + DigitValue(s[|s| - 1])
  }

  lemma {:induction false} ParseNatToDecimal(n: nat)
    ensures ParseDecimal(NatToDecimal(n)) == n
  {
    if n >= 10 {
      var r := NatToDecimal(n);
      assert r[..|r| - 1] == NatToDecimal(n / 10);
      ParseNatToDecimal(n / 10);
    }
  }

  /** A leading zero does not change the value read. */
  lemma {:induction false} ParseLeadingZero(s: string)
    requires AllDigits(s)
    ensures AllDigits("0" + s) && ParseDecimal("0" + s) == ParseDecimal(s)
  {
    var z := "0" + s;
    assert AllDigits(z);
    if |s| > 0 {
      assert z[..|z| - 1] == "0" + s[..|s| - 1];
      ParseLeadingZero(s[..|s| - 1]);
    }
  }

  lemma NatToDecimalInjective(a: nat, b: nat)
    ensures NatToDecimal(a) == NatToDecimal(b) ==> a == b
  {
    ParseNatToDecimal(a);
    ParseNatToDecimal(b);
  }

  /** Distinct integers are written differently. */
  lemma IntToStringInjective(a: int, b: int)
    ensures IntToString(a) == IntToString(b) ==> a == b
  {
    if IntToString(a) == IntToString(b) {
      if a < 0 && b < 0 {
        assert NatToDecimal(-a) == IntToString(a)[1..] == IntToString(b)[1..] == NatToDecimal(-b);
        NatToDecimalInjective(-a, -b);
      } else if a >= 0 && b >= 0 {
        NatToDecimalInjective(a, b);
      }
    }
  }
}
