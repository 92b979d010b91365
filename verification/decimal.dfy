/**
 Python's `str(n)` for integers and `int(s)` for the decimal strings the
 keyword-list buttons carry.
 */
module Decimal {
  import opened Wrappers
  import Text

  predicate IsDigit(c: char) {
    '0' <= c <= '9'
  }

  predicate AllDigits(s: string) {
    forall i :: 0 <= i < |s| ==> IsDigit(s[i])
  }

  function DigitChar(d: nat): (c: char)
    requires d < 10
    ensures IsDigit(c)
  {
    ['0', '1', '2', '3', '4', '5', '6', '7', '8', '9'][d]
  }

  function DigitValue(c: char): (d: nat)
    requires IsDigit(c)
    ensures d < 10 && DigitChar(d) == c
  {
    assert c as int >= '0' as int;
    c as int - '0' as int
  }

  /** The number a string of decimal digits denotes, most significant digit first. */
  function DigitsValue(s: string): nat
    requires AllDigits(s)
  {
    if |s| == 0 then 0
    else DigitsValue(s[..|s| - 1]) * 10 + DigitValue(s[|s| - 1])
  }

  /** The shortest decimal spelling of `n`. */
  function NatToDigits(n: nat): (s: string)
    ensures |s| >= 1 && AllDigits(s)
    ensures |s| > 1 ==> s[0] != '0'
  {
    if n < 10 then [DigitChar(n)]
    else NatToDigits(n / 10) + [DigitChar(n % 10)]
  }

  /** Reading back the digits of `n` gives `n`. */
  lemma {:induction false} DigitsOfNat(n: nat)
    ensures DigitsValue(NatToDigits(n)) == n
  {
    if n >= 10 {
      var s := NatToDigits(n);
      assert s[..|s| - 1] == NatToDigits(n / 10);
      DigitsOfNat(n / 10);
    }
  }

  /** Python's `str(i)`. */
  function IntToString(i: int): string
  {
    if i < 0 then "-" + NatToDigits(-i) else NatToDigits(i)
  }

  /**
   Python's `int(s)` on a base-10 string: surrounding whitespace, an optional
   sign, then at least one digit; anything else raises, modelled as `None`.
   */
  function ParseInt(s: string): Option<int>
  {
    ParseSigned(Text.Strip(s))
  }

  /** `int` on text with no surrounding whitespace: an optional sign, then at least one digit. */
  function ParseSigned(t: string): Option<int>
  {
    var signed := |t| > 0 && (t[0] == '-' || t[0] == '+');
    match Magnitude(if signed then t[1..] else t)
    case None => None
    case Some(v) => Some(if signed && t[0] == '-' then -(v as int) else v as int)
  }

  /** The value of the unsigned part: at least one digit and nothing else. */
  function Magnitude(digits: string): Option<nat>
  {
    if |digits| == 0 || !AllDigits(digits) then None else Some(DigitsValue(digits))
  }

  /** A string that neither starts nor ends with whitespace survives `strip` untouched. */
  lemma StripKeeps(s: string)
    requires |s| >= 1 && !Text.IsSpace(s[0]) && !Text.IsSpace(s[|s| - 1])
    ensures Text.Strip(s) == s
  {
    assert Text.StripLeft(s) == s;
  }

  /** Text `strip` leaves alone is parsed as it stands. */
  lemma ParseUnstripped(s: string)
    requires |s| >= 1 && !Text.IsSpace(s[0]) && !Text.IsSpace(s[|s| - 1])
    ensures ParseInt(s) == ParseSigned(s)
  {
    StripKeeps(s);
  }

  /** A minus sign followed by an unsigned number denotes the negated value. */
  lemma ParseSignedNegative(s: string, d: string, m: nat)
    requires Magnitude(d) == Some(m)
    requires s == "-" + d
    ensures ParseSigned(s) == Some(-(m as int))
  {
    assert s[0] == '-' && s[1..] == d;
  }

  /** `int(str(i)) == i`: the decimal spelling parses back to the same integer. */
  lemma ParseIntToString(i: int)
    ensures ParseInt(IntToString(i)) == Some(i)
  {
    if i < 0 {
      ParseNegativeToString(i);
    } else {
      ParseNonNegativeToString(i);
    }
  }

  /** The round trip for a negative integer, spelt with a leading minus sign. */
  lemma ParseNegativeToString(i: int)
    requires i < 0
    ensures ParseInt(IntToString(i)) == Some(i)
  {
    var n: nat := -i;
    var d := NatToDigits(n);
    assert IntToString(i) == "-" + d;
    DigitsOfNat(n);
    assert Magnitude(d) == Some(n);
    ParseMinusDigits(IntToString(i), d, n);
  }

  /** The round trip for a non-negative integer, spelt with digits only. */
  lemma ParseNonNegativeToString(i: int)
    requires i >= 0
    ensures ParseInt(IntToString(i)) == Some(i)
  {
    var d := NatToDigits(i);
    DigitsOfNat(i);
    ParseDigits(d);
  }

  /** A digit is never whitespace, so `strip` cannot eat into a number. */
  lemma DigitNotSpace(c: char)
    requires IsDigit(c)
    ensures !Text.IsSpace(c)
  {
  }

  /** A bare digit string parses to the number it denotes. */
  lemma ParseDigits(d: string)
    requires |d| >= 1 && AllDigits(d)
    ensures ParseInt(d) == Some(DigitsValue(d) as int)
  {
    DigitNotSpace(d[0]);
    DigitNotSpace(d[|d| - 1]);
    ParseUnstripped(d);
    ParseSignedDigits(d);
  }

  /** Without a sign, the whole text is the digit string. */
  lemma ParseSignedDigits(d: string)
    requires |d| >= 1 && AllDigits(d)
    ensures ParseSigned(d) == Some(DigitsValue(d) as int)
  {
    assert IsDigit(d[0]);
  }

  /** A minus sign before an unsigned number parses to its negation. */
  lemma ParseMinusDigits(s: string, d: string, m: nat)
    requires Magnitude(d) == Some(m)
    requires s == "-" + d
    ensures ParseInt(s) == Some(-(m as int))
  {
    assert s[|s| - 1] == d[|d| - 1];
    DigitNotSpace(d[|d| - 1]);
    ParseUnstripped(s);
    ParseSignedNegative(s, d, m);
  }
}
