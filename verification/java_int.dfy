/**
 * The decimal syntax accepted by java.lang.Integer.parseInt(String), that is
 * parseInt with radix 10: an optional '+' or '-', then at least one digit,
 * denoting a value within the 32-bit two's-complement range. Any other string
 * makes parseInt throw NumberFormatException, modelled here as None.
 */
module JavaInt {
  import opened Wrappers

  const MIN_VALUE: int := -0x8000_0000
  const MAX_VALUE: int := 0x7fff_ffff

  /** A Java int. */
  type Int32 = x: int | MIN_VALUE <= x <= MAX_VALUE

  predicate IsDigit(c: char) {
    '0' <= c <= '9'
  }

  predicate AllDigits(s: string) {
    forall k :: 0 <= k < |s| ==> IsDigit(s[k])
  }

  function DigitValue(c: char): (d: nat)
    requires IsDigit(c)
    ensures d < 10
  {
    c as int - '0' as int
  }

  function DigitChar(d: nat): (c: char)
    requires d < 10
    ensures IsDigit(c) && DigitValue(c) == d
  {
    ('0' as int + d) as char
  }

  /** The value of a string of decimal digits, most significant digit first. */
  function DigitsValue(s: string): nat
    requires AllDigits(s)
  {
    if s == [] then 0
    else 10 * DigitsValue(s[..|s| - 1]) + DigitValue(s[|s| - 1])
  }

  /**
   * The value of s when every character of it is a digit, most significant
   * first. It folds the digit check into the recursion of DigitsValue, so
   * ParseInt carries no quantifier; ReadDigitsValue ties the two together,
   * and DigitsValueOfNatToDecimal ties DigitsValue to arithmetic.
   */
  function ReadDigits(s: string): Option<nat> {
    if s == [] then Some(0)
    else if !IsDigit(s[|s| - 1]) then None
    else
      match ReadDigits(s[..|s| - 1])
      case None => None
      case Some(v) => Some(10 * v + DigitValue(s[|s| - 1]))
  }

  /** ReadDigits accepts exactly the digit strings, with their DigitsValue. */
  lemma {:induction false} ReadDigitsValue(s: string)
    ensures ReadDigits(s) == if AllDigits(s) then Some(DigitsValue(s)) else None
  {
    if s != [] {
      var p := s[..|s| - 1];
      ReadDigitsValue(p);
      if AllDigits(s) {
        assert AllDigits(p) by {
          forall k | 0 <= k < |p| ensures IsDigit(p[k]) { assert p[k] == s[k]; }
        }
      } else if IsDigit(s[|s| - 1]) {
        assert !AllDigits(p) by {
          var k :| 0 <= k < |s| && !IsDigit(s[k]);
          assert k < |p| && p[k] == s[k];
        }
      }
    }
  }

  /** Integer.parseInt(s): Some(value) when s is a decimal int, None when parseInt throws. */
  function ParseInt(s: string): Option<Int32> {
    if |s| == 0 then None
    else
      var negative := s[0] == '-';
      var digits := if s[0] == '-' || s[0] == '+' then s[1..] else s;
      if |digits| == 0 then None
      else
        match ReadDigits(digits)
        case None => None
        case Some(m) =>
          var magnitude: int := m;
          var v := if negative then -magnitude else magnitude;
          if MIN_VALUE <= v <= MAX_VALUE then Some(v) else None
  }

  /** The shortest decimal rendering of a natural number (Integer.toString for n >= 0). */
  function NatToDecimal(n: nat): (s: string)
    ensures |s| > 0 && AllDigits(s)
  {
    if n < 10 then [DigitChar(n)] else NatToDecimal(n / 10) + [DigitChar(n % 10)]
  }

  /** The decimal rendering of any integer, with a leading '-' when negative. */
  function ToDecimal(n: int): (s: string)
    ensures |s| > 0
  {
    if n < 0 then "-" + NatToDecimal(-n) else NatToDecimal(n)
  }

  /** NatToDecimal is read back by DigitsValue. */
  lemma {:induction false} DigitsValueOfNatToDecimal(n: nat)
    ensures DigitsValue(NatToDecimal(n)) == n
  {
    var s := NatToDecimal(n);
    if n >= 10 {
      DigitsValueOfNatToDecimal(n / 10);
      assert s[..|s| - 1] == NatToDecimal(n / 10);
    }
  }

  /**
   * parseInt reads back every rendered integer: the ones inside the int range
   * as themselves, the ones outside it as a NumberFormatException.
   */
  lemma ParseIntOfToDecimal(n: int)
    ensures ParseInt(ToDecimal(n)) == if MIN_VALUE <= n <= MAX_VALUE then Some(n) else None
  {
    var s := ToDecimal(n);
    if n < 0 {
      DigitsValueOfNatToDecimal(-n);
      ReadDigitsValue(NatToDecimal(-n));
      assert s[1..] == NatToDecimal(-n);
    } else {
      DigitsValueOfNatToDecimal(n);
      ReadDigitsValue(NatToDecimal(n));
      assert s[0] != '-' && s[0] != '+';
    }
  }

  /** A leading zero digit does not change the value of a digit string. */
  lemma {:induction false} LeadingZeroIgnored(s: string)
    requires AllDigits(s)
    ensures AllDigits("0" + s) && DigitsValue("0" + s) == DigitsValue(s)
  {
    var z := "0" + s;
    if s != [] {
      assert z[..|z| - 1] == "0" + s[..|s| - 1];
      LeadingZeroIgnored(s[..|s| - 1]);
    }
  }

  /** parseInt accepts leading zeros, after a sign or without one. */
  lemma ParseIntLeadingZero(sign: string, s: string)
    requires sign == "" || sign == "+" || sign == "-"
    requires |s| > 0 && AllDigits(s)
    ensures ParseInt(sign + "0" + s) == ParseInt(sign + s)
  {
    LeadingZeroIgnored(s);
    ReadDigitsValue(s);
    ReadDigitsValue("0" + s);
    if sign != "" {
      assert (sign + "0" + s)[1..] == "0" + s;
      assert (sign + s)[1..] == s;
    } else {
      assert sign + "0" + s == "0" + s;
      assert sign + s == s;
    }
  }

  /** An explicit '+' is accepted and means the same as no sign. */
  lemma ParseIntPlusSign(s: string)
    requires |s| > 0 && AllDigits(s)
    ensures ParseInt("+" + s) == ParseInt(s)
  {
    ReadDigitsValue(s);
    assert ("+" + s)[1..] == s;
  }

  /** The empty string and a lone sign are rejected. */
  lemma ParseIntRejectsEmpty()
    ensures ParseInt("") == None && ParseInt("+") == None && ParseInt("-") == None
  {
  }

  /**
   * A character that is neither a digit nor a sign in first position makes
   * parseInt throw, wherever it is.
   */
  lemma ParseIntRejectsNonDigit(s: string, k: nat)
    requires k < |s| && !IsDigit(s[k])
    requires k > 0 || (s[k] != '-' && s[k] != '+')
    ensures ParseInt(s) == None
  {
    if s[0] == '-' || s[0] == '+' {
      assert s[1..][k - 1] == s[k];
      ReadDigitsValue(s[1..]);
    } else {
      ReadDigitsValue(s);
    }
  }
}
