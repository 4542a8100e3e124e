/**
 * Decimal text of integers, as Python's `str(int)` and f-string formatting
 * produce it: an optional '-' followed by the digits, without leading zeros.
 * Used to build the placeholder label `unknown_group_<id>`.
 */
module Decimal {
  import opened Wrappers

  function DigitChar(d: nat): (ch: char)
    requires d < 10
    ensures '0' <= ch <= '9'
  {
    ('0' as int + d) as char
  }

  function DigitValue(ch: char): (d: nat)
    requires '0' <= ch <= '9'
    ensures d < 10 && DigitChar(d) == ch
  {
    ch as int - '0' as int
  }

  lemma DigitValueOfChar(d: nat)
    requires d < 10
    ensures DigitValue(DigitChar(d)) == d
  {
  }

  /** The digits of a natural number, most significant first. */
  function Digits(n: nat): (s: string)
    ensures |s| > 0
    ensures forall i :: 0 <= i < |s| ==> '0' <= s[i] <= '9'
    ensures n > 0 ==> s[0] != '0'
    decreases n
  {
    if n < 10 then [DigitChar(n)] else Digits(n / 10) + [DigitChar(n % 10)]
  }

  function DecimalString(n: int): (s: string)
    ensures |s| > 0
  {
    if n < 0 then "-" + Digits(-n) else Digits(n)
  }

  /** Value of a non-empty digit string. */
  function DigitsValue(s: string): nat
    requires forall i :: 0 <= i < |s| ==> '0' <= s[i] <= '9'
  {
    if s == [] then 0 else 10 * DigitsValue(s[..|s| - 1]) + DigitValue(s[|s| - 1])
  }

  /** Reads back a string written by DecimalString; a reference parser. */
  function ParseDecimal(s: string): Option<int> {
    if |s| > 0 && s[0] == '-' then
      var t := s[1..];
      if |t| > 0 && forall i :: 0 <= i < |t| ==> '0' <= t[i] <= '9' then Some(0 - DigitsValue(t) as int) else None
    else if |s| > 0 && forall i :: 0 <= i < |s| ==> '0' <= s[i] <= '9' then Some(DigitsValue(s))
    else None
  }

  lemma {:induction false} DigitsRoundTrip(n: nat)
    ensures DigitsValue(Digits(n)) == n
    decreases n
  {
    var s := Digits(n);
    if n < 10 {
      DigitValueOfChar(n);
      assert s[..|s| - 1] == [];
    } else {
      var q, d := n / 10, n % 10;
      assert s[..|s| - 1] == Digits(q);
      assert s[|s| - 1] == DigitChar(d);
      DigitsRoundTrip(q);
      DigitValueOfChar(d);
      assert DigitsValue(s) == 10 * q + d;
    }
  }

  /** The parser reads back the text of a negative number. */
  lemma NegativeRoundTrip(n: int)
    requires n < 0
    ensures ParseDecimal(DecimalString(n)) == Some(n)
  {
    var t := Digits(-n);
    var s := "-" + t;
    assert DecimalString(n) == s;
    assert s[0] == '-';
    assert s[1..] == t;
    DigitsRoundTrip(-n);
  }

  /** The parser reads back the text of a natural number. */
  lemma NaturalRoundTrip(n: nat)
    ensures ParseDecimal(DecimalString(n)) == Some(n)
  {
    var s := Digits(n);
    assert DecimalString(n) == s;
    assert s[0] != '-';
    DigitsRoundTrip(n);
  }

  /** The decimal text of an integer determines the integer. */
  lemma DecimalRoundTrip(n: int)
    ensures ParseDecimal(DecimalString(n)) == Some(n)
  {
    if n < 0 {
      NegativeRoundTrip(n);
    } else {
      NaturalRoundTrip(n);
    }
  }

  lemma DecimalStringInjective(m: int, n: int)
    requires m != n
    ensures DecimalString(m) != DecimalString(n)
  {
    DecimalRoundTrip(m);
    DecimalRoundTrip(n);
  }
}
