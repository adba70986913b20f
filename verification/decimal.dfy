/** Decimal rendering of integers as done by Java's `%d` conversion under a
    default format locale with ASCII digits (a leading `-` for negative
    values, no grouping),
    together with the reading-back that shows nothing is lost. */
module Decimal {

  predicate IsDigit(c: char) {
    '0' <= c <= '9'
  }

  predicate AllDigits(s: string) {
    forall i | 0 <= i < |s| :: IsDigit(s[i])
  }

  function DigitChar(d: nat): (c: char)
    requires d < 10
    ensures IsDigit(c)
  {
    ['0', '1', '2', '3', '4', '5', '6', '7', '8', '9'][d]
  }

  function DigitValue(c: char): (d: nat)
    requires IsDigit(c)
    ensures d < 10 && DigitChar(d) == c
  {
    if c == '0' then 0 else if c == '1' then 1 else if c == '2' then 2
    else if c == '3' then 3 else if c == '4' then 4 else if c == '5' then 5
    else if c == '6' then 6 else if c == '7' then 7 else if c == '8' then 8 else 9
  }

  /** The shortest decimal numeral of `n`. */
  function NatToString(n: nat): (s: string)
    ensures |s| > 0 && AllDigits(s)
    ensures |s| > 1 ==> s[0] != '0'
    decreases n
  {
    if n < 10 then [DigitChar(n)]
    else NatToString(n / 10) + [DigitChar(n % 10)]
  }

  /** `String.format("%d", n)` for an integer of any width. */
  function FormatInt(n: int): (s: string)
    ensures |s| > 0
    ensures s[0] == '-' <==> n < 0
    ensures n >= 0 ==> AllDigits(s)
    ensures n < 0 ==> AllDigits(s[1..])
  {
    if n < 0 then "-" + NatToString(-n) else NatToString(n)
  }

  /** Reads a string of decimal digits back as a number. */
  function ParseNat(s: string): nat
    requires AllDigits(s)
    decreases |s|
  {
    if |s| == 0 then 0 else 10 * ParseNat(s[..|s| - 1]) + DigitValue(s[|s| - 1])
  }

  /** Reads an optionally negative decimal numeral back as an integer. */
  function ParseInt(s: string): int
    requires |s| > 0
    requires if s[0] == '-' then AllDigits(s[1..]) else AllDigits(s)
  {
    if s[0] == '-' then 0 - ParseNat(s[1..]) as int else ParseNat(s)
  }

  lemma {:induction false} NatRoundTrip(n: nat)
    ensures ParseNat(NatToString(n)) == n
    decreases n
  {
    if n >= 10 {
      var s := NatToString(n);
      assert s[..|s| - 1] == NatToString(n / 10);
      NatRoundTrip(n / 10);
    }
  }

  /** Rendering then reading gives the integer back, so the logged numbers
      carry exactly the status and duration values. */
  lemma FormatRoundTrip(n: int)
    ensures ParseInt(FormatInt(n)) == n
  {
    if n < 0 {
      NegativeRoundTrip(n);
    } else {
      NatRoundTrip(n);
    }
  }

  lemma NegativeRoundTrip(n: int)
    requires n < 0
    ensures ParseInt(FormatInt(n)) == n
  {
    var k: nat := -n;
    var t := NatToString(k);
    NatRoundTrip(k);
    ParseNegative(t);
    assert FormatInt(n) == "-" + t;
  }

  /** A minus sign in front of digits negates their value. */
  lemma ParseNegative(t: string)
    requires AllDigits(t)
    ensures ParseInt("-" + t) == 0 - ParseNat(t) as int
  {
    var s := "-" + t;
    assert s[0] == '-' && s[1..] == t;
  }

  /** Different integers are rendered differently. */
  lemma FormatInjective(m: int, n: int)
    requires FormatInt(m) == FormatInt(n)
    ensures m == n
  {
    FormatRoundTrip(m);
    FormatRoundTrip(n);
  }
}
