/**
 * Decimal rendering of integers, as Java's String.valueOf(int) writes them
 * (an optional '-' followed by the digits, no leading zeros), together with
 * the parser that reads such a rendering back.
 */
module Decimal {

  predicate IsDigit(c: char)
  {
    '0' <= c <= '9'
  }

  function DigitChar(d: nat): (c: char)
    requires d < 10
    ensures IsDigit(c)
  {
    "0123456789"[d]
  }

  function DigitValue(c: char): nat
  {
    if IsDigit(c) then (c as int - '0' as int) else 0
  }

  lemma DigitRoundTrip(d: nat)
    requires d < 10
    ensures DigitValue(DigitChar(d)) == d
  {
  }

  /** The decimal digits of a natural number, most significant first. */
  function NatToString(n: nat): (s: string)
    ensures |s| >= 1
    ensures forall k :: 0 <= k < |s| ==> IsDigit(s[k])
    decreases n
  {
    if n < 10 then [DigitChar(n)] else NatToString(n / 10) + [DigitChar(n % 10)]
  }

  /** Java's String.valueOf(int) over unbounded integers. */
  function IntToString(n: int): (s: string)
    ensures |s| >= 1
    ensures forall k :: 0 <= k < |s| ==> s[k] != '/'
  {
    if n < 0 then "-" + NatToString(-n) else NatToString(n)
  }

  /** Reads a string of digits back as a natural number. */
  function ParseNat(s: string): nat
    decreases |s|
  {
    if s == [] then 0 else ParseNat(s[..|s| - 1]) * 10 + DigitValue(s[|s| - 1])
  }

  /** Reads an optional '-' and a string of digits back as an integer. */
  function ParseInt(s: string): int
  {
    if |s| > 0 && s[0] == '-' then -(ParseNat(s[1..]) as int) else ParseNat(s)
  }

  lemma {:induction false} NatRoundTrip(n: nat)
    ensures ParseNat(NatToString(n)) == n
    decreases n
  {
    var s := NatToString(n);
    if n < 10 {
      DigitRoundTrip(n);
      assert s[..|s| - 1] == [];
    } else {
      NatRoundTrip(n / 10);
      DigitRoundTrip(n % 10);
      assert s[..|s| - 1] == NatToString(n / 10);
    }
  }

  /** Rendering an integer in decimal and reading it back gives the integer. */
  lemma IntRoundTrip(n: int)
    ensures ParseInt(IntToString(n)) == n
  {
    if n < 0 {
      NegativeRoundTrip(n);
    } else {
      NatRoundTrip(n);
      assert IsDigit(NatToString(n)[0]);
    }
  }

  lemma NegativeRoundTrip(n: int)
    requires n < 0
    ensures ParseInt(IntToString(n)) == n
  {
    var t := NatToString(-n);
    NatRoundTrip(-n);
    ParseNegative(t, IntToString(n));
  }

  /** A leading '-' negates what the rest reads as. */
  lemma ParseNegative(t: string, s: string)
    requires s == "-" + t
    ensures ParseInt(s) == -(ParseNat(t) as int)
  {
    assert s[1..] == t;
  }
}
