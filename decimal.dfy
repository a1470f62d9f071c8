/** Decimal text of integers, as Python's `str(int)` and `f"{n:02d}"` write it,
    with the parser that inverts it. The compressor builds its pending-press
    identities from `str(x)` and `str(y)`, and the video observer formats the
    clip length as MM:SS; both rely on what is proved here. */
module Decimal {

  predicate IsDigit(c: char) { '0' <= c <= '9' }

  predicate AllDigits(s: string) { forall i :: 0 <= i < |s| ==> IsDigit(s[i]) }

  function DigitChar(d: nat): (c: char)
    requires d < 10
    ensures IsDigit(c) && c as int - '0' as int == d
  {
    (d + '0' as int) as char
  }

  /** `str(n)` for a natural number: no leading zeros, at least one digit. */
  function NatToString(n: nat): string
    decreases n
  {
    if n < 10 then [DigitChar(n)] else NatToString(n / 10) + [DigitChar(n % 10)]
  }

  /** `str(i)` for any integer: a minus sign in front of negative numbers. */
  function IntToString(i: int): string
  {
    if i < 0 then "-" + NatToString(-i) else NatToString(i)
  }

  /** The text of a natural number is a non-empty string of digits, of one
      digit exactly for the numbers below ten. */
  lemma {:induction false} NatToStringDigits(n: nat)
    ensures var s := NatToString(n); 1 <= |s| && AllDigits(s)
    ensures |NatToString(n)| == 1 <==> n < 10
    decreases n
  {
    if n >= 10 {
      NatToStringDigits(n / 10);
    }
  }

  /** The text of an integer never holds an underscore, so it can be told
      apart in an underscore-separated identity. */
  lemma IntToStringHasNoUnderscore(i: int)
    ensures 1 <= |IntToString(i)|
    ensures forall k :: 0 <= k < |IntToString(i)| ==> IntToString(i)[k] != '_'
  {
    if i < 0 {
      NatToStringDigits(-i);
      assert forall k :: 1 <= k < |IntToString(i)| ==> IntToString(i)[k] == NatToString(-i)[k - 1];
    } else {
      NatToStringDigits(i);
    }
  }

  /** Value of a string of decimal digits (the empty string is 0). */
  function ParseNat(s: string): nat
    requires AllDigits(s)
  {
    if s == [] then 0 else 10 * ParseNat(s[..|s| - 1]) + (s[|s| - 1] as int - '0' as int)
  }

  function ParseInt(s: string): int
    requires 1 <= |s|
    requires s[0] == '-' ==> AllDigits(s[1..])
    requires s[0] != '-' ==> AllDigits(s)
  {
    if s[0] == '-' then -(ParseNat(s[1..]) as int) else ParseNat(s)
  }

  lemma {:induction false} NatRoundTrip(n: nat)
    ensures AllDigits(NatToString(n)) && ParseNat(NatToString(n)) == n
    decreases n
  {
    NatToStringDigits(n);
    if n >= 10 {
      var s := NatToString(n);
      NatToStringDigits(n / 10);
      assert s[..|s| - 1] == NatToString(n / 10);
      NatRoundTrip(n / 10);
    }
  }

  lemma IntRoundTrip(i: int)
    ensures var s := IntToString(i); (s[0] == '-' ==> AllDigits(s[1..])) && (s[0] != '-' ==> AllDigits(s))
    ensures ParseInt(IntToString(i)) == i
  {
    var s := IntToString(i);
    if i < 0 {
      NatToStringDigits(-i);
      assert s[1..] == NatToString(-i);
      NatRoundTrip(-i);
    } else {
      NatToStringDigits(i);
      assert IsDigit(s[0]);
      NatRoundTrip(i);
    }
  }

  /** Different integers have different decimal texts. */
  lemma IntToStringInjective(i: int, j: int)
    requires IntToString(i) == IntToString(j)
    ensures i == j
  {
    IntRoundTrip(i);
    IntRoundTrip(j);
  }

  /** A leading zero does not change the value. */
  lemma {:induction false} ParseLeadingZero(s: string)
    requires AllDigits(s)
    ensures AllDigits("0" + s) && ParseNat("0" + s) == ParseNat(s)
    decreases |s|
  {
    if s != [] {
      var t := "0" + s;
      assert t[..|t| - 1] == "0" + s[..|s| - 1];
      ParseLeadingZero(s[..|s| - 1]);
    }
  }

  /** `f"{n:02d}"`: decimal text padded with zeros to at least two digits. */
  function Pad2(n: nat): string
  {
    if n < 10 then "0" + NatToString(n) else NatToString(n)
  }

  /** The padded text has at least two digits, exactly two below 100, and
      reads back as `n`. */
  lemma Pad2RoundTrip(n: nat)
    ensures 2 <= |Pad2(n)| && AllDigits(Pad2(n))
    ensures n < 100 ==> |Pad2(n)| == 2
    ensures ParseNat(Pad2(n)) == n
  {
    NatToStringDigits(n);
    NatRoundTrip(n);
    if n < 10 {
      ParseLeadingZero(NatToString(n));
    } else if n < 100 {
      NatToStringDigits(n / 10);
    } else {
      NatToStringDigits(n / 10);
    }
  }
}
