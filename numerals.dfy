/**
 * Decimal text of integers, as Python's `str(int)` writes it, and the
 * inverse reading of canonical numerals. `str` is used by the script for
 * the progress counter file and for the numbers inside the encoder command.
 */
module Numerals {

  import opened Common

  predicate IsDigit(c: char) {
    '0' <= c <= '9'
  }

  function DigitValue(c: char): (d: nat)
    requires IsDigit(c)
    ensures d < 10
  {
    c as int - '0' as int
  }

  function DigitChar(d: nat): (c: char)
    requires d < 10
    ensures IsDigit(c) && DigitValue(c) == d
  {
    ('0' as int + d) as char
  }

  predicate AllDigits(s: string) {
    forall i :: 0 <= i < |s| ==> IsDigit(s[i])
  }

  /** A canonical natural numeral: non-empty, digits only, no leading zero. */
  predicate IsNatNumeral(s: string) {
    |s| >= 1 && AllDigits(s) && (|s| > 1 ==> s[0] != '0')
  }

  /** `str(n)` for a non-negative `n`. */
  function NatToString(n: nat): (s: string)
    ensures IsNatNumeral(s)
    ensures (s[0] == '0') == (n == 0)
  {
    if n < 10 then [DigitChar(n)] else NatToString(n / 10) + [DigitChar(n % 10)]
  }

  /** `str(i)` for any integer: a minus sign before the digits of `-i`. */
  function IntToString(i: int): (s: string)
    ensures |s| >= 1
    ensures i < 0 <==> s[0] == '-'
    ensures ' ' !in s && '"' !in s
  {
    if i < 0 then "-" + NatToString(-i) else NatToString(i)
  }

  /** The value of a string of digits, most significant first. */
  function ParseNat(s: string): nat
    requires AllDigits(s)
  {
    if s == [] then 0 else ParseNat(s[..|s| - 1]) * 10 + DigitValue(s[|s| - 1])
  }

  /** Reads a canonical integer numeral; anything else is rejected. */
  function ParseInt(s: string): (r: Option<int>)
  {
    if IsNatNumeral(s) then Some(ParseNat(s))
    else if |s| >= 2 && s[0] == '-' && s[1] != '0' && IsNatNumeral(s[1..]) then Some(-(ParseNat(s[1..]) as int))
    else None
  }

  lemma {:induction false} NatRoundTrip(n: nat)
    ensures ParseNat(NatToString(n)) == n
  {
    var s := NatToString(n);
    if n >= 10 {
      NatRoundTrip(n / 10);
      assert s[..|s| - 1] == NatToString(n / 10);
    }
  }

  lemma {:induction false} ParseNatAtLeastFirstDigit(s: string)
    requires |s| >= 1 && AllDigits(s)
    ensures ParseNat(s) >= DigitValue(s[0])
  {
    if |s| > 1 {
      ParseNatAtLeastFirstDigit(s[..|s| - 1]);
    }
  }

  lemma {:induction false} NatNumeralRoundTrip(s: string)
    requires IsNatNumeral(s)
    ensures NatToString(ParseNat(s)) == s
  {
    var t, c := s[..|s| - 1], s[|s| - 1];
    assert s == t + [c];
    if |t| == 0 {
      assert DigitChar(DigitValue(c)) == c;
    } else {
      assert IsNatNumeral(t);
      ParseNatAtLeastFirstDigit(t);
      NatNumeralRoundTrip(t);
      var n := ParseNat(s);
      assert n / 10 == ParseNat(t) && n % 10 == DigitValue(c);
      assert DigitChar(DigitValue(c)) == c;
    }
  }

  /** Writing an integer and reading it back gives the integer. */
  lemma IntRoundTrip(i: int)
    ensures ParseInt(IntToString(i)) == Some(i)
  {
    if i < 0 {
      var s := IntToString(i);
      assert s[1..] == NatToString(-i);
      NatRoundTrip(-i);
    } else {
      NatRoundTrip(i);
    }
  }

  /** Every numeral the reader accepts is the text the writer produces. */
  lemma NumeralRoundTrip(s: string)
    requires ParseInt(s).Some?
    ensures IntToString(ParseInt(s).value) == s
  {
    if IsNatNumeral(s) {
      NatNumeralRoundTrip(s);
    } else {
      NatNumeralRoundTrip(s[1..]);
      ParseNatAtLeastFirstDigit(s[1..]);
      assert s == "-" + s[1..];
    }
  }
}
