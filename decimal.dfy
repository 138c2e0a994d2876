/**
 * Base-10 rendering of integers, as `fmt`'s `%d` verb produces it, and its
 * inverse on canonical decimal strings.
 */
module Decimal {
  import opened Wrappers

  predicate IsDigit(ch: char) {
    '0' <= ch <= '9'
  }

  predicate AllDigits(s: string) {
    forall i :: 0 <= i < |s| ==> IsDigit(s[i])
  }

  /** A decimal numeral as `%d` writes one: non-empty, digits only, no leading zero. */
  predicate IsCanonicalDigits(s: string) {
    |s| >= 1 && AllDigits(s) && (s[0] == '0' ==> |s| == 1)
  }

  function DigitChar(d: nat): (ch: char)
    requires d < 10
    ensures IsDigit(ch)
  {
    ('0' as int + d) as char
  }

  function DigitValue(ch: char): (d: nat)
    requires IsDigit(ch)
    ensures d < 10 && DigitChar(d) == ch
  {
    ch as int - '0' as int
  }

  /** The digits of `n`, most significant first. */
  function NatDigits(n: nat): (r: string)
    ensures IsCanonicalDigits(r)
    ensures r[0] == '0' <==> n == 0
    decreases n
  {
    if n < 10 then [DigitChar(n)] else NatDigits(n / 10) + [DigitChar(n % 10)]
  }

  /** `%d`: a leading `-` for a negative value, then the digits of its magnitude. */
  function FormatInt(n: int): (r: string)
    ensures |r| >= 1
    ensures r[0] == '-' <==> n < 0
    ensures forall i :: 0 <= i < |r| ==> IsDigit(r[i]) || (i == 0 && r[i] == '-')
  {
    if n < 0 then "-" + NatDigits(-n) else NatDigits(n)
  }

  /** The value of a string of digits, read most significant first. */
  function DigitsValue(s: string): nat
    requires AllDigits(s)
  {
    if s == [] then 0 else DigitsValue(s[..|s| - 1]) * 10 + DigitValue(s[|s| - 1])
  }

  /** Reads back exactly the strings `FormatInt` can produce. */
  function ParseInt(s: string): Option<int>
  {
    if |s| >= 2 && s[0] == '-' && IsCanonicalDigits(s[1..]) && s[1] != '0' then
      Some(-(DigitsValue(s[1..]) as int))
    else if IsCanonicalDigits(s) then
      Some(DigitsValue(s))
    else
      None
  }

  lemma {:induction false} DigitsValueOfNatDigits(n: nat)
    ensures DigitsValue(NatDigits(n)) == n
  {
    if n >= 10 {
      var p := NatDigits(n / 10);
      assert (p + [DigitChar(n % 10)])[..|p|] == p;
      DigitsValueOfNatDigits(n / 10);
    }
  }

  lemma {:induction false} DigitsValuePositive(s: string)
    requires IsCanonicalDigits(s) && s[0] != '0'
    ensures DigitsValue(s) > 0
  {
    if |s| > 1 {
      DigitsValuePositive(s[..|s| - 1]);
    }
  }

  lemma {:induction false} NatDigitsOfDigitsValue(s: string)
    requires IsCanonicalDigits(s)
    ensures NatDigits(DigitsValue(s)) == s
  {
    if |s| > 1 {
      var p := s[..|s| - 1];
      DigitsValuePositive(p);
      NatDigitsOfDigitsValue(p);
      assert s == p + [s[|s| - 1]];
    }
  }

  /** Every integer is read back from its rendering. */
  lemma FormatIntRoundTrip(n: int)
    ensures ParseInt(FormatInt(n)) == Some(n)
  {
    if n < 0 {
      assert FormatInt(n)[1..] == NatDigits(-n);
      DigitsValueOfNatDigits(-n);
    } else {
      DigitsValueOfNatDigits(n);
    }
  }

  /** Every string `ParseInt` accepts is the rendering of the value it reads, so `%d` is one-to-one. */
  lemma ParseIntCanonical(s: string, n: int)
    requires ParseInt(s) == Some(n)
    ensures FormatInt(n) == s
  {
    if |s| >= 2 && s[0] == '-' && IsCanonicalDigits(s[1..]) && s[1] != '0' {
      DigitsValuePositive(s[1..]);
      NatDigitsOfDigitsValue(s[1..]);
    } else {
      NatDigitsOfDigitsValue(s);
    }
  }

  /** A rendered integer holds no line break. */
  lemma FormatIntHasNoNewline(n: int)
    ensures '\n' !in FormatInt(n)
  {
    var r := FormatInt(n);
    forall i | 0 <= i < |r| ensures r[i] != '\n' {
      assert IsDigit(r[i]) || r[i] == '-';
    }
  }
}
