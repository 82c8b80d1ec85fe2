/** Decimal digit strings: the zero-filled fields of a calendar date and the
    text form of an integer identifier. */
module Decimal {

  predicate IsDigit(c: char) {
    '0' <= c <= '9'
  }

  predicate AllDigits(s: string) {
    forall i :: 0 <= i < |s| ==> IsDigit(s[i])
  }

  function DigitValue(c: char): (d: nat)
    requires IsDigit(c)
    ensures d < 10
  {
    c as int - '0' as int
  }

  function DigitChar(d: nat): (c: char)
    requires d < 10
    ensures IsDigit(c) && DigitValue(c) == d
  {
    ('0' as int + d) as char
  }

  lemma DigitCharOfValue(c: char)
    requires IsDigit(c)
    ensures DigitChar(DigitValue(c)) == c
  {
  }

  function Pow10(w: nat): (p: nat)
    ensures p >= 1
  {
    if w == 0 then 1 else 10 * Pow10(w - 1)
  }

  /** The number a string of digits denotes, most significant digit first. */
  function Value(s: string): (v: nat)
    requires AllDigits(s)
    ensures v < Pow10(|s|)
    decreases |s|
  {
    if s == [] then 0 else Value(s[..|s| - 1]) * 10 + DigitValue(s[|s| - 1])
  }

  /** The `w` least significant decimal digits of `v`, zero-filled on the left. */
  function FixedWidth(v: nat, w: nat): (s: string)
    ensures |s| == w && AllDigits(s)
  {
    if w == 0 then [] else FixedWidth(v / 10, w - 1) + [DigitChar(v % 10)]
  }

  lemma {:induction false} FixedWidthValue(v: nat, w: nat)
    requires v < Pow10(w)
    ensures Value(FixedWidth(v, w)) == v
  {
    if w > 0 {
      var s := FixedWidth(v, w);
      assert s[..|s| - 1] == FixedWidth(v / 10, w - 1);
      FixedWidthValue(v / 10, w - 1);
    }
  }

  lemma {:induction false} ValueFixedWidth(s: string)
    requires AllDigits(s)
    ensures FixedWidth(Value(s), |s|) == s
  {
    if s != [] {
      var p := s[..|s| - 1];
      ValueFixedWidth(p);
      assert Value(s) / 10 == Value(p);
      assert Value(s) % 10 == DigitValue(s[|s| - 1]);
      DigitCharOfValue(s[|s| - 1]);
      assert s == p + [s[|s| - 1]];
    }
  }

  /** The shortest decimal text of `n`: no leading zero except for "0" itself. */
  function NatToString(n: nat): (s: string)
    ensures |s| >= 1 && AllDigits(s)
    ensures |s| > 1 ==> s[0] != '0'
    ensures Value(s) == n
  {
    if n < 10 then [DigitChar(n)]
    else
      var p := NatToString(n / 10);
      var s := p + [DigitChar(n % 10)];
      assert s[..|s| - 1] == p;
      s
  }

  /** A digit string without a leading zero is at least `10^(|s|-1)`. */
  lemma {:induction false} LeadingDigitBound(s: string)
    requires AllDigits(s) && |s| >= 1 && s[0] != '0'
    ensures Value(s) >= Pow10(|s| - 1)
    decreases |s|
  {
    if |s| > 1 {
      var p := s[..|s| - 1];
      assert p[0] == s[0];
      LeadingDigitBound(p);
    }
  }

  /** The shortest text is the only one: any digit string without a leading
      zero is the text `NatToString` gives for its value. */
  lemma {:induction false} NatToStringCanonical(s: string)
    requires AllDigits(s) && |s| >= 1 && (|s| > 1 ==> s[0] != '0')
    ensures NatToString(Value(s)) == s
    decreases |s|
  {
    if |s| == 1 {
      assert s[..0] == [];
      DigitCharOfValue(s[0]);
    } else {
      var p := s[..|s| - 1];
      assert p[0] == s[0];
      LeadingDigitBound(s);
      assert Value(s) >= 10;
      NatToStringCanonical(p);
      assert Value(s) / 10 == Value(p);
      DigitCharOfValue(s[|s| - 1]);
      assert s == p + [s[|s| - 1]];
    }
  }

  /** Python's `str` of an integer: an optional minus sign, then the digits. */
  function IntToString(i: int): (s: string)
    ensures |s| >= 1
    ensures i < 0 <==> s[0] == '-'
    ensures i >= 0 ==> AllDigits(s) && Value(s) == i && (|s| > 1 ==> s[0] != '0')
    ensures i < 0 ==> |s| >= 2 && AllDigits(s[1..]) && Value(s[1..]) == -i && (|s| > 2 ==> s[1] != '0')
  {
    if i < 0 then "-" + NatToString(-i) else NatToString(i)
  }

  /** Different integers never share a text form. */
  lemma IntToStringInjective(a: int, b: int)
    requires IntToString(a) == IntToString(b)
    ensures a == b
  {
    if a < 0 {
      assert IntToString(a)[1..] == IntToString(b)[1..];
    }
  }
}
