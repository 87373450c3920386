/** Decimal digit strings: rendering naturals, integers and fixed-point values the
    way PHP converts numbers to strings, and reading them back. */
module Decimal {
  import opened Base

  predicate IsDigit(c: char) {
    '0' <= c <= '9'
  }

  predicate AllDigits(s: string) {
    forall i :: 0 <= i < |s| ==> IsDigit(s[i])
  }

  function DigitValue(c: char): nat
    requires IsDigit(c)
  {
    c as int - '0' as int
  }

  function DigitChar(d: nat): (c: char)
    requires d < 10
    ensures IsDigit(c) && DigitValue(c) == d
  {
    ('0' as int + d) as char
  }

  /** Value of a string of decimal digits, most significant digit first. */
  function DigitsValue(s: string): nat
    requires AllDigits(s)
  {
    if |s| == 0 then 0 else DigitsValue(s[..|s| - 1]) * 10 + DigitValue(s[|s| - 1])
  }

  /** Shortest decimal rendering of `n`. */
  function NatToString(n: nat): (s: string)
    ensures 0 < |s| && AllDigits(s)
  {
    if n < 10 then [DigitChar(n)] else NatToString(n / 10) + [DigitChar(n % 10)]
  }

  /** Decimal rendering of an integer, with a leading '-' when negative. */
  function IntToString(i: int): (s: string)
    ensures 0 < |s|
    ensures i < 0 <==> s[0] == '-'
  {
    if i < 0 then "-" + NatToString(-i) else NatToString(i)
  }

  /** Reading a rendered natural back gives the natural. */
  lemma {:induction false} NatToStringRoundTrip(n: nat)
    ensures DigitsValue(NatToString(n)) == n
  {
    if n >= 10 {
      NatToStringRoundTrip(n / 10);
      var s := NatToString(n);
      assert s[..|s| - 1] == NatToString(n / 10);
    }
  }

  /** Index of the first occurrence of `c` in `s`, or |s| when there is none. */
  function IndexOf(s: string, c: char): (k: nat)
    ensures k <= |s|
    ensures forall i :: 0 <= i < k ==> s[i] != c
    ensures k < |s| ==> s[k] == c
  {
    if |s| == 0 then 0 else if s[0] == c then 0 else 1 + IndexOf(s[1..], c)
  }

  /** The index of `c` in `a + [c] + b` is |a| when `a` does not contain `c`. */
  lemma IndexOfAfterPrefix(a: string, c: char, b: string)
    requires forall i :: 0 <= i < |a| ==> a[i] != c
    ensures IndexOf(a + [c] + b, c) == |a|
  {
    if |a| > 0 {
      assert (a + [c] + b)[1..] == a[1..] + [c] + b;
      IndexOfAfterPrefix(a[1..], c, b);
    }
  }

  /** The index of `c` in a string without `c` is its length. */
  lemma IndexOfAbsent(a: string, c: char)
    requires forall i :: 0 <= i < |a| ==> a[i] != c
    ensures IndexOf(a, c) == |a|
  {
  }

  /** PHP's string form of the float h/100 that round(x, 2) produced, for h >= 0:
      the integer part, then up to two fraction digits with trailing zeros dropped
      (so 150 prints as "1.5" and 100 as "1"). */
  function HundredthsToString(h: nat): (s: string)
    ensures 0 < |s| && IsDigit(s[0])
    ensures forall i :: 0 <= i < |s| ==> s[i] != ' '
  {
    var whole := NatToString(h / 100);
    var f := h % 100;
    if f == 0 then whole
    else if f % 10 == 0 then whole + "." + [DigitChar(f / 10)]
    else whole + "." + [DigitChar(f / 10), DigitChar(f % 10)]
  }

  /** Reads a string of the form HundredthsToString prints back into hundredths. */
  function ParseHundredths(s: string): (r: Option<nat>)
    ensures r.Some? ==> 0 < |s| && IsDigit(s[0])
  {
    var k := IndexOf(s, '.');
    var whole := s[..k];
    if |whole| == 0 || !AllDigits(whole) then None
    else if k == |s| then Some(DigitsValue(whole) * 100)
    else
      var frac := s[k + 1..];
      if |frac| == 1 && IsDigit(frac[0]) && frac[0] != '0' then
        Some(DigitsValue(whole) * 100 + DigitValue(frac[0]) * 10)
      else if |frac| == 2 && IsDigit(frac[0]) && IsDigit(frac[1]) && frac[1] != '0' then
        Some(DigitsValue(whole) * 100 + DigitValue(frac[0]) * 10 + DigitValue(frac[1]))
      else None
  }

  /** The printed form of a two-place value reads back as the same value, so the
      rendering loses nothing. */
  lemma HundredthsRoundTrip(h: nat)
    ensures ParseHundredths(HundredthsToString(h)) == Some(h)
  {
    var whole := NatToString(h / 100);
    NatToStringRoundTrip(h / 100);
    var f := h % 100;
    var s := HundredthsToString(h);
    if f == 0 {
      IndexOfAbsent(whole, '.');
      assert s[..|whole|] == whole;
    } else if f % 10 == 0 {
      IndexOfAfterPrefix(whole, '.', [DigitChar(f / 10)]);
      assert s == whole + ['.'] + [DigitChar(f / 10)];
      assert s[..|whole|] == whole;
      assert s[|whole| + 1..] == [DigitChar(f / 10)];
    } else {
      IndexOfAfterPrefix(whole, '.', [DigitChar(f / 10), DigitChar(f % 10)]);
      assert s == whole + ['.'] + [DigitChar(f / 10), DigitChar(f % 10)];
      assert s[..|whole|] == whole;
      assert s[|whole| + 1..] == [DigitChar(f / 10), DigitChar(f % 10)];
    }
  }
}
