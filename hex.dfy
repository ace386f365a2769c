/** Upper-case hexadecimal rendering as done by .NET's "X<width>" numeric format,
    and the reading back of such a rendering. */
module Hex {

  predicate IsUpperHexDigit(c: char) {
    '0' <= c <= '9' || 'A' <= c <= 'F'
  }

  predicate IsUpperHex(s: string) {
    forall i :: 0 <= i < |s| ==> IsUpperHexDigit(s[i])
  }

  function DigitValue(c: char): (d: nat)
    requires IsUpperHexDigit(c)
    ensures d < 16
  {
    if c <= '9' then c as int - '0' as int else c as int - 'A' as int + 10
  }

  function Digit(d: nat): (c: char)
    requires d < 16
    ensures IsUpperHexDigit(c) && DigitValue(c) == d
  {
    if d < 10 then ('0' as int + d) as char else ('A' as int + d - 10) as char
  }

  /** `n.ToString("X" + width)`: the digits of `n` in base 16, upper case,
      left-padded with '0' to at least `width` characters. No '0' leads a rendering
      longer than the width, except the single digit of zero. */
  function Format(n: nat, width: nat): (s: string)
    ensures IsUpperHex(s)
    ensures 1 <= |s| && width <= |s|
    ensures |s| > 1 && |s| > width ==> s[0] != '0'
    ensures |s| == 1 ==> n < 16 && s == [Digit(n)]
    decreases n, width
  {
    if n < 16 && width <= 1 then [Digit(n)]
    else
      var w := if width == 0 then 0 else width - 1;
      var high := Format(n / 16, w);
      assert |high| == 1 && |high| > w ==> n / 16 > 0;
      high + [Digit(n % 16)]
  }

  /** The "X2" format used for escape codes and digest bytes. */
  function X2(n: nat): string {
    Format(n, 2)
  }

  /** The number a string of upper-case hex digits denotes. */
  function Value(s: string): nat
    requires IsUpperHex(s)
  {
    if s == [] then 0 else Value(s[..|s| - 1]) * 16 + DigitValue(s[|s| - 1])
  }

  /** Reading a formatted number back gives the number. */
  lemma {:induction false} FormatRoundTrip(n: nat, width: nat)
    ensures Value(Format(n, width)) == n
    decreases n, width
  {
    var s := Format(n, width);
    if n < 16 && width <= 1 {
      assert s[..|s| - 1] == [];
    } else {
      var w := if width == 0 then 0 else width - 1;
      FormatRoundTrip(n / 16, w);
      assert s[..|s| - 1] == Format(n / 16, w);
    }
  }

  /** A pair of digits denotes sixteen times the first plus the second. */
  lemma PairValue(s: string)
    requires |s| == 2 && IsUpperHex(s)
    ensures IsUpperHexDigit(s[0]) && IsUpperHexDigit(s[1])
    ensures Value(s) == DigitValue(s[0]) * 16 + DigitValue(s[1])
  {
    var first := s[..1];
    assert first[..0] == [] && first[0] == s[0];
    assert Value(first) == DigitValue(s[0]);
  }

  /** A value below 256 (a byte, an ASCII or Latin-1 code) renders as exactly two digits. */
  lemma X2Length(n: nat)
    ensures n < 256 ==> |X2(n)| == 2
  {
    if n < 256 {
      assert n / 16 < 16;
      assert Format(n / 16, 1) == [Digit(n / 16)];
    }
  }
}
