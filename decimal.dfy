/** Decimal rendering of integers, as Python's `str(n)`, `"%d"` and `"%02d"` produce it,
    together with the digit-string parser that undoes it. */
module Decimal {

  predicate IsDigit(c: char) {
    '0' <= c <= '9'
  }

  predicate AllDigits(s: string) {
    forall i | 0 <= i < |s| :: IsDigit(s[i])
  }

  /** The character of the decimal digit `d`. */
  function DigitChar(d: nat): (c: char)
    requires d < 10
    ensures IsDigit(c) && c as int - '0' as int == d
  {
    ('0' as int + d) as char
  }

  /** The value of a decimal digit character. */
  function DigitValue(c: char): (d: nat)
    requires IsDigit(c)
    ensures d < 10 && DigitChar(d) == c
  {
    c as int - '0' as int
  }

  /** `str(n)` for a non-negative integer: its decimal digits, most significant first. */
  function NatToStr(n: nat): (s: string)
    ensures 1 <= |s| && AllDigits(s)
    ensures s[0] == '0' ==> n == 0
    ensures n < 10 <==> |s| == 1
    decreases n
  {
    if n < 10 then [DigitChar(n)] else NatToStr(n / 10) + [DigitChar(n % 10)]
  }

  /** The value of a string of decimal digits, most significant first (`int(s)`). */
  function ParseNat(s: string): (n: nat)
    requires AllDigits(s)
  {
    if s == [] then 0 else 10 * ParseNat(s[..|s| - 1]) + DigitValue(s[|s| - 1])
  }

  /** Parsing the rendering of `n` gives `n` back. */
  lemma {:induction false} ParseNatToStr(n: nat)
    ensures ParseNat(NatToStr(n)) == n
    decreases n
  {
    if n >= 10 {
      var s := NatToStr(n);
      assert s[..|s| - 1] == NatToStr(n / 10);
      ParseNatToStr(n / 10);
    }
  }

  /** `str(i)` / `"%d" % i` for any integer: a minus sign before the digits of `|i|`. */
  function IntToStr(i: int): (s: string)
    ensures s != [] && ((i < 0) <==> (s[0] == '-'))
    ensures var d := if i < 0 then s[1..] else s;
      d != [] && AllDigits(d) && ParseNat(d) == (if i < 0 then -i else i)
  {
    var n := if i < 0 then -i else i;
    ParseNatToStr(n);
    var digits := NatToStr(n);
    var s := if i < 0 then "-" + digits else digits;
    assert i < 0 ==> s[1..] == digits;
    s
  }

  /** `"%02d" % n` for `0 <= n < 100`: exactly two digits, zero-filled on the left. */
  function Pad2(n: nat): (s: string)
    requires n < 100
    ensures |s| == 2 && AllDigits(s) && ParseNat(s) == n
    ensures 10 <= n ==> s == NatToStr(n)
    ensures n < 10 ==> s == "0" + NatToStr(n)
  {
    var s := [DigitChar(n / 10), DigitChar(n % 10)];
    assert ParseNat(s[..1]) == n / 10 by { assert s[..1][..0] == []; }
    s
  }
}
