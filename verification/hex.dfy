/** Python's hex() rendering of an integer, used in the text a FixedLengthString read returns,
    together with a parser that recovers the integer. */
module Hex {

  predicate IsHexDigit(c: char)
  {
    '0' <= c <= '9' || 'a' <= c <= 'f'
  }

  function DigitValue(c: char): (d: nat)
    requires IsHexDigit(c)
    ensures d < 16
  {
    if c <= '9' then c as int - '0' as int else c as int - 'a' as int + 10
  }

  /** The lower-case hexadecimal digit for d. */
  function DigitChar(d: nat): (c: char)
    requires d < 16
    ensures IsHexDigit(c) && DigitValue(c) == d
  {
    if d < 10 then ('0' as int + d) as char else ('a' as int + d - 10) as char
  }

  /** The hexadecimal digits of n, most significant first, without leading zeros. */
  function Digits(n: nat): (s: string)
    ensures |s| >= 1
    ensures forall i :: 0 <= i < |s| ==> IsHexDigit(s[i])
    ensures n > 0 ==> s[0] != '0'
  {
    if n < 16 then [DigitChar(n)] else Digits(n / 16) + [DigitChar(n % 16)]
  }

  /** The value of a string of hexadecimal digits. */
  function ParseDigits(s: string): nat
    requires forall i :: 0 <= i < |s| ==> IsHexDigit(s[i])
  {
    if |s| == 0 then 0 else 16 * ParseDigits(s[..|s| - 1]) + DigitValue(s[|s| - 1])
  }

  lemma {:induction false} ParseDigitsOfDigits(n: nat)
    ensures ParseDigits(Digits(n)) == n
  {
    var s := Digits(n);
    if n >= 16 {
      assert s[..|s| - 1] == Digits(n / 16);
      ParseDigitsOfDigits(n / 16);
    }
  }

  /** hex(n): "0x" and the digits, with a leading "-" for negative n. */
  function PyHex(n: int): (s: string)
    ensures n >= 0 ==> |s| >= 3 && s[..2] == "0x"
    ensures n < 0 ==> |s| >= 4 && s[..3] == "-0x"
    ensures forall i :: (if n < 0 then 3 else 2) <= i < |s| ==> IsHexDigit(s[i])
  {
    if n < 0 then "-0x" + Digits(-n) else "0x" + Digits(n)
  }

  /** Reads back the integer hex() rendered. */
  function ParsePyHex(s: string): int
    requires |s| >= 2
    requires forall i :: (if s[0] == '-' then 3 else 2) <= i < |s| ==> IsHexDigit(s[i])
  {
    if s[0] != '-' then ParseDigits(s[2..])
    else if |s| < 3 then 0
    else 0 - ParseDigits(s[3..]) as int
  }

  /** hex() loses no information: its text parses back to the same integer. */
  lemma PyHexRoundTrip(n: int)
    ensures ParsePyHex(PyHex(n)) == n
  {
    if n < 0 {
      assert PyHex(n)[3..] == Digits(-n);
      ParseDigitsOfDigits(-n);
    } else {
      assert PyHex(n)[2..] == Digits(n);
      ParseDigitsOfDigits(n);
    }
  }
}
