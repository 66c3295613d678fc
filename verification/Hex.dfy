/** Hexadecimal text as `printf` writes it with "%02X", and its reading back. */
module Hex {

  predicate IsHexDigit(c: char) {
    '0' <= c <= '9' || 'A' <= c <= 'F' || 'a' <= c <= 'f'
  }

  function Digit(n: nat): (c: char)
    requires n < 16
    ensures IsHexDigit(c) && DigitValue(c) == n
  {
    if n < 10 then '0' + n as char else 'A' + (n - 10) as char
  }

  function DigitValue(c: char): (n: nat)
    ensures n < 16
  {
    if '0' <= c <= '9' then c as int - '0' as int
    else if 'A' <= c <= 'F' then c as int - 'A' as int + 10
    else if 'a' <= c <= 'f' then c as int - 'a' as int + 10
    else 0
  }

  /** Two digits. */
  function Hex2(n: nat): (s: string)
    requires n < 256
    ensures |s| == 2 && IsHexDigit(s[0]) && IsHexDigit(s[1]) && ReadHex2(s) == n
  {
    [Digit(n / 16), Digit(n % 16)]
  }

  const HEX_DIGITS: string := "0123456789ABCDEF"

  lemma DigitIs(n: nat)
    requires n < 16
    ensures |HEX_DIGITS| == 16 && Digit(n) == HEX_DIGITS[n]
  {
  }

  /** The high digit stands first, both in capitals. */
  lemma Hex2Is(n: nat)
    requires n < 256
    ensures |HEX_DIGITS| == 16 && Hex2(n) == [HEX_DIGITS[n / 16], HEX_DIGITS[n % 16]]
  {
    DigitIs(n / 16);
    DigitIs(n % 16);
  }

  /** The value of the first two digits. */
  function ReadHex2(s: string): (n: nat)
    requires |s| >= 2
    ensures n < 256
  {
    DigitValue(s[0]) * 16 + DigitValue(s[1])
  }

  /** "%02X" of any natural number: two digits, more when the number needs them. */
  function HexMin2(n: nat): (s: string)
    ensures |s| >= 2
    ensures n < 256 <==> |s| == 2
    ensures n < 256 ==> s == Hex2(n)
  {
    if n < 256 then Hex2(n) else HexMin2(n / 16) + [Digit(n % 16)]
  }
}
