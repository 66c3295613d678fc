/**
 Decimal text: what `printf` writes for "%ld" and "%.3f", and what `strtod` reads of a plain
 decimal number. Numbers with a fraction are counted in thousandths.
 */
module Decimal {
  import opened Radix

  predicate IsDigit(c: char) {
    '0' <= c <= '9'
  }

  function DigitChar(n: nat): (c: char)
    requires n < 10
    ensures IsDigit(c) && DigitOf(c) == n
  {
    '0' + n as char
  }

  function DigitOf(c: char): (n: nat)
    ensures n < 10
  {
    if IsDigit(c) then c as int - '0' as int else 0
  }

  predicate AllDigits(s: string) {
    forall i :: 0 <= i < |s| ==> IsDigit(s[i])
  }

  // ----- natural numbers -----

  function NatText(n: nat): (s: string)
    ensures |s| > 0 && AllDigits(s)
  {
    if n < 10 then [DigitChar(n)] else NatText(n / 10) + [DigitChar(n % 10)]
  }

  function Pow10(n: nat): (p: nat)
    ensures p > 0
  {
    if n == 0 then 1 else 10 * Pow10(n - 1)
  }

  /** Digit i from the right is the digit of 10 to the power i. */
  lemma {:induction false} NatTextDigits(n: nat, i: nat)
    requires i < |NatText(n)|
    ensures NatText(n)[|NatText(n)| - 1 - i] as int == 0x30 + n / Pow10(i) % 10
  {
    if i == 0 {
      LastDigit(n);
    } else {
      var t, c := NatText(n / 10), DigitChar(n % 10);
      NatTextDigits(n / 10, i - 1);
      LaterDigit(n, i);
      SkipLast(t, c, i);
    }
  }

  lemma LastDigit(n: nat)
    ensures NatText(n)[|NatText(n)| - 1] as int == 0x30 + n % 10
    ensures n / Pow10(0) == n
  {
  }

  lemma SkipLast(t: string, c: char, i: nat)
    requires 0 < i <= |t|
    ensures (t + [c])[|t + [c]| - 1 - i] == t[|t| - 1 - (i - 1)]
  {
  }

  /** The first digit is not zero, 0 itself excepted. */
  lemma {:induction false} NoLeadingZero(n: nat)
    requires n > 0
    ensures NatText(n)[0] != '0'
  {
    if n >= 10 {
      NoLeadingZero(n / 10);
    }
  }

  lemma LaterDigit(n: nat, i: nat)
    requires i > 0
    ensures n / 10 / Pow10(i - 1) == n / Pow10(i)
  {
    DivDiv(n, 10, Pow10(i - 1));
  }

  function NatValue(s: string): nat {
    if s == "" then 0 else NatValue(s[..|s| - 1]) * 10 + DigitOf(s[|s| - 1])
  }

  lemma NatValueAppend(s: string, c: char)
    ensures NatValue(s + [c]) == NatValue(s) * 10 + DigitOf(c)
  {
    assert (s + [c])[..|s|] == s;
  }

  lemma {:induction false} NatRoundTrip(n: nat)
    ensures NatValue(NatText(n)) == n
  {
    var e: string := [];
    if n < 10 {
      NatValueAppend(e, DigitChar(n));
      assert e + [DigitChar(n)] == NatText(n);
    } else {
      NatRoundTrip(n / 10);
      NatValueAppend(NatText(n / 10), DigitChar(n % 10));
    }
  }

  /** The digits a string starts with. */
  function LeadingDigits(s: string): (d: string)
    ensures |d| <= |s|
  {
    if s == "" || !IsDigit(s[0]) then "" else [s[0]] + LeadingDigits(s[1..])
  }

  lemma {:induction false} LeadingDigitsAre(d: string, rest: string)
    requires AllDigits(d) && (rest == "" || !IsDigit(rest[0]))
    ensures LeadingDigits(d + rest) == d
  {
    if d == "" {
      assert d + rest == rest;
    } else {
      assert (d + rest)[1..] == d[1..] + rest;
      LeadingDigitsAre(d[1..], rest);
    }
  }

  // ----- integers -----

  function IntText(z: int): string {
    if z < 0 then ['-'] + NatText(-z) else NatText(z)
  }

  /** The integer a string starts with and the number of characters it takes. */
  function ReadInt(s: string): (int, nat) {
    if s != "" && s[0] == '-' then
      var d := LeadingDigits(s[1..]);
      (-(NatValue(d) as int), 1 + |d|)
    else
      var d := LeadingDigits(s);
      (NatValue(d), |d|)
  }

  lemma NatReads(n: nat, rest: string)
    requires rest == "" || !IsDigit(rest[0])
    ensures LeadingDigits(NatText(n) + rest) == NatText(n) && NatValue(NatText(n)) == n
  {
    LeadingDigitsAre(NatText(n), rest);
    NatRoundTrip(n);
  }

  lemma ReadNegative(t: string, rest: string)
    requires LeadingDigits(t + rest) == t
    ensures ReadInt(['-'] + t + rest) == (-(NatValue(t) as int), 1 + |t|)
  {
    var s := ['-'] + t + rest;
    assert s[0] == '-' && s[1..] == t + rest;
  }

  lemma ReadPositive(t: string, rest: string)
    requires t != "" && IsDigit(t[0]) && LeadingDigits(t + rest) == t
    ensures ReadInt(t + rest) == (NatValue(t) as int, |t|)
  {
    assert (t + rest)[0] == t[0];
  }

  lemma IntReads(z: int, rest: string)
    requires rest == "" || !IsDigit(rest[0])
    ensures ReadInt(IntText(z) + rest) == (z, |IntText(z)|)
  {
    if z < 0 {
      var t := NatText(-z);
      NatReads(-z, rest);
      ReadNegative(t, rest);
      assert IntText(z) == ['-'] + t;
    } else {
      var t := NatText(z);
      NatReads(z, rest);
      ReadPositive(t, rest);
    }
  }

  // ----- thousandths -----

  function Three(n: nat): (s: string)
    requires n < 1000
    ensures |s| == 3 && AllDigits(s)
  {
    [DigitChar(n / 100), DigitChar(n / 10 % 10), DigitChar(n % 10)]
  }

  /** "%.3f" of a number of thousandths. */
  function FixedText(v: int): string {
    if v < 0 then ['-'] + UnsignedText(-v) else UnsignedText(v)
  }

  function UnsignedText(n: nat): string {
    NatText(n / 1000) + ['.'] + Three(n % 1000)
  }

  /** A point and three digits follow the whole thousands, after a minus sign for a number below zero. */
  lemma FixedLaidOut(v: int)
    ensures var n := if v < 0 then -v else v;
      var whole := NatText(n / 1000);
      var f := n % 1000;
      FixedText(v) == (if v < 0 then ['-'] else []) + whole +
        ['.', (0x30 + f / 100) as char, (0x30 + f / 10 % 10) as char, (0x30 + f % 10) as char]
  {
    var n: nat := if v < 0 then -v else v;
    var sign: string := if v < 0 then ['-'] else [];
    Spelled(sign, NatText(n / 1000), Three(n % 1000));
    assert v >= 0 ==> sign + UnsignedText(n) == UnsignedText(n);
  }

  lemma Spelled(sign: string, whole: string, three: string)
    requires |three| == 3
    ensures sign + (whole + ['.'] + three) == sign + whole + ['.', three[0], three[1], three[2]]
  {
  }

  function FractionDigit(d: string, i: nat): nat {
    if i < |d| then DigitOf(d[i]) else 0
  }

  /** Thousandths of the digits after the point; further digits are dropped. */
  function Fraction(d: string): nat {
    FractionDigit(d, 0) * 100 + FractionDigit(d, 1) * 10 + FractionDigit(d, 2)
  }

  /** An unsigned decimal number: value and characters taken, none taken if there is no digit. */
  function ReadUnsigned(s: string): (r: (nat, nat))
    ensures r.1 <= |s|
  {
    var whole := LeadingDigits(s);
    var rest := s[|whole|..];
    if rest != "" && rest[0] == '.' then
      var frac := LeadingDigits(rest[1..]);
      if |whole| + |frac| == 0 then (0, 0)
      else (NatValue(whole) * 1000 + Fraction(frac), |whole| + 1 + |frac|)
    else (NatValue(whole) * 1000, |whole|)
  }

  predicate IsSpace(c: char) {
    c == ' ' || c == '\t' || c == '\n' || c == '\r' || c == '\U{000B}' || c == '\U{000C}'
  }

  function Spaces(s: string): (n: nat)
    ensures n <= |s|
  {
    if s == "" || !IsSpace(s[0]) then 0 else 1 + Spaces(s[1..])
  }

  /** `strtod` on decimal numbers: white space, a sign, digits with an optional point. */
  function ReadDecimal(s: string): (r: (int, nat))
    ensures r.1 <= |s|
  {
    var n := Spaces(s);
    var t := s[n..];
    var signed := t != "" && (t[0] == '-' || t[0] == '+');
    var u := ReadUnsigned(if signed then t[1..] else t);
    if u.1 == 0 then (0, 0)
    else (if signed && t[0] == '-' then -(u.0 as int) else u.0, n + (if signed then 1 else 0) + u.1)
  }

  /** Whole numbers are read to their end too, white space before a number and a plus sign are passed over. */
  lemma WholeReads(n: nat)
    ensures ReadDecimal(NatText(n)) == (1000 * n, |NatText(n)|)
  {
    var t, e: string := NatText(n), [];
    NatReads(n, e);
    assert t + e == t && t[0..] == t && t[|t|..] == e;
    assert IsDigit(t[0]);
  }

  lemma BlankBefore(c: char, s: string)
    requires IsSpace(c)
    ensures ReadDecimal([c] + s) == if ReadDecimal(s).1 == 0 then (0, 0) else (ReadDecimal(s).0, 1 + ReadDecimal(s).1)
  {
    var t := [c] + s;
    assert t[1..] == s;
    assert t[Spaces(t)..] == s[Spaces(s)..];
  }

  lemma PlusBefore(n: nat)
    ensures ReadDecimal(['+'] + NatText(n)) == (1000 * n, 1 + |NatText(n)|)
  {
    var t, e: string := NatText(n), [];
    NatReads(n, e);
    assert t + e == t && t[|t|..] == e;
    var s := ['+'] + t;
    assert s[0..] == s && s[1..] == t;
  }

  lemma DotParts(w: string, f: string, rest: string)
    ensures var s := w + ['.'] + f + rest;
      && s == w + (['.'] + (f + rest)) && s[|w|..] == ['.'] + (f + rest)
      && (['.'] + (f + rest))[1..] == f + rest
  {
  }

  lemma UnsignedReads(n: nat, rest: string)
    requires rest == "" || !IsDigit(rest[0])
    ensures ReadUnsigned(UnsignedText(n) + rest) == (n, |UnsignedText(n)|)
    ensures |UnsignedText(n)| > 0 && IsDigit(UnsignedText(n)[0])
  {
    var w, f := NatText(n / 1000), Three(n % 1000);
    DotParts(w, f, rest);
    NatReads(n / 1000, ['.'] + (f + rest));
    LeadingDigitsAre(f, rest);
    ThreeIsFraction(n % 1000);
  }

  lemma ThreeIsFraction(n: nat)
    requires n < 1000
    ensures Fraction(Three(n)) == n
  {
    var s := Three(n);
    assert FractionDigit(s, 0) == n / 100 && FractionDigit(s, 1) == n / 10 % 10 && FractionDigit(s, 2) == n % 10;
    assert n / 10 == n / 100 * 10 + n / 10 % 10;
  }

  lemma SignedReads(t: string, rest: string)
    requires ReadUnsigned(t + rest).1 == |t| > 0
    ensures ReadDecimal(['-'] + t + rest) == (-(ReadUnsigned(t + rest).0 as int), 1 + |t|)
  {
    var s := ['-'] + t + rest;
    assert s[0] == '-' && s[0..] == s && s[1..] == t + rest;
  }

  lemma PlainReads(t: string, rest: string)
    requires ReadUnsigned(t + rest).1 == |t| > 0 && IsDigit(t[0])
    ensures ReadDecimal(t + rest) == (ReadUnsigned(t + rest).0 as int, |t|)
  {
    var s := t + rest;
    assert s[0] == t[0] && s[0..] == s;
  }

  /** Reading back what "%.3f" wrote, whatever follows that is not a digit. */
  lemma FixedReads(v: int, rest: string)
    requires rest == "" || !IsDigit(rest[0])
    ensures ReadDecimal(FixedText(v) + rest) == (v, |FixedText(v)|)
  {
    if v < 0 {
      UnsignedReads(-v, rest);
      SignedReads(UnsignedText(-v), rest);
    } else {
      UnsignedReads(v, rest);
      PlainReads(UnsignedText(v), rest);
    }
  }
}
