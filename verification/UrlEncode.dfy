/** URL encoding of template values (`mp_template_urlencode` in lib/mp_template.c). */
module UrlEncode {
  import opened Hex

  /** A C string: bytes held as characters below 256, no NUL. */
  ghost predicate CString(s: string) {
    forall i :: 0 <= i < |s| ==> 0 < s[i] as int < 256
  }

  ghost predicate SevenBit(s: string) {
    forall i :: 0 <= i < |s| ==> s[i] as int < 128
  }

  predicate Unreserved(c: char) {
    || 'a' <= c <= 'z' || 'A' <= c <= 'Z' || '0' <= c <= '9'
    || c == '-' || c == '_' || c == '.' || c == '~'
  }

  /**
   The text of one character. `char` is signed, so a byte from 128 on is a negative int and
   "%02X" prints all eight digits of it.
   */
  function EncodeChar(c: char): string
    requires c as int < 256
  {
    if Unreserved(c) then [c]
    else if c as int < 128 then "%" + Hex2(c as int)
    else "%FFFFFF" + Hex2(c as int)
  }

  function Encode(s: string): string
    requires CString(s)
  {
    if s == "" then "" else EncodeChar(s[0]) + Encode(s[1..])
  }

  /** The codes of the unreserved characters: letters, digits, hyphen, point, underscore and tilde. */
  predicate UnreservedCode(n: int) {
    || 0x41 <= n <= 0x5A || 0x61 <= n <= 0x7A || 0x30 <= n <= 0x39
    || n == 0x2D || n == 0x2E || n == 0x5F || n == 0x7E
  }

  /** One byte: itself if unreserved, or its triple; from 128 on with the six digits of its sign before. */
  lemma ByteEncoded(c: char)
    requires 0 < c as int < 256
    ensures |HEX_DIGITS| == 16
    ensures var n := c as int;
      Encode([c]) ==
        if UnreservedCode(n) then [c]
        else if n < 128 then ['%', HEX_DIGITS[n / 16], HEX_DIGITS[n % 16]]
        else ['%', 'F', 'F', 'F', 'F', 'F', 'F', HEX_DIGITS[n / 16], HEX_DIGITS[n % 16]]
  {
    Hex2Is(c as int);
    var e := EncodeChar(c);
    assert [c][1..] == [] && Encode([]) == [];
    assert e + [] == e;
  }

  lemma EncodeCons(c: char, s: string)
    requires 0 < c as int < 256 && CString(s)
    ensures CString([c] + s) && Encode([c] + s) == EncodeChar(c) + Encode(s)
  {
    assert ([c] + s)[1..] == s;
  }

  lemma Associative(a: string, b: string, c: string)
    ensures a + (b + c) == a + b + c
  {
  }

  lemma EncodeStepBefore(c: char, rest: string, t: string)
    requires 0 < c as int < 256 && CString(rest) && CString(t) && CString(rest + t)
    requires Encode(rest + t) == Encode(rest) + Encode(t)
    ensures CString([c] + rest) && CString([c] + rest + t)
    ensures Encode([c] + rest + t) == Encode([c] + rest) + Encode(t)
  {
    EncodeCons(c, rest);
    EncodeCons(c, rest + t);
    Associative([c], rest, t);
    Associative(EncodeChar(c), Encode(rest), Encode(t));
  }

  /** And bytes one after the other. */
  lemma {:induction false} EncodedInTurn(s: string, t: string)
    requires CString(s) && CString(t)
    ensures CString(s + t) && Encode(s + t) == Encode(s) + Encode(t)
  {
    if s == "" {
      assert s + t == t && Encode(s) + Encode(t) == Encode(t);
    } else {
      EncodedInTurn(s[1..], t);
      EncodeStepBefore(s[0], s[1..], t);
      assert s == [s[0]] + s[1..];
    }
  }

  function Reserved(s: string): nat {
    if s == "" then 0 else Reserved(s[1..]) + if Unreserved(s[0]) then 0 else 1
  }

  /** Both passes; `size` is the number of characters the first pass makes room for. */
  method UrlEncode(s: string) returns (out: string, size: nat)
    requires CString(s)
    ensures out == Encode(s)
    ensures size == |s| + 2 * Reserved(s)
    ensures size == |out| <==> SevenBit(s)
  {
    var len, i := 0, 0;
    while i < |s|
      invariant 0 <= i <= |s|
      invariant len + 2 * Reserved(s[i..]) == 2 * Reserved(s)
    {
      ReservedStep(s, i);
      if !Unreserved(s[i]) {
        len := len + 2;
      }
      i := i + 1;
    }
    SizeIff(s);
    if len == 0 {
      NothingToEncode(s);
      return s, |s|;
    }
    size := len + |s|;
    out, i := "", 0;
    while i < |s|
      invariant 0 <= i <= |s|
      invariant CString(s[i..])
      invariant out + Encode(s[i..]) == Encode(s)
    {
      EncodeStep(out, s, i);
      var e: string := [s[i]];
      if !Unreserved(s[i]) {
        e := (if s[i] as int < 128 then "%" else "%FFFFFF") + Hex2(s[i] as int);
      }
      out := out + e;
      i := i + 1;
    }
    assert out + "" == out;
  }

  lemma ReservedStep(s: string, i: nat)
    requires i < |s|
    ensures Reserved(s[i..]) == Reserved(s[i + 1..]) + if Unreserved(s[i]) then 0 else 1
  {
    assert s[i..][1..] == s[i + 1..];
  }

  lemma EncodeStep(out: string, s: string, i: nat)
    requires i < |s| && CString(s[i..])
    ensures CString(s[i + 1..]) && s[i] as int < 256
    ensures out + Encode(s[i..]) == out + EncodeChar(s[i]) + Encode(s[i + 1..])
  {
    assert s[i..][1..] == s[i + 1..];
    var tail := Encode(s[i..][1..]);
    assert out + (EncodeChar(s[i]) + tail) == out + EncodeChar(s[i]) + tail;
  }

  lemma {:induction false} NothingToEncode(s: string)
    requires CString(s) && Reserved(s) == 0
    ensures Encode(s) == s
  {
    if s != "" {
      NothingToEncode(s[1..]);
    }
  }

  /** The number of bytes from 128 on. */
  function HighBytes(s: string): nat {
    if s == "" then 0 else HighBytes(s[1..]) + if s[0] as int < 128 then 0 else 1
  }

  lemma {:induction false} NoHighBytes(s: string)
    ensures HighBytes(s) == 0 <==> SevenBit(s)
  {
    if s != "" {
      NoHighBytes(s[1..]);
      assert forall i :: 0 < i < |s| ==> s[i] == s[1..][i - 1];
    }
  }

  lemma {:induction false} EncodedLength(s: string)
    requires CString(s)
    ensures |Encode(s)| == |s| + 2 * Reserved(s) + 6 * HighBytes(s)
  {
    if s != "" {
      EncodedLength(s[1..]);
    }
  }

  /** The room made by the first pass is what the second pass fills exactly for 7-bit strings. */
  lemma SizeIff(s: string)
    requires CString(s)
    ensures |s| + 2 * Reserved(s) == |Encode(s)| <==> SevenBit(s)
  {
    EncodedLength(s);
    NoHighBytes(s);
  }

  // ----- what a reader of the URL sees -----

  predicate Triple(t: string) {
    |t| >= 3 && t[0] == '%' && IsHexDigit(t[1]) && IsHexDigit(t[2])
  }

  /** Percent-decoding (section 2.1 of RFC 3986). */
  function Decode(t: string): string {
    if t == "" then ""
    else if Triple(t) then [ReadHex2(t[1..3]) as char] + Decode(t[3..])
    else [t[0]] + Decode(t[1..])
  }

  /** Only unreserved characters and percent triples (sections 2.1 and 2.3 of RFC 3986). */
  predicate Safe(t: string) {
    t == "" || (if Triple(t) then Safe(t[3..]) else Unreserved(t[0]) && Safe(t[1..]))
  }

  lemma {:induction false} EncodedIsSafe(s: string)
    requires CString(s)
    ensures Safe(Encode(s))
  {
    if s != "" {
      EncodedIsSafe(s[1..]);
      SafePrepend(EncodeChar(s[0]), s[0], Encode(s[1..]));
    }
  }

  lemma SafePrepend(e: string, c: char, t: string)
    requires c as int < 256 && e == EncodeChar(c) && Safe(t)
    ensures Safe(e + t)
  {
    if Unreserved(c) {
      assert (e + t)[1..] == t;
    } else if c as int < 128 {
      assert (e + t)[3..] == t;
    } else {
      PlainCharsSafe(e[3..] + t, e[3..], t);
      assert (e + t)[3..] == e[3..] + t;
    }
  }

  lemma {:induction false} PlainCharsSafe(u: string, e: string, t: string)
    requires u == e + t && Safe(t) && forall i :: 0 <= i < |e| ==> Unreserved(e[i])
    ensures Safe(u) && Decode(u) == e + Decode(t)
    decreases |e|
  {
    if e == "" {
      assert u == t;
    } else {
      PlainCharsSafe(e[1..] + t, e[1..], t);
      assert u == [e[0]] + (e[1..] + t);
      PlainCharSafe(e[0], e[1..] + t);
      assert e + Decode(t) == [e[0]] + (e[1..] + Decode(t));
    }
  }

  lemma PlainCharSafe(c: char, t: string)
    requires Unreserved(c) && Safe(t)
    ensures Safe([c] + t) && Decode([c] + t) == [c] + Decode(t)
  {
    assert ([c] + t)[1..] == t;
  }

  lemma DecodePrepend(c: char, t: string)
    requires 0 < c as int < 256 && Safe(t)
    ensures c as int < 128 ==> Decode(EncodeChar(c) + t) == [c] + Decode(t)
    ensures c as int >= 128 ==> |Decode(EncodeChar(c) + t)| == 7 + |Decode(t)|
  {
    var e := EncodeChar(c);
    if Unreserved(c) {
      assert (e + t)[1..] == t;
    } else if c as int < 128 {
      assert (e + t)[3..] == t && (e + t)[1..3] == Hex2(c as int);
    } else {
      assert (e + t)[3..] == e[3..] + t;
      PlainCharsSafe(e[3..] + t, e[3..], t);
    }
  }

  lemma {:induction false} DecodedLength(s: string)
    requires CString(s)
    ensures |Decode(Encode(s))| == |s| + 6 * HighBytes(s)
  {
    if s != "" {
      DecodedLength(s[1..]);
      EncodedIsSafe(s[1..]);
      DecodePrepend(s[0], Encode(s[1..]));
    }
  }

  lemma {:induction false} DecodesSevenBit(s: string)
    requires CString(s) && SevenBit(s)
    ensures Decode(Encode(s)) == s
  {
    if s != "" {
      DecodesSevenBit(s[1..]);
      EncodedIsSafe(s[1..]);
      DecodePrepend(s[0], Encode(s[1..]));
    }
  }

  /** Percent-decoding gives the input back exactly for 7-bit strings. */
  lemma RoundTripIff(s: string)
    requires CString(s)
    ensures Decode(Encode(s)) == s <==> SevenBit(s)
  {
    DecodedLength(s);
    NoHighBytes(s);
    if SevenBit(s) {
      DecodesSevenBit(s);
    }
  }
}
