/**
 The text part of an SMS (`sms_encode_text` in lib/sms_utils.c): characters become septets of the
 GSM 7-bit alphabet, septets are packed into octets (section 6.1.2.1 of 3GPP TS 23.038), octets
 are written in hexadecimal after a length field.
 */
module SmsText {
  import opened Hex
  import opened Radix

  const ESCAPE := 0x1B

  /** The source's tables, cell by cell. */
  const GSM7: string :=
    "@£$¥èéùìòÇ\nØø\rÅå" +
    "Δ_ΦΓΛΩΠΨΣΘΞ@ÆæßÉ" +
    " !\"# %&'()*+,-./" +
    "0123456789:;<=>?" +
    "¡ABCDEFHGIJKLMNO" +
    "PQRSTUVWXYiÄÖÑÜ§" +
    "¿abcdefghijklmno" +
    "pqrstuvwxyzäüñüà"

  const GSM7_EXT: string :=
    "          \n     " +
    "    ^           " +
    "        {}     \\" +
    "            [~] " +
    "|               " +
    "                " +
    "     €          " +
    "                "

  lemma TableSizes()
    ensures |GSM7| == 128 == |GSM7_EXT|
  {
  }

  /** `wcschr`: the first cell holding the character, or the table's length. */
  function FirstIndex(table: string, c: char): (i: nat)
    ensures i <= |table|
    ensures i < |table| ==> table[i] == c
    ensures forall j :: 0 <= j < i ==> table[j] != c
    decreases table, c as int
  {
    if table == "" || table[0] == c then 0 else 1 + FirstIndex(table[1..], c)
  }

  function Plain(c: char): nat { FirstIndex(GSM7, c) }

  function Extended(c: char): nat { FirstIndex(GSM7_EXT, c) }

  /** The character is in one of the tables. */
  predicate Known(c: char) {
    Plain(c) < |GSM7| || Extended(c) < |GSM7_EXT|
  }

  function CharSeptets(c: char): seq<nat> {
    if Plain(c) < |GSM7| then [Plain(c)]
    else if Extended(c) < |GSM7_EXT| then [ESCAPE, Extended(c)]
    else []
  }

  function FlatMap<T>(f: char -> seq<T>, s: string): seq<T> {
    if s == "" then [] else f(s[0]) + FlatMap(f, s[1..])
  }

  function Septets(text: string): seq<nat> {
    FlatMap(CharSeptets, text)
  }

  /** The characters that are sent at all. */
  function Kept(text: string): string {
    if text == "" then "" else (if Known(text[0]) then [text[0]] else "") + Kept(text[1..])
  }

  // ----- packing -----

  /** Septet i occupies the bits from 7 i on of one long number, and octets are its bytes. */
  function Pack(septets: seq<nat>): seq<nat> {
    Digits(8, Value(7, septets), (7 * |septets| + 7) / 8)
  }

  function Unpack(octets: seq<nat>, n: nat): seq<nat> {
    Digits(7, Value(8, octets), n)
  }

  function HexOf(octets: seq<nat>): (s: string)
    requires DigitsBelow(octets, 256)
    ensures |s| == 2 * |octets|
    decreases |octets|
  {
    if octets == [] then "" else Hex2(octets[0]) + HexOf(octets[1..])
  }

  function UnHex(s: string): (octets: seq<nat>)
    ensures |octets| == |s| / 2
    decreases |s|
  {
    if |s| < 2 then [] else [ReadHex2(s)] + UnHex(s[2..])
  }

  lemma PackIsBytes(septets: seq<nat>)
    ensures DigitsBelow(Pack(septets), 256)
  {
    Pow2Values();
    DigitsAreBelow(8, Value(7, septets), (7 * |septets| + 7) / 8);
  }

  /** The encoded text: the length field is the first two digits of "%02X". */
  function TextPdu(text: string): string {
    PackIsBytes(Septets(text));
    HexMin2(|Septets(text)|)[..2] + HexOf(Pack(Septets(text)))
  }

  /**
   The state of the packing loop: `octets` are written, `bits` bits of the accumulator `bit` are
   waiting, and together they are the number made of all septets seen.
   */
  ghost predicate Packed(septets: seq<nat>, octets: seq<nat>, bit: nat, bits: nat) {
    && DigitsBelow(septets, 128) && DigitsBelow(octets, 256)
    && bit < Pow2(bits)
    && 8 * |octets| + bits == 7 * |septets|
    && Value(8, octets) + bit * Pow2(8 * |octets|) == Value(7, septets)
  }

  lemma PushSeptet(septets: seq<nat>, octets: seq<nat>, bit: nat, bits: nat, x: nat)
    requires Packed(septets, octets, bit, bits) && x < 128
    ensures Packed(septets + [x], octets, BitOr(bit, Shift(x, bits)), bits + 7)
  {
    OrAbove(bit, x, bits);
    var k := 8 * |octets|;
    ValueAppend(7, septets, x);
    Pow2Add(k, bits);
    Pow2Add(bits, 7);
    Pow2Values();
    Regroup(bit, x, Pow2(bits), Pow2(k));
    OneMoreSeptet(bit, x, Pow2(bits));
  }

  lemma Regroup(bit: nat, x: nat, b: nat, k: nat)
    ensures (bit + x * b) * k == bit * k + x * (k * b)
  {
  }

  lemma OneMoreSeptet(bit: nat, x: nat, b: nat)
    requires bit < b && x < 128
    ensures bit + x * b < b * 128
  {
    assert x * b <= 127 * b;
  }

  lemma EmitOctet(septets: seq<nat>, octets: seq<nat>, bit: nat, bits: nat)
    requires Packed(septets, octets, bit, bits) && bits >= 8
    ensures Packed(septets, octets + [bit % 256], bit / 256, bits - 8)
  {
    var k := 8 * |octets|;
    ValueAppend(8, octets, bit % 256);
    Pow2Add(k, 8);
    Pow2Add(bits - 8, 8);
    Pow2Values();
    assert bit == bit % 256 + 256 * (bit / 256);
    Spread(bit % 256, bit / 256, Pow2(k));
  }

  lemma Spread(r: nat, q: nat, p: nat)
    ensures (r + 256 * q) * p == r * p + q * (p * 256)
  {
  }

  /** The last octet takes what is left; the octets are then the packed septets. */
  lemma FlushOctet(septets: seq<nat>, octets: seq<nat>, bit: nat, bits: nat)
    requires Packed(septets, octets, bit, bits) && bits < 8
    ensures Pack(septets) == if bits > 0 then octets + [bit % 256] else octets
  {
    Pow2Values();
    Pow2Mono(bits, 8);
    assert bit % 256 == bit;
    if bits > 0 {
      ValueAppend(8, octets, bit);
      LastOctet(|septets|, |octets|, bits);
      OctetsArePacked(septets, octets + [bit]);
    } else {
      NothingLeft(bit, Pow2(8 * |octets|));
      OctetsArePacked(septets, octets);
    }
  }

  lemma LastOctet(septets: nat, octets: nat, bits: nat)
    requires 8 * octets + bits == 7 * septets && 0 < bits < 8
    ensures octets + 1 == (7 * septets + 7) / 8
  {
  }

  lemma NothingLeft(bit: nat, p: nat)
    requires bit < Pow2(0)
    ensures bit * p == 0
  {
  }

  lemma OctetsArePacked(septets: seq<nat>, octets: seq<nat>)
    requires DigitsBelow(octets, 256) && Value(8, octets) == Value(7, septets)
    requires |octets| == (7 * |septets| + 7) / 8
    ensures Pack(septets) == octets
  {
    Pow2Values();
    DigitsOfValue(8, octets, |octets|);
    assert octets[..|octets|] == octets;
  }

  lemma {:induction false} HexAppend(octets: seq<nat>, x: nat)
    requires DigitsBelow(octets, 256) && x < 256
    ensures HexOf(octets + [x]) == HexOf(octets) + Hex2(x)
    decreases |octets|
  {
    if octets == [] {
      assert octets + [x] == [x] && [x][1..] == [];
    } else {
      assert (octets + [x])[1..] == octets[1..] + [x];
      HexAppend(octets[1..], x);
    }
  }

  lemma {:induction false} FlatMapStep<T>(f: char -> seq<T>, s: string, i: nat)
    requires i < |s|
    ensures FlatMap(f, s[..i + 1]) == FlatMap(f, s[..i]) + f(s[i])
  {
    if i == 0 {
      assert s[..1] == [s[0]] && s[..1][1..] == "" == s[..0];
    } else {
      FlatMapStep(f, s[1..], i - 1);
      assert s[..i + 1][1..] == s[1..][..i] && s[..i][1..] == s[1..][..i - 1];
    }
  }

  /** The two `wcschr` calls: the codes to send for a character, none if it is unknown. */
  method LookUp(c: char) returns (codes: seq<nat>)
    ensures codes == CharSeptets(c) && |codes| <= 2 && DigitsBelow(codes, 128)
  {
    TableSizes();
    var pos := FirstIndex(GSM7, c);
    if pos == |GSM7| {
      pos := FirstIndex(GSM7_EXT, c);
      if pos == |GSM7_EXT| {
        return [];
      }
      return [ESCAPE, pos];
    }
    return [pos];
  }

  /** Or-s the codes into the accumulator, which then holds at most 21 bits. */
  method Accumulate(codes: seq<nat>, bit0: nat, bits0: nat, ghost septets: seq<nat>, ghost octets: seq<nat>)
    returns (bit: nat, bits: nat)
    requires |codes| <= 2 && DigitsBelow(codes, 128)
    requires Packed(septets, octets, bit0, bits0) && bits0 < 8
    ensures Packed(septets + codes, octets, bit, bits)
    ensures bits <= 21 && bit < Pow2(21)
  {
    bit, bits := bit0, bits0;
    var j := 0;
    ghost var seen := septets;
    while j < |codes|
      invariant 0 <= j <= |codes|
      invariant seen == septets + codes[..j]
      invariant Packed(seen, octets, bit, bits) && bits == bits0 + 7 * j
    {
      PushSeptet(seen, octets, bit, bits, codes[j]);
      seen := seen + [codes[j]];
      bit := BitOr(bit, Shift(codes[j], bits));
      bits := bits + 7;
      j := j + 1;
    }
    assert codes[..j] == codes;
    Pow2Mono(bits, 21);
  }

  /** Writes whole octets until fewer than eight bits wait. */
  method Drain(bit0: nat, bits0: nat, out0: string, ghost septets: seq<nat>, ghost octets0: seq<nat>)
    returns (bit: nat, bits: nat, out: string, ghost octets: seq<nat>)
    requires Packed(septets, octets0, bit0, bits0) && out0 == HexOf(octets0)
    ensures Packed(septets, octets, bit, bits) && bits < 8 && out == HexOf(octets)
  {
    bit, bits, out, octets := bit0, bits0, out0, octets0;
    while bits >= 8
      invariant Packed(septets, octets, bit, bits)
      invariant out == HexOf(octets)
    {
      EmitOctet(septets, octets, bit, bits);
      HexAppend(octets, bit % 256);
      octets := octets + [bit % 256];
      out := out + Hex2(bit % 256);
      bit := bit / 256;
      bits := bits - 8;
    }
  }

  /** `sms_encode_text`. */
  method EncodeText(text: string) returns (pdu: string)
    ensures pdu == TextPdu(text)
  {
    var out := "";
    var bit: nat, bits: nat, len: nat := 0, 0, 0;
    ghost var octets: seq<nat> := [];
    var i := 0;
    while i < |text|
      invariant 0 <= i <= |text|
      invariant len == |Septets(text[..i])|
      invariant Packed(Septets(text[..i]), octets, bit, bits) && bits < 8
      invariant out == HexOf(octets)
    {
      FlatMapStep(CharSeptets, text, i);
      ghost var septets := Septets(text[..i]);
      var codes := LookUp(text[i]);
      bit, bits := Accumulate(codes, bit, bits, septets, octets);
      len := len + |codes|;
      bit, bits, out, octets := Drain(bit, bits, out, septets + codes, octets);
      i := i + 1;
    }
    assert text[..i] == text;
    FlushOctet(Septets(text), octets, bit, bits);
    if bits > 0 {
      HexAppend(octets, bit % 256);
      out := out + Hex2(bit % 256);
    }
    pdu := HexMin2(len)[..2] + out;
  }

  // ----- what is sent, cell by cell and bit by bit -----

  /** The first cell of the table that holds the character. */
  predicate FirstCell(table: string, c: char, i: nat) {
    i < |table| && table[i] == c && forall j :: 0 <= j < i ==> table[j] != c
  }

  predicate InNoCell(table: string, c: char) {
    forall i :: 0 <= i < |table| ==> table[i] != c
  }

  /**
   The septets of a character: its first cell; for a character in the extension table alone, the
   escape code 0x1B and its first cell there; for any other nothing.
   */
  lemma SeptetsByCell(c: char)
    ensures forall i: nat :: FirstCell(GSM7, c, i) ==> CharSeptets(c) == [i]
    ensures InNoCell(GSM7, c) ==> forall i: nat :: FirstCell(GSM7_EXT, c, i) ==> CharSeptets(c) == [0x1B, i]
    ensures InNoCell(GSM7, c) && InNoCell(GSM7_EXT, c) ==> CharSeptets(c) == []
  {
    IndexByCell(GSM7, c);
    IndexByCell(GSM7_EXT, c);
  }

  lemma IndexByCell(table: string, c: char)
    ensures forall i: nat :: FirstCell(table, c, i) ==> FirstIndex(table, c) == i
    ensures InNoCell(table, c) <==> FirstIndex(table, c) == |table|
  {
    var k := FirstIndex(table, c);
    forall i: nat | FirstCell(table, c, i) ensures k == i {
      assert !(i < k) && !(k < i);
    }
  }

  /**
   The layout of section 6.1.2.1: bit j of septet i is bit number 7 i + j of the octets, counted
   from the lowest bit of the first octet on.
   */
  lemma PackedBits(septets: seq<nat>, i: nat, j: nat)
    requires DigitsBelow(septets, 128) && i < |septets| && j < 7
    ensures var n := 7 * i + j;
      n / 8 < |Pack(septets)| && Bit(Pack(septets)[n / 8], n % 8) == Bit(septets[i], j)
  {
    var n, v := 7 * i + j, Value(7, septets);
    Pow2Values();
    DigitsOfValue(7, septets, |septets|);
    assert septets[..|septets|] == septets;
    DigitBits(7, v, |septets|, i, j);
    DigitBits(8, v, (7 * |septets| + 7) / 8, n / 8, n % 8);
    assert 8 * (n / 8) + n % 8 == n;
  }

  /** The bits behind the last septet are zero. */
  lemma FillBits(septets: seq<nat>, n: nat)
    requires DigitsBelow(septets, 128) && 7 * |septets| <= n && n / 8 < |Pack(septets)|
    ensures Bit(Pack(septets)[n / 8], n % 8) == 0
  {
    var v := Value(7, septets);
    Pow2Values();
    ValueBound(7, septets);
    Pow2Mono(7 * |septets|, n);
    DigitBits(8, v, (7 * |septets| + 7) / 8, n / 8, n % 8);
    assert 8 * (n / 8) + n % 8 == n;
    NoBitAbove(v, n);
  }

  /** Octet i is written in the hexadecimal digits 2 i and 2 i + 1. */
  lemma {:induction false} HexOfAt(octets: seq<nat>, i: nat)
    requires DigitsBelow(octets, 256) && i < |octets|
    ensures octets[i] < 256
    ensures HexOf(octets)[2 * i..2 * i + 2] == [HEX_DIGITS[octets[i] / 16], HEX_DIGITS[octets[i] % 16]]
    decreases |octets|
  {
    var h, t := Hex2(octets[0]), HexOf(octets[1..]);
    if i == 0 {
      assert (h + t)[..2] == h;
      Hex2Is(octets[0]);
    } else {
      HexOfAt(octets[1..], i - 1);
      assert (h + t)[2 * i..2 * i + 2] == t[2 * (i - 1)..2 * (i - 1) + 2];
    }
  }

  // ----- reading the text back -----

  /** The escape code of the standard's alphabet: the cell that holds U+001B. */
  const STANDARD_ESCAPE := 0x1B

  /** Undoes the escape with a pair of tables; an escape with nothing after it shows nothing. */
  function Unescape(basic: string, ext: string, septets: seq<nat>): string
    requires |basic| == 128 == |ext| && DigitsBelow(septets, 128)
    decreases |septets|
  {
    if septets == [] then ""
    else if septets[0] != STANDARD_ESCAPE then [basic[septets[0]]] + Unescape(basic, ext, septets[1..])
    else if |septets| == 1 then ""
    else [ext[septets[1]]] + Unescape(basic, ext, septets[2..])
  }

  /** Length field, octets, septets, characters. */
  function DecodeText(basic: string, ext: string, pdu: string): string
    requires |basic| == 128 == |ext| && |pdu| >= 2
  {
    var septets := Unpack(UnHex(pdu[2..]), ReadHex2(pdu));
    Pow2Values();
    DigitsAreBelow(7, Value(8, UnHex(pdu[2..])), ReadHex2(pdu));
    Unescape(basic, ext, septets)
  }

  lemma {:induction false} UnHexOfHex(octets: seq<nat>)
    requires DigitsBelow(octets, 256)
    ensures UnHex(HexOf(octets)) == octets
    decreases |octets|
  {
    if octets != [] {
      UnHexOfHex(octets[1..]);
      assert HexOf(octets)[2..] == HexOf(octets[1..]);
    }
  }

  /** No plain lookup yields the escape code: the '@' in its cell is found in cell 0. */
  lemma PlainIsNotEscape(c: char)
    ensures Plain(c) != ESCAPE
  {
    assert GSM7[0] == '@' == GSM7[ESCAPE];
  }

  lemma {:induction false} SeptetsAreBelow(text: string)
    ensures DigitsBelow(Septets(text), 128)
  {
    TableSizes();
    if text != "" {
      SeptetsAreBelow(text[1..]);
    }
  }

  /** What a reader with the given tables shows for one character. */
  function Shown(basic: string, ext: string, c: char): string
    requires |basic| == 128 == |ext|
  {
    TableSizes();
    if Plain(c) < |GSM7| then [basic[Plain(c)]]
    else if Extended(c) < |GSM7_EXT| then [ext[Extended(c)]]
    else ""
  }

  function ShownText(basic: string, ext: string, text: string): string
    requires |basic| == 128 == |ext|
  {
    if text == "" then "" else Shown(basic, ext, text[0]) + ShownText(basic, ext, text[1..])
  }

  lemma {:induction false} UnescapeSeptets(basic: string, ext: string, text: string)
    requires |basic| == 128 == |ext|
    ensures DigitsBelow(Septets(text), 128)
    ensures Unescape(basic, ext, Septets(text)) == ShownText(basic, ext, text)
  {
    SeptetsAreBelow(text);
    if text != "" {
      SeptetsAreBelow(text[1..]);
      UnescapeSeptets(basic, ext, text[1..]);
      UnescapeFirst(basic, ext, text[0], Septets(text[1..]));
    }
  }

  lemma UnescapeFirst(basic: string, ext: string, c: char, rest: seq<nat>)
    requires |basic| == 128 == |ext| && DigitsBelow(rest, 128) && DigitsBelow(CharSeptets(c) + rest, 128)
    ensures Unescape(basic, ext, CharSeptets(c) + rest) == Shown(basic, ext, c) + Unescape(basic, ext, rest)
  {
    TableSizes();
    PlainIsNotEscape(c);
    var head := CharSeptets(c);
    if |head| == 0 {
      assert head + rest == rest;
      assert Shown(basic, ext, c) + Unescape(basic, ext, rest) == Unescape(basic, ext, rest);
    } else {
      assert (head + rest)[|head|..] == rest;
      assert (head + rest)[0] == head[0] && (|head| == 2 ==> (head + rest)[1] == head[1]);
    }
  }

  lemma {:induction false} OwnTablesShowKept(text: string)
    requires |GSM7| == 128 == |GSM7_EXT|
    ensures ShownText(GSM7, GSM7_EXT, text) == Kept(text)
  {
    if text != "" {
      OwnTablesShowKept(text[1..]);
    }
  }

  /** Every escape has its second septet. */
  predicate Closed(septets: seq<nat>)
    decreases |septets|
  {
    septets == [] ||
    (if septets[0] == STANDARD_ESCAPE then |septets| >= 2 && Closed(septets[2..]) else Closed(septets[1..]))
  }

  lemma {:induction false} SeptetsAreClosed(text: string)
    ensures Closed(Septets(text))
  {
    if text != "" {
      SeptetsAreClosed(text[1..]);
      PlainIsNotEscape(text[0]);
      var head := CharSeptets(text[0]);
      assert Septets(text)[|head|..] == Septets(text[1..]);
    }
  }

  lemma SliceOfSlice(s: seq<nat>, m: nat, k: nat)
    requires k <= m <= |s|
    ensures s[..m][k..] == s[k..][..m - k]
  {
  }

  /** Reading fewer septets than were sent always shows fewer characters. */
  lemma {:induction false} PrefixShowsLess(basic: string, ext: string, septets: seq<nat>, m: nat)
    requires |basic| == 128 == |ext| && DigitsBelow(septets, 128)
    requires Closed(septets) && m < |septets|
    ensures |Unescape(basic, ext, septets[..m])| < |Unescape(basic, ext, septets)|
    decreases |septets|
  {
    var step := if septets[0] == STANDARD_ESCAPE then 2 else 1;
    UnescapeStep(basic, ext, septets, step);
    if m >= step {
      PrefixShowsLess(basic, ext, septets[step..], m - step);
      SliceOfSlice(septets, m, step);
      UnescapeStep(basic, ext, septets[..m], step);
    } else {
      NothingShown(basic, ext, septets[..m]);
    }
  }

  lemma UnescapeStep(basic: string, ext: string, s: seq<nat>, step: nat)
    requires |basic| == 128 == |ext| && DigitsBelow(s, 128)
    requires s != [] && step == (if s[0] == STANDARD_ESCAPE then 2 else 1) <= |s|
    ensures |Unescape(basic, ext, s)| == 1 + |Unescape(basic, ext, s[step..])|
  {
  }

  lemma NothingShown(basic: string, ext: string, s: seq<nat>)
    requires |basic| == 128 == |ext| && DigitsBelow(s, 128)
    requires s == [] || (|s| == 1 && s[0] == STANDARD_ESCAPE)
    ensures Unescape(basic, ext, s) == ""
  {
  }

  /** Unpacking with any count up to the number of septets gives a prefix of them. */
  lemma UnpackPrefix(septets: seq<nat>, m: nat)
    requires DigitsBelow(septets, 128) && m <= |septets|
    ensures Unpack(Pack(septets), m) == septets[..m]
  {
    PackedValue(septets);
    Pow2Values();
    DigitsOfValue(7, septets, m);
  }

  /** Packing loses nothing: the octets stand for the same number as the septets. */
  lemma PackedValue(septets: seq<nat>)
    requires DigitsBelow(septets, 128)
    ensures Value(8, Pack(septets)) == Value(7, septets)
  {
    Pow2Values();
    ValueBound(7, septets);
    var n := (7 * |septets| + 7) / 8;
    Pow2Mono(7 * |septets|, 8 * n);
    ValueOfDigits(8, Value(7, septets), n);
  }

  /** What a reader of the encoded text sees: the first septets, as many as the length field says. */
  lemma DecodeOfTextPdu(basic: string, ext: string, text: string)
    requires |basic| == 128 == |ext|
    ensures var s, n := Septets(text), ReadHex2(TextPdu(text));
      && DigitsBelow(s, 128)
      && (|s| <= 255 ==> n == |s|)
      && (|s| > 255 ==> n < |s|)
      && n <= |s|
      && DecodeText(basic, ext, TextPdu(text)) == Unescape(basic, ext, s[..n])
  {
    var s := Septets(text);
    SeptetsAreBelow(text);
    PackIsBytes(s);
    var pdu := TextPdu(text);
    assert pdu[2..] == HexOf(Pack(s));
    UnHexOfHex(Pack(s));
    UnpackPrefix(s, ReadHex2(pdu));
  }

  /**
   Main theorem: reading the octets with the length field and undoing the escape gives back the
   text without its unknown characters if and only if it has at most 255 septets.
   */
  lemma TextRoundTripIff(text: string)
    ensures |GSM7| == 128 == |GSM7_EXT|
    ensures DecodeText(GSM7, GSM7_EXT, TextPdu(text)) == Kept(text) <==> |Septets(text)| <= 255
  {
    TableSizes();
    DecodeOfTextPdu(GSM7, GSM7_EXT, text);
    UnescapeSeptets(GSM7, GSM7_EXT, text);
    OwnTablesShowKept(text);
    var s, n := Septets(text), ReadHex2(TextPdu(text));
    if |s| <= 255 {
      assert s[..n] == s;
    } else {
      SeptetsAreClosed(text);
      PrefixShowsLess(GSM7, GSM7_EXT, s, n);
    }
  }

  /** The characters written, with the terminator. */
  function Needed(text: string): nat {
    |TextPdu(text)| + 1
  }

  /**
   The room the source makes, (i * 7) / 4 + 3 bytes for i characters, holds what is written exactly
   when fewer septets than characters are sent, or as many and a multiple of eight.
   */
  lemma RoomSufficesIff(text: string)
    ensures var i, n := |text|, |Septets(text)|;
      Needed(text) <= i * 7 / 4 + 3 <==> n < i || (n == i && n % 8 == 0)
  {
    PackIsBytes(Septets(text));
    RoomArithmetic(|text|, |Septets(text)|);
  }

  lemma RoomArithmetic(i: nat, n: nat)
    ensures 2 * ((7 * n + 7) / 8) <= i * 7 / 4 <==> n < i || (n == i && n % 8 == 0)
  {
    var octets := (7 * n + 7) / 8;
    assert 8 * octets <= 7 * n + 7 < 8 * octets + 8;
    assert 2 * octets <= i * 7 / 4 <==> 8 * octets <= 7 * i;
    if n == i {
      var q, r := n / 8, n % 8;
      assert n == 8 * q + r;
      assert octets == 7 * q + (7 * r + 7) / 8;
    }
  }
}
