/**
 Addresses and the whole PDU of an SMS (`sms_encode_number` and `sms_encode_pdu` in
 lib/sms_utils.c): semi-octets are swapped (section 9.1.2.5 of 3GPP TS 23.040).
 */
module SmsPdu {
  import opened Hex
  import opened Radix
  import opened SmsText
  import opened Wrappers

  /** The digits after a leading '+'. */
  function Body(number: string): string {
    if number != "" && number[0] == '+' then number[1..] else number
  }

  function International(number: string): bool {
    number != "" && number[0] == '+'
  }

  /** The digits pairwise swapped, the last pair filled up with 'F'. */
  function Swapped(digits: string): (s: string)
    ensures |s| == |digits| + |digits| % 2
  {
    if digits == "" then ""
    else if |digits| == 1 then ['F', digits[0]]
    else [digits[1], digits[0]] + Swapped(digits[2..])
  }

  function NumberPdu(number: string): string {
    (if International(number) then "91" else "81") + Swapped(Body(number))
  }

  lemma {:induction false} SwappedAt(digits: string, i: nat)
    requires i < |Swapped(digits)| && i % 2 == 0
    ensures i < |digits|
    ensures Swapped(digits)[i + 1] == digits[i]
    ensures Swapped(digits)[i] == if i + 1 < |digits| then digits[i + 1] else 'F'
    decreases |digits|
  {
    if i >= 2 {
      SwappedAt(digits[2..], i - 2);
    }
  }

  /** The pair of characters at an even offset of the digits. */
  lemma PairAt(number: string, i: nat)
    requires i < |Swapped(Body(number))| && i % 2 == 0
    ensures i < |Body(number)| && i + 3 < |NumberPdu(number)|
    ensures NumberPdu(number)[i + 3] == Body(number)[i]
    ensures NumberPdu(number)[i + 2] == if i + 1 < |Body(number)| then Body(number)[i + 1] else 'F'
  {
    SwappedAt(Body(number), i);
  }

  /** `sms_encode_number`: fills the destination pair by pair. */
  method EncodeNumber(number: string) returns (r: string)
    ensures r == NumberPdu(number)
  {
    var n := number;
    var len := |number|;
    if number != "" && number[0] == '+' {
      len := len - 1;
      n := number[1..];
    }
    len := len + len % 2;
    var dest := new char[len + 3](_ => '\0');
    dest[0] := if number != "" && number[0] == '+' then '9' else '8';
    dest[1] := '1';
    ghost var want := NumberPdu(number);
    var i := 0;
    while i < len
      invariant 0 <= i <= len && i % 2 == 0
      invariant forall j :: 0 <= j < i + 2 ==> dest[j] == want[j]
    {
      PairAt(number, i);
      dest[i + 3] := n[i];
      dest[i + 2] := if i + 1 < |n| then n[i + 1] else 'F';
      i := i + 2;
    }
    r := dest[..len + 2];
  }

  /** Swaps back; a filler in the last pair is not a digit. */
  function Unswapped(s: string): string
    decreases |s|
  {
    if |s| < 2 then ""
    else if |s| == 2 && s[0] == 'F' then [s[1]]
    else [s[1], s[0]] + Unswapped(s[2..])
  }

  predicate IsType(s: string, a: char, b: char)
    requires |s| >= 2
  {
    s[0] == a && s[1] == b
  }

  /** Type 0x91 is an international number, 0x81 any other; further types are not understood. */
  function DecodeNumber(s: string): string
    requires |s| >= 2
  {
    (if IsType(s, '9', '1') then "+" else if IsType(s, '8', '1') then "" else "?") + Unswapped(s[2..])
  }

  /** A number whose last digit reads as a filler. */
  predicate EndsInFiller(number: string) {
    var b := Body(number);
    b != "" && |b| % 2 == 0 && b[|b| - 1] == 'F'
  }

  lemma {:induction false} UnswapDigits(digits: string)
    ensures digits != "" && |digits| % 2 == 0 && digits[|digits| - 1] == 'F' ==>
            Unswapped(Swapped(digits)) == digits[..|digits| - 1]
    ensures !(digits != "" && |digits| % 2 == 0 && digits[|digits| - 1] == 'F') ==>
            Unswapped(Swapped(digits)) == digits
    decreases |digits|
  {
    if |digits| >= 2 {
      UnswapDigits(digits[2..]);
      assert Swapped(digits)[2..] == Swapped(digits[2..]);
      assert |digits| > 2 ==> digits[2..][|digits| - 3] == digits[|digits| - 1];
      assert |digits| == 2 ==> digits[2..] == "";
    }
  }

  /** Reading an address back gives the number if and only if it does not end in the filler. */
  lemma NumberRoundTripIff(number: string)
    ensures DecodeNumber(NumberPdu(number)) == number <==> !EndsInFiller(number)
  {
    UnswapDigits(Body(number));
    DecodedParts(number);
    if EndsInFiller(number) {
      assert |DecodeNumber(NumberPdu(number))| < |number|;
    }
  }

  function Mark(number: string): string {
    if International(number) then "+" else ""
  }

  lemma DecodedParts(number: string)
    ensures DecodeNumber(NumberPdu(number)) == Mark(number) + Unswapped(Swapped(Body(number)))
    ensures number == Mark(number) + Body(number)
  {
    assert NumberPdu(number)[2..] == Swapped(Body(number));
  }

  // ----- the whole PDU -----

  /** The format string of `sms_encode_pdu`, filled with encoded addresses and text. */
  function Layout(smsc: Option<string>, number: string, text: string): string
    requires |number| >= 2
  {
    (if smsc.Some? then HexMin2(|smsc.value| / 2) + smsc.value else "00") + Submit(number, text)
  }

  /** What follows the service centre. */
  function Submit(number: string, text: string): string
    requires |number| >= 2
  {
    "0500" + HexMin2(|number| - 2) + number + "0000" + text
  }

  /** What `sms_encode_pdu` writes. */
  function Pdu(smsc: Option<string>, number: string, text: string): string {
    Layout(if smsc.None? then None else Some(NumberPdu(smsc.value)), NumberPdu(number), TextPdu(text))
  }

  /** `sms_encode_pdu`. */
  method EncodePdu(smsc: Option<string>, number: string, text: string) returns (pdu: string)
    ensures pdu == Pdu(smsc, number, text)
  {
    var encNumber := EncodeNumber(number);
    var encText := EncodeText(text);
    var submit := "0500" + HexMin2(|encNumber| - 2) + encNumber + "0000" + encText;
    assert submit == Submit(NumberPdu(number), TextPdu(text));
    if smsc.Some? {
      var encSmsc := EncodeNumber(smsc.value);
      pdu := HexMin2(|encSmsc| / 2) + encSmsc + submit;
    } else {
      pdu := "00" + submit;
    }
  }

  datatype Sms = Sms(smsc: Option<string>, number: string, text: string)

  /** A reader that knows only the layout: each part is found through the length before it. */
  function Parts(pdu: string): Option<Sms> {
    if |pdu| < 2 then None
    else
      var k := 2 * ReadHex2(pdu);
      var rest := pdu[2..];
      if |rest| < k then None
      else SubmitParts(if k == 0 then None else Some(rest[..k]), rest[k..])
  }

  /** The four digits of two octets. */
  predicate IsOctets(s: string, i: nat, a: char, b: char, c: char, d: char) {
    i + 4 <= |s| && s[i] == a && s[i + 1] == b && s[i + 2] == c && s[i + 3] == d
  }

  /**
   The part after the service centre: a submission (0x05) with reference 0, the destination, and
   protocol and coding 0 before the text. Anything else is not understood.
   */
  function SubmitParts(smsc: Option<string>, s: string): Option<Sms> {
    if |s| < 6 || !IsOctets(s, 0, '0', '5', '0', '0') then None
    else
      var n := ReadHex2(s[4..]) + 2;
      var rest := s[6..];
      if |rest| < n + 6 || !IsOctets(rest, n, '0', '0', '0', '0') then None
      else Some(Sms(smsc, rest[..n], rest[n + 4..]))
  }

  /** Finds the parts and decodes each. */
  function DecodePdu(pdu: string): Option<Sms> {
    match Parts(pdu)
    case None => None
    case Some(Sms(smsc, number, text)) =>
      if (smsc.Some? && |smsc.value| < 2) || |number| < 2 || |text| < 2 then None
      else
        TableSizes();
        Some(Sms(if smsc.None? then None else Some(DecodeNumber(smsc.value)),
                 DecodeNumber(number), DecodeText(GSM7, GSM7_EXT, text)))
  }

  /** All three length fields fit their two digits. */
  predicate LengthsFit(smsc: Option<string>, number: string, text: string) {
    && (smsc.Some? ==> |NumberPdu(smsc.value)| / 2 <= 255)
    && |NumberPdu(number)| - 2 <= 255
    && |Septets(text)| <= 255
  }

  lemma MiddleOctets(enc: string, txt: string)
    ensures var rest := enc + "0000" + txt;
      && IsOctets(rest, |enc|, '0', '0', '0', '0')
      && rest[..|enc|] == enc && rest[|enc| + 4..] == txt
  {
  }

  lemma SubmitLayout(smsc: Option<string>, field: string, enc: string, txt: string)
    requires |field| == 2 && ReadHex2(field) + 2 == |enc| && |txt| >= 2
    ensures SubmitParts(smsc, "0500" + field + enc + "0000" + txt) == Some(Sms(smsc, enc, txt))
  {
    var s := "0500" + field + enc + "0000" + txt;
    assert s[4..][0] == field[0] && s[4..][1] == field[1];
    assert IsOctets(s, 0, '0', '5', '0', '0');
    MiddleOctets(enc, txt);
    assert s[6..] == enc + "0000" + txt;
  }

  lemma AddressLayout(field: string, enc: string, tail: string)
    requires |field| == 2 && 2 * ReadHex2(field) == |enc|
    ensures Parts(field + enc + tail) == SubmitParts(if enc == "" then None else Some(enc), tail)
  {
    var pdu := field + enc + tail;
    assert pdu[2..] == enc + tail;
    assert pdu[2..][..|enc|] == enc && pdu[2..][|enc|..] == tail;
  }

  lemma LayoutParts(smsc: Option<string>, number: string, text: string)
    requires smsc.Some? ==> 2 <= |smsc.value| <= 511 && |smsc.value| % 2 == 0
    requires 2 <= |number| <= 257 && |text| >= 2
    ensures Parts(Layout(smsc, number, text)) == Some(Sms(smsc, number, text))
  {
    var tail := Submit(number, text);
    var enc := if smsc.None? then "" else smsc.value;
    var field := if smsc.None? then "00" else HexMin2(|enc| / 2);
    assert Layout(smsc, number, text) == field + enc + tail;
    AddressLayout(field, enc, tail);
    SubmitLayout(smsc, HexMin2(|number| - 2), number, text);
  }

  /** What the reader finds in any PDU whose length fields fit. */
  lemma PduReads(smsc: Option<string>, number: string, text: string)
    requires LengthsFit(smsc, number, text)
    ensures DecodePdu(Pdu(smsc, number, text)) ==
      Some(Sms(if smsc.None? then None else Some(DecodeNumber(NumberPdu(smsc.value))),
               DecodeNumber(NumberPdu(number)), Kept(text)))
  {
    if smsc.None? {
      PartsRead(None, NumberPdu(number), text);
    } else {
      NumberPduLength(smsc.value);
      PartsRead(Some(NumberPdu(smsc.value)), NumberPdu(number), text);
    }
  }

  lemma NumberPduLength(number: string)
    ensures |NumberPdu(number)| >= 2 && |NumberPdu(number)| % 2 == 0
  {
    var n := |Body(number)|;
    assert |NumberPdu(number)| == 2 + n + n % 2;
    RoundedUpIsEven(n);
  }

  lemma RoundedUpIsEven(n: nat)
    ensures (2 + n + n % 2) % 2 == 0
  {
  }

  lemma PartsRead(smsc: Option<string>, number: string, text: string)
    requires smsc.Some? ==> 2 <= |smsc.value| <= 511 && |smsc.value| % 2 == 0
    requires 2 <= |number| <= 257 && |Septets(text)| <= 255
    ensures DecodePdu(Layout(smsc, number, TextPdu(text))) ==
      Some(Sms(if smsc.None? then None else Some(DecodeNumber(smsc.value)), DecodeNumber(number), Kept(text)))
  {
    LayoutParts(smsc, number, TextPdu(text));
    PartsDecode(Layout(smsc, number, TextPdu(text)), smsc, number, TextPdu(text));
    TextRoundTripIff(text);
  }

  lemma PartsDecode(pdu: string, smsc: Option<string>, number: string, text: string)
    requires Parts(pdu) == Some(Sms(smsc, number, text))
    requires (smsc.Some? ==> |smsc.value| >= 2) && |number| >= 2 && |text| >= 2
    ensures |GSM7| == 128 == |GSM7_EXT|
    ensures DecodePdu(pdu) ==
      Some(Sms(if smsc.None? then None else Some(DecodeNumber(smsc.value)),
               DecodeNumber(number), DecodeText(GSM7, GSM7_EXT, text)))
  {
    TableSizes();
  }

  /**
   Main theorem: whenever the length fields fit, the service centre or its absence, the
   destination with its international flag and the text are all recovered, if and only if no
   number ends in the filler.
   */
  lemma PduRoundTripIff(smsc: Option<string>, number: string, text: string)
    requires LengthsFit(smsc, number, text)
    ensures DecodePdu(Pdu(smsc, number, text)) == Some(Sms(smsc, number, Kept(text))) <==>
            !EndsInFiller(number) && (smsc.Some? ==> !EndsInFiller(smsc.value))
  {
    PduReads(smsc, number, text);
    NumberRoundTripIff(number);
    if smsc.Some? {
      NumberRoundTripIff(smsc.value);
    }
  }

  /** So two submissions with equal PDUs are the same message. */
  lemma PduInjective(a: Sms, b: Sms)
    requires LengthsFit(a.smsc, a.number, a.text) && LengthsFit(b.smsc, b.number, b.text)
    requires !EndsInFiller(a.number) && !EndsInFiller(b.number)
    requires a.smsc.Some? ==> !EndsInFiller(a.smsc.value)
    requires b.smsc.Some? ==> !EndsInFiller(b.smsc.value)
    ensures Pdu(a.smsc, a.number, a.text) == Pdu(b.smsc, b.number, b.text) ==>
            a.smsc == b.smsc && a.number == b.number && Kept(a.text) == Kept(b.text)
  {
    PduRoundTripIff(a.smsc, a.number, a.text);
    PduRoundTripIff(b.smsc, b.number, b.text);
  }
}
