/**
 The tables of the SMS encoder (lib/sms_utils.c) beside those of 3GPP TS 23.038, and what a reader
 with the standard's tables shows of an encoded text.
 */
module SmsStandard {
  import opened Hex
  import opened Radix
  import opened SmsText

  /** The default alphabet of section 6.2.1 of 3GPP TS 23.038. */
  const STANDARD: string :=
    "@£$¥èéùìòÇ\nØø\rÅå" +
    "Δ_ΦΓΛΩΠΨΣΘΞ\U{001B}ÆæßÉ" +
    " !\"#¤%&'()*+,-./" +
    "0123456789:;<=>?" +
    "¡ABCDEFGHIJKLMNO" +
    "PQRSTUVWXYZÄÖÑÜ§" +
    "¿abcdefghijklmno" +
    "pqrstuvwxyzäöñüà"

  /** Its extension table, section 6.2.1.1; a blank is a cell without a character. */
  const STANDARD_EXT: string :=
    "          \U{000C}     " +
    "    ^           " +
    "        {}     \\" +
    "            [~] " +
    "|               " +
    "                " +
    "     €          " +
    "                "

  lemma EscapeCellFirst(i: nat)
    requires i < 0x20
    ensures |STANDARD| == 128
    ensures STANDARD[i] == '\U{001B}' <==> i == STANDARD_ESCAPE
  {
  }

  lemma EscapeCellMiddle(i: nat)
    requires 0x20 <= i < 0x50
    ensures |STANDARD| == 128
    ensures STANDARD[i] == '\U{001B}' <==> i == STANDARD_ESCAPE
  {
  }

  lemma EscapeCellLast(i: nat)
    requires 0x50 <= i < 0x80
    ensures |STANDARD| == 128
    ensures STANDARD[i] == '\U{001B}' <==> i == STANDARD_ESCAPE
  {
  }

  /** The reader's escape code is the one cell that holds U+001B. */
  lemma EscapeCell(i: nat)
    requires i < 128
    ensures |STANDARD| == 128
    ensures STANDARD[i] == '\U{001B}' <==> i == STANDARD_ESCAPE
  {
    if i < 0x20 {
      EscapeCellFirst(i);
    } else if i < 0x50 {
      EscapeCellMiddle(i);
    } else {
      EscapeCellLast(i);
    }
  }

  /** The cells in which the source's table departs from the standard. */
  lemma CellsThatDiffer(i: nat)
    requires i < 128
    ensures |GSM7| == 128 == |STANDARD|
    ensures GSM7[i] == STANDARD[i] <==> i !in {0x1B, 0x24, 0x47, 0x48, 0x5A, 0x7C}
  {
    if i < 0x30 {
    } else {
    }
  }

  lemma ExtCellsThatDiffer(i: nat)
    requires i < 128
    ensures |GSM7_EXT| == 128 == |STANDARD_EXT|
    ensures GSM7_EXT[i] == STANDARD_EXT[i] <==> i != 0x0A
  {
  }

  lemma BeforeH(i: nat)
    requires i < 0x47
    ensures |GSM7| == 128 && GSM7[i] != 'H'
  {
    if i < 0x30 {
    } else {
    }
  }

  lemma BeforeG(i: nat)
    requires i < 0x48
    ensures |GSM7| == 128 && GSM7[i] != 'G'
  {
    if i < 0x30 {
    } else {
    }
  }

  lemma BeforeSmallI(i: nat)
    requires i < 0x5A
    ensures |GSM7| == 128 && GSM7[i] != 'i'
  {
    if i < 0x30 {
    } else {
    }
  }

  lemma BetweenUmlauts(i: nat)
    requires 0x40 <= i < 0x7C
    ensures |GSM7| == 128 && GSM7[i] != 'ü'
  {
    if i < 0x5E {
    } else {
    }
  }

  lemma BeforeUmlautU(i: nat)
    requires i < 0x7C
    ensures |GSM7| == 128 && GSM7[i] != 'ü'
  {
    if i >= 0x40 {
      BetweenUmlauts(i);
    }
  }

  lemma MisreadCells(c: char)
    ensures Plain(c) == 0x47 <==> c == 'H'
    ensures Plain(c) == 0x48 <==> c == 'G'
    ensures Plain(c) == 0x5A <==> c == 'i'
    ensures Plain(c) == 0x7C <==> c == 'ü'
  {
    TableSizes();
    assert GSM7[0x47] == 'H' && GSM7[0x48] == 'G';
    assert GSM7[0x5A] == 'i' && GSM7[0x7C] == 'ü';
    var p := Plain(c);
    if c == 'H' && p < 0x47 { BeforeH(p); }
    if c == 'G' && p < 0x48 { BeforeG(p); }
    if c == 'i' && p < 0x5A { BeforeSmallI(p); }
    if c == 'ü' && p < 0x7C { BeforeUmlautU(p); }
  }

  /** The characters another phone shows as themselves. */
  predicate ShownAsIs(c: char) {
    Known(c) && c !in {'G', 'H', 'i', 'ü'}
  }

  lemma StandardShowsPlain(c: char)
    requires |STANDARD| == 128 == |STANDARD_EXT| && Plain(c) < 128
    ensures Shown(STANDARD, STANDARD_EXT, c) == [c] <==> ShownAsIs(c)
  {
    TableSizes();
    PlainIsNotEscape(c);
    MisreadCells(c);
    CellsThatDiffer(Plain(c));
    assert GSM7[0x20] == ' ' == GSM7[0x24];
  }

  lemma StandardShows(c: char)
    requires |STANDARD| == 128 == |STANDARD_EXT|
    ensures Shown(STANDARD, STANDARD_EXT, c) == [c] <==> ShownAsIs(c)
    ensures |Shown(STANDARD, STANDARD_EXT, c)| <= 1
  {
    TableSizes();
    var e := Extended(c);
    if Plain(c) < 128 {
      StandardShowsPlain(c);
    } else {
      MisreadCells(c);
      if e < 128 {
        ExtCellsThatDiffer(e);
        assert GSM7[0x0A] == '\n' == GSM7_EXT[0x0A];
      }
    }
  }

  lemma {:induction false} ShownAtMostOnce(text: string)
    requires |STANDARD| == 128 == |STANDARD_EXT|
    ensures |ShownText(STANDARD, STANDARD_EXT, text)| <= |text|
    ensures ShownText(STANDARD, STANDARD_EXT, text) == text <==> forall i :: 0 <= i < |text| ==> ShownAsIs(text[i])
  {
    if text != "" {
      ShownAtMostOnce(text[1..]);
      StandardShows(text[0]);
      var one, rest := Shown(STANDARD, STANDARD_EXT, text[0]), ShownText(STANDARD, STANDARD_EXT, text[1..]);
      if one + rest == text {
        assert |one| == 1 && one == [text[0]];
        assert rest == (one + rest)[1..] == text[1..];
        forall i | 0 <= i < |text| ensures ShownAsIs(text[i]) {
          if i > 0 {
            assert ShownAsIs(text[1..][i - 1]);
          }
        }
      }
      if forall i :: 0 <= i < |text| ==> ShownAsIs(text[i]) {
        forall i | 0 <= i < |text[1..]| ensures ShownAsIs(text[1..][i]) {
          assert ShownAsIs(text[i + 1]);
        }
        assert one + rest == text;
      }
    }
  }

  /**
   The tables are documented to follow 3GPP TS 23.038. A reader with the standard's own tables
   shows the text unchanged if and only if it has at most 255 septets, every character is known
   and none of G, H, i and ü occurs: these four are sent as H, G, Z and ö.
   */
  lemma StandardReaderIff(text: string)
    ensures |STANDARD| == 128 == |STANDARD_EXT|
    ensures DecodeText(STANDARD, STANDARD_EXT, TextPdu(text)) == text <==>
            |Septets(text)| <= 255 && forall i :: 0 <= i < |text| ==> ShownAsIs(text[i])
  {
    CellsThatDiffer(0);
    ExtCellsThatDiffer(0);
    DecodeOfTextPdu(STANDARD, STANDARD_EXT, text);
    UnescapeSeptets(STANDARD, STANDARD_EXT, text);
    ShownAtMostOnce(text);
    var s, n := Septets(text), ReadHex2(TextPdu(text));
    if |s| <= 255 {
      assert s[..n] == s;
    } else {
      SeptetsAreClosed(text);
      PrefixShowsLess(STANDARD, STANDARD_EXT, s, n);
    }
  }

  lemma NotInFirstRows(c: char, i: nat)
    requires (c == 'Z' || c == 'ö') && i < 0x30
    ensures |GSM7| == 128 && GSM7[i] != c
  {
  }

  lemma NotInMiddleRows(c: char, i: nat)
    requires (c == 'Z' || c == 'ö') && 0x30 <= i < 0x58
    ensures |GSM7| == 128 && GSM7[i] != c
  {
  }

  lemma NotInLastRows(c: char, i: nat)
    requires (c == 'Z' || c == 'ö') && 0x58 <= i < 0x80
    ensures |GSM7| == 128 && GSM7[i] != c
  {
  }

  lemma NotInFirstExtRows(c: char, i: nat)
    requires (c == 'Z' || c == 'ö') && i < 0x2B
    ensures |GSM7_EXT| == 128 && GSM7_EXT[i] != c
  {
  }

  lemma NotInMiddleExtRows(c: char, i: nat)
    requires (c == 'Z' || c == 'ö') && 0x2B <= i < 0x56
    ensures |GSM7_EXT| == 128 && GSM7_EXT[i] != c
  {
  }

  lemma NotInLastExtRows(c: char, i: nat)
    requires (c == 'Z' || c == 'ö') && 0x56 <= i < 0x80
    ensures |GSM7_EXT| == 128 && GSM7_EXT[i] != c
  {
  }

  /** Two letters of the standard's alphabet are missing from both tables and are dropped. */
  lemma MissingLetters(c: char)
    requires c == 'Z' || c == 'ö'
    ensures !Known(c) && CharSeptets(c) == []
  {
    TableSizes();
    var i, j := Plain(c), Extended(c);
    if i < 0x30 {
      NotInFirstRows(c, i);
    } else if i < 0x58 {
      NotInMiddleRows(c, i);
    } else if i < 0x80 {
      NotInLastRows(c, i);
    }
    if j < 0x2B {
      NotInFirstExtRows(c, j);
    } else if j < 0x56 {
      NotInMiddleExtRows(c, j);
    } else if j < 0x80 {
      NotInLastExtRows(c, j);
    }
  }
}
