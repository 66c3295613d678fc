# MonitoringPlug, modelled in Dafny

MonitoringPlug is a C library of helpers for Nagios plugins, with the plugins built on it. This
project models the self-contained algorithms of that library and proves what they are for: an SNMP
walk fetches exactly a subtree and can be read as a table, templates produce the text their tree
stands for, an SMS or a wire message can be taken apart again, lines arrive whatever the network
does to the stream. Where the code does not keep what its documentation promises, the code is
modelled as it is, the failing inputs are exhibited, and the exact condition under which the
promise holds is proved.

`dafny verify dfyconfig.toml` verifies the whole project.

## Layout

| file | what it models | main results |
|---|---|---|
| `Oid.dfy`, `SnmpWalk.dfy`, `SnmpTable.dfy` | SNMP subtree walk, column lookup | `WalkSound`, `WalkExact`, `V1EndsIff`, `RepeatEndsIff`, `ReceiveIff`, `FetchedValuesAlign` |
| `Template.dfy`, `UrlEncode.dfy` | conditional machine of the template engine, URL encoding | `RunsToEval`, `ReadTree`, `RoundTripIff` |
| `SmsText.dfy`, `SmsStandard.dfy`, `SmsPdu.dfy`, `Radix.dfy`, `Hex.dfy` | SMS submit PDU | `PackedBits`, `TextRoundTripIff`, `StandardReaderIff`, `PduRoundTripIff` |
| `LineReader.dfy`, `Checksum.dfy` | line reader, Internet checksum | `RecvLines`, `TwoFoldsSuffice`, `StoredCsumVerifies` |
| `Dhcp.dfy` | DHCP options | `WellFormedIff`, `FoundIsFirst`, `AppendedRoundTrip` |
| `Exports.dfy` | export list of the mount protocol | `Decode`, `Free`, `ExportsRoundTripIff` |
| `FastCgi.dfy` | FastCGI pairs and records | `PairsRoundTrip`, `RecordRoundTripIff` |
| `Access.dfy` | access string of check_file | `CheckAccess`, `SatisfiedIff`, `AllClausesDecide` |
| `Ranges.dfy`, `Perfdata.dfy`, `Decimal.dfy` | thresholds, performance data | `PrintedDecidesIff`, `RefusesAsMeantIff`, `AddAll`, `AllReads` |
| `Url.dfy` | URL and host name recognition | `IsUrl`, `PartsAreUnique` |
| `Wrappers.dfy`, `Text.dfy`, `Bytes.dfy` | optional values, cutting strings, bytes at an offset | |

State that the source changes in place is a class (`Template.Engine`, `LineReader.Reader`,
`Dhcp.Packet`, `FastCgi.Stream`, `FastCgi.Connection`, `Ranges.RangeVar`, `Perfdata.Collector`) or
linked heap nodes (`Exports.GroupNode`, `Exports.ExportNode`); its loops are loops with invariants,
proved against functions that say what the result is, and the theorems are about those functions.

## Conventions

- Bytes and table codes are naturals; the bounds that matter (16-bit words, the int sum of the
  checksum, the 21 bits of the SMS accumulator, two-digit length fields, 16-bit record lengths) are
  stated. File modes are sets of bit numbers.
- The SNMP agent is a function of the request number and the OID asked for, so it may answer the
  same question differently each time and cut its answers as it likes.
- `recv` delivers the stream in arbitrary chunks of 1 to 127 bytes. `is_hostaddr` is an arbitrary
  predicate. The bytes behind the end of a received DHCP packet are arbitrary.
- Range limits are integers counting hundred-thousandths, which holds three decimals and a
  percentage of them exactly; `strtod` is read as an optional sign, digits and up to three decimals.

## Where the code and its promises part

- The comment at lib/snmp_utils.c:449-452 says that comparing OIDs prevents an infinite loop with a
  broken agent. The comparison is not strict and ignores everything past the shorter OID, and an
  empty answer is not looked at. An agent that repeats its answer is stopped if and only if the
  answer is not empty and, read again after itself, has an entry that is outside the subtree or
  compares below the one before it (`SnmpWalk.RepeatEndsIff`); one repeated entry
  (`SnmpWalk.StuckAgentNeverEnds`) and a cycle up and down (`SnmpWalk.UpAndDownNeverEnds`) are not
  stopped.
- The SNMPv1 branch at lib/snmp_utils.c:501-504 has no `break`: the walk ends if and only if the
  MIB has an entry after the subtree (`SnmpWalk.V1EndsIff`).
- The character table at lib/sms_utils.c:32-42 says it follows 3GPP TS 23.038. Six cells differ
  (`SmsStandard.CellsThatDiffer`), and a standard phone shows G, H, i and ü as other characters
  (`SmsStandard.StandardReaderIff`); Z and ö are in neither table and are dropped
  (`SmsStandard.MissingLetters`).
- Only two digits of the SMS text length are kept (lib/sms_utils.c:252-254), so longer texts are cut
  (`SmsText.TextRoundTripIff`). The filler of an odd number is counted in the address length
  (lib/sms_utils.c:283-284), so a number of even length ending in F is read without it
  (`SmsPdu.NumberRoundTripIff`).
- URL encoding prints the sign extension of bytes from 128 on (lib/mp_template.c:192) and writes past
  the room it made; size and round trip hold exactly for 7-bit strings (`UrlEncode.SizeIff`,
  `UrlEncode.RoundTripIff`).
- After a bracketed address `is_url` reads the port without its colon (lib/mp_check.c:151-188), so
  `http://[::1]:80` is refused and `http://[::1]80` accepted (`Url.BracketPortIff`,
  `Url.ColonAfterBracketRefused`).
- The error return for an unreadable range start compares the wrong pointer (lib/mp_args.c:123), so
  a string is refused for its end alone (`Ranges.RefusedIff`), which is what the code means to do if
  and only if the start is readable or the end is refused anyway (`Ranges.RefusesAsMeantIff`). An
  unreadable start counts as zero (`Ranges.UnreadableStartIsZero`): `x:5.000` is accepted
  (`Ranges.XIsAccepted`).
- Limits in the wrong order are exchanged without their percent marks (lib/mp_args.c:167-169), which
  is right if and only if nothing is exchanged or both marks are alike (`Ranges.MarksKeptIff`).
- `str_range` drops the `@`, prints 0 to infinity as 0 to 0, and keeps three decimals. A printed
  range decides as the range itself exactly otherwise (`Ranges.PrintedDecidesIff`).
- `mp_fcgi_read` does not skip the padding of an empty record (lib/fcgi_utils.c:135-140,
  `FastCgi.PaddingSkippedIff`), and `mp_fcgi_write` keeps 16 bits of the length
  (`FastCgi.RecordRoundTripIff`).
- An appended DHCP option without data leaves no trace (lib/dhcp_utils.c:267-275,
  `Dhcp.AppendedIsRendered`).
- Subjects at the end of an access string without an operator are taken as if followed by `=`
  (base/check_file.c:222-233), which is all there is to the verdict on any string
  (`Access.SatisfiedIff`).
- The room `sms_encode_text` makes for a text (lib/sms_utils.c:212) holds what it writes if and only
  if fewer septets than characters are sent, or as many and a multiple of eight
  (`SmsText.RoomSufficesIff`).

## Model

| member | source | states |
|---|---|---|
| `Oids.TreeCompareZero` | lib/snmp_utils.c:453-470 | The tree comparison is zero exactly when one OID is a prefix of the other |
| `Oids.TreeCompareNegative` | lib/snmp_utils.c:453-454 | It is negative exactly when the first OID is smaller in the first component in which they differ |
| `Oids.TreeCompareAfterRoot` | lib/snmp_utils.c:467-470 | Among OIDs after the root, zero means properly below the root |
| `Oids.SubtreeIsConvex` | lib/snmp_utils.c:463-473 | Once the order has left a subtree it never comes back, so stopping at the first outsider loses nothing |
| `SnmpWalk.SubtreeQuery` | lib/snmp_utils.c:388-528 | The last request is made in a running state, and its answer alone says how the walk ends and what is stored; "OIDs are not incresing" is taken exactly if that answer goes back before it stops otherwise |
| `SnmpWalk.ReceiveIff` | lib/snmp_utils.c:442-521 | Of every answer: without an entry to stop at all of it is stored and the walk goes on; otherwise the entries before the first such entry are stored and that entry decides between success and the not increasing exit; errors fail, SNMPv1 noSuchName goes on |
| `SnmpWalk.AbsorbStops` | lib/snmp_utils.c:447-500 | The loop over an answer ends at the first endOfMibView, unrelated or decreasing entry, with exactly the entries before it |
| `SnmpWalk.NotIncreasingIff` | lib/snmp_utils.c:449-461 | A run has taken the not increasing exit if and only if some request's answer went back before it stopped otherwise |
| `SnmpWalk.AbsorbSound` | lib/snmp_utils.c:447-500 | One answer of a correct agent moves the walk along the MIB by as many entries as it has, or ends it with the whole subtree |
| `SnmpWalk.WalkSound` | lib/snmp_utils.c:388-528 | In every reachable state against any correct agent the stored entries are a prefix of the subtree, a successful end has all of it, and "not increasing" never happens |
| `SnmpWalk.WalkEnds` | lib/snmp_utils.c:408-522 | The walk ends after at most one request more than the subtree has entries (for SNMPv1: if an entry follows the subtree) |
| `SnmpWalk.WalkExact` | lib/snmp_utils.c:388-528 | Against every agent that answers, the walk succeeds with exactly the entries below the root, in order, none twice |
| `SnmpWalk.V1EndsIff` | lib/snmp_utils.c:501-504 | An SNMPv1 walk ends if and only if the MIB holds an entry after the subtree |
| `SnmpWalk.AnyAgentNonDecreasing` | lib/snmp_utils.c:449-473 | Whatever an agent sends, only entries related to the root are stored and consecutive ones never compare as decreasing |
| `SnmpWalk.RepeatEndsIff` | lib/snmp_utils.c:447-500 | The walk of an agent that repeats any answer ends if and only if the answer is not empty and, read again after itself, is not stored whole |
| `SnmpWalk.StuckAgentNeverEnds` | lib/snmp_utils.c:449-461 | In particular an agent that repeats one entry below the root is never stopped |
| `SnmpWalk.UpAndDownNeverEnds` | lib/snmp_utils.c:449-461 | Nor is one that repeats a cycle in which the names go up and down |
| `SnmpWalk.OneByOneIsReliable` | lib/snmp_utils.c:408-448 | Every MIB has a reliable agent, for SNMPv1 and later versions |
| `SnmpTable.GetValue` | lib/snmp_utils.c:548-572 | The bytes returned are those of the stored entry related to the column before which exactly idx others are, of the type asked for, fitting the target, with a terminator for strings; anything else is rejected |
| `SnmpTable.GetValues` | lib/snmp_utils.c:599-622 | Every column is read that way with one index, and the count is the number of values accepted |
| `SnmpTable.MatchIsColumnPlusInstance` | lib/snmp_utils.c:560-570 | With no stored OID on the path to the column, each match is the column followed by its instance |
| `SnmpTable.RowsAlignIff` | lib/snmp_utils.c:548-572 | Equal indices of two columns carry equal instances for every index if and only if both columns have the same instances |
| `SnmpTable.FetchedRowsAlign` | snmp/check_keepalived_vrrp.c:92-135 | After a walk against any reliable agent, one index read in two columns with the same instances gives one row of the agent's table |
| `SnmpTable.FetchedValuesAlign` | snmp/check_keepalived_vrrp.c:92-135 | The values themselves that two columns give for one index are those of one row of the agent's table, and both are rejected if there is no such row |
| `Template.Engine.Reserve` | lib/mp_template.c:74-80 | Growing the buffer keeps the output and makes room for text and terminator |
| `Template.Engine.AppendText` | lib/mp_template.c:66-84 | Appends exactly the text if there is one and output is not disabled, which is if every open conditional is active |
| `Template.Engine.IfTrue` | lib/mp_template.c:86-105 | The compressed stack follows the plain stack through an IF |
| `Template.Engine.ElseBranch` | lib/mp_template.c:107-112 | The same for ELSE, whether or not its IF is suppressed |
| `Template.Engine.SwitchInt` | lib/mp_template.c:114-134 | The same for SWITCH |
| `Template.Engine.CaseInt` | lib/mp_template.c:135-140 | The same for CASE |
| `Template.Engine.EndCond` | lib/mp_template.c:142-156 | The same for END |
| `Template.Opens` | lib/mp_template.c:86-134 | Opening a conditional only raises the count of the top frame while disabled, and pushes a frame otherwise |
| `Template.Switches` | lib/mp_template.c:107-140 | Switching the innermost level shows exactly when the top frame counts no suppressed level |
| `Template.Closes` | lib/mp_template.c:142-156 | Closing undoes one count, or drops the frame and enables output |
| `Template.Engine.Feed` | lib/mp_template_yacc.y:66-106 | Any well-nested event stream leaves the engine in the state of the plain stack machine |
| `Template.RunsToEval` | lib/mp_template.c:66-156 | The events of any tree append what the recursive evaluator yields if output is enabled, and change nothing else |
| `Template.EvalOfTexts` | lib/mp_template.c:66-84 | A text stands for itself, a missing one for nothing |
| `Template.EvalConcat` | lib/mp_template_yacc.y:69-72 | Blocks one after the other stand for their values one after the other |
| `Template.EvalOfIf` | lib/mp_template_yacc.y:83-92 | An IF stands for the part its value selects |
| `Template.EvalOfSwitch` | lib/mp_template_yacc.y:85-101 | A SWITCH with at most one arm of its value stands for that arm, or for nothing |
| `Template.TreesAreWellNested` | lib/mp_template_yacc.y:83-101 | The events of a tree never address a conditional that is not open |
| `Template.ReadTree` | lib/mp_template.c:66-156 | Reading a tree appends exactly its value and restores the conditional stack and the disable flag |
| `Template.RenderTemplate` | lib/mp_template.c:54-64 | A template in a fresh buffer yields exactly its value |
| `UrlEncode.UrlEncode` | lib/mp_template.c:158-197 | Both passes: the output is the encoding, and the room made equals its length exactly for 7-bit strings |
| `UrlEncode.ByteEncoded` | lib/mp_template.c:186-194 | By its code: an unreserved byte is itself, another its triple in capitals, one from 128 on eight digits |
| `UrlEncode.EncodedInTurn` | lib/mp_template.c:186-194 | Texts one after the other are encoded one after the other |
| `UrlEncode.SizeIff` | lib/mp_template.c:168-181 | The size computed first is the size written if and only if the string is 7-bit |
| `UrlEncode.EncodedIsSafe` | lib/mp_template.c:186-194 | The output holds only unreserved characters and percent triples |
| `UrlEncode.RoundTripIff` | lib/mp_template.c:158-197 | Percent-decoding gives the input back if and only if it is 7-bit |
| `SmsText.LookUp` | lib/sms_utils.c:222-239 | The codes of a character: plain, escaped, or none |
| `SmsText.SeptetsByCell` | lib/sms_utils.c:222-239 | By the cells of the tables: the first cell of a character, 0x1B and its first cell in the extension table, or nothing |
| `SmsText.PlainIsNotEscape` | lib/sms_utils.c:35-42 | No plain lookup yields the escape code |
| `SmsText.PushSeptet` | lib/sms_utils.c:229-238 | Or-ing a septet in keeps octets and accumulator together equal to the number made of all septets |
| `SmsText.Accumulate` | lib/sms_utils.c:228-239 | The accumulator stays below 2 to the power of its bit count, at most 21 |
| `SmsText.EmitOctet` | lib/sms_utils.c:240-245 | Emitting an octet keeps that number |
| `SmsText.FlushOctet` | lib/sms_utils.c:247-250 | After the last octet the octets are the packed septets, their number rounded up |
| `SmsText.PackedBits` | lib/sms_utils.c:240-250 | Bit j of septet i is bit 7 i + j of the octets |
| `SmsText.FillBits` | lib/sms_utils.c:247-250 | The bits behind the last septet are zero |
| `SmsText.HexOfAt` | lib/sms_utils.c:241 | Octet i is written in the hexadecimal digits 2 i and 2 i + 1, high digit first, in capitals |
| `SmsText.EncodeText` | lib/sms_utils.c:198-258 | The loops produce the length field and the packed septets of the text |
| `SmsText.TextRoundTripIff` | lib/sms_utils.c:198-258 | Unpacking by the length field and undoing the escape gives the text without unknown characters if and only if it has at most 255 septets |
| `SmsStandard.CellsThatDiffer` | lib/sms_utils.c:32-42 | Exactly six cells differ from the default alphabet of 3GPP TS 23.038 |
| `SmsStandard.ExtCellsThatDiffer` | lib/sms_utils.c:44-51 | Exactly one cell differs from its extension table |
| `SmsStandard.EscapeCell` | lib/sms_utils.c:228-229 | The reader's escape code is the one cell of the standard's alphabet that holds U+001B |
| `SmsStandard.StandardReaderIff` | lib/sms_utils.c:32-51 | A reader with the standard's tables and its escape cell shows the text if and only if it has at most 255 septets, all characters are known and none is G, H, i or ü |
| `SmsStandard.MissingLetters` | lib/sms_utils.c:35-51 | Z and ö are in neither table and nothing is sent for them |
| `SmsText.RoomSufficesIff` | lib/sms_utils.c:207-214 | The room made holds the digits written and their terminator if and only if fewer septets than characters are sent, or as many and a multiple of eight |
| `SmsPdu.EncodeNumber` | lib/sms_utils.c:168-196 | The array is filled with the type and the swapped pairs, a filler completing an odd number |
| `SmsPdu.PairAt` | lib/sms_utils.c:190-193 | Each pair of digits stands swapped at its place, with F for a missing one |
| `SmsPdu.NumberRoundTripIff` | lib/sms_utils.c:168-196 | Swapping back gives the number with its international mark unless it has even length and ends in the filler |
| `SmsPdu.EncodePdu` | lib/sms_utils.c:260-296 | The PDU is composed of service centre, destination and text with their length fields |
| `SmsPdu.PduRoundTripIff` | lib/sms_utils.c:260-296 | If all lengths fit two digits, a reader that checks the fixed octets and the types of the numbers recovers the service centre or its absence, the destination and the text, if and only if no number ends in the filler |
| `SmsPdu.PduInjective` | lib/sms_utils.c:260-296 | Equal PDUs come from the same message |
| `LineReader.Reader.RecvLine` | lib/mp_net.c:125-166 | The stream is the line, LF or CR LF, and what buffer and connection then hold; without the CR the line does not end in one; however the stream is cut |
| `LineReader.LineReadUnique` | lib/mp_net.c:147-163 | That determines the line and what follows |
| `LineReader.Reader.Rotate` | lib/mp_net.c:147-158 | Moving the rest to the front leaves exactly what followed the newline |
| `LineReader.RecvLines` | lib/mp_net.c:125-166 | Successive calls return the stream split at newlines, independent of the chunks, and leave exactly what follows in buffer and stream |
| `LineReader.LineConserves` | lib/mp_net.c:147-158 | Line, newline and rest are the stream |
| `LineReader.CrLfLinesArrive` | lib/mp_net.c:160-163 | Lines sent with CR LF arrive as sent, whatever they contain otherwise |
| `LineReader.LfLinesArriveIff` | lib/mp_net.c:160-163 | Lines sent with LF arrive as sent if and only if none of them ends in the character CR |
| `Checksum.IpCsum` | lib/mp_net.c:112-123 | For up to 32768 words the int sum does not overflow and the result is the complement of the one's complement sum |
| `Checksum.TwoFoldsSuffice` | lib/mp_net.c:120-121 | Two folds reach the residue modulo 65535 of any non-negative int |
| `Checksum.StoredCsumVerifies` | lib/dhcp_utils.c:110-111 | Storing the checksum in its zeroed word makes the checksum of the block zero |
| `Checksum.ZeroCsumIff` | lib/mp_net.c:112-123 | A block checks out exactly when it is not all zero and its sum is a multiple of 65535 |
| `Checksum.ChangedWordIsDetectedIff` | lib/mp_net.c:112-123 | Changing one word of a block that checks out is noticed except for 0 against 65535 |
| `Checksum.ByteOrderIndependent` | lib/mp_net.c:112-123 | On a machine of the other byte order the checksum is the byte-swapped one |
| `Dhcp.WellFormedIff` | lib/dhcp_utils.c:227-247 | A field is accepted if and only if it starts with some items rendered and an End |
| `Dhcp.ItemLaidOut` | lib/dhcp_utils.c:267-273 | A pad is a zero byte; an option is its code, its length and its data |
| `Dhcp.Validate` | lib/dhcp_utils.c:227-247 | The verdict is well-formedness, or that there are no options; it depends on no byte behind the field, and exactly the item boundaries are visited |
| `Dhcp.GetOption` | lib/dhcp_utils.c:278-302 | In an accepted field lookup visits only offsets the validation visited and finds what the items say |
| `Dhcp.FoundIsFirst` | lib/dhcp_utils.c:278-302 | Lookup of a code from 1 to 254 finds the first item with it or nothing; the item lies with all its data before the End |
| `Dhcp.Packet.AddOption` | lib/dhcp_utils.c:259-276 | One append replaces the End by the option and a new End |
| `Dhcp.Packet.AddAll` | lib/dhcp_utils.c:259-276 | Any appends to an empty packet leave the bytes the specification gives |
| `Dhcp.AppendedIsRendered` | lib/dhcp_utils.c:259-276 | After any appends the bytes are the options with data, in order, and one End |
| `Dhcp.AppendedRoundTrip` | lib/dhcp_utils.c:227-302 | What was appended is accepted, reads back as the same options, and lookup finds the first with data, or nothing |
| `Exports.ReadGroups` | lib/rpc_utils.c:157-178 | The inner loop builds an acyclic list of the group names in order, whatever `prev_group` the export before left behind |
| `Exports.Decode` | lib/rpc_utils.c:131-193 | Decoding succeeds exactly on data that mean a list of exports; the lists it builds end, share no node and hold the exports and groups in order; after a failure what is linked so far is such a list too |
| `Exports.ExportsRoundTripIff` | lib/rpc_utils.c:131-193 | An encoded list, whatever follows it, decodes to itself and to its last byte if and only if paths and names keep the protocol's limits |
| `Exports.StringLaidOut` | lib/rpc_utils.c:151 | A string stands behind its length, high byte first, filled with zeros to whole words |
| `Exports.StringReadsAnyFill` | lib/rpc_utils.c:151 | It is read back whatever it was filled up with |
| `Exports.FlagOf` | lib/rpc_utils.c:155 | A flag is false exactly if all its bytes are zero |
| `Exports.Free` | lib/rpc_utils.c:104-126 | Every export and group node is freed exactly once in list order, and none is read after it was freed |
| `Exports.FreeGroups` | lib/rpc_utils.c:115-120 | The same for the groups of one export |
| `FastCgi.Stream.PutKv` | lib/fcgi_utils.c:45-93 | Appends both lengths in their one or four byte form, the name and the value |
| `FastCgi.Stream.PutLength` | lib/fcgi_utils.c:52-68 | Writes one length behind what the header already holds |
| `FastCgi.LengthLaidOut` | lib/fcgi_utils.c:52-68 | A length below 128 is one byte, another four, high byte first with the top bit set |
| `FastCgi.PairLaidOut` | lib/fcgi_utils.c:70-92 | Length of the name, length of the value, name and value stand one after the other |
| `FastCgi.PairsRoundTrip` | lib/fcgi_utils.c:45-93 | The concatenation of any pairs with lengths below 2^31 decodes to exactly these pairs |
| `FastCgi.Connection.Write` | lib/fcgi_utils.c:95-120 | Sends the header and the content |
| `FastCgi.HeaderLaidOut` | lib/fcgi_utils.c:100-107 | Version 1, type, request id, content length and padding length stand in their bytes |
| `FastCgi.RecordLaidOut` | lib/fcgi_utils.c:95-120 | Of a written record version, type, request id and content can be read at their places; there is no padding |
| `FastCgi.Connection.Read` | lib/fcgi_utils.c:122-159 | Takes one whole record, no more and no less, or nothing of an incomplete one; of a record a peer has sent, returns type and content and leaves exactly what follows, if and only if the record has content or no padding |
| `FastCgi.RecordRoundTripIff` | lib/fcgi_utils.c:95-159 | Write then read gives back type and content and stops at what follows, if and only if the content is shorter than 65536 bytes |
| `FastCgi.PaddingSkippedIff` | lib/fcgi_utils.c:132-140 | Reading stops at the next record if and only if the record has content or no padding |
| `Access.RenderOfParse` | base/check_file.c:167-220 | Every string is what it is cut into: clauses, left-over subjects, an illegal remainder |
| `Access.ParseOfRender` | base/check_file.c:167-220 | And that is the only way to cut it |
| `Access.PassesIffHolds` | base/check_file.c:170-181 | The mask comparisons hold exactly when each subject has, lacks or has only the listed permissions |
| `Access.PlusAsks` | base/check_file.c:190-217 | A single subject, + and permission asks for the bit of S_IRUSR to S_IXOTH with that name |
| `Access.MinusAsks` | base/check_file.c:170-173 | With - it asks for its absence |
| `Access.EqualsAsks` | base/check_file.c:174-176 | With = for exactly the permissions listed |
| `Access.CheckAccess` | base/check_file.c:159-237 | The one-pass machine gives the verdict on the cut string for every mode and string |
| `Access.AllClausesDecide` | base/check_file.c:159-237 | For any concatenation of clauses the verdict is success exactly when the mode satisfies all of them, the last included |
| `Access.SatisfiedIff` | base/check_file.c:159-237 | For any string the verdict is success exactly when nothing illegal remains, every clause holds and left-over subjects have no permission |
| `Access.IllegalIff` | base/check_file.c:206-207 | A string is reported as illegal exactly when every clause before the illegal remainder holds |
| `Ranges.RangeVar.Parse` | lib/mp_args.c:92-174 | Filling the struct step by step yields the parsed range, or an error exactly when there is none |
| `Ranges.OneNumberMeans` | lib/mp_args.c:112-116 | A number alone is an upper limit above zero |
| `Ranges.TwoNumbersMean` | lib/mp_args.c:112-158 | A colon separates the limits |
| `Ranges.OpenEndMeans` | lib/mp_args.c:140-141 | Nothing after the colon is no upper limit |
| `Ranges.OpenStartMeans` | lib/mp_args.c:119-120 | A tilde before it is no lower limit |
| `Ranges.SuffixReads` | lib/mp_args.c:126-137 | A number followed by a percent sign is so many hundredths, by a multiplier of lib/mp_args.h so many times as much, by anything else itself |
| `Ranges.CheckRange` | lib/mp_args.c:223-231 | A value alerts exactly if it lies between the limits, both included, for a range that alerts inside, and outside them for the other |
| `Ranges.RangeVar.Resolve` | lib/mp_perfdata.c:209-229 | Afterwards every value is judged by itself as its share of a positive maximum was to be judged before, and no percent mark is left |
| `Ranges.RefusedIff` | lib/mp_args.c:110-158 | Any string is refused exactly if its end is neither empty, open nor a number |
| `Ranges.RefusesAsMeantIff` | lib/mp_args.c:122-124 | Refusing unreadable starts and ends, as meant, is what happens if and only if the start is readable or the end is refused anyway |
| `Ranges.UnreadableStartIsZero` | lib/mp_args.c:122-124 | A range with an unreadable start and a readable end is accepted with start zero, for every multiplier |
| `Ranges.XIsAccepted` | lib/mp_args.c:122-124 | The string x:5.000 is accepted as 0 to 5 |
| `Ranges.MarksKeptIff` | lib/mp_args.c:160-169 | The exchange of limits keeps each percent mark with its limit if and only if nothing is exchanged or both are alike |
| `Ranges.ParsedIsCanonical` | lib/mp_args.c:160-173 | A parsed range without percentages has its limits in order and zero for infinite ones |
| `Ranges.AtNegates` | lib/mp_args.c:105-108 | An `@` in front negates the decision for every value and every string not starting with one |
| `Ranges.PrintedReads` | lib/mp_args.c:270-294 | What reparsing a printed range gives, for every range whatever: limits to three decimals and in order, no `@`, and a start of zero with its end even where that is infinite |
| `Ranges.PrintedForm` | lib/mp_args.c:277-292 | The five shapes of a printed range |
| `Decimal.NatTextDigits` | lib/mp_perfdata.c:53 | Digit i from the right is that of 10 to the power i |
| `Decimal.NoLeadingZero` | lib/mp_perfdata.c:53 | No number but zero starts with a zero |
| `Decimal.FixedLaidOut` | lib/mp_args.c:281-290 | Sign, whole part, point and three digits of a printed limit |
| `Decimal.WholeReads` | lib/mp_args.c:122-143 | A whole number is read to its end |
| `Decimal.BlankBefore` | lib/mp_args.c:122-143 | White space before a number changes nothing but the characters taken |
| `Decimal.PlusBefore` | lib/mp_args.c:122-143 | Nor does a plus sign |
| `Ranges.PrintedDecidesIff` | lib/mp_args.c:270-294 | For every range whatever, reparsing its text decides every value alike if and only if it alerts outside, its finite limits have three decimals and are in order, and it is not 0 to infinity |
| `Ranges.ParsedPrintableIff` | lib/mp_args.c:270-294 | For a range parsed without percentages that means: it alerts outside and is not 0 to infinity |
| `Ranges.ReaderIsExact` | lib/mp_args.c:122-137 | The number reader reads printed numbers exactly, with every multiplier |
| `Perfdata.TrimFields` | lib/mp_perfdata.c:87-89 | Trimming removes exactly the empty fields at the end and never reaches what stands before the fields |
| `Perfdata.Collector.AppendRecord` | lib/mp_perfdata.c:52-89 | Appends exactly one record, for any record whose unit has no semicolon |
| `Perfdata.LabelLaidOut` | lib/mp_perfdata.c:52-56 | A label stands in quotes exactly if it holds a quote, an equals sign, a blank or a plus sign |
| `Perfdata.RecordLaidOut` | lib/mp_perfdata.c:52-85 | Label, value with unit, warning, critical, minimum and maximum stand in this order, each field before its semicolon |
| `Perfdata.RecordsLaidOut` | lib/mp_perfdata.c:57 | One blank stands between records |
| `Perfdata.ThresholdFieldDecides` | lib/mp_perfdata.c:60-72 | Read again, a threshold field decides every value as the threshold if and only if that is printable |
| `Perfdata.UpToDecides` | lib/mp_perfdata.c:97-112 | A threshold given as a number alerts exactly above it |
| `Perfdata.Collector.AddInt` | lib/mp_perfdata.c:42-90 | Resolves percentages in any case and appends the record only if asked to |
| `Perfdata.Collector.AddInt3` | lib/mp_perfdata.c:92-118 | The same with thresholds as upper limits |
| `Perfdata.Collector.Add` | lib/mp_perfdata.c:42-118 | One call of either kind appends its record, with the thresholds as earlier calls and this one resolved them |
| `Perfdata.Collector.AddAll` | lib/mp_perfdata.c:42-118 | After any number of integer calls, which may share thresholds, a reader recovers the record of each call in order |
| `Perfdata.AllReads` | lib/mp_perfdata.c:42-118 | A perfdata reader recovers every record in order with label, value, unit and all four further fields |
| `Perfdata.EndsInOneSemicolon` | lib/mp_perfdata.c:87-89 | A record ends in exactly one semicolon |
| `Url.IsHostname` | lib/mp_check.c:53-77 | Accepts exactly the strings of letters, digits, hyphens and underscores between single dots |
| `Url.IsUrl` | lib/mp_check.c:103-247 | Accepts exactly the strings put together from parts of the component classes, for any notion of a numeric address |
| `Url.ClassesByCode` | lib/mp_check.c:112-244 | The component classes by the codes of their characters |
| `Url.OneCharPathIff` | lib/mp_check.c:196-219 | Which characters a path may consist of, by their codes |
| `Url.UrlSpelled` | lib/mp_check.c:103-247 | Scheme, ://, authority, mark and path, mark and query are written one after the other |
| `Url.AuthoritySpelled` | lib/mp_check.c:131-148 | User information stands before @ and the host |
| `Url.HostSpelled` | lib/mp_check.c:150-188 | A host stands alone, before a colon and its port, or in brackets with its port directly behind |
| `Url.ScanEncoded` | lib/mp_check.c:132-148 | The loop accepts exactly characters of the class and percent signs with two hexadecimal digits |
| `Url.CheckHost` | lib/mp_check.c:150-188 | Accepts exactly bracketed, numeric and named hosts with their ports |
| `Url.CutUrlText` | lib/mp_check.c:103-247 | The parts a URL is cut into, put together, are the URL |
| `Url.UrlTextCut` | lib/mp_check.c:103-247 | Parts free of their own end marks are found again |
| `Url.PartsAreUnique` | lib/mp_check.c:103-247 | A URL has one reading only |
| `Url.BracketPortIff` | lib/mp_check.c:150-188 | Whatever the other parts, what follows a bracketed address is accepted if and only if it is digits alone |
| `Url.ColonAfterBracketRefused` | lib/mp_check.c:150-188 | A port written with its colon after a bracketed address is always refused |

## Left out

- Plugins (`main`, option processing, help texts) and calls into foreign libraries: no algorithm of their own.
- The template lexer and the evaluation of template expressions: the model starts from the calls the grammar's actions make, with their values.
- Fixed C buffers and `malloc` sizes, except the growing template buffer and the 128 byte line buffer: outputs are sequences, and writing past the room made for them is not modelled.
- `mp_recv_line` on a stream without a further newline and on a failing `recv`: the source does not return, so the model asks for a newline. For an empty line the source looks at the byte before the string (lib/mp_net.c:162); the model looks only at lines that are not empty.
- SnmpWalk.SubtreeQuery: asks that the walk ends, since the source does not return otherwise; `WalkEnds`, `V1EndsIff` and `RepeatEndsIff` say when that is.
- Checksum.IpCsum: blocks of odd length, where the source reads one byte too many, are not modelled.
- Ranges.RangeVar.Parse: exponents, hexadecimal numbers, `inf` and `nan` of `strtod`, more than three decimals and the rounding of `double` and `%.3f` are not modelled.
- Ranges.PrintedDecidesIff: `printf` rounds exact halves by its own rule; the model rounds them up, which matters only for ranges the condition excludes.
- Ranges.RangeVar.Resolve: the maximum is passed as a `float` in the source; its rounding is not modelled. A maximum of zero or below, where there are no shares to compare, just scales the limits.
- Exports.Decode: strings are byte sequences; that a C string ends at an embedded NUL is not modelled. The node of a failed export, which the source does not free, is not tracked.
- FastCgi.Connection.Read: `sizeof(header)` is the size of a pointer in the source (lib/fcgi_utils.c:126-128); the model takes the eight bytes of a 64-bit machine. A failing read leaves the connection as it was.
- Url.IsUrl: `isalnum` and its kin are those of the C locale, and what `is_hostaddr` accepts is left open.
- `get_status`, `mp_perfdata_float`, `mp_exit` and the `set_*` accumulation, `mp_eopt`, the curl callbacks and the `mp_strcat` helpers: would only add easy members.
- Serial line, subprocess and timeout handling, and the sending and receiving of packets: device and process input and output.
