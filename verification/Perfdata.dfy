/**
 The performance data string (lib/mp_perfdata.c): what the integer calls append to it, and a
 reader that takes it apart again.
 */
module Perfdata {
  import opened Decimal
  import opened Ranges
  import opened Text
  import opened Wrappers

  /** The arguments of one call, percentages of the thresholds already resolved. */
  datatype Record = Record(
    name: string, value: int, unit: string,
    warning: Option<Range>, critical: Option<Range>, min: Option<int>, max: Option<int>)

  // ----- the text of a record -----

  /** Labels with any of these characters are put in quotes. */
  predicate NeedsQuotes(s: string) {
    exists i :: 0 <= i < |s| && s[i] in {'\'', '=', ' ', '+'}
  }

  function LabelText(s: string): string {
    if NeedsQuotes(s) then ['\''] + s + ['\''] else s
  }

  function RangeField(r: Option<Range>): string {
    if r.Some? then RangeText(r.value) else ""
  }

  function IntField(n: Option<int>): string {
    if n.Some? then IntText(n.value) else ""
  }

  /** A label stands in quotes exactly if it holds a quote, an equals sign, a blank or a plus sign. */
  lemma LabelLaidOut(s: string)
    ensures Free(s, '\'') && Free(s, '=') && Free(s, ' ') && Free(s, '+') ==> LabelText(s) == s
    ensures !(Free(s, '\'') && Free(s, '=') && Free(s, ' ') && Free(s, '+')) ==> LabelText(s) == "'" + s + "'"
  {
  }

  /** The fields of a record in order. */
  function Fields(r: Record): seq<string> {
    [IntText(r.value) + r.unit, RangeField(r.warning), RangeField(r.critical), IntField(r.min), IntField(r.max)]
  }

  /** Each field followed by a semicolon. */
  function Terminated(fields: seq<string>): string {
    if fields == [] then "" else fields[0] + [';'] + Terminated(fields[1..])
  }

  /** The fields without the empty ones at the end; the first field always stays. */
  function Shortened(fields: seq<string>): (r: seq<string>)
    ensures r <= fields && (fields != [] ==> r != [])
  {
    if |fields| > 1 && fields[|fields| - 1] == "" then Shortened(fields[..|fields| - 1]) else fields
  }

  function RecordText(r: Record): string {
    LabelText(r.name) + ['='] + Terminated(Shortened(Fields(r)))
  }

  /** A record with all its fields: label, value with unit, both thresholds, minimum and maximum. */
  lemma RecordLaidOut(r: Record)
    requires r.warning.Some? && r.critical.Some? && r.min.Some? && r.max.Some?
    ensures RecordText(r) ==
      LabelText(r.name) + ['='] + (IntText(r.value) + r.unit + [';'] + (RangeText(r.warning.value) + [';'] +
      (RangeText(r.critical.value) + [';'] + (IntText(r.min.value) + [';'] + (IntText(r.max.value) + [';'])))))
  {
    var f := Fields(r);
    IntFree(r.max.value, ';');
    assert Shortened(f) == f;
    FiveTerminated(f[0], f[1], f[2], f[3], f[4]);
    assert f == [f[0], f[1], f[2], f[3], f[4]];
  }

  lemma FiveTerminated(a: string, b: string, c: string, d: string, e: string)
    ensures Terminated([a, b, c, d, e]) ==
      a + [';'] + (b + [';'] + (c + [';'] + (d + [';'] + (e + [';']))))
  {
    TerminatedCons(a, [b, c, d, e]);
    TerminatedCons(b, [c, d, e]);
    TerminatedCons(c, [d, e]);
    TerminatedCons(d, [e]);
    TerminatedOne(e);
  }

  lemma TerminatedCons(f: string, rest: seq<string>)
    ensures Terminated([f] + rest) == f + [';'] + Terminated(rest)
  {
    assert ([f] + rest)[1..] == rest;
  }

  lemma TerminatedOne(f: string)
    ensures Terminated([f]) == f + [';']
  {
    assert [f][1..] == [];
    assert f + [';'] + "" == f + [';'];
  }

  /** Between records stands one blank. */
  lemma RecordsLaidOut(records: seq<Record>, r: Record)
    ensures AllText(records + [r]) == (if records == [] then "" else AllText(records) + " ") + RecordText(r)
  {
    ExtendedIsAllText(records, r);
    assert "" + RecordText(r) == RecordText(r);
  }

  /** The whole string after a sequence of calls. */
  function AllText(records: seq<Record>): string {
    if records == [] then ""
    else if |records| == 1 then RecordText(records[0])
    else
      var n := |records| - 1;
      AllText(records[..n]) + [' '] + RecordText(records[n])
  }

  // ----- the source's calls -----

  /** The effect of the trimming loop: a last character goes while a semicolon stands before it. */
  function TrimTail(s: string): string {
    if |s| >= 2 && s[|s| - 2] == ';' then TrimTail(s[..|s| - 1]) else s
  }

  /** What is put together before trimming. */
  function Untrimmed(text: Option<string>, r: Record): string {
    var before := (if text.None? then "" else text.value + [' ']) + LabelText(r.name) + ['='];
    var f := Fields(r);
    var four := before + f[0] + [';'] + f[1] + [';'] + f[2] + [';'] + f[3] + [';'];
    if r.max.Some? then four + f[4] + [';'] else four
  }

  /** Trimming leaves one semicolon and never reaches what stands before the fields. */
  lemma {:induction false} TrimFields(before: string, fields: seq<string>)
    requires fields != [] && fields[0] != "" && forall i :: 0 <= i < |fields| ==> Free(fields[i], ';')
    ensures TrimTail(before + Terminated(fields)) == before + Terminated(Shortened(fields))
    decreases |fields|
  {
    LastField(before, fields);
    if |fields| > 1 && fields[|fields| - 1] == "" {
      DropField(before, fields);
      TrimFields(before, fields[..|fields| - 1]);
    }
  }

  /** With no semicolon in the unit, the call appends exactly the record. */
  lemma TrimmedIsExtended(text: Option<string>, r: Record)
    requires Free(r.unit, ';')
    ensures TrimTail(Untrimmed(text, r)) == Extended(text, r)
  {
    var before := (if text.None? then "" else text.value + [' ']) + LabelText(r.name) + ['='];
    var f := Fields(r);
    FourOrFive(before, r, before + f[0] + [';'] + f[1] + [';'] + f[2] + [';'] + f[3] + [';']);
    FieldsAreFree(r, ';');
    TrimFields(before, if r.max.Some? then f else f[..4]);
    ExtendedBy(text, r, Terminated(Shortened(f)));
  }

  lemma {:induction false} TerminatedAppend(fields: seq<string>, f: string)
    ensures Terminated(fields + [f]) == Terminated(fields) + (f + [';'])
  {
    if fields == [] {
      assert fields + [f] == [f] && [f][1..] == [];
    } else {
      assert (fields + [f])[1..] == fields[1..] + [f];
      TerminatedAppend(fields[1..], f);
    }
  }

  /** The character before the last semicolon is one only if the last field is empty. */
  lemma LastField(before: string, fs: seq<string>)
    requires fs != [] && fs[0] != "" && forall i :: 0 <= i < |fs| ==> Free(fs[i], ';')
    ensures var r := before + Terminated(fs);
      |r| >= 2 && (r[|r| - 2] == ';' <==> |fs| > 1 && fs[|fs| - 1] == "")
  {
    var n := |fs| - 1;
    var f := fs[n];
    assert fs == fs[..n] + [f];
    TerminatedAppend(fs[..n], f);
    if n > 0 {
      assert fs[..n] == fs[..n - 1] + [fs[n - 1]];
      TerminatedAppend(fs[..n - 1], fs[n - 1]);
    }
    EndsWith(before, Terminated(fs[..n]), f);
    if n > 0 && f == "" {
      assert Terminated(fs[..n])[|Terminated(fs[..n])| - 1] == ';';
    }
  }

  lemma EndsWith(before: string, t: string, f: string)
    ensures var r := before + (t + (f + [';']));
      && r[|r| - 1] == ';'
      && (f != "" ==> r[|r| - 2] == f[|f| - 1])
      && (f == "" && t != "" ==> r[|r| - 2] == t[|t| - 1])
  {
  }

  lemma DropField(before: string, fs: seq<string>)
    requires |fs| > 1 && fs[|fs| - 1] == ""
    ensures var r := before + Terminated(fs);
      r[..|r| - 1] == before + Terminated(fs[..|fs| - 1])
  {
    var n := |fs| - 1;
    assert fs == fs[..n] + [fs[n]];
    TerminatedAppend(fs[..n], fs[n]);
  }

  /** The global string and the switch for it. */
  class Collector {
    var text: Option<string>
    var show: bool

    constructor (show: bool)
      ensures text == None && this.show == show
    {
      text := None;
      this.show := show;
    }

    /** The text part of `mp_perfdata_int2`: label, five fields, trimming. */
    method AppendRecord(r: Record)
      modifies this`text
      ensures text == Some(TrimTail(Untrimmed(old(text), r)))
      ensures Free(r.unit, ';') ==> text == Some(Extended(old(text), r))
    {
      var before := (if text.None? then "" else text.value + [' ']) + LabelText(r.name) + ['='];
      var head := IntText(r.value) + r.unit;
      var w, c, low := RangeField(r.warning), RangeField(r.critical), IntField(r.min);
      var buf := before + head + [';'] + w + [';'] + c + [';'] + low + [';'];
      if r.max.Some? {
        buf := buf + IntText(r.max.value) + [';'];
      }
      assert buf == Untrimmed(text, r);
      while |buf| >= 2 && buf[|buf| - 2] == ';'
        invariant TrimTail(buf) == TrimTail(Untrimmed(old(text), r))
        decreases |buf|
      {
        buf := buf[..|buf| - 1];
      }
      if Free(r.unit, ';') {
        TrimmedIsExtended(text, r);
      }
      text := Some(buf);
    }

    /** `mp_perfdata_int2`: percentages are resolved even if nothing is shown. */
    method AddInt(name: string, value: int, unit: string, warning: RangeVar?, critical: RangeVar?,
                  min: Option<int>, max: Option<int>)
      modifies this`text, warning, critical
      ensures warning != null ==> warning.Value() == Resolved(old(warning.Value()), max.GetOr(0))
      ensures critical != null ==> critical.Value() == Resolved(old(critical.Value()), max.GetOr(0))
      ensures !show ==> text == old(text)
      ensures show && Free(unit, ';') ==> text == Some(Extended(old(text), Record(name, value, unit,
        if warning == null then None else Some(warning.Value()),
        if critical == null then None else Some(critical.Value()), min, max)))
    {
      if warning != null {
        warning.Resolve(max.GetOr(0));
      }
      if critical != null {
        critical.Resolve(max.GetOr(0));
        ResolvedTwice(if warning == critical then old(critical.Value()) else critical.Value(), max.GetOr(0));
      }
      if !show {
        return;
      }
      AppendRecord(Record(name, value, unit,
        if warning == null then None else Some(warning.Value()),
        if critical == null then None else Some(critical.Value()), min, max));
    }

    /** `mp_perfdata_int3`: thresholds given as upper limits. */
    method AddInt3(name: string, value: int, unit: string, warn: Option<int>, crit: Option<int>,
                   min: Option<int>, max: Option<int>)
      modifies this`text
      ensures !show ==> text == old(text)
      ensures show && Free(unit, ';') ==>
        text == Some(Extended(old(text), Record(name, value, unit, UpTo(warn), UpTo(crit), min, max)))
    {
      var warning: RangeVar? := null;
      var critical: RangeVar? := null;
      if warn.Some? {
        warning := new RangeVar(UpTo(warn).value);
      }
      if crit.Some? {
        critical := new RangeVar(UpTo(crit).value);
      }
      AddInt(name, value, unit, warning, critical, min, max);
    }

    /** One call, with thresholds that may have been used by earlier calls. */
    method Add(call: Call, ghost values: map<RangeVar, Range>)
      requires Knows(call, values) && Tracks(values) && Free(call.unit, ';')
      modifies this`text, values.Keys
      ensures Tracks(Settled(values, call))
      ensures text == if show then Some(Extended(old(text), RecordOf(call, values))) else old(text)
    {
      match call {
        case Int2(name, value, unit, warning, critical, min, max) =>
          AddInt(name, value, unit, warning, critical, min, max);
          SettledAre(values, call, warning, critical);
        case Int3(name, value, unit, warn, crit, min, max) =>
          AddInt3(name, value, unit, warn, crit, min, max);
      }
    }

    method AddNext(calls: seq<Call>, i: nat, ghost values: map<RangeVar, Range>,
                   ghost done: seq<Record>, ghost now: map<RangeVar, Range>)
      returns (ghost done': seq<Record>, ghost now': map<RangeVar, Range>)
      requires show && i < |calls| && Progress(calls, i, values, done, now)
      requires Tracks(now) && text == TextOf(done)
      modifies this`text, values.Keys
      ensures Progress(calls, i + 1, values, done', now') && Tracks(now') && text == TextOf(done')
    {
      ProgressStep(calls, i, values, done, now);
      done', now' := done + [RecordOf(calls[i], now)], Settled(now, calls[i]);
      Add(calls[i], now);
    }

    /** Any number of calls: the string then holds a record of each and gives them all back. */
    method AddAll(calls: seq<Call>, ghost values: map<RangeVar, Range>)
      requires text == None && show && Tracks(values)
      requires forall i :: 0 <= i < |calls| ==> Knows(calls[i], values) && ReadableCall(calls[i])
      modifies this`text, values.Keys
      ensures text == TextOf(RecordsOf(calls, values))
      ensures ReadAll(text.GetOr("")) == Some(SeenAll(RecordsOf(calls, values)))
    {
      var i := 0;
      ghost var now, done: seq<Record> := values, [];
      ProgressStart(calls, values);
      while i < |calls|
        invariant Progress(calls, i, values, done, now)
        invariant Tracks(now) && text == TextOf(done)
      {
        done, now := AddNext(calls, i, values, done, now);
        i := i + 1;
      }
      ProgressDone(calls, values, done, now);
    }
  }

  // ----- sequences of calls -----

  /** The arguments of a call of `mp_perfdata_int2` or `mp_perfdata_int3`. */
  datatype Call =
    | Int2(name: string, value: int, unit: string, warning: RangeVar?, critical: RangeVar?,
           min: Option<int>, max: Option<int>)
    | Int3(name: string, value: int, unit: string, warn: Option<int>, crit: Option<int>,
           min: Option<int>, max: Option<int>)

  /** The thresholds of the call are among those whose values are given. */
  ghost predicate Knows(call: Call, values: map<RangeVar, Range>) {
    call.Int2? ==>
      && (call.warning == null || call.warning in values)
      && (call.critical == null || call.critical in values)
  }

  /** The thresholds have these values. */
  ghost predicate Tracks(values: map<RangeVar, Range>)
    reads values.Keys
  {
    forall v :: v in values ==> v.Value() == values[v]
  }

  ghost function SettledOne(values: map<RangeVar, Range>, v: RangeVar?, max: int): map<RangeVar, Range> {
    if v != null && v in values then values[v := Resolved(values[v], max)] else values
  }

  /** The thresholds after a call: percentages of its two are resolved by its maximum, once for all. */
  ghost function Settled(values: map<RangeVar, Range>, call: Call): map<RangeVar, Range> {
    if call.Int2? then
      SettledOne(SettledOne(values, call.warning, call.max.GetOr(0)), call.critical, call.max.GetOr(0))
    else values
  }

  lemma SettledAre(values: map<RangeVar, Range>, call: Call, warning: RangeVar?, critical: RangeVar?)
    requires Knows(call, values) && call.Int2? && warning == call.warning && critical == call.critical
    ensures var after, max := Settled(values, call), call.max.GetOr(0);
      && after.Keys == values.Keys
      && (forall v :: v in values && v != warning && v != critical ==> after[v] == values[v])
      && (warning != null ==> after[warning] == Resolved(values[warning], max))
      && (critical != null ==> after[critical] == Resolved(values[critical], max))
  {
    if warning != null {
      ResolvedTwice(values[warning], call.max.GetOr(0));
    }
  }

  ghost function ValueIn(values: map<RangeVar, Range>, v: RangeVar?): Option<Range> {
    if v != null && v in values then Some(values[v]) else None
  }

  /** The record a call appends. */
  ghost function RecordOf(call: Call, values: map<RangeVar, Range>): Record {
    match call
    case Int2(name, value, unit, warning, critical, min, max) =>
      var after := Settled(values, call);
      Record(name, value, unit, ValueIn(after, warning), ValueIn(after, critical), min, max)
    case Int3(name, value, unit, warn, crit, min, max) =>
      Record(name, value, unit, UpTo(warn), UpTo(crit), min, max)
  }

  /** The records of a sequence of calls, which may share thresholds. */
  ghost function RecordsOf(calls: seq<Call>, values: map<RangeVar, Range>): seq<Record> {
    if calls == [] then [] else [RecordOf(calls[0], values)] + RecordsOf(calls[1..], Settled(values, calls[0]))
  }

  predicate ReadableCall(call: Call) {
    ReadableText(call.name, call.unit)
  }

  lemma RecordsStep(calls: seq<Call>, i: nat, now: map<RangeVar, Range>, done: seq<Record>)
    requires i < |calls|
    ensures done + RecordsOf(calls[i..], now) ==
            done + [RecordOf(calls[i], now)] + RecordsOf(calls[i + 1..], Settled(now, calls[i]))
  {
    var rest := RecordsOf(calls[i + 1..], Settled(now, calls[i]));
    assert calls[i..][1..] == calls[i + 1..];
    assert done + ([RecordOf(calls[i], now)] + rest) == done + [RecordOf(calls[i], now)] + rest;
  }

  lemma SameKeys(call: Call, values: map<RangeVar, Range>, now: map<RangeVar, Range>)
    requires now.Keys == values.Keys && Knows(call, values)
    ensures Knows(call, now) && Settled(now, call).Keys == values.Keys
  {
  }

  /** The string that holds some records. */
  function TextOf(records: seq<Record>): Option<string> {
    if records == [] then None else Some(AllText(records))
  }

  /** The first i calls made the records `done` and left the thresholds at `now`. */
  ghost predicate Progress(calls: seq<Call>, i: nat, values: map<RangeVar, Range>,
                           done: seq<Record>, now: map<RangeVar, Range>)
  {
    && i <= |calls|
    && now.Keys == values.Keys
    && (forall j :: 0 <= j < |calls| ==> Knows(calls[j], values) && ReadableCall(calls[j]))
    && AllReadable(done)
    && done + RecordsOf(calls[i..], now) == RecordsOf(calls, values)
  }

  lemma ProgressStart(calls: seq<Call>, values: map<RangeVar, Range>)
    requires forall j :: 0 <= j < |calls| ==> Knows(calls[j], values) && ReadableCall(calls[j])
    ensures Progress(calls, 0, values, [], values)
  {
    assert calls[0..] == calls && [] + RecordsOf(calls, values) == RecordsOf(calls, values);
  }

  lemma ProgressStep(calls: seq<Call>, i: nat, values: map<RangeVar, Range>,
                     done: seq<Record>, now: map<RangeVar, Range>)
    requires i < |calls| && Progress(calls, i, values, done, now)
    ensures Knows(calls[i], now) && Free(calls[i].unit, ';')
    ensures var r := RecordOf(calls[i], now);
      && Progress(calls, i + 1, values, done + [r], Settled(now, calls[i]))
      && TextOf(done + [r]) == Some(Extended(TextOf(done), r))
  {
    var r := RecordOf(calls[i], now);
    RecordsStep(calls, i, now, done);
    ExtendedIsAllText(done, r);
    SameKeys(calls[i], values, now);
    OneMoreReadable(done, r);
  }

  predicate AllReadable(records: seq<Record>) {
    forall j :: 0 <= j < |records| ==> Readable(records[j])
  }

  lemma OneMoreReadable(done: seq<Record>, r: Record)
    requires AllReadable(done) && Readable(r)
    ensures AllReadable(done + [r])
  {
  }

  lemma ProgressDone(calls: seq<Call>, values: map<RangeVar, Range>, done: seq<Record>, now: map<RangeVar, Range>)
    requires Progress(calls, |calls|, values, done, now)
    ensures done == RecordsOf(calls, values)
    ensures ReadAll(TextOf(done).GetOr("")) == Some(SeenAll(done))
  {
    assert done + [] == done;
    AllReads(done);
  }

  function UpTo(n: Option<int>): Option<Range> {
    if n.None? then None else Some(Range(0, true, false, 100000 * n.value, false, false, Outside))
  }

  /** An upper limit given as a number alerts exactly above it (values are counted in hundred-thousandths). */
  lemma UpToDecides(n: int, value: real)
    ensures CheckRange(value, UpTo(Some(n)).value) <==> value > (100000 * n) as real
  {
  }

  /**
   What a threshold field is worth: read again, it decides every value as the threshold does exactly
   if the threshold is printable; a limit given as a number always is.
   */
  lemma ThresholdFieldDecides(r: Range, num: NumberReader)
    requires Inverts(num)
    ensures RangeField(Some(r)) == RangeText(r) && RangeField(None) == ""
    ensures ParseRange(RangeText(r), num).Some?
    ensures SameDecisions(r, ParseRange(RangeText(r), num).value) <==> Printable(r)
  {
    PrintedDecidesIff(r, num);
  }

  lemma UpToIsPrintable(n: int)
    ensures Printable(UpTo(Some(n)).value)
  {
  }

  /** The string after one more record. */
  function Extended(text: Option<string>, r: Record): string {
    if text.None? then RecordText(r) else text.value + [' '] + RecordText(r)
  }

  lemma ExtendedBy(text: Option<string>, r: Record, fields: string)
    requires fields == Terminated(Shortened(Fields(r)))
    ensures (if text.None? then "" else text.value + [' ']) + LabelText(r.name) + ['='] + fields == Extended(text, r)
  {
    var e: string := [];
    assert e + LabelText(r.name) == LabelText(r.name);
  }

  lemma ResolvedTwice(r: Range, max: int)
    ensures Resolved(Resolved(r, max), max) == Resolved(r, max)
  {
  }

  // ----- the characters of the fields -----

  lemma LimitFree(u: int, c: char)
    requires !LimitChar(c)
    ensures Free(LimitText(u), c)
  {
    LimitTextChars(u);
  }

  lemma FreeConcat(a: string, b: string, c: char)
    requires Free(a, c) && Free(b, c)
    ensures Free(a + b, c)
  {
  }

  lemma RangeFree(r: Range, c: char)
    requires c == ';' || c == ' '
    ensures Free(RangeText(r), c)
  {
    LimitFree(r.start, c);
    LimitFree(r.end, c);
    FreeConcat(['~', ':'], LimitText(r.end), c);
    FreeConcat(LimitText(r.start), [':'], c);
    FreeConcat(LimitText(r.start) + [':'], LimitText(r.end), c);
  }

  lemma IntFree(z: int, c: char)
    requires c == ';' || c == ' '
    ensures Free(IntText(z), c) && IntText(z) != ""
  {
  }

  lemma FieldsAreFree(r: Record, c: char)
    requires Free(r.unit, c) && (c == ';' || c == ' ')
    ensures Fields(r)[0] != "" && forall i :: 0 <= i < |Fields(r)| ==> Free(Fields(r)[i], c)
  {
    IntFree(r.value, c);
    FreeConcat(IntText(r.value), r.unit, c);
    if r.warning.Some? { RangeFree(r.warning.value, c); }
    if r.critical.Some? { RangeFree(r.critical.value, c); }
    if r.min.Some? { IntFree(r.min.value, c); }
    if r.max.Some? { IntFree(r.max.value, c); }
  }

  lemma Append(before: string, fields: seq<string>, f: string, text: string)
    requires text == before + Terminated(fields)
    ensures text + f + [';'] == before + Terminated(fields + [f])
  {
    TerminatedAppend(fields, f);
  }

  /** The text as the source puts it together is the fields terminated one by one. */
  lemma FourOrFive(before: string, r: Record, text: string)
    requires text == before + Fields(r)[0] + [';'] + Fields(r)[1] + [';'] + Fields(r)[2] + [';'] + Fields(r)[3] + [';']
    ensures text == before + Terminated(Fields(r)[..4])
    ensures text + Fields(r)[4] + [';'] == before + Terminated(Fields(r))
  {
    var f := Fields(r);
    var none: seq<string> := [];
    var t0 := before;
    var t1 := t0 + f[0] + [';'];
    var t2 := t1 + f[1] + [';'];
    var t3 := t2 + f[2] + [';'];
    Append(before, none, f[0], t0);
    Append(before, none + [f[0]], f[1], t1);
    Append(before, none + [f[0]] + [f[1]], f[2], t2);
    Append(before, none + [f[0]] + [f[1]] + [f[2]], f[3], t3);
    assert none + [f[0]] + [f[1]] + [f[2]] + [f[3]] == f[..4];
    Append(before, f[..4], f[4], text);
    assert f[..4] + [f[4]] == f;
  }

  // ----- a reader -----

  datatype Parsed = Parsed(
    name: string, value: int, unit: string, warning: string, critical: string, min: Option<int>, max: Option<int>)

  /** The label and what follows its equals sign. */
  function ReadLabel(s: string): Option<(string, string)> {
    if s != "" && s[0] == '\'' then
      var k := FirstOf(s[1..], '\'');
      if k + 2 < |s| then Some((s[1..][..k], s[1..][k + 1..][1..])) else None
    else
      var k := FirstOf(s, '=');
      if k < |s| && Free(s[..k], ' ') then Some((s[..k], s[k + 1..])) else None
  }

  /** The texts before the semicolons. */
  function SplitFields(s: string): seq<string>
    decreases |s|
  {
    var k := FirstOf(s, ';');
    if k == |s| then [] else [s[..k]] + SplitFields(s[k + 1..])
  }

  function FieldAt(fields: seq<string>, i: nat): string {
    if i < |fields| then fields[i] else ""
  }

  function OptionalInt(s: string): Option<int> {
    if s == "" then None else Some(ReadInt(s).0)
  }

  function ReadFields(name: string, fields: seq<string>): Parsed {
    var head := FieldAt(fields, 0);
    var (v, used) := ReadInt(head);
    Parsed(name, v, if used <= |head| then head[used..] else "",
      FieldAt(fields, 1), FieldAt(fields, 2), OptionalInt(FieldAt(fields, 3)), OptionalInt(FieldAt(fields, 4)))
  }

  /** All records: a label, then everything up to a space. */
  function ReadAll(s: string): Option<seq<Parsed>>
    decreases |s|
  {
    if s == "" then Some([])
    else
      match ReadLabel(s)
      case None => None
      case Some((name, rest)) =>
        var k := FirstOf(rest, ' ');
        var first := ReadFields(name, SplitFields(rest[..k]));
        if k == |rest| then Some([first])
        else if |rest| > |s| then None
        else
          match ReadAll(rest[k + 1..])
          case None => None
          case Some(more) => Some([first] + more)
  }

  /** What the reader is to find of a record. */
  function Seen(r: Record): Parsed {
    Parsed(r.name, r.value, r.unit, RangeField(r.warning), RangeField(r.critical), r.min, r.max)
  }

  function SeenAll(records: seq<Record>): seq<Parsed> {
    seq(|records|, i requires 0 <= i < |records| => Seen(records[i]))
  }

  /** A label without quotes, a unit without digits, spaces and semicolons. */
  predicate ReadableText(name: string, unit: string) {
    && Free(name, '\'')
    && Free(unit, ';') && Free(unit, ' ')
    && forall i :: 0 <= i < |unit| ==> !IsDigit(unit[i])
  }

  predicate Readable(r: Record) {
    ReadableText(r.name, r.unit)
  }

  lemma {:induction false} SplitTerminated(fields: seq<string>)
    requires forall i :: 0 <= i < |fields| ==> Free(fields[i], ';')
    ensures SplitFields(Terminated(fields)) == fields
  {
    if fields != [] {
      SplitTerminated(fields[1..]);
      CutAtFirst(fields[0], ';', Terminated(fields[1..]));
      assert fields == [fields[0]] + fields[1..];
    }
  }

  lemma {:induction false} TerminatedFree(fields: seq<string>)
    requires forall i :: 0 <= i < |fields| ==> Free(fields[i], ' ')
    ensures Free(Terminated(fields), ' ')
  {
    if fields != [] {
      TerminatedFree(fields[1..]);
      FreeConcat(fields[0], [';'], ' ');
      FreeConcat(fields[0] + [';'], Terminated(fields[1..]), ' ');
    }
  }

  /** Dropped fields read as empty. */
  lemma {:induction false} ShortenedReads(fields: seq<string>, i: nat)
    ensures FieldAt(Shortened(fields), i) == FieldAt(fields, i)
  {
    if |fields| > 1 && fields[|fields| - 1] == "" {
      ShortenedReads(fields[..|fields| - 1], i);
    }
  }

  lemma OptionalIntReads(n: Option<int>)
    ensures OptionalInt(IntField(n)) == n
  {
    if n.Some? {
      var e: string := [];
      IntFree(n.value, ';');
      IntReads(n.value, e);
      assert IntText(n.value) + e == IntText(n.value);
    }
  }

  lemma HeadReads(r: Record)
    requires Readable(r)
    ensures var head := Fields(r)[0];
      ReadInt(head) == (r.value, |IntText(r.value)|) && head[|IntText(r.value)|..] == r.unit
  {
    IntReads(r.value, r.unit);
  }

  lemma FieldsRead(r: Record)
    requires Readable(r)
    ensures ReadFields(r.name, Shortened(Fields(r))) == Seen(r)
  {
    var f := Fields(r);
    ShortenedReads(f, 0);
    ShortenedReads(f, 1);
    ShortenedReads(f, 2);
    ShortenedReads(f, 3);
    ShortenedReads(f, 4);
    HeadReads(r);
    OptionalIntReads(r.min);
    OptionalIntReads(r.max);
  }

  lemma QuotedLabelReads(name: string, rest: string)
    requires Free(name, '\'')
    ensures ReadLabel(['\''] + name + ['\''] + ['='] + rest) == Some((name, rest))
  {
    var s := ['\''] + name + ['\''] + ['='] + rest;
    var t := name + ['\''] + (['='] + rest);
    assert s[0] == '\'' && s[1..] == t;
    CutAtFirst(name, '\'', ['='] + rest);
    assert (['='] + rest)[1..] == rest;
  }

  lemma PlainLabelReads(name: string, rest: string)
    requires Free(name, '=') && Free(name, '\'') && Free(name, ' ')
    ensures ReadLabel(name + ['='] + rest) == Some((name, rest))
  {
    var s := name + ['='] + rest;
    assert s[0] == if name == "" then '=' else name[0];
    CutAtFirst(name, '=', rest);
  }

  lemma LabelReads(name: string, rest: string)
    requires Free(name, '\'')
    ensures ReadLabel(LabelText(name) + ['='] + rest) == Some((name, rest))
  {
    if NeedsQuotes(name) {
      QuotedLabelReads(name, rest);
    } else {
      PlainLabelReads(name, rest);
    }
  }

  lemma BodyReads(r: Record)
    requires Readable(r)
    ensures var body := Terminated(Shortened(Fields(r)));
      Free(body, ' ') && ReadFields(r.name, SplitFields(body)) == Seen(r)
  {
    var f := Shortened(Fields(r));
    FieldsAreFree(r, ';');
    FieldsAreFree(r, ' ');
    assert forall i :: 0 <= i < |f| ==> f[i] == Fields(r)[i];
    SplitTerminated(f);
    TerminatedFree(f);
    FieldsRead(r);
  }

  /** A record alone, and a record followed by others, are read as what they are. */
  lemma LastReads(r: Record)
    requires Readable(r)
    ensures ReadAll(RecordText(r)) == Some([Seen(r)])
  {
    var body := Terminated(Shortened(Fields(r)));
    LabelReads(r.name, body);
    BodyReads(r);
    FirstOfFree(body, ' ');
    assert body[..|body|] == body;
  }

  lemma FirstReads(r: Record, more: string)
    requires Readable(r)
    ensures ReadAll(RecordText(r) + [' '] + more) ==
      match ReadAll(more) case None => None case Some(ps) => Some([Seen(r)] + ps)
  {
    var body := Terminated(Shortened(Fields(r)));
    var s := RecordText(r) + [' '] + more;
    assert s == LabelText(r.name) + ['='] + (body + [' '] + more);
    LabelReads(r.name, body + [' '] + more);
    BodyReads(r);
    CutAtFirst(body, ' ', more);
  }

  lemma AllTextLast(front: seq<Record>, r: Record)
    requires front != []
    ensures AllText(front + [r]) == AllText(front) + [' '] + RecordText(r)
  {
    assert (front + [r])[..|front|] == front;
  }

  lemma AllTextOne(r: Record)
    ensures AllText([r]) == RecordText(r)
  {
  }

  lemma {:induction false} AllTextCons(r: Record, rest: seq<Record>)
    requires rest != []
    ensures AllText([r] + rest) == RecordText(r) + [' '] + AllText(rest)
    decreases |rest|
  {
    var n := |rest| - 1;
    var front, last := rest[..n], rest[n];
    assert rest == front + [last];
    if n == 0 {
      AllTextOne(r);
      AllTextOne(last);
      AllTextLast([r], last);
      assert front + [last] == [last];
    } else {
      AllTextCons(r, front);
      AllTextLast(front, last);
      AllTextLast([r] + front, last);
      assert [r] + front + [last] == [r] + rest;
      Reassociate(RecordText(r), AllText(front), RecordText(last));
    }
  }

  lemma AllTextFirst(records: seq<Record>)
    requires |records| > 1
    ensures AllText(records) == RecordText(records[0]) + [' '] + AllText(records[1..])
  {
    assert records == [records[0]] + records[1..];
    AllTextCons(records[0], records[1..]);
  }

  lemma Reassociate(a: string, b: string, c: string)
    ensures a + [' '] + b + [' '] + c == a + [' '] + (b + [' '] + c)
  {
  }

  /** Main theorem: every record of every call comes back, in order, with all its fields. */
  lemma {:induction false} AllReads(records: seq<Record>)
    requires forall i :: 0 <= i < |records| ==> Readable(records[i])
    ensures ReadAll(AllText(records)) == Some(SeenAll(records))
    decreases |records|
  {
    if |records| == 0 {
      assert SeenAll(records) == [];
    } else if |records| == 1 {
      LastReads(records[0]);
      assert SeenAll(records) == [Seen(records[0])];
    } else {
      var tail := records[1..];
      AllReads(tail);
      AllTextFirst(records);
      FirstReads(records[0], AllText(tail));
      SeenFirst(records);
    }
  }

  lemma SeenFirst(records: seq<Record>)
    requires records != []
    ensures SeenAll(records) == [Seen(records[0])] + SeenAll(records[1..])
  {
  }

  /** What the appending of one record does to the whole, so that calls add up to `AllText`. */
  lemma ExtendedIsAllText(records: seq<Record>, r: Record)
    ensures Extended(if records == [] then None else Some(AllText(records)), r) == AllText(records + [r])
  {
    assert (records + [r])[..|records|] == records;
  }

  /** After trimming, a record ends in exactly one semicolon. */
  lemma EndsInOneSemicolon(r: Record)
    requires Free(r.unit, ';')
    ensures var s := RecordText(r); |s| >= 2 && s[|s| - 1] == ';' && s[|s| - 2] != ';'
  {
    var f := Shortened(Fields(r));
    FieldsAreFree(r, ';');
    assert forall i :: 0 <= i < |f| ==> f[i] == Fields(r)[i];
    LastField(LabelText(r.name) + ['='], f);
    ShortenedEnds(Fields(r));
    var n := |f| - 1;
    assert f == f[..n] + [f[n]];
    TerminatedAppend(f[..n], f[n]);
    EndsWith(LabelText(r.name) + ['='], Terminated(f[..n]), f[n]);
  }

  lemma {:induction false} ShortenedEnds(fields: seq<string>)
    requires fields != []
    ensures var f := Shortened(fields); |f| == 1 || f[|f| - 1] != ""
  {
    if |fields| > 1 && fields[|fields| - 1] == "" {
      ShortenedEnds(fields[..|fields| - 1]);
    }
  }
}
