/**
 Threshold ranges (lib/mp_args.c): parsing, the alert decision and printing. Range limits are held
 in hundred-thousandths, so that three decimals and a percentage of them are exact.
 */
module Ranges {
  import opened Decimal
  import opened Text
  import opened Wrappers

  datatype Alert = Outside | Inside

  datatype Multiplier = Unscaled | Bisi | Time

  datatype Range = Range(
    start: int, startInfinity: bool, startPercent: bool,
    end: int, endInfinity: bool, endPercent: bool,
    alertOn: Alert)

  // ----- the decision -----

  /** `check_range`; the value is a real number of hundred-thousandths. */
  predicate CheckRange(value: real, r: Range): (alert: bool)
    ensures alert <==>
      ((r.startInfinity || r.start as real <= value) && (r.endInfinity || value <= r.end as real) <==>
       r.alertOn == Inside)
  {
    if value < r.start as real && !r.startInfinity then r.alertOn == Outside
    else if value > r.end as real && !r.endInfinity then r.alertOn == Outside
    else r.alertOn == Inside
  }

  // ----- parsing -----

  /** A number multiplied as `parse_multiplier_string` or `parse_time_multiplier_string` say. */
  function Scaled(v: int, m: Multiplier, rest: string): int {
    if rest == "" then v
    else
      match m
      case Unscaled => v
      case Bisi => BisiScaled(v, rest[0])
      case Time => TimeScaled(v, rest[0])
  }

  function BisiScaled(v: int, c: char): int {
    match c
    case 'k' => v * 1000
    case 'K' => v * 1024
    case 'm' => v * 1000000
    case 'M' => v * 1048578
    case 'g' => v * 1000000000
    case 'G' => v * 1073741824
    case 't' => v * 1000000000000
    case 'T' => v * 1099511627776
    case 'p' => v * 1000000000000000
    case 'P' => v * 1125899906842624
    case 'e' => v * 1000000000000000000
    case 'E' => v * 1152921504606846976
    case _ => v
  }

  function TimeScaled(v: int, c: char): int {
    match c
    case 'm' => v * 60
    case 'h' => v * 3600
    case 'd' => v * 86400
    case 'w' => v * 604800
    case _ => v
  }

  /** One limit of a range. */
  datatype Limit = Limit(value: int, infinity: bool, percent: bool)

  /** The limit made of a number of thousandths and what follows it in the text. */
  function NumberWith(v: int, rest: string, m: Multiplier): Limit {
    var percent := rest != "" && rest[0] == '%';
    Limit(if percent then Scaled(v, m, rest) else 100 * Scaled(v, m, rest), false, percent)
  }

  /** What reads a number, its percent sign and its multiplier, and whether there was a number. */
  type NumberReader = string -> (Limit, bool)

  function Reader(m: Multiplier): NumberReader {
    (s: string) =>
      var (v, used) := ReadDecimal(s);
      (NumberWith(v, s[used..], m), used > 0)
  }

  /**
   The lower limit. A text without a number is taken for zero: the source compares the end of the
   number with the wrong string, so its error return is never taken.
   */
  function StartLimit(s: string, num: NumberReader): Limit {
    if s != "" && s[0] == '~' then Limit(0, true, false) else num(s).0
  }

  /** The upper limit; a text without a number is an error. */
  function EndLimit(s: string, num: NumberReader): Option<Limit> {
    if s == "" || s[0] == '~' then Some(Limit(0, true, false))
    else if num(s).1 then Some(num(s).0) else None
  }

  /** The limits in order; the percent marks stay where they are. */
  function Ordered(start: Limit, end: Limit, alert: Alert): Range {
    if start.infinity || end.infinity || start.value <= end.value
    then Range(start.value, start.infinity, start.percent, end.value, end.infinity, end.percent, alert)
    else Range(end.value, false, start.percent, start.value, false, end.percent, alert)
  }

  function ParseLimits(s: string, num: NumberReader, alert: Alert): Option<Range> {
    var k := FirstOf(s, ':');
    var start := if k < |s| then StartLimit(s[..k], num) else Limit(0, false, false);
    var end := EndLimit(if k < |s| then s[k + 1..] else s, num);
    if end.None? then None else Some(Ordered(start, end.value, alert))
  }

  function ParseRange(s: string, num: NumberReader): Option<Range> {
    if s != "" && s[0] == '@' then ParseLimits(s[1..], num, Inside) else ParseLimits(s, num, Outside)
  }

  /** The struct the parser fills in. */
  class RangeVar {
    var start: int
    var startInfinity: bool
    var startPercent: bool
    var end: int
    var endInfinity: bool
    var endPercent: bool
    var alertOn: Alert

    function Value(): Range
      reads this
    {
      Range(start, startInfinity, startPercent, end, endInfinity, endPercent, alertOn)
    }

    constructor (r: Range)
      ensures Value() == r
    {
      start, startInfinity, startPercent := r.start, r.startInfinity, r.startPercent;
      end, endInfinity, endPercent := r.end, r.endInfinity, r.endPercent;
      alertOn := r.alertOn;
    }

    method ParseStart(text: string, num: NumberReader)
      modifies this`start, this`startInfinity, this`startPercent
      ensures Limit(start, startInfinity, startPercent) == StartLimit(text, num)
    {
      if text != "" && text[0] == '~' {
        start, startInfinity, startPercent := 0, true, false;
      } else {
        var (n, _) := num(text);
        start, startInfinity, startPercent := n.value, n.infinity, n.percent;
      }
    }

    method ParseEnd(text: string, num: NumberReader) returns (ok: bool)
      modifies this`end, this`endInfinity, this`endPercent
      ensures ok == EndLimit(text, num).Some?
      ensures ok ==> Limit(end, endInfinity, endPercent) == EndLimit(text, num).value
    {
      if text == "" || text[0] == '~' {
        end, endInfinity, endPercent := 0, true, false;
        return true;
      }
      var (n, read) := num(text);
      end, endInfinity, endPercent := n.value, n.infinity, n.percent;
      return read;
    }

    /** `parse_range_string`. */
    method Parse(str: string, num: NumberReader) returns (ok: bool)
      modifies this
      ensures ok == ParseRange(str, num).Some?
      ensures ok ==> Value() == ParseRange(str, num).value
    {
      start, startInfinity, startPercent := 0, false, false;
      end, endInfinity, endPercent := 0, false, false;
      alertOn := Outside;
      var s := str;
      if str != "" && str[0] == '@' {
        alertOn := Inside;
        s := str[1..];
      }
      var k := FirstOf(s, ':');
      if k < |s| {
        ParseStart(s[..k], num);
        ok := ParseEnd(s[k + 1..], num);
      } else {
        ok := ParseEnd(s, num);
      }
      if ok && !startInfinity && !endInfinity && start > end {
        start, end := end, start;
      }
    }

    /**
     The part of `mp_perfdata_percent_resolv` for one range. Afterwards a value is judged by
     itself as its share of the maximum was to be judged before.
     */
    method Resolve(max: int)
      modifies this
      ensures Value() == Resolved(old(Value()), max)
      ensures !startPercent && !endPercent
      ensures max > 0 ==> forall value: real :: CheckRange(value, Value()) <==> CheckShare(value, max, old(Value()))
    {
      ghost var before := Value();
      if startPercent {
        start := start * max;
        startPercent := false;
      }
      if endPercent {
        end := end * max;
        endPercent := false;
      }
      forall value: real | max > 0
        ensures CheckRange(value, Value()) <==> CheckShare(value, max, before)
      {
        ResolvedDecides(value, max, before);
      }
    }
  }

  /** The decision a range with percentages asks for: a percentage limits the value's share of the maximum. */
  predicate CheckShare(value: real, max: int, r: Range)
    requires max > 0
  {
    var share := value / (max as real);
    if (if r.startPercent then share else value) < r.start as real && !r.startInfinity then r.alertOn == Outside
    else if (if r.endPercent then share else value) > r.end as real && !r.endInfinity then r.alertOn == Outside
    else r.alertOn == Inside
  }

  lemma ShareCompares(value: real, max: int, limit: int)
    requires max > 0
    ensures value / (max as real) < limit as real <==> value < (limit * max) as real
    ensures value / (max as real) > limit as real <==> value > (limit * max) as real
  {
    var m, l := max as real, limit as real;
    var share := value / m;
    assert value == share * m;
    assert (limit * max) as real == l * m;
    if share < l {
      assert (l - share) * m > 0.0;
    } else if share > l {
      assert (share - l) * m > 0.0;
    }
  }

  lemma ResolvedDecides(value: real, max: int, r: Range)
    requires max > 0
    ensures CheckRange(value, Resolved(r, max)) <==> CheckShare(value, max, r)
  {
    ShareCompares(value, max, r.start);
    ShareCompares(value, max, r.end);
  }

  function Resolved(r: Range, max: int): Range {
    r.(start := if r.startPercent then r.start * max else r.start, startPercent := false,
       end := if r.endPercent then r.end * max else r.end, endPercent := false)
  }

  /** What every parsed range without percentages satisfies. */
  predicate Canonical(r: Range) {
    && !r.startPercent && !r.endPercent
    && r.start % 100 == 0 && r.end % 100 == 0
    && (r.startInfinity ==> r.start == 0)
    && (r.endInfinity ==> r.end == 0)
    && (!r.startInfinity && !r.endInfinity ==> r.start <= r.end)
  }

  /** Numbers without a percent sign are finite and whole thousandths. */
  ghost predicate Exact(num: NumberReader) {
    forall s: string :: !num(s).0.infinity && (!num(s).0.percent ==> num(s).0.value % 100 == 0)
  }

  lemma ParsedIsCanonical(s: string, num: NumberReader)
    requires Exact(num) && ParseRange(s, num).Some?
    requires !ParseRange(s, num).value.startPercent && !ParseRange(s, num).value.endPercent
    ensures Canonical(ParseRange(s, num).value)
  {
    var t := if s != "" && s[0] == '@' then s[1..] else s;
    var k := FirstOf(t, ':');
    var start := if k < |t| then StartLimit(t[..k], num) else Limit(0, false, false);
    var text := if k < |t| then t[k + 1..] else t;
    if k < |t| {
      LimitsAreWhole(t[..k], num);
    }
    LimitsAreWhole(text, num);
    OrderedIsCanonical(start, EndLimit(text, num).value, if s != "" && s[0] == '@' then Inside else Outside);
  }

  /** A limit is zero if infinite, and whole thousandths if it is no percentage. */
  predicate WholeLimit(l: Limit) {
    (l.infinity ==> l.value == 0 && !l.percent) && (!l.percent ==> l.value % 100 == 0)
  }

  lemma LimitsAreWhole(t: string, num: NumberReader)
    requires Exact(num)
    ensures WholeLimit(StartLimit(t, num)) && (EndLimit(t, num).Some? ==> WholeLimit(EndLimit(t, num).value))
  {
    assert !num(t).0.infinity && (!num(t).0.percent ==> num(t).0.value % 100 == 0);
  }

  lemma OrderedIsCanonical(start: Limit, end: Limit, alert: Alert)
    requires WholeLimit(start) && WholeLimit(end) && !start.percent && !end.percent
    ensures Canonical(Ordered(start, end, alert))
  {
  }

  // ----- the sign of the alert -----

  /** An '@' in front negates the decision for every value. */
  lemma AtNegates(s: string, num: NumberReader, value: real)
    requires s == "" || s[0] != '@'
    ensures ParseRange(['@'] + s, num).Some? <==> ParseRange(s, num).Some?
    ensures ParseRange(s, num).Some? ==>
      (CheckRange(value, ParseRange(['@'] + s, num).value) <==> !CheckRange(value, ParseRange(s, num).value))
  {
    assert (['@'] + s)[1..] == s;
  }

  // ----- printing -----

  /** "%.3f" of a limit. */
  function LimitText(u: int): string {
    FixedText((u + 50) / 100)
  }

  /** `str_range`. */
  function RangeText(r: Range): string {
    if r.startInfinity then
      if r.endInfinity then ['~', ':'] else ['~', ':'] + LimitText(r.end)
    else if r.start == 0 then LimitText(r.end)
    else if r.endInfinity then LimitText(r.start) + [':']
    else LimitText(r.start) + [':'] + LimitText(r.end)
  }

  /** The characters of a printed limit. */
  predicate LimitChar(c: char) {
    IsDigit(c) || c == '.' || c == '-'
  }

  lemma LimitTextChars(u: int)
    ensures var t := LimitText(u); t != "" && forall i :: 0 <= i < |t| ==> LimitChar(t[i])
  {
  }

  lemma TwoLimits(a: string, b: string, num: NumberReader)
    requires a != "" && a[0] != '@' && Free(a, ':')
    ensures ParseRange(a + [':'] + b, num) ==
      if EndLimit(b, num).None? then None else Some(Ordered(StartLimit(a, num), EndLimit(b, num).value, Outside))
  {
    assert (a + [':'] + b)[0] == a[0];
    CutAtFirst(a, ':', b);
  }

  lemma OneLimit(a: string, num: NumberReader)
    requires a != "" && a[0] != '@' && Free(a, ':')
    ensures ParseRange(a, num) ==
      if EndLimit(a, num).None? then None else Some(Ordered(Limit(0, false, false), EndLimit(a, num).value, Outside))
  {
    FirstOfFree(a, ':');
  }

  /** Printed limits are read back. */
  ghost predicate Inverts(num: NumberReader) {
    forall k: int :: num(FixedText(k)) == (Limit(100 * k, false, false), true)
  }

  /** A limit to three decimals. */
  function Rounded(u: int): int {
    (u + 50) / 100 * 100
  }

  lemma LimitReads(u: int, num: NumberReader)
    requires Inverts(num)
    ensures StartLimit(LimitText(u), num) == Limit(Rounded(u), false, false)
    ensures EndLimit(LimitText(u), num) == Some(Limit(Rounded(u), false, false))
  {
    LimitTextChars(u);
    var k := (u + 50) / 100;
    assert num(FixedText(k)) == (Limit(100 * k, false, false), true);
  }

  lemma OpenStartReads(b: string, num: NumberReader)
    ensures ParseRange(['~', ':'] + b, num) ==
      if EndLimit(b, num).None? then None else Some(Ordered(Limit(0, true, false), EndLimit(b, num).value, Outside))
  {
    var tilde: string := ['~'];
    assert ['~', ':'] + b == tilde + [':'] + b;
    TwoLimits(tilde, b, num);
  }

  /** A printed range read back: the limits to three decimals and in order, and the end of zero to infinity. */
  function Reread(r: Range): Range {
    Ordered(
      if r.startInfinity then Limit(0, true, false) else Limit(Rounded(r.start), false, false),
      if r.endInfinity && (r.startInfinity || r.start != 0) then Limit(0, true, false)
      else Limit(Rounded(r.end), false, false),
      Outside)
  }

  lemma PrintedReads(r: Range, num: NumberReader)
    requires Inverts(num)
    ensures ParseRange(RangeText(r), num) == Some(Reread(r))
  {
    var a, b, e: string := LimitText(r.start), LimitText(r.end), [];
    LimitTextChars(r.start);
    LimitTextChars(r.end);
    LimitReads(r.start, num);
    LimitReads(r.end, num);
    if r.startInfinity {
      OpenStartReads(if r.endInfinity then e else b, num);
      assert r.endInfinity ==> ['~', ':'] + e == RangeText(r);
    } else if r.start == 0 {
      OneLimit(b, num);
    } else if r.endInfinity {
      assert RangeText(r) == a + [':'] + e;
      TwoLimits(a, e, num);
    } else {
      TwoLimits(a, b, num);
    }
  }

  ghost predicate SameDecisions(a: Range, b: Range) {
    forall value: real :: CheckRange(value, a) == CheckRange(value, b)
  }

  /** What a printed range keeps: it alerts outside, its finite limits have three decimals and are in order. */
  predicate Printable(r: Range) {
    && r.alertOn == Outside
    && (r.startInfinity || r.start % 100 == 0)
    && (r.endInfinity || r.end % 100 == 0)
    && (r.startInfinity || r.endInfinity || r.start <= r.end)
    && !(!r.startInfinity && r.start == 0 && r.endInfinity)
  }

  lemma RoundedIff(u: int)
    ensures Rounded(u) == u <==> u % 100 == 0
  {
  }

  /** A value by which the limits a and b, of whatever order, differ from the limits c and d. */
  lemma LimitsDiffer(a: int, b: int, c: int, d: int) returns (value: real)
    requires c <= d && (a, b) != (c, d)
    ensures (a as real <= value <= b as real) != (c as real <= value <= d as real)
  {
    value := (if a > b then c else if a < c then a else if b > d then b else if a > c then c else d) as real;
  }

  /** A value on which a range that is not printable and its text disagree. */
  lemma DecidedApart(r: Range) returns (value: real)
    requires !Printable(r)
    ensures CheckRange(value, r) != CheckRange(value, Reread(r))
  {
    var q := Reread(r);
    if r.startInfinity && r.endInfinity {
      value := 0.0;
    } else if r.startInfinity {
      value := (if (r.alertOn == Inside) == (r.end < q.end) then r.end else q.end) as real;
    } else if r.endInfinity && r.start == 0 {
      value := (if r.alertOn == Inside then 0 else q.end + 1) as real;
    } else if r.endInfinity {
      value := (if (r.alertOn == Inside) == (r.start > q.start) then r.start else q.start) as real;
    } else if r.alertOn == Inside {
      value := ((if r.start < q.start then r.start else q.start) - 1) as real;
    } else {
      value := LimitsDiffer(r.start, r.end, q.start, q.end);
    }
  }

  lemma PrintableKept(r: Range)
    requires Printable(r)
    ensures SameDecisions(r, Reread(r))
  {
    RoundedIff(r.start);
    RoundedIff(r.end);
    var q := Reread(r);
    forall value: real ensures CheckRange(value, r) == CheckRange(value, q) {
      assert q.startInfinity == r.startInfinity && q.endInfinity == r.endInfinity && q.alertOn == r.alertOn;
      assert r.startInfinity || q.start == r.start;
      assert r.endInfinity || q.end == r.end;
    }
  }

  /**
   Round trip for every range, parsed or resolved: the printed text decides every value as the
   range does if and only if the range is printable.
   */
  lemma PrintedDecidesIff(r: Range, num: NumberReader)
    requires Inverts(num)
    ensures ParseRange(RangeText(r), num).Some?
    ensures SameDecisions(r, ParseRange(RangeText(r), num).value) <==> Printable(r)
  {
    PrintedReads(r, num);
    if Printable(r) {
      PrintableKept(r);
    } else {
      var value := DecidedApart(r);
      assert CheckRange(value, r) != CheckRange(value, Reread(r));
    }
  }

  /** For a range parsed without percentages only the sign of the alert and 0 to infinity get lost. */
  lemma ParsedPrintableIff(s: string, num: NumberReader)
    requires Exact(num) && ParseRange(s, num).Some?
    requires !ParseRange(s, num).value.startPercent && !ParseRange(s, num).value.endPercent
    ensures var r := ParseRange(s, num).value;
      Printable(r) <==> r.alertOn == Outside && !(!r.startInfinity && r.start == 0 && r.endInfinity)
  {
    ParsedIsCanonical(s, num);
  }

  /** The five shapes a range is printed in. */
  lemma PrintedForm(r: Range)
    ensures r.startInfinity && r.endInfinity ==> RangeText(r) == "~:"
    ensures r.startInfinity && !r.endInfinity ==> RangeText(r) == "~:" + FixedText((r.end + 50) / 100)
    ensures !r.startInfinity && r.start == 0 ==> RangeText(r) == FixedText((r.end + 50) / 100)
    ensures !r.startInfinity && r.start != 0 && r.endInfinity ==>
      RangeText(r) == FixedText((r.start + 50) / 100) + ":"
    ensures !r.startInfinity && r.start != 0 && !r.endInfinity ==>
      RangeText(r) == FixedText((r.start + 50) / 100) + ":" + FixedText((r.end + 50) / 100)
  {
  }

  // ----- limits in the wrong order -----

  /** What the exchange of the limits is for: each keeps its percent mark. */
  function OrderedAsMeant(start: Limit, end: Limit, alert: Alert): Range {
    if start.infinity || end.infinity || start.value <= end.value
    then Range(start.value, start.infinity, start.percent, end.value, end.infinity, end.percent, alert)
    else Range(end.value, end.infinity, end.percent, start.value, start.infinity, start.percent, alert)
  }

  /** The marks do not move with the limits; that is right exactly where nothing is exchanged or both are alike. */
  lemma MarksKeptIff(start: Limit, end: Limit, alert: Alert)
    ensures Ordered(start, end, alert) == OrderedAsMeant(start, end, alert) <==>
      start.infinity || end.infinity || start.value <= end.value || start.percent == end.percent
  {
  }

  // ----- how ranges are written -----

  lemma NumberReads(k: int, num: NumberReader)
    requires Inverts(num)
    ensures var t := FixedText(k);
      && t != "" && t[0] != '@' && Free(t, ':')
      && StartLimit(t, num) == Limit(100 * k, false, false) && EndLimit(t, num) == Some(Limit(100 * k, false, false))
  {
    var u := 100 * k;
    assert (u + 50) / 100 == k && Rounded(u) == u;
    LimitReads(u, num);
    LimitTextChars(u);
    assert LimitText(u) == FixedText(k);
  }

  /** One number is an upper limit above zero. */
  lemma OneNumberMeans(b: nat, num: NumberReader)
    requires Inverts(num)
    ensures ParseRange(FixedText(b), num) == Some(Range(0, false, false, 100 * b, false, false, Outside))
  {
    NumberReads(b, num);
    OneLimit(FixedText(b), num);
  }

  /** A colon separates the limits. */
  lemma TwoNumbersMean(a: int, b: int, num: NumberReader)
    requires Inverts(num) && a <= b
    ensures ParseRange(FixedText(a) + [':'] + FixedText(b), num) ==
            Some(Range(100 * a, false, false, 100 * b, false, false, Outside))
  {
    NumberReads(a, num);
    NumberReads(b, num);
    TwoLimits(FixedText(a), FixedText(b), num);
  }

  /** Without anything after the colon there is no upper limit. */
  lemma OpenEndMeans(a: int, none: string, num: NumberReader)
    requires Inverts(num) && none == ""
    ensures ParseRange(FixedText(a) + [':'] + none, num) ==
            Some(Range(100 * a, false, false, 0, true, false, Outside))
  {
    NumberReads(a, num);
    TwoLimits(FixedText(a), none, num);
  }

  /** With a tilde before it there is no lower one. */
  lemma OpenStartMeans(b: int, num: NumberReader)
    requires Inverts(num)
    ensures ParseRange(['~', ':'] + FixedText(b), num) ==
            Some(Range(0, true, false, 100 * b, false, false, Outside))
  {
    NumberReads(b, num);
    OpenStartReads(FixedText(b), num);
  }

  /** The documented multipliers, decimal in small and binary in capital letters (M as documented). */
  const BISI: map<char, int> :=
    map['k' := 1000, 'K' := 1024,
        'm' := 1000 * 1000, 'M' := 1048578,
        'g' := 1000 * 1000 * 1000, 'G' := 1024 * 1024 * 1024,
        't' := 1000 * 1000 * 1000 * 1000, 'T' := 1024 * 1024 * 1024 * 1024,
        'p' := 1000 * 1000 * 1000 * 1000 * 1000, 'P' := 1024 * 1024 * 1024 * 1024 * 1024,
        'e' := 1000 * 1000 * 1000 * 1000 * 1000 * 1000, 'E' := 1024 * 1024 * 1024 * 1024 * 1024 * 1024]

  /** Seconds to a minute, an hour, a day and a week. */
  const TIME: map<char, int> := map['m' := 60, 'h' := 60 * 60, 'd' := 24 * 60 * 60, 'w' := 7 * 24 * 60 * 60]

  function Factor(m: Multiplier, c: char): int {
    match m
    case Unscaled => 1
    case Bisi => if c in BISI then BISI[c] else 1
    case Time => if c in TIME then TIME[c] else 1
  }

  lemma ScaledByFactor(v: int, m: Multiplier, c: char)
    ensures Scaled(v, m, [c]) == v * Factor(m, c)
  {
  }

  /** A number followed by a percent sign is that many hundredths, by a multiplier that many times as much. */
  lemma SuffixReads(k: int, c: char, m: Multiplier)
    requires !IsDigit(c)
    ensures Reader(m)(FixedText(k) + [c]) ==
      (if c == '%' then Limit(k, false, true) else Limit(100 * k * Factor(m, c), false, false), true)
  {
    var t: string := [c];
    FixedReads(k, t);
    FixedTextReads(k);
    assert (FixedText(k) + t)[|FixedText(k)|..] == t;
    ScaledByFactor(k, m, c);
    SuffixValue(k, c, m);
  }

  lemma SuffixValue(k: int, c: char, m: Multiplier)
    ensures NumberWith(k, [c], m) ==
      if c == '%' then Limit(k, false, true) else Limit(100 * k * Factor(m, c), false, false)
  {
    ScaledByFactor(k, m, c);
    assert Factor(m, '%') == 1;
    assert 100 * (k * Factor(m, c)) == 100 * k * Factor(m, c);
  }

  // ----- what is refused -----

  /** The string without its '@'. */
  function Unmarked(s: string): string {
    if s != "" && s[0] == '@' then s[1..] else s
  }

  /** The text before the first colon. */
  function StartText(s: string): Option<string> {
    var t := Unmarked(s);
    var k := FirstOf(t, ':');
    if k < |t| then Some(t[..k]) else None
  }

  /** The text after the first colon, or all of it. */
  function EndText(s: string): string {
    var t := Unmarked(s);
    var k := FirstOf(t, ':');
    if k < |t| then t[k + 1..] else t
  }

  /** Text that should be a number and is none. */
  predicate Unreadable(t: string, num: NumberReader) {
    !(t != "" && t[0] == '~') && !num(t).1
  }

  /** A string is refused exactly for its end. */
  lemma RefusedIff(s: string, num: NumberReader)
    ensures ParseRange(s, num).None? <==> EndText(s) != "" && Unreadable(EndText(s), num)
  {
  }

  /**
   The source means to refuse an unreadable start too. It refuses exactly what it means to if
   and only if the start is readable or the end is refused anyway.
   */
  lemma RefusesAsMeantIff(s: string, num: NumberReader)
    ensures var badStart := StartText(s).Some? && Unreadable(StartText(s).value, num);
      var badEnd := EndText(s) != "" && Unreadable(EndText(s), num);
      (ParseRange(s, num).None? <==> badStart || badEnd) <==> !badStart || badEnd
  {
    RefusedIff(s, num);
  }

  lemma UnreadableIsZero(s: string, m: Multiplier)
    ensures !Reader(m)(s).1 ==> Reader(m)(s).0.value == 0 && !Reader(m)(s).0.infinity
  {
  }

  /** An unreadable start is zero: with a readable end the range is accepted as if it said so. */
  lemma UnreadableStartIsZero(a: string, k: int, m: Multiplier)
    requires a != "" && a[0] != '@' && Free(a, ':') && Unreadable(a, Reader(m)) && a[0] != '%'
    ensures ParseRange(a + [':'] + FixedText(k), Reader(m)) ==
            Some(Ordered(Limit(0, false, false), Limit(100 * k, false, false), Outside))
  {
    ReaderIsExact(m);
    TwoLimits(a, FixedText(k), Reader(m));
    LimitReads(100 * k, Reader(m));
    UnreadableIsZero(a, m);
  }

  /** So "x:5.000" is read as "0:5.000". */
  lemma XIsAccepted(x: string, five: string, m: Multiplier)
    requires |x| == 1 && x[0] == 'x' && five == FixedText(5000)
    ensures ParseRange(x + [':'] + five, Reader(m)) == Some(Range(0, false, false, 500000, false, false, Outside))
  {
    NoNumber(x);
    UnreadableStartIsZero(x, 5000, m);
  }

  lemma NoNumber(s: string)
    requires s != "" && !IsSpace(s[0]) && !IsDigit(s[0]) && s[0] != '-' && s[0] != '+' && s[0] != '.'
    ensures ReadDecimal(s) == (0, 0)
  {
    assert s[0..] == s;
  }

  lemma XSpelled(x: string, five: string)
    requires |x| == 1 && x[0] == 'x' && five == FixedText(5000)
    ensures x + [':'] + five == ['x', ':', '5', '.', '0', '0', '0']
  {
    assert NatText(5) == ['5'];
    assert x == ['x'];
  }

  // ----- decimal numbers are read so -----

  lemma NumberIsExact(v: int, rest: string, m: Multiplier)
    ensures var n := NumberWith(v, rest, m); !n.infinity && (!n.percent ==> n.value % 100 == 0)
  {
    var x := Scaled(v, m, rest);
    assert 100 * x % 100 == 0;
  }

  /** A printed number is read to its end. */
  lemma FixedTextReads(k: int)
    ensures ReadDecimal(FixedText(k)) == (k, |FixedText(k)|) && |FixedText(k)| > 0
  {
    var e: string := [];
    FixedReads(k, e);
    assert FixedText(k) + e == FixedText(k);
  }

  lemma NothingFollows(t: string, v: int, m: Multiplier)
    ensures NumberWith(v, t[|t|..], m) == Limit(100 * v, false, false)
  {
    assert t[|t|..] == "";
  }

  lemma ReaderExactAt(m: Multiplier, s: string)
    ensures var n := Reader(m)(s).0; !n.infinity && (!n.percent ==> n.value % 100 == 0)
  {
    var (v, used) := ReadDecimal(s);
    NumberIsExact(v, s[used..], m);
  }

  lemma ReaderAtEnd(m: Multiplier, t: string, v: int)
    requires t != "" && ReadDecimal(t) == (v, |t|)
    ensures Reader(m)(t) == (Limit(100 * v, false, false), true)
  {
    NothingFollows(t, v, m);
  }

  /** The number reader of the source meets what the round trip asks for, with every multiplier. */
  lemma ReaderIsExact(m: Multiplier)
    ensures Exact(Reader(m)) && Inverts(Reader(m))
  {
    var num := Reader(m);
    forall s: string ensures !num(s).0.infinity && (!num(s).0.percent ==> num(s).0.value % 100 == 0) {
      ReaderExactAt(m, s);
    }
    forall k: int ensures num(FixedText(k)) == (Limit(100 * k, false, false), true) {
      FixedTextReads(k);
      ReaderAtEnd(m, FixedText(k), k);
    }
  }
}
