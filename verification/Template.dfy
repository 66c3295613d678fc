/**
 The conditional machine of the template engine (lib/mp_template.c), the grammar that drives it
 (lib/mp_template_yacc.y) and a recursive evaluator for template trees.
 */
module Template {
  import opened Wrappers

  // ----- the plain machine: one level for every open conditional -----

  /** An open IF or SWITCH: its value, and whether the branch being read produces output. */
  datatype Level = Level(value: int, active: bool)

  datatype Event =
    | Append(text: Option<string>)
    | If(expr: int)
    | Else
    | Switch(value: int)
    | Case(tag: int)
    | End

  datatype Plain = Plain(levels: seq<Level>, out: string)

  predicate Enabled(levels: seq<Level>) {
    forall l :: l in levels ==> l.active
  }

  function TextOf(text: Option<string>): string {
    if text.Some? then text.value else ""
  }

  /** What an event does to the open conditionals; an Else, a Case or an End outside all of them does nothing. */
  function StepLevels(levels: seq<Level>, e: Event): seq<Level> {
    var n := |levels|;
    match e
    case Append(_) => levels
    case If(expr) => levels + [Level(expr, expr != 0)]
    case Switch(value) => levels + [Level(value, false)]
    case Else => if n == 0 then levels else Switched(levels, levels[n - 1].value == 0)
    case Case(tag) => if n == 0 then levels else Switched(levels, levels[n - 1].value == tag)
    case End => if n == 0 then levels else levels[..n - 1]
  }

  function Step(p: Plain, e: Event): Plain {
    if e.Append? then
      if Enabled(p.levels) then p.(out := p.out + TextOf(e.text)) else p
    else p.(levels := StepLevels(p.levels, e))
  }

  function Run(p: Plain, events: seq<Event>): Plain
    decreases |events|
  {
    if events == [] then p else Run(Step(p, events[0]), events[1..])
  }

  /** Inside n conditionals, the events never address a conditional that is not open. */
  predicate WellNested(n: nat, events: seq<Event>)
    decreases |events|
  {
    events == [] ||
    match events[0]
    case Append(_) => WellNested(n, events[1..])
    case If(_) => WellNested(n + 1, events[1..])
    case Switch(_) => WellNested(n + 1, events[1..])
    case Else => n > 0 && WellNested(n, events[1..])
    case Case(_) => n > 0 && WellNested(n, events[1..])
    case End => n > 0 && WellNested(n - 1, events[1..])
  }

  // ----- the compressed stack -----

  /** `struct mp_template_conditional_list`: `deep` stands for all conditionals inner while disabled. */
  datatype Frame = Frame(deep: nat, ival: int)

  /** The number of levels outside the first inactive one. */
  function ActiveDepth(levels: seq<Level>): (k: nat)
    ensures k <= |levels|
  {
    if levels == [] || !levels[0].active then 0 else 1 + ActiveDepth(levels[1..])
  }

  lemma {:induction false} ActiveDepthIs(levels: seq<Level>)
    ensures var k := ActiveDepth(levels);
      (forall i :: 0 <= i < k ==> levels[i].active) && (k < |levels| ==> !levels[k].active)
  {
    if levels != [] && levels[0].active {
      ActiveDepthIs(levels[1..]);
    }
  }

  lemma ActiveDepthUnique(levels: seq<Level>, k: nat)
    requires k <= |levels| && (forall i :: 0 <= i < k ==> levels[i].active)
    requires k < |levels| ==> !levels[k].active
    ensures ActiveDepth(levels) == k
  {
    ActiveDepthIs(levels);
  }

  lemma EnabledIffAllActive(levels: seq<Level>)
    ensures Enabled(levels) <==> ActiveDepth(levels) == |levels|
  {
    var k := ActiveDepth(levels);
    ActiveDepthIs(levels);
    if k < |levels| {
      assert levels[k] in levels;
    }
  }

  /** The frames the source keeps: all levels up to the first inactive one, the rest only counted. */
  function Compress(levels: seq<Level>): seq<Frame> {
    Frames(levels, ActiveDepth(levels))
  }

  function Frames(levels: seq<Level>, k: nat): (frames: seq<Frame>)
    requires k <= |levels|
    ensures |frames| == if k == |levels| then k else k + 1
    ensures forall i :: 0 <= i < |frames| ==>
      frames[i] == Frame(if i == k then |levels| - i - 1 else 0, levels[i].value)
  {
    var n := if k == |levels| then k else k + 1;
    seq(n, i requires 0 <= i < n => Frame(if i == k then |levels| - i - 1 else 0, levels[i].value))
  }

  /** Frames and disable flag stand for the plain stack. */
  ghost predicate Represents(conds: seq<Frame>, disabled: bool, levels: seq<Level>) {
    conds == Compress(levels) && (disabled <==> ActiveDepth(levels) < |levels|)
  }

  /** The global state of mp_template.c. */
  class Engine {
    var disabled: bool
    var buffer: array<char>
    var pos: nat
    var conds: seq<Frame>

    /** The plain stack the other fields are a compressed form of. */
    ghost var levels: seq<Level>

    ghost predicate Valid()
      reads this, buffer
    {
      && pos < buffer.Length && buffer[pos] == '\0'
      && Represents(conds, disabled, levels)
    }

    /** The output so far. */
    ghost function Output(): string
      requires Valid()
      reads this, buffer
    {
      buffer[..pos]
    }

    ghost function View(): Plain
      requires Valid()
      reads this, buffer
    {
      Plain(levels, Output())
    }

    constructor ()
      ensures Valid() && fresh(buffer) && View() == Plain([], "")
    {
      buffer := new char[64](_ => '\0');
      pos := 0;
      disabled := false;
      conds := [];
      levels := [];
    }

    /** Grows the buffer in blocks of 64 until `len` characters and the terminator fit. */
    method Reserve(len: nat)
      requires Valid()
      modifies this`buffer
      ensures Valid() && View() == old(View()) && pos + len < buffer.Length
      ensures buffer == old(buffer) || fresh(buffer)
    {
      if buffer.Length < pos + len + 1 {
        var size := buffer.Length;
        while size < pos + len + 1
          invariant buffer.Length <= size
        {
          size := size + 64;
        }
        size := size + 64;
        var old_buffer, n := buffer, buffer.Length;
        var grown := new char[size](i requires 0 <= i reads old_buffer => if i < n then old_buffer[i] else '\0');
        assert grown[..pos] == buffer[..pos];
        buffer := grown;
      }
    }

    method AppendText(text: Option<string>)
      requires Valid()
      modifies this`buffer, this`pos, buffer
      ensures Valid() && View() == Step(old(View()), Append(text))
      ensures Output() == if text.Some? && !old(disabled) then old(Output()) + text.value else old(Output())
      ensures disabled == old(disabled) && conds == old(conds)
      ensures buffer == old(buffer) || fresh(buffer)
    {
      EnabledIffAllActive(levels);
      if text.None? || disabled {
        return;
      }
      var s := text.value;
      Reserve(|s|);
      WriteAt(buffer, pos, s);
      pos := pos + |s|;
    }

    /** The `strncpy` of a string and its terminator. */
    static method WriteAt(a: array<char>, pos: nat, s: string)
      requires pos + |s| < a.Length
      modifies a
      ensures a[..pos + |s|] == old(a[..pos]) + s && a[pos + |s|] == '\0'
    {
      forall i | 0 <= i < |s| {
        a[pos + i] := s[i];
      }
      a[pos + |s|] := '\0';
      assert a[..pos] == old(a[..pos]) && a[pos..pos + |s|] == s;
      assert a[..pos + |s|] == a[..pos] + a[pos..pos + |s|];
    }

    method IfTrue(expr: int)
      requires Valid()
      modifies this`disabled, this`conds, this`levels
      ensures Valid() && levels == StepLevels(old(levels), If(expr))
    {
      Opens(conds, disabled, levels, Level(expr, expr != 0));
      levels := levels + [Level(expr, expr != 0)];
      if disabled {
        conds := Deeper(conds);
        return;
      }
      conds := conds + [Frame(0, expr)];
      disabled := expr == 0;
    }

    method SwitchInt(i: int)
      requires Valid()
      modifies this`disabled, this`conds, this`levels
      ensures Valid() && levels == StepLevels(old(levels), Switch(i))
    {
      Opens(conds, disabled, levels, Level(i, false));
      levels := levels + [Level(i, false)];
      if disabled {
        conds := Deeper(conds);
        return;
      }
      conds := conds + [Frame(0, i)];
      disabled := true;
    }

    method ElseBranch()
      requires Valid() && conds != []
      modifies this`disabled, this`levels
      ensures Valid() && levels == StepLevels(old(levels), Else)
    {
      var top := conds[|conds| - 1];
      Switches(conds, disabled, levels, 0);
      levels := Switched(levels, levels[|levels| - 1].value == 0);
      if top.deep > 0 {
        return;
      }
      disabled := top.ival != 0;
    }

    method CaseInt(i: int)
      requires Valid() && conds != []
      modifies this`disabled, this`levels
      ensures Valid() && levels == StepLevels(old(levels), Case(i))
    {
      var top := conds[|conds| - 1];
      Switches(conds, disabled, levels, i);
      levels := Switched(levels, levels[|levels| - 1].value == i);
      if top.deep > 0 {
        return;
      }
      disabled := top.ival != i;
    }

    method EndCond()
      requires Valid() && conds != []
      modifies this`disabled, this`conds, this`levels
      ensures Valid() && levels == StepLevels(old(levels), End)
    {
      var top := conds[|conds| - 1];
      Closes(conds, disabled, levels);
      levels := levels[..|levels| - 1];
      if top.deep > 0 {
        conds := conds[|conds| - 1 := top.(deep := top.deep - 1)];
        return;
      }
      conds := conds[..|conds| - 1];
      disabled := false;
    }

    /** The parser's action for one event. */
    method Act(e: Event)
      requires Valid() && (e.Else? || e.Case? || e.End? ==> levels != [])
      modifies this, buffer
      ensures Valid() && View() == Step(old(View()), e)
      ensures buffer == old(buffer) || fresh(buffer)
    {
      match e {
        case Append(text) => AppendText(text);
        case If(expr) => IfTrue(expr);
        case Switch(value) => SwitchInt(value);
        case Else => ElseBranch();
        case Case(tag) => CaseInt(tag);
        case End => EndCond();
      }
    }

    method Feed(events: seq<Event>)
      requires Valid() && WellNested(|levels|, events)
      modifies this, buffer
      ensures Valid() && View() == Run(old(View()), events)
    {
      var i := 0;
      while i < |events|
        invariant 0 <= i <= |events|
        invariant Valid() && WellNested(|levels|, events[i..])
        invariant Run(old(View()), events) == Run(View(), events[i..])
        invariant buffer == old(buffer) || fresh(buffer)
        decreases |events| - i
      {
        assert events[i..][1..] == events[i + 1..];
        Act(events[i]);
        i := i + 1;
      }
    }
  }

  // ----- the compressed stack follows the plain one -----

  /** A conditional opened while disabled is only counted, any other gets a frame of its own. */
  lemma Opens(conds: seq<Frame>, disabled: bool, levels: seq<Level>, l: Level)
    requires Represents(conds, disabled, levels)
    ensures disabled ==> conds != []
    ensures Represents(if disabled then Deeper(conds) else conds + [Frame(0, l.value)],
                       disabled || !l.active, levels + [l])
  {
    var k, n := ActiveDepth(levels), |levels|;
    var k' := if k < n then k else if l.active then n + 1 else n;
    ActiveDepthIs(levels);
    ActiveDepthUnique(levels + [l], k');
    FramesOpen(levels, l, k, k');
  }

  function Deeper(frames: seq<Frame>): seq<Frame>
    requires frames != []
  {
    frames[|frames| - 1 := frames[|frames| - 1].(deep := frames[|frames| - 1].deep + 1)]
  }

  lemma FramesOpen(levels: seq<Level>, l: Level, k: nat, k': nat)
    requires k <= |levels| && k' == if k < |levels| then k else if l.active then |levels| + 1 else |levels|
    ensures k < |levels| ==> Frames(levels, k) != [] && Frames(levels + [l], k') == Deeper(Frames(levels, k))
    ensures k == |levels| ==> Frames(levels + [l], k') == Frames(levels, k) + [Frame(0, l.value)]
  {
  }

  function Switched(levels: seq<Level>, active: bool): seq<Level>
    requires levels != []
  {
    levels[|levels| - 1 := levels[|levels| - 1].(active := active)]
  }

  /**
   Switching the innermost level to whether its value is the tag shows exactly when no suppressed
   level lies inside the top frame.
   */
  lemma Switches(conds: seq<Frame>, disabled: bool, levels: seq<Level>, tag: int)
    requires Represents(conds, disabled, levels) && conds != []
    ensures levels != []
    ensures var top := conds[|conds| - 1];
      Represents(conds, if top.deep > 0 then disabled else top.ival != tag,
                 Switched(levels, levels[|levels| - 1].value == tag))
  {
    var k, n := ActiveDepth(levels), |levels| - 1;
    var active := levels[n].value == tag;
    var k' := if k < n then k else if active then n + 1 else n;
    ActiveDepthIs(levels);
    ActiveDepthUnique(Switched(levels, active), k');
    FramesSwitch(levels, active, k, k');
  }

  lemma FramesSwitch(levels: seq<Level>, active: bool, k: nat, k': nat)
    requires levels != [] && k <= |levels|
    requires k' == if k < |levels| - 1 then k else if active then |levels| else |levels| - 1
    ensures var frames := Frames(levels, k);
      && Frames(Switched(levels, active), k') == frames != []
      && frames[|frames| - 1] ==
         if k < |levels| - 1 then Frame(|levels| - k - 1, levels[k].value) else Frame(0, levels[|levels| - 1].value)
  {
  }

  /** Closing a conditional undoes a count, or drops the top frame and enables the output. */
  lemma Closes(conds: seq<Frame>, disabled: bool, levels: seq<Level>)
    requires Represents(conds, disabled, levels) && conds != []
    ensures levels != []
    ensures var m, n := |conds| - 1, |levels| - 1;
      if conds[m].deep > 0
      then Represents(conds[m := conds[m].(deep := conds[m].deep - 1)], disabled, levels[..n])
      else Represents(conds[..m], false, levels[..n])
  {
    var k, n := ActiveDepth(levels), |levels| - 1;
    var k' := if k < n then k else n;
    ActiveDepthIs(levels);
    ActiveDepthUnique(levels[..n], k');
    FramesClose(levels, k, k');
  }

  lemma FramesClose(levels: seq<Level>, k: nat, k': nat)
    requires levels != [] && k <= |levels| && k' == if k < |levels| - 1 then k else |levels| - 1
    ensures var n, frames := |levels| - 1, Frames(levels, k);
      && frames != []
      && var m := |frames| - 1;
         && (frames[m].deep > 0 <==> k < n)
         && Frames(levels[..n], k') ==
            if k < n then frames[m := frames[m].(deep := frames[m].deep - 1)] else frames[..m]
  {
  }

  // ----- template trees -----

  /** A parsed block; `expr` is the truth value the grammar hands on (negated for UNLESS). */
  datatype Block =
    | Text(text: Option<string>)
    | Conditional(expr: int, thenPart: seq<Block>, elsePart: ElsePart)
    | Selection(value: int, arms: seq<Arm>)

  datatype ElsePart = NoElse | ElseBlocks(blocks: seq<Block>)

  datatype Arm = Arm(tag: int, body: seq<Block>)

  /** What a template is meant to produce. */
  function Eval(blocks: seq<Block>): string
    decreases blocks
  {
    if blocks == [] then "" else EvalBlock(blocks[0]) + Eval(blocks[1..])
  }

  function EvalBlock(b: Block): string
    decreases b
  {
    match b
    case Text(text) => TextOf(text)
    case Conditional(expr, thenPart, elsePart) =>
      if expr != 0 then Eval(thenPart) else EvalElse(elsePart)
    case Selection(value, arms) => EvalArms(value, arms)
  }

  function EvalElse(elsePart: ElsePart): string
    decreases elsePart
  {
    if elsePart.ElseBlocks? then Eval(elsePart.blocks) else ""
  }

  /** Every arm whose tag matches contributes. */
  function EvalArms(value: int, arms: seq<Arm>): string
    decreases arms
  {
    if arms == [] then ""
    else ArmText(value, arms[0]) + EvalArms(value, arms[1..])
  }

  function ArmText(value: int, arm: Arm): string
    decreases arm
  {
    if arm.tag == value then Eval(arm.body) else ""
  }

  lemma EvalOne(b: Block)
    ensures Eval([b]) == EvalBlock(b)
  {
    assert [b][1..] == [] && Eval([]) == "";
    assert EvalBlock(b) + "" == EvalBlock(b);
  }

  /** Texts stand for themselves, and templates one after the other for their values one after the other. */
  lemma EvalOfTexts(s: string)
    ensures Eval([Text(Some(s))]) == s && Eval([Text(None)]) == ""
  {
    EvalOne(Text(Some(s)));
    EvalOne(Text(None));
  }

  lemma {:induction false} EvalConcat(a: seq<Block>, b: seq<Block>)
    ensures Eval(a + b) == Eval(a) + Eval(b)
  {
    if a == [] {
      assert a + b == b && "" + Eval(b) == Eval(b);
    } else {
      assert (a + b)[0] == a[0] && (a + b)[1..] == a[1..] + b;
      EvalConcat(a[1..], b);
      assert EvalBlock(a[0]) + (Eval(a[1..]) + Eval(b)) == EvalBlock(a[0]) + Eval(a[1..]) + Eval(b);
    }
  }

  /** An IF stands for the part its value selects. */
  lemma EvalOfIf(expr: int, yes: seq<Block>, no: seq<Block>)
    ensures Eval([Conditional(expr, yes, ElseBlocks(no))]) == if expr == 0 then Eval(no) else Eval(yes)
    ensures Eval([Conditional(expr, yes, NoElse)]) == if expr == 0 then "" else Eval(yes)
  {
    EvalOne(Conditional(expr, yes, ElseBlocks(no)));
    EvalOne(Conditional(expr, yes, NoElse));
  }

  /** A SWITCH stands for the arms with its value: the only one, or none. */
  lemma {:induction false} EvalOfSwitch(value: int, arms: seq<Arm>, k: nat)
    requires forall i :: 0 <= i < |arms| ==> (arms[i].tag == value <==> i == k)
    ensures Eval([Selection(value, arms)]) == if k < |arms| then Eval(arms[k].body) else ""
    decreases |arms|
  {
    EvalOne(Selection(value, arms));
    if arms == [] {
      assert EvalArms(value, arms) == "";
    } else if k == 0 {
      assert arms[0].tag == value;
      forall i | 0 <= i < |arms[1..]| ensures arms[1..][i].tag != value {
        assert arms[1..][i] == arms[i + 1];
      }
      NoArm(value, arms[1..]);
      assert EvalArms(value, arms) == Eval(arms[0].body) + "" == Eval(arms[0].body);
    } else {
      assert arms[0].tag != value;
      forall i | 0 <= i < |arms[1..]| ensures arms[1..][i].tag == value <==> i == k - 1 {
        assert arms[1..][i] == arms[i + 1];
      }
      EvalOfSwitch(value, arms[1..], k - 1);
      EvalOne(Selection(value, arms[1..]));
      assert EvalArms(value, arms) == "" + EvalArms(value, arms[1..]) == EvalArms(value, arms[1..]);
    }
  }

  lemma {:induction false} NoArm(value: int, arms: seq<Arm>)
    requires forall i :: 0 <= i < |arms| ==> arms[i].tag != value
    ensures EvalArms(value, arms) == ""
    decreases |arms|
  {
    if arms != [] {
      NoArm(value, arms[1..]);
    }
  }

  /** The calls the grammar's actions make while a tree is parsed. */
  function Events(blocks: seq<Block>): seq<Event>
    decreases blocks
  {
    if blocks == [] then [] else EventsOf(blocks[0]) + Events(blocks[1..])
  }

  function EventsOf(b: Block): seq<Event>
    decreases b
  {
    match b
    case Text(text) => [Append(text)]
    case Conditional(expr, thenPart, elsePart) =>
      [If(expr)] + Events(thenPart) + ElseEvents(elsePart) + [End]
    case Selection(value, arms) => [Switch(value)] + ArmEvents(arms) + [End]
  }

  function ElseEvents(elsePart: ElsePart): seq<Event>
    decreases elsePart
  {
    if elsePart.ElseBlocks? then [Else] + Events(elsePart.blocks) else []
  }

  function ArmEvents(arms: seq<Arm>): seq<Event>
    decreases arms
  {
    if arms == [] then [] else [Case(arms[0].tag)] + Events(arms[0].body) + ArmEvents(arms[1..])
  }

  lemma {:induction false} RunConcat(p: Plain, a: seq<Event>, b: seq<Event>)
    ensures Run(p, a + b) == Run(Run(p, a), b)
    decreases |a|
  {
    if a == [] {
      assert a + b == b;
    } else {
      assert (a + b)[1..] == a[1..] + b;
      RunConcat(Step(p, a[0]), a[1..], b);
    }
  }

  lemma RunOne(p: Plain, e: Event)
    ensures Run(p, [e]) == Step(p, e)
  {
    assert [e][1..] == [];
  }

  /** The state after reading something whose output is `text`: nothing but the output changes. */
  function Emit(p: Plain, text: string): Plain {
    if Enabled(p.levels) then p.(out := p.out + text) else p
  }

  lemma EnabledUnder(levels: seq<Level>, l: Level)
    ensures Enabled(levels + [l]) <==> Enabled(levels) && l.active
  {
    assert forall m :: m in levels + [l] <==> m in levels || m == l;
  }

  /** Main theorem: a tree's events append its value if output is enabled and change nothing else. */
  lemma {:induction false} RunsToEval(p: Plain, blocks: seq<Block>)
    ensures Run(p, Events(blocks)) == Emit(p, Eval(blocks))
    decreases blocks
  {
    if blocks == [] {
      assert p.out + "" == p.out;
    } else {
      RunConcat(p, EventsOf(blocks[0]), Events(blocks[1..]));
      BlockRunsToEval(p, blocks[0]);
      RunsToEval(Emit(p, EvalBlock(blocks[0])), blocks[1..]);
      assert p.out + (EvalBlock(blocks[0]) + Eval(blocks[1..])) == p.out + EvalBlock(blocks[0]) + Eval(blocks[1..]);
    }
  }

  lemma {:induction false} BlockRunsToEval(p: Plain, b: Block)
    ensures Run(p, EventsOf(b)) == Emit(p, EvalBlock(b))
    decreases b
  {
    match b
    case Text(text) =>
      RunOne(p, Append(text));
    case Conditional(expr, thenPart, elsePart) =>
      ConditionalRunsToEval(p, expr, thenPart, elsePart);
    case Selection(value, arms) =>
      var inner := p.(levels := p.levels + [Level(value, false)]);
      var armEvents := ArmEvents(arms);
      RunParts(p, Switch(value), armEvents, []);
      assert [Switch(value)] + armEvents + [] + [End] == EventsOf(b);
      ArmsRunToEval(p, value, false, arms);
      CloseLevel(p, Run(inner, armEvents));
  }

  /** Reading the ELSE of an open IF, if it has one. */
  lemma {:induction false} ElseRunsToEval(p: Plain, expr: int, elsePart: ElsePart)
    ensures var q := Run(p.(levels := p.levels + [Level(expr, expr != 0)]), ElseEvents(elsePart));
      && q.out == (if expr == 0 then Emit(p, EvalElse(elsePart)) else p).out
      && |q.levels| == |p.levels| + 1 && q.levels[..|p.levels|] == p.levels
    decreases elsePart
  {
    var inner := p.(levels := p.levels + [Level(expr, expr != 0)]);
    if elsePart.ElseBlocks? {
      var r := p.(levels := p.levels + [Level(expr, expr == 0)]);
      RunConcat(inner, [Else], Events(elsePart.blocks));
      RunOne(inner, Else);
      assert Step(inner, Else) == r;
      RunsToEval(r, elsePart.blocks);
      EnabledUnder(p.levels, Level(expr, expr == 0));
    } else {
      assert p.out + "" == p.out;
    }
  }

  lemma CloseLevel(p: Plain, q: Plain)
    requires |q.levels| == |p.levels| + 1 && q.levels[..|p.levels|] == p.levels
    ensures Run(q, [End]) == Plain(p.levels, q.out)
  {
    RunOne(q, End);
  }

  /** The three parts one after the other. */
  lemma RunParts(p: Plain, first: Event, a: seq<Event>, b: seq<Event>)
    ensures Run(p, [first] + a + b + [End]) == Run(Run(Run(Step(p, first), a), b), [End])
  {
    RunConcat(p, [first] + a + b, [End]);
    RunConcat(p, [first] + a, b);
    RunConcat(p, [first], a);
    RunOne(p, first);
  }

  lemma {:induction false} ConditionalRunsToEval(p: Plain, expr: int, thenPart: seq<Block>, elsePart: ElsePart)
    ensures var b := Conditional(expr, thenPart, elsePart); Run(p, EventsOf(b)) == Emit(p, EvalBlock(b))
    decreases Conditional(expr, thenPart, elsePart), 0
  {
    var l := Level(expr, expr != 0);
    var p' := if expr != 0 then Emit(p, Eval(thenPart)) else p;
    RunParts(p, If(expr), Events(thenPart), ElseEvents(elsePart));
    RunsToEval(p.(levels := p.levels + [l]), thenPart);
    EnabledUnder(p.levels, l);
    ElseRunsToEval(p', expr, elsePart);
    CloseLevel(p, Run(p'.(levels := p.levels + [l]), ElseEvents(elsePart)));
  }

  /** Reading one arm of an open SWITCH, whatever the arm before left its level as. */
  lemma {:induction false} ArmRunsToEval(p: Plain, value: int, active: bool, arm: Arm)
    ensures Run(p.(levels := p.levels + [Level(value, active)]), [Case(arm.tag)] + Events(arm.body)) ==
            Emit(p, ArmText(value, arm)).(levels := p.levels + [Level(value, arm.tag == value)])
    decreases arm
  {
    var inner := p.(levels := p.levels + [Level(value, active)]);
    var q := p.(levels := p.levels + [Level(value, arm.tag == value)]);
    RunConcat(inner, [Case(arm.tag)], Events(arm.body));
    RunOne(inner, Case(arm.tag));
    assert Step(inner, Case(arm.tag)) == q;
    RunsToEval(q, arm.body);
    EnabledUnder(p.levels, Level(value, arm.tag == value));
    assert p.out + "" == p.out;
  }

  lemma {:induction false} ArmsRunToEval(p: Plain, value: int, active: bool, arms: seq<Arm>)
    ensures var q := Run(p.(levels := p.levels + [Level(value, active)]), ArmEvents(arms));
      && q.out == Emit(p, EvalArms(value, arms)).out
      && |q.levels| == |p.levels| + 1 && q.levels[..|p.levels|] == p.levels
    decreases arms
  {
    var inner := p.(levels := p.levels + [Level(value, active)]);
    if arms == [] {
      assert p.out + "" == p.out;
    } else {
      var first := [Case(arms[0].tag)] + Events(arms[0].body);
      RunConcat(inner, first, ArmEvents(arms[1..]));
      ArmRunsToEval(p, value, active, arms[0]);
      var p' := Emit(p, ArmText(value, arms[0]));
      ArmsRunToEval(p', value, arms[0].tag == value, arms[1..]);
      assert p.out + (ArmText(value, arms[0]) + EvalArms(value, arms[1..])) ==
             p.out + ArmText(value, arms[0]) + EvalArms(value, arms[1..]);
    }
  }

  lemma {:induction false} TreesAreWellNested(n: nat, blocks: seq<Block>, rest: seq<Event>)
    requires WellNested(n, rest)
    ensures WellNested(n, Events(blocks) + rest)
    decreases blocks
  {
    if blocks == [] {
      assert Events(blocks) + rest == rest;
    } else {
      TreesAreWellNested(n, blocks[1..], rest);
      BlockIsWellNested(n, blocks[0], Events(blocks[1..]) + rest);
      assert Events(blocks) + rest == EventsOf(blocks[0]) + (Events(blocks[1..]) + rest);
    }
  }

  lemma WellNestedCons(n: nat, e: Event, rest: seq<Event>)
    requires match e
      case Append(_) => WellNested(n, rest)
      case If(_) => WellNested(n + 1, rest)
      case Switch(_) => WellNested(n + 1, rest)
      case Else => n > 0 && WellNested(n, rest)
      case Case(_) => n > 0 && WellNested(n, rest)
      case End => n > 0 && WellNested(n - 1, rest)
    ensures WellNested(n, [e] + rest)
  {
    assert ([e] + rest)[1..] == rest;
  }

  lemma {:induction false} BlockIsWellNested(n: nat, b: Block, rest: seq<Event>)
    requires WellNested(n, rest)
    ensures WellNested(n, EventsOf(b) + rest)
    decreases b
  {
    WellNestedCons(n + 1, End, rest);
    match b
    case Text(text) =>
      WellNestedCons(n, Append(text), rest);
    case Conditional(expr, thenPart, elsePart) =>
      var first := Events(thenPart);
      var middle := ElseEvents(elsePart);
      ElseIsWellNested(n + 1, elsePart, [End] + rest);
      TreesAreWellNested(n + 1, thenPart, middle + ([End] + rest));
      WellNestedCons(n, If(expr), first + (middle + ([End] + rest)));
      Reassociate([If(expr)], first, middle, [End], rest);
    case Selection(value, arms) =>
      ArmsAreWellNested(n + 1, arms, [End] + rest);
      WellNestedCons(n, Switch(value), ArmEvents(arms) + ([End] + rest));
      Reassociate([Switch(value)], ArmEvents(arms), [], [End], rest);
      assert [Switch(value)] + ArmEvents(arms) + [] == [Switch(value)] + ArmEvents(arms);
      assert [] + ([End] + rest) == [End] + rest;
  }

  lemma Reassociate(a: seq<Event>, b: seq<Event>, c: seq<Event>, d: seq<Event>, e: seq<Event>)
    ensures a + b + c + d + e == a + (b + (c + (d + e)))
  {
  }

  lemma {:induction false} ElseIsWellNested(n: nat, elsePart: ElsePart, rest: seq<Event>)
    requires n > 0 && WellNested(n, rest)
    ensures WellNested(n, ElseEvents(elsePart) + rest)
    decreases elsePart
  {
    if elsePart.ElseBlocks? {
      TreesAreWellNested(n, elsePart.blocks, rest);
      WellNestedCons(n, Else, Events(elsePart.blocks) + rest);
      assert [Else] + Events(elsePart.blocks) + rest == [Else] + (Events(elsePart.blocks) + rest);
    } else {
      assert [] + rest == rest;
    }
  }

  lemma {:induction false} ArmsAreWellNested(n: nat, arms: seq<Arm>, rest: seq<Event>)
    requires n > 0 && WellNested(n, rest)
    ensures WellNested(n, ArmEvents(arms) + rest)
    decreases arms
  {
    if arms == [] {
      assert ArmEvents(arms) + rest == rest;
    } else {
      var body, others := Events(arms[0].body), ArmEvents(arms[1..]);
      ArmsAreWellNested(n, arms[1..], rest);
      TreesAreWellNested(n, arms[0].body, others + rest);
      WellNestedCons(n, Case(arms[0].tag), body + (others + rest));
      ReassociateArm([Case(arms[0].tag)], body, others, rest);
    }
  }

  lemma ReassociateArm(a: seq<Event>, b: seq<Event>, c: seq<Event>, d: seq<Event>)
    ensures a + b + c + d == a + (b + (c + d))
  {
  }

  /** Parsing a tree anywhere: exactly its value is appended, and the stack and the flag are restored. */
  method ReadTree(engine: Engine, blocks: seq<Block>)
    requires engine.Valid()
    modifies engine, engine.buffer
    ensures engine.Valid()
    ensures engine.Output() == old(engine.Output()) + if old(engine.disabled) then "" else Eval(blocks)
    ensures engine.conds == old(engine.conds) && engine.disabled == old(engine.disabled)
  {
    EnabledIffAllActive(engine.levels);
    RunsToEval(engine.View(), blocks);
    TreesAreWellNested(|engine.levels|, blocks, []);
    assert Events(blocks) + [] == Events(blocks);
    engine.Feed(Events(blocks));
  }

  /** `mp_template_str`: a fresh buffer holds the value of the whole template. */
  method RenderTemplate(blocks: seq<Block>) returns (out: string)
    ensures out == Eval(blocks)
  {
    var engine := new Engine();
    ReadTree(engine, blocks);
    out := engine.buffer[..engine.pos];
  }
}
