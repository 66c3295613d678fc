/**
 The export list of the mount protocol (`mp_xdr_exports` in lib/rpc_utils.c, section 5.2.5 of
 RFC 1813 and section 4.19 of RFC 4506): decoding into linked lists of linked lists, and the pass
 that frees them.
 */
module Exports {
  import opened Bytes
  import opened Wrappers

  const MNTPATHLEN := 1024
  const MNTNAMLEN := 255

  // ----- the XDR items -----

  /** A big-endian word. */
  function Word(data: seq<nat>, pos: nat): nat
    requires pos + 4 <= |data|
  {
    data[pos] * 0x100_0000 + data[pos + 1] * 0x1_0000 + data[pos + 2] * 0x100 + data[pos + 3]
  }

  /** `xdr_bool`: every word but zero is true. */
  function ReadBool(data: seq<nat>, pos: nat): Option<(bool, nat)> {
    if pos + 4 > |data| then None else Some((Word(data, pos) != 0, pos + 4))
  }

  /** The length of a string filled up to whole words. */
  function Padded(n: nat): (p: nat)
    ensures n <= p < n + 4 && p % 4 == 0
  {
    n + (4 - n % 4) % 4
  }

  /** `xdr_string` with a maximum length. */
  function ReadString(data: seq<nat>, pos: nat, max: nat): Option<(seq<nat>, nat)> {
    if pos + 4 > |data| then None
    else
      var n := Word(data, pos);
      if n > max || pos + 4 + Padded(n) > |data| then None
      else Some((data[pos + 4..pos + 4 + n], pos + 4 + Padded(n)))
  }

  datatype Export = Export(dir: seq<nat>, groups: seq<seq<nat>>)

  /** The groups that follow once `more` has been read. */
  function GroupsAfter(data: seq<nat>, more: bool, pos: nat): Option<(seq<seq<nat>>, nat)>
    decreases |data| - pos, more
  {
    if !more then Some(([], pos))
    else
      match ReadString(data, pos, MNTNAMLEN)
      case None => None
      case Some((name, p)) =>
        match ReadBool(data, p)
        case None => None
        case Some((again, q)) =>
          match GroupsAfter(data, again, q)
          case None => None
          case Some((names, end)) => Some(([name] + names, end))
  }

  lemma {:induction false} GroupsAdvance(data: seq<nat>, more: bool, pos: nat)
    ensures GroupsAfter(data, more, pos).Some? ==> GroupsAfter(data, more, pos).value.1 >= pos
    decreases |data| - pos, more
  {
    if more {
      match ReadString(data, pos, MNTNAMLEN)
      case None =>
      case Some((name, p)) =>
        match ReadBool(data, p)
        case None =>
        case Some((again, q)) => GroupsAdvance(data, again, q);
    }
  }

  /** The exports that follow once `more` has been read. */
  function ExportsAfter(data: seq<nat>, more: bool, pos: nat): Option<(seq<Export>, nat)>
    decreases |data| - pos, more
  {
    if !more then Some(([], pos))
    else
      match OneExport(data, pos)
      case None => None
      case Some((e, again, q)) =>
        if q <= pos then None
        else
          match ExportsAfter(data, again, q)
          case None => None
          case Some((exports, end)) => Some(([e] + exports, end))
  }

  /** A path and its groups. */
  function OneBody(data: seq<nat>, pos: nat): Option<(Export, nat)> {
    match ReadString(data, pos, MNTPATHLEN)
    case None => None
    case Some((dir, p)) =>
      match ReadBool(data, p)
      case None => None
      case Some((some, q)) =>
        match GroupsAfter(data, some, q)
        case None => None
        case Some((groups, r)) => Some((Export(dir, groups), r))
  }

  /** The same with the flag of the next export. */
  function OneExport(data: seq<nat>, pos: nat): Option<(Export, bool, nat)> {
    match OneBody(data, pos)
    case None => None
    case Some((e, r)) =>
      match ReadBool(data, r)
      case None => None
      case Some((again, end)) => Some((e, again, end))
  }

  lemma OneExportAdvances(data: seq<nat>, pos: nat)
    ensures OneExport(data, pos).Some? ==> pos < OneExport(data, pos).value.2 <= |data|
  {
    match ReadString(data, pos, MNTPATHLEN)
    case None =>
    case Some((dir, p)) =>
      match ReadBool(data, p)
      case None =>
      case Some((some, q)) => GroupsAdvance(data, some, q);
  }

  /** A list of groups with its first flag. */
  function ReadGroupList(data: seq<nat>, pos: nat): Option<(seq<seq<nat>>, nat)> {
    match ReadBool(data, pos)
    case None => None
    case Some((more, p)) => GroupsAfter(data, more, p)
  }

  /** A list of exports with its first flag. */
  function ReadExportList(data: seq<nat>, pos: nat): Option<(seq<Export>, nat)> {
    match ReadBool(data, pos)
    case None => None
    case Some((more, p)) => ExportsAfter(data, more, p)
  }

  /** What the data mean. */
  function Decoded(data: seq<nat>): Option<(seq<Export>, nat)> {
    ReadExportList(data, 0)
  }

  // ----- the encoding of RFC 4506 -----

  function WordBytes(n: nat): (w: seq<nat>)
    ensures |w| == 4 && forall i :: 0 <= i < 4 ==> w[i] < 256
  {
    [n / 0x100_0000 % 256, n / 0x1_0000 % 256, n / 0x100 % 256, n % 256]
  }

  function Zeros(n: nat): (z: seq<nat>)
    ensures |z| == n
  {
    seq(n, i => 0)
  }

  function StringBytes(s: seq<nat>): (b: seq<nat>)
    ensures |b| == 4 + Padded(|s|)
  {
    WordBytes(|s|) + s + Zeros(Padded(|s|) - |s|)
  }

  function BoolBytes(b: bool): (w: seq<nat>)
    ensures |w| == 4
  {
    [0, 0, 0, if b then 1 else 0]
  }

  function GroupBytes(names: seq<seq<nat>>): seq<nat> {
    if names == [] then BoolBytes(false)
    else BoolBytes(true) + (StringBytes(names[0]) + GroupBytes(names[1..]))
  }

  function ExportBytes(exports: seq<Export>): seq<nat> {
    if exports == [] then BoolBytes(false)
    else
      BoolBytes(true) + (StringBytes(exports[0].dir) + (GroupBytes(exports[0].groups) + ExportBytes(exports[1..])))
  }

  predicate NamesFit(names: seq<seq<nat>>) {
    forall i :: 0 <= i < |names| ==> |names[i]| <= 255
  }

  /** The length limits of the protocol. */
  predicate Fits(exports: seq<Export>) {
    forall i :: 0 <= i < |exports| ==> |exports[i].dir| <= 1024 && NamesFit(exports[i].groups)
  }

  /** A flag is false exactly if all four bytes are zero (section 4.4 of RFC 4506 knows only 0 and 1). */
  lemma FlagOf(data: seq<nat>, pos: nat)
    requires pos + 4 <= |data|
    ensures ReadBool(data, pos) == Some((data[pos..pos + 4] != [0, 0, 0, 0], pos + 4))
  {
    var w := data[pos..pos + 4];
    assert w[0] == data[pos] && w[1] == data[pos + 1] && w[2] == data[pos + 2] && w[3] == data[pos + 3];
    assert w == [0, 0, 0, 0] <==> w[0] == 0 && w[1] == 0 && w[2] == 0 && w[3] == 0;
  }

  /** A string stands behind its length, high byte first, and is filled with zeros to whole words. */
  lemma StringLaidOut(s: seq<nat>)
    requires |s| < 0x1_0000
    ensures var b := StringBytes(s);
      && |b| % 4 == 0 && 4 + |s| <= |b| < 4 + |s| + 4
      && b[..4] == [0, 0, |s| / 256, |s| % 256] && b[4..4 + |s|] == s
      && forall i :: 4 + |s| <= i < |b| ==> b[i] == 0
  {
  }

  /** It is read back whatever it was filled up with. */
  lemma StringReadsAnyFill(data: seq<nat>, pos: nat, s: seq<nat>, max: nat)
    requires |s| <= max < 0x1_0000 && At(data, pos, WordBytes(|s|) + s) && pos + 4 + Padded(|s|) <= |data|
    ensures ReadString(data, pos, max) == Some((s, pos + 4 + Padded(|s|)))
  {
    AtSplits(data, pos, WordBytes(|s|), s);
    WordReads(data, pos, |s|);
    assert data[pos + 4..pos + 4 + |s|] == s;
  }

  lemma WordReads(data: seq<nat>, pos: nat, n: nat)
    requires n < 0x1_0000 && At(data, pos, WordBytes(n))
    ensures Word(data, pos) == n
  {
    var w := WordBytes(n);
    assert data[pos] == w[0] && data[pos + 1] == w[1] && data[pos + 2] == w[2] && data[pos + 3] == w[3];
  }

  lemma BoolReads(data: seq<nat>, pos: nat, b: bool)
    requires At(data, pos, BoolBytes(b))
    ensures ReadBool(data, pos) == Some((b, pos + 4))
  {
    var w := BoolBytes(b);
    assert data[pos] == w[0] && data[pos + 1] == w[1] && data[pos + 2] == w[2] && data[pos + 3] == w[3];
  }

  lemma StringReads(data: seq<nat>, pos: nat, s: seq<nat>, max: nat)
    requires |s| <= max < 0x1_0000 && At(data, pos, StringBytes(s))
    ensures ReadString(data, pos, max) == Some((s, pos + |StringBytes(s)|))
  {
    var z := Zeros(Padded(|s|) - |s|);
    assert StringBytes(s) == WordBytes(|s|) + (s + z);
    AtSplits(data, pos, WordBytes(|s|), s + z);
    AtSplits(data, pos + 4, s, z);
    WordReads(data, pos, |s|);
    assert data[pos + 4..pos + 4 + |s|] == s;
  }

  lemma GroupsLaidOut(data: seq<nat>, pos: nat, names: seq<seq<nat>>, q: nat)
    requires names != [] && |names[0]| <= MNTNAMLEN && At(data, pos, GroupBytes(names))
    requires q == pos + 4 + |StringBytes(names[0])|
    ensures ReadBool(data, pos) == Some((true, pos + 4))
    ensures ReadString(data, pos + 4, MNTNAMLEN) == Some((names[0], q))
    ensures At(data, q, GroupBytes(names[1..])) && q + |GroupBytes(names[1..])| == pos + |GroupBytes(names)|
  {
    var s, rest := StringBytes(names[0]), GroupBytes(names[1..]);
    AtSplits(data, pos, BoolBytes(true), s + rest);
    AtSplits(data, pos + 4, s, rest);
    BoolReads(data, pos, true);
    StringReads(data, pos + 4, names[0], MNTNAMLEN);
  }

  lemma GroupStep(data: seq<nat>, pos: nat, p: nat, name: seq<nat>, q: nat, names: seq<seq<nat>>, end: nat)
    requires ReadBool(data, pos) == Some((true, p)) && ReadString(data, p, MNTNAMLEN) == Some((name, q))
    requires ReadGroupList(data, q) == Some((names, end))
    ensures ReadGroupList(data, pos) == Some(([name] + names, end))
  {
  }

  lemma {:induction false} GroupsRead(data: seq<nat>, pos: nat, names: seq<seq<nat>>)
    requires NamesFit(names) && At(data, pos, GroupBytes(names))
    ensures ReadGroupList(data, pos) == Some((names, pos + |GroupBytes(names)|))
    decreases |names|
  {
    if names == [] {
      BoolReads(data, pos, false);
    } else {
      var q := pos + 4 + |StringBytes(names[0])|;
      GroupsLaidOut(data, pos, names, q);
      GroupsRead(data, q, names[1..]);
      GroupStep(data, pos, pos + 4, names[0], q, names[1..], q + |GroupBytes(names[1..])|);
      assert [names[0]] + names[1..] == names;
    }
  }

  lemma ExportsLaidOut(data: seq<nat>, pos: nat, exports: seq<Export>, q: nat, r: nat)
    requires exports != [] && |exports[0].dir| <= MNTPATHLEN && At(data, pos, ExportBytes(exports))
    requires q == pos + 4 + |StringBytes(exports[0].dir)| && r == q + |GroupBytes(exports[0].groups)|
    ensures ReadBool(data, pos) == Some((true, pos + 4))
    ensures ReadString(data, pos + 4, MNTPATHLEN) == Some((exports[0].dir, q))
    ensures At(data, q, GroupBytes(exports[0].groups)) && At(data, r, ExportBytes(exports[1..]))
    ensures r + |ExportBytes(exports[1..])| == pos + |ExportBytes(exports)|
  {
    var e := exports[0];
    var s, g, rest := StringBytes(e.dir), GroupBytes(e.groups), ExportBytes(exports[1..]);
    AtSplitsInFour(data, pos, BoolBytes(true), s, g, rest);
    BoolReads(data, pos, true);
    StringReads(data, pos + 4, e.dir, MNTPATHLEN);
  }

  lemma ExportStep(data: seq<nat>, pos: nat, exports: seq<Export>, rest: seq<Export>, r: nat, end: nat)
    requires exports != [] && rest == exports[1..]
    requires ReadBool(data, pos) == Some((true, pos + 4)) && OneBody(data, pos + 4) == Some((exports[0], r))
    requires ReadExportList(data, r) == Some((rest, end))
    ensures ReadExportList(data, pos) == Some((exports, end))
  {
    OneExportAdvances(data, pos + 4);
    assert [exports[0]] + rest == exports;
  }

  lemma BodyOf(data: seq<nat>, p: nat, e: Export, q: nat, r: nat)
    requires ReadString(data, p, MNTPATHLEN) == Some((e.dir, q)) && ReadGroupList(data, q) == Some((e.groups, r))
    ensures OneBody(data, p) == Some((e, r))
  {
  }

  /** The first export of an encoded list is read, and the rest of the list follows it. */
  lemma FirstExportReads(data: seq<nat>, pos: nat, exports: seq<Export>, r: nat)
    returns (rest: seq<Export>, end: nat)
    requires exports != [] && Fits(exports) && At(data, pos, ExportBytes(exports))
    requires r == pos + 4 + |StringBytes(exports[0].dir)| + |GroupBytes(exports[0].groups)|
    ensures ReadBool(data, pos) == Some((true, pos + 4)) && OneBody(data, pos + 4) == Some((exports[0], r))
    ensures rest == exports[1..] && Fits(rest) && At(data, r, ExportBytes(rest))
    ensures end == r + |ExportBytes(rest)| == pos + |ExportBytes(exports)|
  {
    rest := exports[1..];
    end := r + |ExportBytes(rest)|;
    var e := exports[0];
    var q := pos + 4 + |StringBytes(e.dir)|;
    ExportsLaidOut(data, pos, exports, q, r);
    GroupsRead(data, q, e.groups);
    BodyOf(data, pos + 4, e, q, r);
  }

  lemma NoExportReads(data: seq<nat>, pos: nat)
    requires At(data, pos, BoolBytes(false))
    ensures ReadExportList(data, pos) == Some(([], pos + 4))
  {
    BoolReads(data, pos, false);
  }

  lemma {:induction false} ExportsRead(data: seq<nat>, pos: nat, exports: seq<Export>)
    requires Fits(exports) && At(data, pos, ExportBytes(exports))
    ensures ReadExportList(data, pos) == Some((exports, pos + |ExportBytes(exports)|))
    decreases |exports|
  {
    if exports == [] {
      NoExportReads(data, pos);
    } else {
      var r := pos + 4 + |StringBytes(exports[0].dir)| + |GroupBytes(exports[0].groups)|;
      var rest, end := FirstExportReads(data, pos, exports, r);
      ExportsRead(data, r, rest);
      assert ReadExportList(data, r) == Some((rest, end));
      ExportStep(data, pos, exports, rest, r, end);
    }
  }

  lemma {:induction false} GroupsFit(data: seq<nat>, more: bool, pos: nat)
    ensures GroupsAfter(data, more, pos).Some? ==> NamesFit(GroupsAfter(data, more, pos).value.0)
    decreases |data| - pos, more
  {
    if more {
      match ReadString(data, pos, MNTNAMLEN)
      case None =>
      case Some((name, p)) =>
        match ReadBool(data, p)
        case None =>
        case Some((again, q)) => GroupsFit(data, again, q);
    }
  }

  lemma OneFits(data: seq<nat>, pos: nat)
    ensures OneBody(data, pos).Some? ==>
      var e := OneBody(data, pos).value.0; |e.dir| <= MNTPATHLEN && NamesFit(e.groups)
  {
    match ReadString(data, pos, MNTPATHLEN)
    case None =>
    case Some((dir, p)) =>
      match ReadBool(data, p)
      case None =>
      case Some((some, q)) => GroupsFit(data, some, q);
  }

  lemma {:induction false} DecodedFits(data: seq<nat>, more: bool, pos: nat)
    ensures ExportsAfter(data, more, pos).Some? ==> Fits(ExportsAfter(data, more, pos).value.0)
    decreases |data| - pos, more
  {
    if more {
      OneFits(data, pos);
      OneExportAdvances(data, pos);
      match OneExport(data, pos)
      case None =>
      case Some((e, again, q)) => DecodedFits(data, again, q);
    }
  }

  lemma WhatDecodesFits(data: seq<nat>)
    ensures Decoded(data).Some? ==> Fits(Decoded(data).value.0)
  {
    if ReadBool(data, 0).Some? {
      DecodedFits(data, ReadBool(data, 0).value.0, 4);
    }
  }

  lemma WhatFitsDecodes(exports: seq<Export>, data: seq<nat>)
    requires Fits(exports) && At(data, 0, ExportBytes(exports))
    ensures Decoded(data) == Some((exports, |ExportBytes(exports)|))
  {
    ExportsRead(data, 0, exports);
  }

  /**
   Main result: whatever follows it, an encoded list is read back as it was and to its last byte,
   exactly when its paths and names keep the limits of the protocol.
   */
  lemma ExportsRoundTripIff(exports: seq<Export>, rest: seq<nat>)
    ensures Fits(exports) <==>
      Decoded(ExportBytes(exports) + rest) == Some((exports, |ExportBytes(exports)|))
  {
    var data := ExportBytes(exports) + rest;
    if Fits(exports) {
      AtStart(ExportBytes(exports), rest);
      WhatFitsDecodes(exports, data);
    } else {
      WhatDecodesFits(data);
    }
  }

  // ----- the heap -----

  class GroupNode {
    var name: seq<nat>
    var next: GroupNode?
    ghost var live: bool

    constructor (name: seq<nat>)
      ensures this.name == name && next == null && live
    {
      this.name := name;
      next := null;
      live := true;
    }
  }

  class ExportNode {
    var dir: seq<nat>
    var groups: GroupNode?
    var next: ExportNode?
    ghost var live: bool

    constructor (dir: seq<nat>)
      ensures this.dir == dir && groups == null && next == null && live
    {
      this.dir := dir;
      groups := null;
      next := null;
      live := true;
    }
  }

  /**
   The chain from `head` is exactly these nodes from number k on: it ends, no node occurs twice,
   and none has been freed.
   */
  ghost predicate GroupChain(head: GroupNode?, nodes: seq<GroupNode>, k: nat := 0)
    reads nodes`next, nodes`live
  {
    && head == (if k < |nodes| then nodes[k] else null)
    && (forall i, j :: 0 <= i < j < |nodes| ==> nodes[i] != nodes[j])
    && (forall i :: k <= i < |nodes| ==> nodes[i].live)
    && (forall i {:trigger nodes[i].next} :: k <= i < |nodes| ==>
         nodes[i].next == if i + 1 < |nodes| then nodes[i + 1] else null)
  }

  ghost predicate Named(nodes: seq<GroupNode>, names: seq<seq<nat>>)
    reads nodes`name
  {
    |nodes| == |names| && forall i :: 0 <= i < |nodes| ==> nodes[i].name == names[i]
  }

  ghost predicate ExportChain(head: ExportNode?, nodes: seq<ExportNode>, k: nat := 0)
    reads nodes`next, nodes`live
  {
    && head == (if k < |nodes| then nodes[k] else null)
    && (forall i, j :: 0 <= i < j < |nodes| ==> nodes[i] != nodes[j])
    && (forall i :: k <= i < |nodes| ==> nodes[i].live)
    && (forall i {:trigger nodes[i].next} :: k <= i < |nodes| ==>
         nodes[i].next == if i + 1 < |nodes| then nodes[i + 1] else null)
  }

  /** An export node with its path and its groups, all of them among `mine`. */
  ghost predicate Holds(node: ExportNode, nodes: seq<GroupNode>, e: Export, mine: set<GroupNode>)
    reads node`dir, node`groups, mine
  {
    && (forall k :: 0 <= k < |nodes| ==> nodes[k] in mine)
    && node.dir == e.dir && GroupChain(node.groups, nodes) && Named(nodes, e.groups)
  }

  ghost predicate Apart(a: seq<GroupNode>, b: seq<GroupNode>) {
    forall k, l :: 0 <= k < |a| && 0 <= l < |b| ==> a[k] != b[l]
  }

  /** Each node holds its export, and no two exports share a group node. */
  ghost predicate AllHold(nodes: seq<ExportNode>, groups: seq<seq<GroupNode>>, exports: seq<Export>,
                          owned: set<GroupNode>)
    reads nodes`dir, nodes`groups, owned
  {
    && |nodes| == |groups| == |exports|
    && (forall i :: 0 <= i < |nodes| ==> Holds(nodes[i], groups[i], exports[i], owned))
    && AllApart(groups)
  }

  // ----- decoding -----

  /** The group goes to the end of the list of its export, wherever `prev` points while it is empty. */
  method LinkGroup(node: ExportNode, prev: GroupNode?, group: GroupNode, ghost nodes: seq<GroupNode>)
    returns (last: GroupNode?)
    requires GroupChain(node.groups, nodes) && (nodes != [] ==> prev == nodes[|nodes| - 1])
    requires group.next == null && group.live && (forall i :: 0 <= i < |nodes| ==> nodes[i] != group)
    modifies node`groups, nodes`next
    ensures GroupChain(node.groups, nodes + [group]) && last == group
  {
    if node.groups == null || prev == null {
      node.groups := group;
    } else {
      prev.next := group;
    }
    last := group;
  }

  /** The inner loop. `prev0` is what the previous export left behind; it is never written to. */
  method ReadGroups(data: seq<nat>, more0: bool, pos0: nat, node: ExportNode, prev0: GroupNode?)
    returns (ok: bool, pos: nat, prev: GroupNode?, ghost nodes: seq<GroupNode>)
    requires node.groups == null
    modifies node`groups
    ensures ok == GroupsAfter(data, more0, pos0).Some?
    ensures fresh(nodes)
    ensures ok ==> pos == GroupsAfter(data, more0, pos0).value.1
    ensures ok ==> GroupChain(node.groups, nodes) && Named(nodes, GroupsAfter(data, more0, pos0).value.0)
  {
    var more := more0;
    pos, prev, nodes := pos0, prev0, [];
    ghost var names: seq<seq<nat>> := [];
    ok := true;
    AfterNothing(GroupsAfter(data, more, pos));
    while more
      invariant fresh(nodes)
      invariant GroupChain(node.groups, nodes) && Named(nodes, names)
      invariant nodes != [] ==> prev == nodes[|nodes| - 1]
      invariant GroupsAfter(data, more0, pos0) == After(names, GroupsAfter(data, more, pos))
      decreases |data| - pos, more
    {
      var s := ReadString(data, pos, MNTNAMLEN);
      if s.None? {
        return false, pos, prev, nodes;
      }
      var group := new GroupNode(s.value.0);
      ghost var before := names;
      prev := LinkGroup(node, prev, group, nodes);
      nodes := nodes + [group];
      names := names + [s.value.0];
      var b := ReadBool(data, s.value.1);
      if b.None? {
        return false, pos, prev, nodes;
      }
      AfterStep(before, s.value.0, GroupsAfter(data, b.value.0, b.value.1));
      more, pos := b.value.0, b.value.1;
    }
    AfterAll(names, pos);
  }

  /** A result preceded by names already read. */
  function After(names: seq<seq<nat>>, r: Option<(seq<seq<nat>>, nat)>): Option<(seq<seq<nat>>, nat)> {
    if r.None? then None else Some((names + r.value.0, r.value.1))
  }

  lemma AfterStep(names: seq<seq<nat>>, name: seq<nat>, r: Option<(seq<seq<nat>>, nat)>)
    ensures After(names, if r.None? then None else Some(([name] + r.value.0, r.value.1))) == After(names + [name], r)
  {
    if r.Some? {
      assert names + ([name] + r.value.0) == names + [name] + r.value.0;
    }
  }

  lemma AfterNothing(r: Option<(seq<seq<nat>>, nat)>)
    ensures After([], r) == r
  {
    if r.Some? {
      assert [] + r.value.0 == r.value.0;
    }
  }

  lemma AfterAll(names: seq<seq<nat>>, pos: nat)
    ensures After(names, Some(([], pos))) == Some((names, pos))
  {
    assert names + [] == names;
  }

  /** One round of the outer loop, up to the linking of the node. */
  method ReadExport(data: seq<nat>, pos0: nat, prev0: GroupNode?)
    returns (ok: bool, node: ExportNode, pos: nat, prev: GroupNode?, ghost nodes: seq<GroupNode>)
    ensures ok == OneBody(data, pos0).Some?
    ensures fresh(node) && fresh(nodes) && node.next == null && node.live
    ensures ok ==> pos == OneBody(data, pos0).value.1
    ensures ok ==> Holds(node, nodes, OneBody(data, pos0).value.0, set g | g in nodes)
  {
    var nothing: seq<nat> := [];
    pos, prev, nodes := pos0, prev0, [];
    node := new ExportNode(nothing);
    var s := ReadString(data, pos0, MNTPATHLEN);
    if s.None? {
      return false, node, pos, prev, nodes;
    }
    node.dir := s.value.0;
    var b := ReadBool(data, s.value.1);
    if b.None? {
      return false, node, pos, prev, nodes;
    }
    ok, pos, prev, nodes := ReadGroups(data, b.value.0, b.value.1, node, prev);
  }

  /** A result preceded by exports already read. */
  function AfterExports(done: seq<Export>, r: Option<(seq<Export>, nat)>): Option<(seq<Export>, nat)> {
    if r.None? then None else Some((done + r.value.0, r.value.1))
  }

  lemma ExportsStep(data: seq<nat>, pos: nat, done: seq<Export>)
    ensures AfterExports(done, ExportsAfter(data, true, pos)) ==
      match OneExport(data, pos)
      case None => None
      case Some((e, again, q)) => AfterExports(done + [e], ExportsAfter(data, again, q))
  {
    OneExportAdvances(data, pos);
    match OneExport(data, pos)
    case None =>
    case Some((e, again, q)) =>
      var r := ExportsAfter(data, again, q);
      if r.Some? {
        assert done + ([e] + r.value.0) == done + [e] + r.value.0;
      }
  }

  lemma HoldOneMore(nodes: seq<ExportNode>, groups: seq<seq<GroupNode>>, exports: seq<Export>,
                    owned: set<GroupNode>, node: ExportNode, gs: seq<GroupNode>, e: Export, new_: set<GroupNode>)
    requires AllHold(nodes, groups, exports, owned) && Holds(node, gs, e, new_) && owned !! new_
    ensures AllHold(nodes + [node], groups + [gs], exports + [e], owned + new_)
  {
    forall i | 0 <= i < |nodes| + 1
      ensures Holds((nodes + [node])[i], (groups + [gs])[i], (exports + [e])[i], owned + new_)
    {
      if i < |nodes| {
        assert Holds(nodes[i], groups[i], exports[i], owned);
      }
    }
    forall i | 0 <= i < |groups| ensures Apart(groups[i], gs) {
      assert Holds(nodes[i], groups[i], exports[i], owned);
    }
  }

  /** The node goes to the end of the list: it becomes the first or follows `prev`. */
  method Link(head: ExportNode?, prev: ExportNode?, node: ExportNode, ghost nodes: seq<ExportNode>)
    returns (first: ExportNode?, last: ExportNode?)
    requires ExportChain(head, nodes) && (nodes != [] ==> prev == nodes[|nodes| - 1])
    requires node.next == null && node.live && (forall i :: 0 <= i < |nodes| ==> nodes[i] != node)
    modifies nodes`next
    ensures ExportChain(first, nodes + [node]) && last == node
  {
    first, last := head, node;
    if head == null {
      first := node;
    } else {
      prev.next := node;
    }
  }

  /** The list from `head` ends, shares no node, and holds these exports with their groups in order. */
  ghost predicate Consists(head: ExportNode?, nodes: seq<ExportNode>, groups: seq<seq<GroupNode>>,
                           exports: seq<Export>, owned: set<GroupNode>)
    reads nodes, owned
  {
    ExportChain(head, nodes) && AllHold(nodes, groups, exports, owned)
  }

  /** The list under construction. */
  ghost predicate Built(head: ExportNode?, prev: ExportNode?, nodes: seq<ExportNode>,
                        groups: seq<seq<GroupNode>>, exports: seq<Export>, owned: set<GroupNode>)
    reads nodes, owned
  {
    Consists(head, nodes, groups, exports, owned) && (nodes != [] ==> prev == nodes[|nodes| - 1])
  }

  /** One round of the outer loop. */
  method ReadAndLink(data: seq<nat>, pos0: nat, head: ExportNode?, prev: ExportNode?, prevGroup: GroupNode?,
                     ghost nodes: seq<ExportNode>, ghost groups: seq<seq<GroupNode>>,
                     ghost exports: seq<Export>, ghost owned: set<GroupNode>)
    returns (ok: bool, pos: nat, first: ExportNode?, last: ExportNode?, lastGroup: GroupNode?,
             node: ExportNode, ghost gs: seq<GroupNode>, ghost added: set<GroupNode>)
    requires Built(head, prev, nodes, groups, exports, owned)
    modifies nodes`next
    ensures fresh(node) && fresh(added)
    ensures !ok ==> (first, last) == (head, prev) && Built(head, prev, nodes, groups, exports, owned)
    ensures ok == OneBody(data, pos0).Some?
    ensures ok ==> pos == OneBody(data, pos0).value.1
    ensures ok ==> Built(first, last, nodes + [node], groups + [gs],
                         exports + [OneBody(data, pos0).value.0], owned + added)
  {
    first, last := head, prev;
    ok, node, pos, lastGroup, gs := ReadExport(data, pos0, prevGroup);
    added := set g | g in gs;
    if ok {
      ghost var e := OneBody(data, pos0).value.0;
      first, last := Link(head, prev, node, nodes);
      HoldOneMore(nodes, groups, exports, owned, node, gs, e, added);
    }
  }

  /** The same, with the flag that ends the round. */
  method ReadRound(data: seq<nat>, pos0: nat, head: ExportNode?, prev: ExportNode?, prevGroup: GroupNode?,
                   ghost nodes: seq<ExportNode>, ghost groups: seq<seq<GroupNode>>,
                   ghost exports: seq<Export>, ghost owned: set<GroupNode>)
    returns (ok: bool, more: bool, pos: nat, first: ExportNode?, last: ExportNode?, lastGroup: GroupNode?,
             ghost nodes': seq<ExportNode>, ghost groups': seq<seq<GroupNode>>,
             ghost exports': seq<Export>, ghost owned': set<GroupNode>)
    requires Built(head, prev, nodes, groups, exports, owned)
    modifies nodes`next
    ensures Built(first, last, nodes', groups', exports', owned')
    ensures fresh(owned' - owned) && forall i :: 0 <= i < |nodes'| ==> nodes'[i] in nodes || fresh(nodes'[i])
    ensures !ok ==> ExportsAfter(data, true, pos0).None?
    ensures ok ==> pos0 < pos <= |data|
    ensures ok ==> AfterExports(exports, ExportsAfter(data, true, pos0)) ==
                   AfterExports(exports', ExportsAfter(data, more, pos))
  {
    ExportsStep(data, pos0, exports);
    OneExportAdvances(data, pos0);
    more := false;
    nodes', groups', exports', owned' := nodes, groups, exports, owned;
    var node; ghost var gs, added;
    ok, pos, first, last, lastGroup, node, gs, added :=
      ReadAndLink(data, pos0, head, prev, prevGroup, nodes, groups, exports, owned);
    if ok {
      nodes', groups', exports', owned' :=
        nodes + [node], groups + [gs], exports + [OneBody(data, pos0).value.0], owned + added;
      var b := ReadBool(data, pos);
      ok := b.Some?;
      if ok {
        more, pos := b.value.0, b.value.1;
      }
    }
  }

  /** The outer loop. */
  method ReadExports(data: seq<nat>, more0: bool, pos0: nat)
    returns (ok: bool, head: ExportNode?, ghost nodes: seq<ExportNode>, ghost groups: seq<seq<GroupNode>>,
             ghost exports: seq<Export>, ghost owned: set<GroupNode>)
    ensures ok == ExportsAfter(data, more0, pos0).Some?
    ensures ok ==> exports == ExportsAfter(data, more0, pos0).value.0
    ensures Consists(head, nodes, groups, exports, owned) && fresh(nodes) && fresh(owned)
  {
    ok, head, nodes, groups, exports, owned := true, null, [], [], [], {};
    var more, pos := more0, pos0;
    var prev: ExportNode?, prevGroup: GroupNode? := null, null;
    NothingBefore(ExportsAfter(data, more, pos));
    while more
      invariant ok && fresh(nodes) && fresh(owned)
      invariant Built(head, prev, nodes, groups, exports, owned)
      invariant ExportsAfter(data, more0, pos0) == AfterExports(exports, ExportsAfter(data, more, pos))
      decreases |data| - pos, more
    {
      ok, more, pos, head, prev, prevGroup, nodes, groups, exports, owned :=
        ReadRound(data, pos, head, prev, prevGroup, nodes, groups, exports, owned);
      if !ok {
        break;
      }
    }
    NothingAfter(exports, pos);
  }

  /**
   `mp_xdr_exports` decoding: it succeeds exactly on data that mean a list of exports, and then
   the list it builds consists of these exports. Where it gives up, what it has linked so far is
   such a list too.
   */
  method Decode(data: seq<nat>)
    returns (ok: bool, head: ExportNode?, ghost nodes: seq<ExportNode>, ghost groups: seq<seq<GroupNode>>,
             ghost exports: seq<Export>, ghost owned: set<GroupNode>)
    ensures ok == Decoded(data).Some?
    ensures ok ==> exports == Decoded(data).value.0
    ensures Consists(head, nodes, groups, exports, owned) && fresh(nodes) && fresh(owned)
  {
    head, nodes, groups, exports, owned := null, [], [], [], {};
    var more := ReadBool(data, 0);
    ok := more.Some?;
    if ok {
      ok, head, nodes, groups, exports, owned := ReadExports(data, more.value.0, more.value.1);
    }
  }

  lemma NothingBefore(r: Option<(seq<Export>, nat)>)
    ensures AfterExports([], r) == r
  {
    if r.Some? {
      assert [] + r.value.0 == r.value.0;
    }
  }

  lemma NothingAfter(exports: seq<Export>, pos: nat)
    ensures AfterExports(exports, Some(([], pos))) == Some((exports, pos))
  {
    assert exports + [] == exports;
  }

  // ----- freeing -----

  /** `free`: afterwards nothing is known of the node but that it is gone. */
  method FreeGroup(group: GroupNode)
    requires group.live
    modifies group
    ensures !group.live
  {
    group.live := false;
  }

  method FreeExport(node: ExportNode)
    requires node.live
    modifies node
    ensures !node.live
  {
    node.live := false;
  }

  /** The inner free loop: every group once, in the order of the list, none looked at afterwards. */
  method FreeGroups(head: GroupNode?, ghost nodes: seq<GroupNode>) returns (ghost freed: seq<GroupNode>)
    requires GroupChain(head, nodes)
    modifies nodes
    ensures freed == nodes && Gone(nodes)
  {
    var group := head;
    freed := [];
    while group != null
      invariant |freed| <= |nodes| && freed == nodes[..|freed|]
      invariant GroupChain(group, nodes, |freed|)
      invariant forall i :: 0 <= i < |freed| ==> !nodes[i].live
      decreases |nodes| - |freed|
    {
      group.name := [];
      var next := group.next;
      FreeGroup(group);
      freed := freed + [group];
      group := next;
    }
  }

  /** The groups of the first k exports, one after the other. */
  function Flat(groups: seq<seq<GroupNode>>, k: nat): seq<GroupNode>
    requires k <= |groups|
  {
    if k == 0 then [] else Flat(groups, k - 1) + groups[k - 1]
  }

  ghost predicate Gone(nodes: seq<GroupNode>)
    reads nodes`live
  {
    forall i :: 0 <= i < |nodes| ==> !nodes[i].live
  }

  ghost predicate AllApart(groups: seq<seq<GroupNode>>) {
    forall i, j :: 0 <= i < j < |groups| ==> Apart(groups[i], groups[j])
  }

  ghost predicate Inside(groups: seq<seq<GroupNode>>, owned: set<GroupNode>) {
    forall i, j :: 0 <= i < |groups| && 0 <= j < |groups[i]| ==> groups[i][j] in owned
  }

  /** The groups of the first k exports are gone, the other exports still have theirs. */
  ghost predicate HalfFreed(nodes: seq<ExportNode>, groups: seq<seq<GroupNode>>, k: nat, owned: set<GroupNode>)
    reads nodes`groups, owned
  {
    && |nodes| == |groups| && Inside(groups, owned)
    && (forall i :: k <= i < |nodes| ==> GroupChain(nodes[i].groups, groups[i]))
    && (forall i :: 0 <= i < k && i < |nodes| ==> Gone(groups[i]))
  }

  lemma HeldIsUnfreed(nodes: seq<ExportNode>, groups: seq<seq<GroupNode>>, exports: seq<Export>, owned: set<GroupNode>)
    requires AllHold(nodes, groups, exports, owned)
    ensures HalfFreed(nodes, groups, 0, owned) && AllApart(groups)
  {
    forall i | 0 <= i < |nodes|
      ensures GroupChain(nodes[i].groups, groups[i]) && forall j :: 0 <= j < |groups[i]| ==> groups[i][j] in owned
    {
      assert Holds(nodes[i], groups[i], exports[i], owned);
    }
  }

  /** The groups of export k are freed. */
  method FreeGroupsOf(node: ExportNode, ghost nodes: seq<ExportNode>, ghost groups: seq<seq<GroupNode>>,
                      ghost k: nat, ghost owned: set<GroupNode>)
    returns (ghost freed: seq<GroupNode>)
    requires k < |nodes| && node == nodes[k] && HalfFreed(nodes, groups, k, owned) && AllApart(groups)
    modifies node`dir, owned
    ensures HalfFreed(nodes, groups, k + 1, owned) && freed == groups[k]
  {
    node.dir := [];
    freed := FreeGroups(node.groups, groups[k]);
    assert forall i :: 0 <= i < k ==> Apart(groups[i], groups[k]);
    assert forall i :: k < i < |groups| ==> Apart(groups[k], groups[i]);
  }

  ghost predicate GoneTo(nodes: seq<ExportNode>, k: nat)
    reads nodes`live
  {
    forall i :: 0 <= i < k && i < |nodes| ==> !nodes[i].live
  }

  /** Export k itself is freed, after its successor has been read. */
  method FreeAndGoOn(node: ExportNode, ghost nodes: seq<ExportNode>, ghost groups: seq<seq<GroupNode>>,
                     ghost k: nat, ghost owned: set<GroupNode>)
    returns (next: ExportNode?)
    requires ExportChain(node, nodes, k) && GoneTo(nodes, k) && HalfFreed(nodes, groups, k + 1, owned)
    modifies node
    ensures ExportChain(next, nodes, k + 1) && GoneTo(nodes, k + 1) && HalfFreed(nodes, groups, k + 1, owned)
  {
    next := node.next;
    FreeExport(node);
  }

  /** One round of the outer free loop. */
  method FreeRound(node: ExportNode, ghost nodes: seq<ExportNode>, ghost groups: seq<seq<GroupNode>>,
                   ghost k: nat, ghost owned: set<GroupNode>)
    returns (next: ExportNode?, ghost freed: seq<GroupNode>)
    requires ExportChain(node, nodes, k) && GoneTo(nodes, k) && HalfFreed(nodes, groups, k, owned) && AllApart(groups)
    modifies node, owned
    ensures ExportChain(next, nodes, k + 1) && GoneTo(nodes, k + 1) && HalfFreed(nodes, groups, k + 1, owned)
    ensures freed == groups[k]
  {
    freed := FreeGroupsOf(node, nodes, groups, k, owned);
    next := FreeAndGoOn(node, nodes, groups, k, owned);
  }

  /** What was freed so far: the first k exports and all their groups, in order. */
  ghost predicate Logged(freed: seq<ExportNode>, freedGroups: seq<GroupNode>, nodes: seq<ExportNode>,
                         groups: seq<seq<GroupNode>>, k: nat)
  {
    && k <= |nodes| == |groups| && freed == nodes[..k] && freedGroups == Flat(groups, k)
  }

  lemma LogStep(freed: seq<ExportNode>, freedGroups: seq<GroupNode>, nodes: seq<ExportNode>,
                groups: seq<seq<GroupNode>>, k: nat)
    requires k < |nodes| && Logged(freed, freedGroups, nodes, groups, k)
    ensures Logged(freed + [nodes[k]], freedGroups + groups[k], nodes, groups, k + 1)
  {
  }

  lemma LogDone(freed: seq<ExportNode>, freedGroups: seq<GroupNode>, nodes: seq<ExportNode>,
                groups: seq<seq<GroupNode>>, k: nat)
    requires k == |nodes| && Logged(freed, freedGroups, nodes, groups, k)
    ensures freed == nodes && freedGroups == Flat(groups, |groups|)
  {
  }

  /**
   `mp_xdr_exports` freeing: every export node and every group node is freed exactly once, in the
   order of the lists, and none is looked at after it was freed.
   */
  method Free(head: ExportNode?, ghost nodes: seq<ExportNode>, ghost groups: seq<seq<GroupNode>>,
              ghost owned: set<GroupNode>)
    returns (ghost freed: seq<ExportNode>, ghost freedGroups: seq<GroupNode>)
    requires ExportChain(head, nodes) && HalfFreed(nodes, groups, 0, owned) && AllApart(groups)
    modifies nodes, owned
    ensures freed == nodes && freedGroups == Flat(groups, |groups|)
    ensures GoneTo(nodes, |nodes|) && HalfFreed(nodes, groups, |nodes|, owned)
  {
    var node := head;
    ghost var k := 0;
    freed, freedGroups := [], [];
    while node != null
      invariant Logged(freed, freedGroups, nodes, groups, k)
      invariant ExportChain(node, nodes, k) && GoneTo(nodes, k) && HalfFreed(nodes, groups, k, owned)
      decreases |nodes| - k
    {
      LogStep(freed, freedGroups, nodes, groups, k);
      freed := freed + [nodes[k]];
      ghost var gs;
      node, gs := FreeRound(node, nodes, groups, k, owned);
      freedGroups := freedGroups + gs;
      k := k + 1;
    }
    LogDone(freed, freedGroups, nodes, groups, k);
  }

  /** What decoding builds, freeing takes apart: no node is left over. */
  method DecodeAndFree(data: seq<nat>) returns (ok: bool)
    ensures ok == Decoded(data).Some?
  {
    var head; ghost var nodes, groups, exports, owned;
    ok, head, nodes, groups, exports, owned := Decode(data);
    HeldIsUnfreed(nodes, groups, exports, owned);
    ghost var freed, freedGroups := Free(head, nodes, groups, owned);
  }
}
