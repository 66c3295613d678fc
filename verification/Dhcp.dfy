/**
 The option field of a DHCP packet (lib/dhcp_utils.c, section 2 of RFC 2132): appending, the
 validation of a received packet, and lookup.
 */
module Dhcp {
  import opened Bytes
  import opened Wrappers

  const PAD := 0
  const END := 255

  /** A byte; its bound is stated where it matters. */
  type byte = nat

  // ----- what an option field means -----

  datatype Item = Pad | Opt(code: byte, data: seq<byte>)

  predicate ValidItem(item: Item) {
    item.Opt? ==> item.code != PAD && item.code != END
  }

  predicate ValidItems(items: seq<Item>) {
    forall i :: 0 <= i < |items| ==> ValidItem(items[i])
  }

  function RenderItem(item: Item): seq<byte> {
    match item
    case Pad => [PAD]
    case Opt(code, data) => [code, |data|] + data
  }

  function Render(items: seq<Item>): seq<byte> {
    if items == [] then [] else RenderItem(items[0]) + Render(items[1..])
  }

  /** From offset i on the bytes are items and an End; what follows the End does not matter. */
  predicate FieldAt(b: seq<byte>, i: nat)
    decreases |b| - i
  {
    if i >= |b| then false
    else if b[i] == END then true
    else if b[i] == PAD then FieldAt(b, i + 1)
    else i + 1 < |b| && FieldAt(b, i + 2 + b[i + 1])
  }

  predicate WellFormed(b: seq<byte>) {
    FieldAt(b, 0)
  }

  /** Where the End marker is. */
  function EndAt(b: seq<byte>, i: nat): (e: nat)
    requires FieldAt(b, i)
    ensures i <= e < |b| && b[e] == END
    decreases |b| - i
  {
    if b[i] == END then i
    else if b[i] == PAD then EndAt(b, i + 1)
    else EndAt(b, i + 2 + b[i + 1])
  }

  /** The option at offset i. */
  function OptAt(b: seq<byte>, i: nat): Item
    requires i + 1 < |b| && i + 2 + b[i + 1] <= |b|
  {
    Opt(b[i], b[i + 2..i + 2 + b[i + 1]])
  }

  /** The items from offset i on. */
  function ItemsAt(b: seq<byte>, i: nat): (items: seq<Item>)
    requires FieldAt(b, i)
    decreases |b| - i
  {
    if b[i] == END then []
    else if b[i] == PAD then [Pad] + ItemsAt(b, i + 1)
    else
      assert EndAt(b, i + 2 + b[i + 1]) < |b|;
      [OptAt(b, i)] + ItemsAt(b, i + 2 + b[i + 1])
  }

  function Items(b: seq<byte>): seq<Item>
    requires WellFormed(b)
  {
    ItemsAt(b, 0)
  }

  /** The layout of section 2: a zero byte, or code, length and data. */
  lemma ItemLaidOut(item: Item)
    ensures item.Pad? ==> RenderItem(item) == [0]
    ensures item.Opt? ==>
      var r := RenderItem(item);
      |r| == 2 + |item.data| && r[0] == item.code && r[1] == |item.data| && r[2..] == item.data
  {
  }

  lemma RenderStep(item: Item, items: seq<Item>)
    ensures Render([item] + items) == RenderItem(item) + Render(items)
  {
    assert ([item] + items)[1..] == items;
  }

  lemma Slices(b: seq<byte>, i: nat, n: nat, e: nat)
    requires i <= n <= e <= |b|
    ensures b[i..e] == b[i..n] + b[n..e]
  {
  }

  lemma OptBytes(b: seq<byte>, i: nat)
    requires i + 1 < |b| && i + 2 + b[i + 1] <= |b|
    ensures b[i..i + 2 + b[i + 1]] == RenderItem(OptAt(b, i))
  {
  }

  /** The bytes from i to the end are these items. */
  ghost predicate AreRendered(b: seq<byte>, i: nat, items: seq<Item>, end: nat) {
    ValidItems(items) && i <= end <= |b| && b[i..end] == Render(items)
  }

  lemma RendersOneMore(b: seq<byte>, i: nat, item: Item, n: nat, items: seq<Item>, end: nat)
    requires ValidItem(item) && i <= n <= |b| && b[i..n] == RenderItem(item) && AreRendered(b, n, items, end)
    ensures AreRendered(b, i, [item] + items, end)
  {
    Slices(b, i, n, end);
    RenderStep(item, items);
  }

  /** The items rendered, then an End: that is how an accepted field starts. */
  lemma {:induction false} ItemsRender(b: seq<byte>, i: nat)
    requires FieldAt(b, i)
    ensures AreRendered(b, i, ItemsAt(b, i), EndAt(b, i))
    decreases |b| - i
  {
    if b[i] == END {
      assert b[i..i] == [];
    } else if b[i] == PAD {
      ItemsRender(b, i + 1);
      RendersOneMore(b, i, Pad, i + 1, ItemsAt(b, i + 1), EndAt(b, i + 1));
    } else {
      var n := i + 2 + b[i + 1];
      ItemsRender(b, n);
      OptBytes(b, i);
      RendersOneMore(b, i, OptAt(b, i), n, ItemsAt(b, n), EndAt(b, n));
    }
  }

  /** Reading an option back from where it was written. */
  lemma OptReads(b: seq<byte>, i: nat, item: Item)
    requires item.Opt? && At(b, i, RenderItem(item))
    ensures |RenderItem(item)| == 2 + |item.data| && i + 2 + |item.data| <= |b|
    ensures b[i] == item.code && b[i + 1] == |item.data| && OptAt(b, i) == item
  {
    var head := [item.code, |item.data|];
    AtSplits(b, i, head, item.data);
    assert b[i + 0] == head[0] && b[i + 1] == head[1];
    AtIsSlice(b, i + 2, item.data);
  }

  /** From offset i on the bytes are these items and an End marker. */
  ghost predicate RenderedAt(b: seq<byte>, i: nat, items: seq<Item>) {
    && ValidItems(items)
    && i + |Render(items)| < |b|
    && At(b, i, Render(items))
    && b[i + |Render(items)|] == 255
  }

  /** An item written before an accepted field extends it by that item. */
  lemma ItemReads(b: seq<byte>, i: nat, item: Item, n: nat)
    requires ValidItem(item) && n == i + |RenderItem(item)| && FieldAt(b, n)
    requires At(b, i, RenderItem(item))
    ensures FieldAt(b, i) && ItemsAt(b, i) == [item] + ItemsAt(b, n) && EndAt(b, i) == EndAt(b, n)
  {
    if item.Opt? {
      OptReads(b, i, item);
    } else {
      assert b[i + 0] == RenderItem(item)[0];
    }
  }

  /** From offset i on the bytes are read as these items up to the end. */
  ghost predicate ReadsAs(b: seq<byte>, i: nat, items: seq<Item>, end: nat) {
    FieldAt(b, i) && ItemsAt(b, i) == items && EndAt(b, i) == end
  }

  lemma ReadsOneMore(b: seq<byte>, i: nat, items: seq<Item>, tail: seq<Item>, n: nat, end: nat)
    requires items != [] && tail == items[1..] && ValidItem(items[0])
    requires n == i + |RenderItem(items[0])| && At(b, i, RenderItem(items[0]))
    requires ReadsAs(b, n, tail, end)
    ensures ReadsAs(b, i, items, end)
  {
    ItemReads(b, i, items[0], n);
    assert items == [items[0]] + tail;
  }

  lemma RenderedStep(b: seq<byte>, i: nat, items: seq<Item>) returns (tail: seq<Item>, n: nat, end: nat)
    requires items != [] && RenderedAt(b, i, items)
    ensures tail == items[1..] && RenderedAt(b, n, tail)
    ensures ValidItem(items[0]) && n == i + |RenderItem(items[0])| && At(b, i, RenderItem(items[0]))
    ensures end == i + |Render(items)| == n + |Render(tail)|
  {
    var x, y := RenderItem(items[0]), Render(items[1..]);
    tail, n, end := items[1..], i + |x|, i + |x + y|;
    assert Render(items) == x + y;
    AtSplits(b, i, x, y);
    TailIsValid(items);
  }

  lemma TailIsValid(items: seq<Item>)
    requires items != [] && ValidItems(items)
    ensures ValidItem(items[0]) && ValidItems(items[1..])
  {
  }

  lemma NoItems(b: seq<byte>, i: nat)
    requires i < |b| && b[i] == END
    ensures ReadsAs(b, i, [], i)
  {
  }

  /** Conversely, items rendered and an End are accepted as these items, whatever follows. */
  lemma {:induction false} RenderItems(b: seq<byte>, i: nat, items: seq<Item>)
    requires RenderedAt(b, i, items)
    ensures ReadsAs(b, i, items, i + |Render(items)|)
    decreases |items|
  {
    if items == [] {
      NoItems(b, i);
    } else {
      var tail, n, end := RenderedStep(b, i, items);
      RenderItems(b, n, tail);
      assert ReadsAs(b, n, tail, end);
      ReadsOneMore(b, i, items, tail, n, end);
    }
  }

  /** A field is accepted exactly when it starts with some items and an End marker. */
  lemma WellFormedIff(b: seq<byte>)
    ensures WellFormed(b) <==> exists items :: RenderedAt(b, 0, items)
  {
    if WellFormed(b) {
      ItemsRender(b, 0);
      SliceIsAt(b, 0, Render(Items(b)));
      assert RenderedAt(b, 0, Items(b));
    }
    if items :| RenderedAt(b, 0, items) {
      RenderItems(b, 0, items);
    }
  }

  // ----- the receive-side check and lookup -----

  /** The offsets of the items from i on and of the End marker. */
  function BoundariesAt(b: seq<byte>, i: nat): set<nat>
    requires FieldAt(b, i)
    decreases |b| - i
  {
    {i} +
    if b[i] == END then {}
    else if b[i] == PAD then BoundariesAt(b, i + 1)
    else BoundariesAt(b, i + 2 + b[i + 1])
  }

  /** A read past the end of the allocated buffer yields an arbitrary byte. */
  function ByteAt(opts: seq<byte>, i: nat, beyond: byte): byte {
    if i < |opts| then opts[i] else beyond
  }

  /**
   The option check at the end of `mp_dhcp_recv`; a packet without options passes. Its verdict does
   not depend on bytes it should not read, and it looks at every boundary up to the End.
   */
  method Validate(opts: seq<byte>, optlen: int, beyond: byte) returns (ok: bool, ghost visited: set<nat>)
    requires optlen <= |opts|
    ensures ok <==> optlen <= 0 || WellFormed(opts[..optlen])
    ensures ok && optlen > 0 ==> visited == BoundariesAt(opts[..optlen], 0)
  {
    visited := {};
    if optlen <= 0 {
      return true, visited;
    }
    var i: nat := 0;
    ghost var b := opts[..optlen];
    while i < optlen
      invariant WellFormed(b) <==> FieldAt(b, i)
      invariant WellFormed(b) ==> visited + BoundariesAt(b, i) == BoundariesAt(b, 0)
    {
      visited := visited + {i};
      if opts[i] == PAD {
        i := i + 1;
        continue;
      }
      if opts[i] == END {
        break;
      }
      i := i + ByteAt(opts, i + 1, beyond) + 2;
    }
    return i < optlen, visited;
  }

  /** What lookup in an accepted field finds: the offset of the first option with the code. */
  function FoundAt(b: seq<byte>, i: nat, code: byte): Option<nat>
    requires FieldAt(b, i)
    decreases |b| - i
  {
    if b[i] == code then Some(i)
    else if b[i] == END then None
    else if b[i] == PAD then FoundAt(b, i + 1, code)
    else FoundAt(b, i + 2 + b[i + 1], code)
  }

  /** `mp_dhcp_pkt_getopt`: in an accepted field it looks at no offset the check did not look at. */
  method GetOption(opts: seq<byte>, optlen: int, code: byte, beyond: byte)
    returns (r: Option<nat>, ghost visited: set<nat>)
    requires optlen <= |opts|
    ensures optlen > 0 && WellFormed(opts[..optlen]) ==>
      r == FoundAt(opts[..optlen], 0, code) && visited <= BoundariesAt(opts[..optlen], 0)
    ensures optlen <= 0 ==> r == None
    ensures r.Some? ==> r.value < optlen && opts[r.value] == code
  {
    var i: nat := 0;
    visited := {};
    if optlen <= 0 {
      return None, visited;
    }
    ghost var b := opts[..optlen];
    while i < optlen
      invariant WellFormed(b) ==> FieldAt(b, i) && FoundAt(b, i, code) == FoundAt(b, 0, code)
      invariant WellFormed(b) ==> visited + BoundariesAt(b, i) == BoundariesAt(b, 0)
    {
      visited := visited + {i};
      if opts[i] == code {
        return Some(i), visited;
      }
      if opts[i] == PAD {
        i := i + 1;
        continue;
      }
      if opts[i] == END {
        return None, visited;
      }
      i := i + 2 + ByteAt(opts, i + 1, beyond);
    }
    return None, visited;
  }

  /** The index of the first item with the code. */
  function First(items: seq<Item>, code: byte): (k: nat)
    ensures k <= |items|
  {
    if items == [] || (items[0].Opt? && items[0].code == code) then 0 else 1 + First(items[1..], code)
  }

  /** The option stands at offset `at`, and its code, length and data all lie before `end`. */
  ghost predicate OptionIn(b: seq<byte>, at: nat, item: Item, end: nat) {
    && item.Opt?
    && at + 2 + |item.data| <= end < |b|
    && b[at] == item.code && b[at + 1] == |item.data|
    && b[at + 2..at + 2 + |item.data|] == item.data
  }

  /** Found is the first item with the code, where it stands before the end, or nothing if there is none. */
  ghost predicate Finds(found: Option<nat>, b: seq<byte>, items: seq<Item>, code: byte, end: nat) {
    var k := First(items, code);
    && (found.Some? <==> k < |items|)
    && (k < |items| ==> OptionIn(b, found.value, items[k], end))
  }

  /**
   Lookup of a code from 1 to 254 in an accepted field finds the first item with the code, or
   nothing if there is none; what it finds lies, data and all, before the End marker.
   */
  lemma {:induction false} FoundIsFirst(b: seq<byte>, i: nat, code: byte)
    requires FieldAt(b, i) && code != PAD && code != END
    ensures Finds(FoundAt(b, i, code), b, ItemsAt(b, i), code, EndAt(b, i))
    decreases |b| - i
  {
    if b[i] == END {
    } else if b[i] == PAD {
      FoundIsFirst(b, i + 1, code);
      FoundLater(FoundAt(b, i, code), b, Pad, ItemsAt(b, i + 1), code, EndAt(b, i));
    } else {
      var n := i + 2 + b[i + 1];
      if b[i] == code {
        FirstStep(OptAt(b, i), ItemsAt(b, n), code);
        assert OptionIn(b, i, OptAt(b, i), EndAt(b, n));
      } else {
        FoundIsFirst(b, n, code);
        FoundLater(FoundAt(b, i, code), b, OptAt(b, i), ItemsAt(b, n), code, EndAt(b, i));
      }
    }
  }

  lemma FoundLater(found: Option<nat>, b: seq<byte>, item: Item, items: seq<Item>, code: byte, end: nat)
    requires Finds(found, b, items, code, end) && (item.Opt? ==> item.code != code)
    ensures Finds(found, b, [item] + items, code, end)
  {
    FirstStep(item, items, code);
  }

  /** `First` is the first item with the code. */
  lemma {:induction false} FirstIsLeast(items: seq<Item>, code: byte)
    ensures var k := First(items, code);
      && (k < |items| ==> items[k].Opt? && items[k].code == code)
      && (forall j :: 0 <= j < k ==> items[j].Opt? ==> items[j].code != code)
  {
    if items != [] {
      FirstIsLeast(items[1..], code);
    }
  }

  lemma FirstStep(item: Item, items: seq<Item>, code: byte)
    ensures First([item] + items, code) == if item.Opt? && item.code == code then 0 else 1 + First(items, code)
  {
    assert ([item] + items)[1..] == items;
  }

  // ----- appending -----

  /** What one append makes of the option bytes; the code of an empty option is overwritten by the End. */
  function Appended(b: seq<byte>, code: byte, data: seq<byte>): seq<byte>
    requires |data| < 256
  {
    var kept := if b == [] then [] else b[..|b| - 1];
    if data == [] then kept + [END] else kept + [code, |data|] + data + [END]
  }

  /** The buffer after data was copied into it at an offset. */
  function Written(opts: seq<byte>, at: nat, data: seq<byte>): (r: seq<byte>)
    requires at + |data| <= |opts|
    ensures |r| == |opts| && r[..at + |data|] == opts[..at] + data
  {
    opts[..at] + data + opts[at + |data|..]
  }

  lemma LastReplaced(kept: seq<byte>, opts: seq<byte>, n: nat, code: byte)
    requires 0 < n <= |opts| && opts[..n] == kept + [code]
    ensures opts[..n - 1] == kept
  {
    assert opts[..n - 1] == opts[..n][..n - 1];
  }

  lemma OptionWritten(kept: seq<byte>, opts: seq<byte>, n: nat, code: byte, data: seq<byte>)
    requires n + 1 + |data| <= |opts| && opts[..n] == kept + [code]
    ensures Written(Written(opts, n, [|data|]), n + 1, data)[..n + 1 + |data|] == kept + [code, |data|] + data
  {
    assert kept + [code] + [|data|] == kept + [code, |data|];
  }

  class Packet {
    var opts: seq<byte>
    var optlen: nat

    ghost predicate Valid()
      reads this
    {
      optlen <= |opts|
    }

    function Bytes(): seq<byte>
      requires Valid()
      reads this
    {
      opts[..optlen]
    }

    constructor ()
      ensures Valid() && Bytes() == []
    {
      opts := [];
      optlen := 0;
    }

    /** `mp_dhcp_pkt_opt`: the code goes where the End marker was. */
    method AddOption(code: byte, data: seq<byte>)
      requires Valid() && |data| < 256
      modifies this
      ensures Valid() && Bytes() == Appended(old(Bytes()), code, data)
    {
      var len: byte := |data|;
      if optlen == 0 {
        opts := seq(len + 3, _ => 0);
        optlen := 1;
      } else {
        opts := opts[..optlen] + seq(len + 2, _ => 0);
      }
      ghost var kept := opts[..optlen - 1];
      assert kept == if old(Bytes()) == [] then [] else old(Bytes())[..|old(Bytes())| - 1];
      opts := Written(opts, optlen - 1, [code]);
      if len == 0 {
        LastReplaced(kept, opts, optlen, code);
      } else {
        OptionWritten(kept, opts, optlen, code, data);
        opts := Written(opts, optlen, [len]);
        opts := Written(opts, optlen + 1, data);
        optlen := optlen + 2 + len;
      }
      opts := Written(opts, optlen - 1, [END]);
    }

    /** Any number of appends to a new packet. */
    method AddAll(options: seq<Item>)
      requires Valid() && Bytes() == [] && Addable(options)
      modifies this
      ensures Valid() && Bytes() == AppendedAll(options)
    {
      for i := 0 to |options|
        invariant Valid() && Bytes() == AppendedAll(options[..i])
      {
        assert options[..i + 1][..i] == options[..i];
        AddOption(options[i].code, options[i].data);
      }
      assert options[..|options|] == options;
    }
  }

  /** Options a caller may append: codes 1 to 254, any length a byte can hold. */
  predicate Addable(options: seq<Item>) {
    forall i :: 0 <= i < |options| ==> options[i].Opt? && PAD < options[i].code < END && |options[i].data| < 256
  }

  function AppendedAll(options: seq<Item>): seq<byte>
    requires Addable(options)
  {
    if options == [] then []
    else
      var n := |options| - 1;
      Appended(AppendedAll(options[..n]), options[n].code, options[n].data)
  }

  /** The options with data; the others leave no trace. */
  function NonEmpty(options: seq<Item>): (r: seq<Item>)
    requires Addable(options)
    ensures ValidItems(r)
  {
    if options == [] then []
    else
      var n := |options| - 1;
      NonEmpty(options[..n]) + if options[n].data == [] then [] else [options[n]]
  }

  /** After any appends the bytes are the options with data and one End. */
  lemma {:induction false} AppendedIsRendered(options: seq<Item>)
    requires Addable(options) && options != []
    ensures AppendedAll(options) == Render(NonEmpty(options)) + [255]
    decreases |options|
  {
    var n := |options| - 1;
    var before := options[..n];
    var kept := Render(NonEmpty(before));
    if n > 0 {
      AppendedIsRendered(before);
    }
    AppendedTo(AppendedAll(before), kept, options[n]);
    if options[n].data == [] {
      assert NonEmpty(before) + [] == NonEmpty(before);
    } else {
      RenderAppend(NonEmpty(before), options[n]);
    }
  }

  /** What one append does to bytes that end in an End, or to none. */
  lemma AppendedTo(b: seq<byte>, kept: seq<byte>, option: Item)
    requires option.Opt? && |option.data| < 256
    requires b == kept + [END] || (b == [] && kept == [])
    ensures Appended(b, option.code, option.data) ==
            (if option.data == [] then kept else kept + RenderItem(option)) + [END]
  {
    if b != [] {
      assert b[..|b| - 1] == kept;
    }
    assert kept + [option.code, |option.data|] + option.data == kept + RenderItem(option);
  }

  /**
   Round trip: what was appended passes the check, and lookup of a code finds the first appended
   option with that code and with data, or nothing if there is none.
   */
  lemma AppendedRoundTrip(options: seq<Item>, code: byte)
    requires Addable(options) && options != [] && code != PAD && code != END
    ensures var b, items := AppendedAll(options), NonEmpty(options);
      var k := First(items, code);
      && WellFormed(b) && Items(b) == items
      && (FoundAt(b, 0, code).Some? <==> k < |items|)
      && (k < |items| ==> OptionIn(b, FoundAt(b, 0, code).value, items[k], |b| - 1))
  {
    var b := AppendedAll(options);
    AppendedIsRendered(options);
    RenderItems(b, 0, NonEmpty(options));
    FoundIsFirst(b, 0, code);
  }

  lemma {:induction false} RenderAppend(items: seq<Item>, item: Item)
    ensures Render(items + [item]) == Render(items) + RenderItem(item)
  {
    if items == [] {
      assert items + [item] == [item] && [item][1..] == [];
    } else {
      assert (items + [item])[1..] == items[1..] + [item];
      RenderAppend(items[1..], item);
    }
  }
}
