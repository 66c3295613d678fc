/**
 FastCGI name-value pairs and records (lib/fcgi_utils.c, sections 3.3 and 3.4 of the FastCGI
 Specification). Bytes are naturals below 256.
 */
module FastCgi {
  import opened Bytes
  import opened Wrappers

  const MAX_LENGTH := 0x8000_0000

  // ----- lengths -----

  /** One byte below 128, otherwise four with the top bit set. */
  function LengthBytes(n: nat): (b: seq<nat>)
    requires n < MAX_LENGTH
  {
    if n < 0x80 then [n]
    else [n / 0x100_0000 + 0x80, n / 0x1_0000 % 256, n / 0x100 % 256, n % 256]
  }

  /** A length at an offset, and the offset after it. */
  function ReadLength(b: seq<nat>, i: nat): Option<(nat, nat)> {
    if i >= |b| then None
    else if b[i] < 0x80 then Some((b[i], i + 1))
    else if i + 4 > |b| then None
    else Some(((b[i] - 0x80) * 0x100_0000 + b[i + 1] * 0x1_0000 + b[i + 2] * 0x100 + b[i + 3], i + 4))
  }

  lemma FourBytes(n: nat)
    ensures n / 0x100_0000 * 0x100_0000 + n / 0x1_0000 % 256 * 0x1_0000 + n / 0x100 % 256 * 0x100 + n % 256 == n
  {
    var a, b, c := n / 0x100, n / 0x1_0000, n / 0x100_0000;
    assert b == a / 256 && c == b / 256;
    assert n == 256 * a + n % 256 && a == 256 * b + a % 256 && b == 256 * c + b % 256;
  }

  lemma LengthReads(b: seq<nat>, i: nat, n: nat)
    requires n < MAX_LENGTH && At(b, i, LengthBytes(n))
    ensures ReadLength(b, i) == Some((n, i + |LengthBytes(n)|))
  {
    var l := LengthBytes(n);
    assert b[i + 0] == l[0];
    if n >= 0x80 {
      assert b[i + 1] == l[1] && b[i + 2] == l[2] && b[i + 3] == l[3];
      FourBytes(n);
    }
  }

  // ----- name-value pairs -----

  datatype Pair = Pair(key: seq<nat>, value: seq<nat>)

  predicate Fits(p: Pair) {
    |p.key| < MAX_LENGTH && |p.value| < MAX_LENGTH
  }

  function PairBytes(p: Pair): seq<nat>
    requires Fits(p)
  {
    LengthBytes(|p.key|) + (LengthBytes(|p.value|) + (p.key + p.value))
  }

  predicate AllFit(pairs: seq<Pair>) {
    forall i :: 0 <= i < |pairs| ==> Fits(pairs[i])
  }

  function PairsBytes(pairs: seq<Pair>): seq<nat>
    requires AllFit(pairs)
  {
    if pairs == [] then [] else PairBytes(pairs[0]) + PairsBytes(pairs[1..])
  }

  class Stream {
    var bytes: seq<nat>

    constructor ()
      ensures bytes == []
    {
      bytes := [];
    }

    method PutStr(s: seq<nat>)
      modifies this
      ensures bytes == old(bytes) + s
    {
      bytes := bytes + s;
    }

    /** Writes one length into the header and returns the moved pointer. */
    static method PutLength(header: array<nat>, ptr: nat, n: nat) returns (ptr': nat)
      requires n < MAX_LENGTH && ptr + 4 <= header.Length
      modifies header
      ensures ptr' == ptr + |LengthBytes(n)| <= ptr + 4
      ensures header[..ptr'] == old(header[..ptr]) + LengthBytes(n)
    {
      if n < 0x80 {
        header[ptr] := n;
        ptr' := ptr + 1;
      } else {
        header[ptr] := n / 0x100_0000 + 0x80;
        header[ptr + 1] := n / 0x1_0000 % 256;
        header[ptr + 2] := n / 0x100 % 256;
        header[ptr + 3] := n % 256;
        ptr' := ptr + 4;
      }
      assert header[..ptr] == old(header[..ptr]);
      assert header[ptr..ptr'] == LengthBytes(n);
      assert header[..ptr'] == header[..ptr] + header[ptr..ptr'];
    }

    /** `mp_fcgi_putkv`. */
    method PutKv(key: seq<nat>, value: seq<nat>)
      requires Fits(Pair(key, value))
      modifies this
      ensures bytes == old(bytes) + PairBytes(Pair(key, value))
    {
      var header := new nat[8];
      var ptr := PutLength(header, 0, |key|);
      ptr := PutLength(header, ptr, |value|);
      assert header[..ptr] == LengthBytes(|key|) + LengthBytes(|value|);
      ghost var k, v := LengthBytes(|key|), LengthBytes(|value|);
      assert bytes + (k + v) + key + value == bytes + (k + (v + (key + value)));
      PutStr(header[..ptr]);
      PutStr(key);
      PutStr(value);
    }

    /** Any number of pairs, one after the other. */
    method PutAll(pairs: seq<Pair>)
      requires AllFit(pairs)
      modifies this
      ensures bytes == old(bytes) + PairsBytes(pairs)
    {
      var i := 0;
      while i < |pairs|
        invariant 0 <= i <= |pairs|
        invariant bytes + PairsBytes(pairs[i..]) == old(bytes) + PairsBytes(pairs)
      {
        PairsStep(bytes, pairs, i);
        PutKv(pairs[i].key, pairs[i].value);
        i := i + 1;
      }
      assert bytes + [] == bytes;
    }
  }

  lemma PairsStep(before: seq<nat>, pairs: seq<Pair>, i: nat)
    requires AllFit(pairs) && i < |pairs|
    ensures before + PairsBytes(pairs[i..]) == before + PairBytes(pairs[i]) + PairsBytes(pairs[i + 1..])
  {
    assert pairs[i..][1..] == pairs[i + 1..];
  }

  /** The pair at an offset, and the offset after it. */
  function ReadPair(b: seq<nat>, i: nat): (r: Option<(Pair, nat)>)
    ensures r.Some? ==> i < r.value.1 <= |b|
  {
    match ReadLength(b, i)
    case None => None
    case Some((k, j)) =>
      match ReadLength(b, j)
      case None => None
      case Some((v, d)) =>
        if d + k + v > |b| then None
        else Some((Pair(b[d..d + k], b[d + k..d + k + v]), d + k + v))
  }

  /** The pairs in the bytes from offset i on. */
  function ReadPairs(b: seq<nat>, i: nat): Option<seq<Pair>>
    decreases |b| - i
  {
    if i >= |b| then Some([])
    else
      var first := ReadPair(b, i);
      if first.None? then None
      else
        var rest := ReadPairs(b, first.value.1);
        if rest.None? then None else Some([first.value.0] + rest.value)
  }

  lemma FourParts(b: seq<nat>, i: nat, k: seq<nat>, v: seq<nat>, key: seq<nat>, value: seq<nat>)
    requires At(b, i, k + (v + (key + value)))
    ensures At(b, i, k) && At(b, i + |k|, v)
    ensures var d := i + |k| + |v|; var e := d + |key|;
      e + |value| <= |b| && b[d..e] == key && b[e..e + |value|] == value
    ensures |k + (v + (key + value))| == |k| + |v| + |key| + |value|
  {
    AtSplitsInFour(b, i, k, v, key, value);
    AtIsSlice(b, i + |k| + |v|, key);
    AtIsSlice(b, i + |k| + |v| + |key|, value);
  }

  /** Both lengths, the name and the value stand one after the other. */
  lemma PairLaidOut(b: seq<nat>, i: nat, p: Pair, j: nat, d: nat, e: nat)
    requires Fits(p) && At(b, i, PairBytes(p))
    requires j == i + |LengthBytes(|p.key|)| && d == j + |LengthBytes(|p.value|)| && e == d + |p.key|
    ensures At(b, i, LengthBytes(|p.key|)) && At(b, j, LengthBytes(|p.value|))
    ensures e + |p.value| <= |b| && b[d..e] == p.key && b[e..e + |p.value|] == p.value
    ensures |PairBytes(p)| == e + |p.value| - i
  {
    FourParts(b, i, LengthBytes(|p.key|), LengthBytes(|p.value|), p.key, p.value);
  }

  lemma PairFrom(b: seq<nat>, i: nat, j: nat, d: nat, key: seq<nat>, value: seq<nat>)
    requires ReadLength(b, i) == Some((|key|, j)) && ReadLength(b, j) == Some((|value|, d))
    requires d + |key| + |value| <= |b|
    requires b[d..d + |key|] == key && b[d + |key|..d + |key| + |value|] == value
    ensures d + |key| + |value| > i && ReadPair(b, i) == Some((Pair(key, value), d + |key| + |value|))
  {
  }

  lemma PairReads(b: seq<nat>, i: nat, p: Pair)
    requires Fits(p) && At(b, i, PairBytes(p))
    ensures ReadPair(b, i) == Some((p, i + |PairBytes(p)|))
  {
    var j := i + |LengthBytes(|p.key|)|;
    var d := j + |LengthBytes(|p.value|)|;
    PairLaidOut(b, i, p, j, d, d + |p.key|);
    LengthReads(b, i, |p.key|);
    LengthReads(b, j, |p.value|);
    PairFrom(b, i, j, d, p.key, p.value);
  }

  lemma PairThenRest(b: seq<nat>, i: nat, pairs: seq<Pair>, tail: seq<Pair>, n: nat)
    requires pairs != [] && tail == pairs[1..]
    requires ReadPair(b, i) == Some((pairs[0], n)) && ReadPairs(b, n) == Some(tail)
    ensures ReadPairs(b, i) == Some(pairs)
  {
    assert pairs == [pairs[0]] + tail;
  }

  /** The first of some pairs is read, and the others follow it. */
  lemma FirstPairReads(b: seq<nat>, i: nat, pairs: seq<Pair>) returns (tail: seq<Pair>, n: nat)
    requires pairs != [] && AllFit(pairs) && i + |PairsBytes(pairs)| == |b| && At(b, i, PairsBytes(pairs))
    ensures tail == pairs[1..] && AllFit(tail) && ReadPair(b, i) == Some((pairs[0], n))
    ensures n + |PairsBytes(tail)| == |b| && At(b, n, PairsBytes(tail))
  {
    tail, n := pairs[1..], i + |PairBytes(pairs[0])|;
    AtSplits(b, i, PairBytes(pairs[0]), PairsBytes(tail));
    PairReads(b, i, pairs[0]);
  }

  lemma {:induction false} ReadsFrom(b: seq<nat>, i: nat, pairs: seq<Pair>)
    requires AllFit(pairs) && i + |PairsBytes(pairs)| == |b| && At(b, i, PairsBytes(pairs))
    ensures ReadPairs(b, i) == Some(pairs)
    decreases |pairs|
  {
    if pairs != [] {
      var tail, n := FirstPairReads(b, i, pairs);
      ReadsFrom(b, n, tail);
      PairThenRest(b, i, pairs, tail, n);
    }
  }

  /** The concatenation of encoded pairs decodes to exactly the pairs that were written. */
  lemma PairsRoundTrip(pairs: seq<Pair>)
    requires AllFit(pairs)
    ensures ReadPairs(PairsBytes(pairs), 0) == Some(pairs)
  {
    ReadsFrom(PairsBytes(pairs), 0, pairs);
  }

  // ----- records -----

  /** The eight bytes of a record header; only the low 16 bits of the length are kept. */
  function Header(typ: nat, requestId: nat, contentLength: nat, paddingLength: nat): seq<nat> {
    [1, typ, requestId / 256 % 256, requestId % 256, contentLength / 256 % 256, contentLength % 256, paddingLength, 0]
  }

  /**
   A length from 128 on is written high byte first with the top bit set (section 3.4): what the four
   bytes say without that bit is the length.
   */
  lemma LengthLaidOut(n: nat)
    requires n < 0x8000_0000
    ensures n < 128 ==> LengthBytes(n) == [n]
    ensures n >= 128 ==>
      var l := LengthBytes(n);
      && |l| == 4 && 128 <= l[0] < 256 && l[1] < 256 && l[2] < 256 && l[3] < 256
      && (l[0] - 128) * 0x100_0000 + l[1] * 0x1_0000 + l[2] * 0x100 + l[3] == n
  {
    FourBytes(n);
  }

  /** What `mp_fcgi_write` puts on the connection. */
  function RecordBytes(typ: nat, requestId: nat, content: seq<nat>): seq<nat> {
    Header(typ, requestId, |content|, 0) + content
  }

  /** What `mp_fcgi_read` takes from it; `None` is the exit through `critical`. */
  datatype Record = Record(typ: nat, content: seq<nat>)

  /** A socket: what was sent on it and what is still to be read. */
  class Connection {
    var sent: seq<nat>
    var incoming: seq<nat>

    constructor (incoming: seq<nat>)
      ensures this.incoming == incoming && sent == []
    {
      this.incoming := incoming;
      sent := [];
    }

    /** `mp_fcgi_write`. */
    method Write(requestId: nat, typ: nat, content: seq<nat>) returns (count: nat)
      modifies this`sent
      ensures sent == old(sent) + RecordBytes(typ, requestId, content)
      ensures count == 8 + |content|
    {
      var header := Header(typ, requestId, |content|, 0);
      sent := sent + header;
      sent := sent + content;
      assert old(sent) + header + content == old(sent) + (header + content);
      return 8 + |content|;
    }

    /** `mp_fcgi_read`: content and padding are read only if the content length is not zero. */
    method Read() returns (r: Option<Record>)
      modifies this`incoming
      ensures (r, incoming) == Taken(old(incoming))
      ensures Took(old(incoming), r, incoming)
      ensures forall typ, requestId, content, padding, rest ::
        Arrives(old(incoming), typ, requestId, content, padding, rest) ==>
        ((r, incoming) == (Some(Record(typ, content)), rest) <==> content != [] || padding == [])
    {
      forall typ, requestId, content, padding, rest
        | Arrives(incoming, typ, requestId, content, padding, rest)
        ensures Taken(incoming) == (Some(Record(typ, content)), rest) <==> content != [] || padding == []
      {
        PaddingSkippedIff(typ, requestId, content, padding, rest);
      }
      if |incoming| < 8 {
        return None;
      }
      var header := incoming[..8];
      var contentLength := header[4] * 256 + header[5];
      if contentLength > 0 {
        if |incoming| < 8 + contentLength + header[6] {
          return None;
        }
        var content := incoming[8..8 + contentLength];
        incoming := incoming[8 + contentLength + header[6]..];
        return Some(Record(header[1], content));
      }
      incoming := incoming[8..];
      return Some(Record(header[1], []));
    }
  }

  /** The bytes a record with this header takes up; an empty one takes no padding. */
  function TakenLength(s: seq<nat>): nat
    requires |s| >= 8
  {
    var n := s[4] * 256 + s[5];
    if n == 0 then 8 else 8 + n + s[6]
  }

  /** One whole record was taken, no more and no less, or nothing of an incomplete one. */
  predicate Took(s: seq<nat>, r: Option<Record>, rest: seq<nat>) {
    match r
    case None => rest == s && (|s| < 8 || |s| < TakenLength(s))
    case Some(Record(typ, content)) =>
      && |s| >= 8 && |s| == TakenLength(s) + |rest| && s[TakenLength(s)..] == rest
      && typ == s[1] && |content| == s[4] * 256 + s[5] && s[8..8 + |content|] == content
  }

  function Taken(s: seq<nat>): (Option<Record>, seq<nat>) {
    if |s| < 8 then (None, s)
    else
      var n := s[4] * 256 + s[5];
      if n == 0 then (Some(Record(s[1], [])), s[8..])
      else if |s| < 8 + n + s[6] then (None, s)
      else (Some(Record(s[1], s[8..8 + n])), s[8 + n + s[6]..])
  }

  /** Every field of a header at its place (section 3.3): version, type, request id, lengths. */
  lemma HeaderLaidOut(typ: nat, requestId: nat, contentLength: nat, paddingLength: nat)
    ensures var h := Header(typ, requestId, contentLength, paddingLength);
      && |h| == 8 && h[0] == 1 && h[1] == typ
      && h[2] < 256 && h[3] < 256 && h[2] * 256 + h[3] == requestId % 65536
      && h[4] < 256 && h[5] < 256 && h[4] * 256 + h[5] == contentLength % 65536
      && h[6] == paddingLength && h[7] == 0
  {
    AnnouncedLength(requestId);
    AnnouncedLength(contentLength);
  }

  /** Every field of a written record at its place (section 3.3): version, type, request id, length, no padding. */
  lemma RecordLaidOut(typ: nat, requestId: nat, content: seq<nat>)
    ensures var b := RecordBytes(typ, requestId, content);
      && |b| == 8 + |content| && b[8..] == content
      && b[0] == 1 && b[1] == typ && b[6] == 0 && b[7] == 0
      && b[2] < 256 && b[3] < 256 && b[2] * 256 + b[3] == requestId % 65536
      && b[4] < 256 && b[5] < 256 && b[4] * 256 + b[5] == |content| % 65536
  {
    HeaderLaidOut(typ, requestId, |content|, 0);
  }

  /** The header of anything of n bytes announces n modulo 65536. */
  lemma AnnouncedLength(n: nat)
    ensures n / 256 % 256 * 256 + n % 256 == n % 65536
  {
    var h := n / 256;
    var low, high := n % 256, h % 256;
    assert n == 256 * h + low && h == 256 * (h / 256) + high;
    assert n == 65536 * (h / 256) + (256 * high + low);
    assert 256 * high + low < 65536;
  }

  /**
   Writing a record and reading it gives back its type and content, and leaves the reader at what
   follows, if and only if the content is shorter than 65536 bytes.
   */
  lemma RecordRoundTripIff(typ: nat, requestId: nat, content: seq<nat>, rest: seq<nat>)
    ensures Taken(RecordBytes(typ, requestId, content) + rest) == (Some(Record(typ, content)), rest) <==>
            |content| < 65536
  {
    var s := RecordBytes(typ, requestId, content) + rest;
    var n := s[4] * 256 + s[5];
    AnnouncedLength(|content|);
    assert s[8..] == content + rest;
    if |content| < 65536 {
      assert s[8..8 + n] == s[8..][..n] == content;
      assert s[8 + n..] == s[8..][n..] == rest;
    }
  }

  /** A peer's record with padding. */
  function PaddedBytes(typ: nat, requestId: nat, content: seq<nat>, padding: seq<nat>): seq<nat> {
    Header(typ, requestId, |content|, |padding|) + content + padding
  }

  /** A peer has sent this record, and the rest after it. */
  ghost predicate Arrives(s: seq<nat>, typ: nat, requestId: nat, content: seq<nat>, padding: seq<nat>, rest: seq<nat>) {
    |content| < 65536 && s == PaddedBytes(typ, requestId, content, padding) + rest
  }

  /**
   Reading any record of a peer leaves the reader at the next record if and only if the padding of
   an empty record is empty: such padding is not skipped.
   */
  lemma PaddingSkippedIff(typ: nat, requestId: nat, content: seq<nat>, padding: seq<nat>, rest: seq<nat>)
    requires |content| < 65536
    ensures Taken(PaddedBytes(typ, requestId, content, padding) + rest) == (Some(Record(typ, content)), rest) <==>
            content != [] || padding == []
  {
    var s := PaddedBytes(typ, requestId, content, padding) + rest;
    var n := s[4] * 256 + s[5];
    AnnouncedLength(|content|);
    assert s[8..] == content + padding + rest;
    assert s[8..8 + n] == s[8..][..n] == content;
    assert s[8 + n + |padding|..] == s[8..][n + |padding|..] == rest;
  }
}
