/** Reading lines from a socket through a carry-over buffer (`mp_recv_line` in lib/mp_net.c). */
module LineReader {

  const BUFFER_SIZE := 128

  /** The C string at the start of a buffer. */
  function CStr(a: seq<char>): string {
    if a == [] || a[0] == '\0' then "" else [a[0]] + CStr(a[1..])
  }

  predicate NulFree(s: string) {
    forall i :: 0 <= i < |s| ==> s[i] != '\0'
  }

  lemma {:induction false} CStrUpTo(a: seq<char>, m: nat)
    requires m < |a| && a[m] == '\0' && NulFree(a[..m])
    ensures CStr(a) == a[..m]
  {
    if m > 0 {
      assert a[0] == a[..m][0];
      assert a[1..][..m - 1] == a[..m][1..];
      CStrUpTo(a[1..], m - 1);
    }
  }

  lemma {:induction false} CStrShape(a: seq<char>)
    requires '\0' in a
    ensures |CStr(a)| < |a| && a[|CStr(a)|] == '\0' && a[..|CStr(a)|] == CStr(a) && NulFree(CStr(a))
  {
    if a[0] != '\0' {
      assert a == [a[0]] + a[1..];
      CStrShape(a[1..]);
      assert a[..|CStr(a)|] == [a[0]] + a[1..][..|CStr(a)| - 1];
    }
  }

  /** The string in a buffer after its rest was moved to the front. */
  lemma MovedIs(a: seq<char>, b: seq<char>, k: nat)
    requires '\0' in a && |b| == |a| && k < |CStr(a)|
    requires forall i :: 0 <= i < |a| - k - 1 ==> b[i] == a[k + 1 + i]
    ensures '\0' in b && CStr(b) == CStr(a)[k + 1..]
  {
    CStrShape(a);
    var n := |CStr(a)| - k - 1;
    assert b[n] == a[|CStr(a)|];
    assert b[..n] == CStr(a)[k + 1..];
    CStrUpTo(b, n);
  }

  // ----- lines of a byte stream -----

  function FirstLine(s: string): string {
    if s == "" || s[0] == '\n' then "" else [s[0]] + FirstLine(s[1..])
  }

  /** What follows the first newline. */
  function Rest(s: string): string {
    if s == "" then "" else if s[0] == '\n' then s[1..] else Rest(s[1..])
  }

  /** One trailing carriage return is not part of the line. */
  function Chomp(line: string): string {
    if line != "" && line[|line| - 1] == '\r' then line[..|line| - 1] else line
  }

  /** Nothing is lost or invented: line, newline and rest are the stream. */
  lemma {:induction false} LineConserves(s: string)
    requires '\n' in s
    ensures FirstLine(s) + "\n" + Rest(s) == s
    ensures '\n' !in FirstLine(s)
  {
    if s[0] != '\n' {
      assert s == [s[0]] + s[1..];
      LineConserves(s[1..]);
    }
  }

  lemma {:induction false} LineOf(line: string, rest: string)
    requires '\n' !in line
    ensures FirstLine(line + "\n" + rest) == line && Rest(line + "\n" + rest) == rest
  {
    var s := line + "\n" + rest;
    if line == "" {
      assert s[1..] == rest;
    } else {
      assert line[0] in line;
      assert s[1..] == line[1..] + "\n" + rest;
      LineOf(line[1..], rest);
    }
  }

  /** The first n lines, without line ends. */
  function Lines(s: string, n: nat): seq<string>
    decreases n
  {
    if n == 0 then [] else [Chomp(FirstLine(s))] + Lines(Rest(s), n - 1)
  }

  /** What follows the first n lines. */
  function RestAfter(s: string, n: nat): string
    decreases n
  {
    if n == 0 then s else RestAfter(Rest(s), n - 1)
  }

  function Newlines(s: string): nat {
    if s == "" then 0 else Newlines(s[1..]) + if s[0] == '\n' then 1 else 0
  }

  lemma {:induction false} NewlinesOfRest(s: string)
    requires Newlines(s) > 0
    ensures '\n' in s && Newlines(Rest(s)) == Newlines(s) - 1
  {
    assert s == [s[0]] + s[1..];
    if s[0] != '\n' {
      NewlinesOfRest(s[1..]);
    }
  }

  predicate EndsInCr(s: string) {
    s != "" && s[|s| - 1] == '\r'
  }

  /** The line is what stands before the first newline of the stream, or before the CR that precedes it. */
  predicate LineRead(line: string, stream: string, rest: string) {
    && '\n' !in line
    && ((stream == line + "\n" + rest && !EndsInCr(line)) || stream == line + "\r\n" + rest)
  }

  lemma ChompedLineRead(line: string, s: string, rest: string)
    requires '\n' in s && line == Chomp(FirstLine(s)) && rest == Rest(s)
    ensures LineRead(line, s, rest)
  {
    LineConserves(s);
    var l := FirstLine(s);
    if EndsInCr(l) {
      assert l == l[..|l| - 1] + "\r";
      assert l[..|l| - 1] + "\r" + "\n" + Rest(s) == l[..|l| - 1] + "\r\n" + Rest(s);
    }
  }

  /** A stream determines its line and what is left of it. */
  lemma LineReadUnique(line: string, rest: string, line': string, rest': string, stream: string)
    requires LineRead(line, stream, rest) && LineRead(line', stream, rest')
    ensures line == line' && rest == rest'
  {
    LineReadIsFirst(line, stream, rest);
    LineReadIsFirst(line', stream, rest');
  }

  lemma LineReadIsFirst(line: string, stream: string, rest: string)
    requires LineRead(line, stream, rest)
    ensures line == Chomp(FirstLine(stream)) && rest == Rest(stream)
  {
    if stream == line + "\n" + rest && !EndsInCr(line) {
      LineOf(line, rest);
    } else {
      assert line + "\r\n" + rest == line + "\r" + "\n" + rest;
      LineOf(line + "\r", rest);
      assert (line + "\r")[..|line|] == line;
    }
  }

  /** Several lines, one after the other. */
  ghost predicate LinesRead(lines: seq<string>, stream: string, rest: string) {
    if lines == [] then rest == stream
    else exists mid :: LineRead(lines[0], stream, mid) && LinesRead(lines[1..], mid, rest)
  }

  lemma {:induction false} LinesCount(s: string, n: nat)
    ensures |Lines(s, n)| == n
    decreases n
  {
    if n > 0 {
      LinesCount(Rest(s), n - 1);
    }
  }

  lemma {:induction false} LinesAreRead(s: string, n: nat)
    requires Newlines(s) >= n
    ensures LinesRead(Lines(s, n), s, RestAfter(s, n))
    decreases n
  {
    if n > 0 {
      NewlinesOfRest(s);
      ChompedLineRead(Chomp(FirstLine(s)), s, Rest(s));
      LinesAreRead(Rest(s), n - 1);
      assert Lines(s, n)[1..] == Lines(Rest(s), n - 1);
    }
  }

  // ----- the socket and the buffer -----

  function Flatten(chunks: seq<string>): string {
    if chunks == [] then "" else chunks[0] + Flatten(chunks[1..])
  }

  /** A connection on which the stream arrives cut into chunks of any size a `recv` can return. */
  class Socket {
    var chunks: seq<string>

    ghost predicate Valid()
      reads this
    {
      forall c :: 0 <= c < |chunks| ==> 1 <= |chunks[c]| < BUFFER_SIZE && NulFree(chunks[c])
    }

    constructor (chunks: seq<string>)
      ensures this.chunks == chunks
    {
      this.chunks := chunks;
    }

    method Recv(buffer: array<char>) returns (len: nat)
      requires Valid() && chunks != [] && buffer.Length == BUFFER_SIZE
      modifies this, buffer
      ensures Valid() && chunks == old(chunks)[1..]
      ensures len == |old(chunks)[0]| && buffer[..len] == old(chunks)[0]
    {
      var chunk := chunks[0];
      len := |chunk|;
      forall i | 0 <= i < len {
        buffer[i] := chunk[i];
      }
      chunks := chunks[1..];
    }
  }

  /** Without a newline in the line and the buffer there is a chunk to come; taking it conserves the stream. */
  lemma NewlineStillToCome(line: string, carried: string, chunks: seq<string>)
    requires '\n' !in line && '\n' !in carried
    requires '\n' in line + (carried + Flatten(chunks))
    ensures chunks != [] && '\n' !in line + carried
    ensures line + (carried + Flatten(chunks)) == line + carried + (chunks[0] + Flatten(chunks[1..]))
  {
  }

  /** The first line of a stream whose first newline is in the buffer. */
  lemma LineAcross(line: string, s: string, more: string)
    requires '\n' !in line && '\n' in s
    ensures FirstLine(line + (s + more)) == line + FirstLine(s)
    ensures Rest(line + (s + more)) == Rest(s) + more
  {
    LineConserves(s);
    assert line + (s + more) == (line + FirstLine(s)) + "\n" + (Rest(s) + more);
    LineOf(line + FirstLine(s), Rest(s) + more);
  }

  lemma BehindLine(s: string)
    requires '\n' in s
    ensures |FirstLine(s)| < |s| && s[|FirstLine(s)| + 1..] == Rest(s)
  {
    LineConserves(s);
  }

  class Reader {
    const buffer: array<char>

    ghost predicate Valid()
      reads this, buffer
    {
      buffer.Length == BUFFER_SIZE && '\0' in buffer[..]
    }

    /** Everything not yet handed out: what the buffer carries over and what is still to arrive. */
    ghost function Pending(sd: Socket): string
      reads this, buffer, sd
    {
      CStr(buffer[..]) + Flatten(sd.chunks)
    }

    constructor ()
      ensures Valid() && fresh(buffer) && CStr(buffer[..]) == ""
    {
      buffer := new char[BUFFER_SIZE](_ => '\0');
      new;
      assert buffer[..][0] == '\0';
    }

    /** The next chunk replaces what the buffer held. */
    method Refill(sd: Socket)
      requires Valid() && sd.Valid() && sd.chunks != []
      modifies sd, buffer
      ensures Valid() && sd.Valid()
      ensures sd.chunks == old(sd.chunks)[1..] && CStr(buffer[..]) == old(sd.chunks)[0]
    {
      var len := sd.Recv(buffer);
      buffer[len] := '\0';
      assert buffer[..][len] == '\0' && buffer[..][..len] == old(sd.chunks)[0];
      CStrUpTo(buffer[..], len);
    }

    /** Cuts the buffer at the newline at k and moves the remainder to its front. */
    method Rotate(k: nat)
      requires Valid() && k < |CStr(buffer[..])|
      modifies buffer
      ensures Valid() && CStr(buffer[..]) == old(CStr(buffer[..])[k + 1..])
    {
      ghost var a := buffer[..];
      CStrShape(a);
      buffer[k] := '\0';
      forall i | 0 <= i < BUFFER_SIZE - k - 1 {
        buffer[i] := buffer[k + 1 + i];
      }
      assert forall i :: 0 <= i < BUFFER_SIZE - k - 1 ==> buffer[..][i] == a[k + 1 + i];
      MovedIs(a, buffer[..], k);
    }

    /** The part of the line in the buffer, which then holds what follows the newline. */
    method CutLine() returns (part: string)
      requires Valid() && '\n' in CStr(buffer[..])
      modifies buffer
      ensures Valid() && part == FirstLine(old(CStr(buffer[..]))) && CStr(buffer[..]) == Rest(old(CStr(buffer[..])))
    {
      BehindLine(CStr(buffer[..]));
      part := FirstLine(CStr(buffer[..]));
      Rotate(|part|);
    }

    /**
     The loop of `mp_recv_line`. The stream must hold a newline, otherwise the source keeps calling
     `recv`. What the buffer holds moves to the line as long as it has no newline.
     */
    method Fetch(sd: Socket) returns (line: string)
      requires Valid() && sd.Valid() && '\n' in Pending(sd)
      modifies sd, buffer
      ensures Valid() && sd.Valid() && '\n' in CStr(buffer[..]) && '\n' !in line
      ensures line + Pending(sd) == old(Pending(sd))
    {
      ghost var stream := Pending(sd);
      line := "";
      while '\n' !in CStr(buffer[..])
        invariant Valid() && sd.Valid()
        invariant '\n' !in line
        invariant line + Pending(sd) == stream && '\n' in stream
        decreases |sd.chunks|
      {
        NewlineStillToCome(line, CStr(buffer[..]), sd.chunks);
        line := line + CStr(buffer[..]);
        Refill(sd);
      }
    }

    /** `mp_recv_line`; the carriage return of an empty line is looked for only if the line is not empty. */
    method RecvLine(sd: Socket) returns (line: string)
      requires Valid() && sd.Valid() && '\n' in Pending(sd)
      modifies sd, buffer
      ensures Valid() && sd.Valid()
      ensures LineRead(line, old(Pending(sd)), Pending(sd))
    {
      ghost var stream := Pending(sd);
      line := Fetch(sd);
      LineAcross(line, CStr(buffer[..]), Flatten(sd.chunks));
      var part := CutLine();
      line := line + part;
      if line != "" && line[|line| - 1] == '\r' {
        line := line[..|line| - 1];
      }
      ChompedLineRead(line, stream, Pending(sd));
    }
  }

  lemma OneMoreLine(lines: seq<string>, s: string, n: nat)
    requires n > 0
    ensures lines + Lines(s, n) == lines + [Chomp(FirstLine(s))] + Lines(Rest(s), n - 1)
    ensures RestAfter(s, n) == RestAfter(Rest(s), n - 1)
  {
    var line, rest := Chomp(FirstLine(s)), Lines(Rest(s), n - 1);
    assert lines + ([line] + rest) == lines + [line] + rest;
  }

  /** Successive calls: the lines depend on the stream alone, not on how it was cut into chunks. */
  method RecvLines(reader: Reader, sd: Socket, n: nat) returns (lines: seq<string>)
    requires reader.Valid() && sd.Valid() && Newlines(reader.Pending(sd)) >= n
    modifies sd, reader.buffer
    ensures reader.Valid() && sd.Valid()
    ensures |lines| == n && LinesRead(lines, old(reader.Pending(sd)), reader.Pending(sd))
    ensures lines == Lines(old(reader.Pending(sd)), n)
    ensures reader.Pending(sd) == RestAfter(old(reader.Pending(sd)), n)
  {
    lines := [];
    ghost var stream := reader.Pending(sd);
    LinesAreRead(stream, n);
    LinesCount(stream, n);
    var i := 0;
    while i < n
      invariant 0 <= i <= n
      invariant reader.Valid() && sd.Valid() && Newlines(reader.Pending(sd)) >= n - i
      invariant lines + Lines(reader.Pending(sd), n - i) == Lines(stream, n)
      invariant RestAfter(reader.Pending(sd), n - i) == RestAfter(stream, n)
    {
      ghost var before := reader.Pending(sd);
      NewlinesOfRest(before);
      OneMoreLine(lines, before, n - i);
      var line := reader.RecvLine(sd);
      LineReadIsFirst(line, before, reader.Pending(sd));
      lines := lines + [line];
      i := i + 1;
    }
    assert lines == Lines(stream, n) && reader.Pending(sd) == RestAfter(stream, n);
    assert LinesRead(lines, stream, reader.Pending(sd));
  }

  // ----- what a peer that writes lines gets across -----

  function Joined(lines: seq<string>, end: string): string {
    if lines == [] then "" else lines[0] + end + Joined(lines[1..], end)
  }

  predicate NewlineFree(lines: seq<string>) {
    forall i :: 0 <= i < |lines| ==> '\n' !in lines[i]
  }

  lemma JoinedFirst(lines: seq<string>, end: string, rest: string)
    requires lines != []
    ensures Joined(lines, end) + rest == lines[0] + end + (Joined(lines[1..], end) + rest)
  {
  }

  lemma LinesStep(s: string, line: string, tail: string, n: nat)
    requires n > 0 && Chomp(FirstLine(s)) == line && Rest(s) == tail
    ensures Lines(s, n) == [line] + Lines(tail, n - 1)
  {
  }

  lemma CrLfLineArrives(line: string, tail: string)
    requires '\n' !in line
    ensures var s := line + "\r\n" + tail; Chomp(FirstLine(s)) == line && Rest(s) == tail
  {
    LineOf(line + "\r", tail);
    assert line + "\r\n" + tail == line + "\r" + "\n" + tail;
    assert (line + "\r")[..|line|] == line;
  }

  /** Lines ended by CR LF all arrive as they were sent, whatever they contain otherwise. */
  lemma {:induction false} CrLfLinesArrive(lines: seq<string>, rest: string)
    requires NewlineFree(lines)
    ensures Lines(Joined(lines, "\r\n") + rest, |lines|) == lines
  {
    if lines != [] {
      var end, tail := "\r\n", Joined(lines[1..], "\r\n") + rest;
      JoinedFirst(lines, end, rest);
      CrLfLineArrives(lines[0], tail);
      CrLfLinesArrive(lines[1..], rest);
      LinesStep(lines[0] + end + tail, lines[0], tail, |lines|);
      assert lines == [lines[0]] + lines[1..];
    }
  }

  lemma {:induction false} LfLinesArriveChomped(lines: seq<string>, rest: string)
    requires NewlineFree(lines)
    ensures Lines(Joined(lines, "\n") + rest, |lines|) == Chomped(lines)
  {
    if lines != [] {
      var tail := Joined(lines[1..], "\n") + rest;
      JoinedFirst(lines, "\n", rest);
      LineOf(lines[0], tail);
      LfLinesArriveChomped(lines[1..], rest);
      LinesStep(lines[0] + "\n" + tail, Chomp(lines[0]), tail, |lines|);
      ChompedFirst(lines);
    }
  }

  function Chomped(lines: seq<string>): seq<string> {
    seq(|lines|, i requires 0 <= i < |lines| => Chomp(lines[i]))
  }

  lemma ChompedFirst(lines: seq<string>)
    requires lines != []
    ensures Chomped(lines) == [Chomp(lines[0])] + Chomped(lines[1..])
  {
  }

  /** Lines ended by LF alone arrive as sent if and only if none of them ends in a carriage return. */
  lemma LfLinesArriveIff(lines: seq<string>, rest: string)
    requires NewlineFree(lines)
    ensures Lines(Joined(lines, "\n") + rest, |lines|) == lines <==>
            forall i :: 0 <= i < |lines| ==> lines[i] == "" || lines[i][|lines[i]| - 1] != '\r'
  {
    LfLinesArriveChomped(lines, rest);
    var c := Chomped(lines);
    assert forall i :: 0 <= i < |lines| ==> c[i] == Chomp(lines[i]);
  }
}
