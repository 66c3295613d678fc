/** The access string of check_file (`check_access` in base/check_file.c). */
module Access {

  /** A mode or mask: the set of the bit numbers that are set, so `&` and `|` are `*` and `+`. */
  type Mode = set<nat>

  // ----- what an access string says -----

  /** One clause as written: subjects of "ugo", one of "+-=", permissions of "rwx". */
  datatype Clause = Clause(subjects: string, op: char, perms: string)

  predicate IsSubject(c: char) { c == 'u' || c == 'g' || c == 'o' }

  predicate IsOp(c: char) { c == '+' || c == '-' || c == '=' }

  predicate IsPerm(c: char) { c == 'r' || c == 'w' || c == 'x' }

  /** The permission bit of a subject. */
  function Bit(subject: char, perm: char): nat
    requires IsSubject(subject) && IsPerm(perm)
  {
    (if subject == 'u' then 6 else if subject == 'g' then 3 else 0)
    + (if perm == 'r' then 2 else if perm == 'w' then 1 else 0)
  }

  predicate Has(mode: Mode, subject: char, perm: char)
    requires IsSubject(subject) && IsPerm(perm)
  {
    Bit(subject, perm) in mode
  }

  /** `+` asks for a listed permission, `-` for its absence, `=` for exactly the listed ones. */
  predicate Agrees(mode: Mode, subject: char, perm: char, c: Clause)
    requires IsSubject(subject) && IsPerm(perm)
  {
    if c.op == '+' then perm in c.perms ==> Has(mode, subject, perm)
    else if c.op == '-' then perm in c.perms ==> !Has(mode, subject, perm)
    else Has(mode, subject, perm) <==> perm in c.perms
  }

  predicate HoldsFor(mode: Mode, subject: char, c: Clause)
    requires IsSubject(subject)
  {
    Agrees(mode, subject, 'r', c) && Agrees(mode, subject, 'w', c) && Agrees(mode, subject, 'x', c)
  }

  /** The clause holds for each of its subjects. */
  predicate Holds(mode: Mode, c: Clause) {
    && ('u' in c.subjects ==> HoldsFor(mode, 'u', c))
    && ('g' in c.subjects ==> HoldsFor(mode, 'g', c))
    && ('o' in c.subjects ==> HoldsFor(mode, 'o', c))
  }

  /** A string cut up: complete clauses, subjects without an operator, and an illegal remainder. */
  datatype Parsed = Parsed(clauses: seq<Clause>, trail: string, illegal: string)

  function LeadingSubjects(s: string): string {
    if s == "" || !IsSubject(s[0]) then "" else [s[0]] + LeadingSubjects(s[1..])
  }

  function LeadingPerms(s: string): string {
    if s == "" || !IsPerm(s[0]) then "" else [s[0]] + LeadingPerms(s[1..])
  }

  lemma {:induction false} LeadingSubjectsAre(subjects: string, rest: string)
    requires forall i :: 0 <= i < |subjects| ==> IsSubject(subjects[i])
    requires rest == "" || !IsSubject(rest[0])
    ensures LeadingSubjects(subjects + rest) == subjects
  {
    if subjects == "" {
      assert subjects + rest == rest;
    } else {
      assert (subjects + rest)[1..] == subjects[1..] + rest;
      LeadingSubjectsAre(subjects[1..], rest);
    }
  }

  lemma {:induction false} LeadingPermsAre(perms: string, rest: string)
    requires forall i :: 0 <= i < |perms| ==> IsPerm(perms[i])
    requires rest == "" || !IsPerm(rest[0])
    ensures LeadingPerms(perms + rest) == perms
  {
    if perms == "" {
      assert perms + rest == rest;
    } else {
      assert (perms + rest)[1..] == perms[1..] + rest;
      LeadingPermsAre(perms[1..], rest);
    }
  }

  lemma {:induction false} SubjectsPrefix(s: string)
    ensures var p := LeadingSubjects(s);
      && p <= s && (forall i :: 0 <= i < |p| ==> IsSubject(p[i]))
      && (|p| < |s| ==> !IsSubject(s[|p|]))
  {
    if s != "" && IsSubject(s[0]) {
      SubjectsPrefix(s[1..]);
    }
  }

  lemma {:induction false} PermsPrefix(s: string)
    ensures var p := LeadingPerms(s);
      && p <= s && (forall i :: 0 <= i < |p| ==> IsPerm(p[i]))
      && (|p| < |s| ==> !IsPerm(s[|p|]))
  {
    if s != "" && IsPerm(s[0]) {
      PermsPrefix(s[1..]);
    }
  }

  function Parse(s: string): Parsed
    decreases |s|
  {
    var subjects := LeadingSubjects(s);
    SubjectsPrefix(s);
    var rest := s[|subjects|..];
    if rest == "" || !IsOp(rest[0]) then Parsed([], subjects, rest)
    else
      var perms := LeadingPerms(rest[1..]);
      PermsPrefix(rest[1..]);
      var p := Parse(rest[1 + |perms|..]);
      p.(clauses := [Clause(subjects, rest[0], perms)] + p.clauses)
  }

  function RenderClauses(clauses: seq<Clause>): string {
    if clauses == [] then ""
    else clauses[0].subjects + [clauses[0].op] + clauses[0].perms + RenderClauses(clauses[1..])
  }

  function Render(p: Parsed): string {
    RenderClauses(p.clauses) + p.trail + p.illegal
  }

  predicate ValidClause(c: Clause) {
    && (forall i :: 0 <= i < |c.subjects| ==> IsSubject(c.subjects[i]))
    && IsOp(c.op)
    && (forall i :: 0 <= i < |c.perms| ==> IsPerm(c.perms[i]))
  }

  /** The shapes a string can be cut into; a remainder starts with a character no clause can go on with. */
  predicate ValidParsed(p: Parsed) {
    && (forall i :: 0 <= i < |p.clauses| ==> ValidClause(p.clauses[i]))
    && (forall i :: 0 <= i < |p.trail| ==> IsSubject(p.trail[i]))
    && (p.illegal != "" ==> !IsSubject(p.illegal[0]) && !IsOp(p.illegal[0]))
    && (p.illegal != "" && p.trail == "" && p.clauses != [] ==> !IsPerm(p.illegal[0]))
  }

  lemma Recut(s: string, k: nat, n: nat)
    requires k < |s| && k + 1 + n <= |s|
    ensures s == s[..k] + [s[k..][0]] + s[k..][1..][..n] + s[k..][1 + n..]
  {
  }

  /** A string whose leading subjects are followed by an operator is a clause and a rest. */
  lemma FirstClause(s: string) returns (c: Clause, tail: string)
    requires |LeadingSubjects(s)| < |s| && IsOp(s[|LeadingSubjects(s)|])
    ensures ValidClause(c) && (tail == "" || !IsPerm(tail[0])) && |tail| < |s|
    ensures s == c.subjects + [c.op] + c.perms + tail
  {
    SubjectsPrefix(s);
    var k := |LeadingSubjects(s)|;
    var rest := s[k..];
    PermsPrefix(rest[1..]);
    var n := |LeadingPerms(rest[1..])|;
    c, tail := Clause(s[..k], rest[0], rest[1..][..n]), rest[1 + n..];
    Recut(s, k, n);
    assert tail != "" ==> tail[0] == rest[1..][n];
  }

  /** Every string is what it was cut into ... */
  lemma {:induction false} RenderOfParse(s: string)
    ensures Render(Parse(s)) == s && ValidParsed(Parse(s))
    decreases |s|
  {
    SubjectsPrefix(s);
    var k := |LeadingSubjects(s)|;
    if k == |s| || !IsOp(s[k]) {
      assert RenderClauses([]) + s[..k] + s[k..] == s;
    } else {
      var c, tail := FirstClause(s);
      RenderOfParse(tail);
      ParseClause(c, tail);
      ClauseThenRest(c, Parse(tail));
      StillValid(c, Parse(tail));
    }
  }

  lemma StillValid(c: Clause, p: Parsed)
    requires ValidClause(c) && ValidParsed(p) && (Render(p) == "" || !IsPerm(Render(p)[0]))
    ensures ValidParsed(p.(clauses := [c] + p.clauses))
  {
    FirstOfRender(p);
  }

  lemma ClauseThenRest(c: Clause, p: Parsed)
    ensures Render(p.(clauses := [c] + p.clauses)) == c.subjects + [c.op] + c.perms + Render(p)
  {
    assert ([c] + p.clauses)[1..] == p.clauses;
  }

  /** The part after a clause never starts with a permission. */
  lemma FirstOfRender(p: Parsed)
    requires ValidParsed(p)
    ensures p.illegal == "" || !IsPerm(p.illegal[0]) || p.trail != "" || p.clauses != [] ==>
            Render(p) == "" || !IsPerm(Render(p)[0])
    ensures Render(p) == "" || !IsPerm(Render(p)[0]) || (p.clauses == [] && p.trail == "")
    ensures p.clauses == [] && p.trail == "" ==> Render(p) == p.illegal
  {
    if p.clauses != [] {
      var c := p.clauses[0];
      assert Render(p)[0] == if c.subjects != "" then c.subjects[0] else c.op;
    }
  }

  /** ... and what it is cut into is the only way to cut it. */
  lemma {:induction false} ParseOfRender(p: Parsed)
    requires ValidParsed(p)
    ensures Parse(Render(p)) == p
    decreases |p.clauses|
  {
    if p.clauses == [] {
      LeadingSubjectsAre(p.trail, p.illegal);
      assert Render(p) == p.trail + p.illegal;
      assert Render(p)[|p.trail|..] == p.illegal;
    } else {
      var c, q := p.clauses[0], p.(clauses := p.clauses[1..]);
      assert p.clauses == [c] + q.clauses;
      ParseOfRender(q);
      FirstOfRender(q);
      ParseClause(c, Render(q));
      ClauseThenRest(c, q);
    }
  }

  lemma ClauseCut(subjects: string, op: char, perms: string, rest: string)
    ensures var s, after := subjects + [op] + perms + rest, [op] + perms + rest;
      && s == subjects + after && s[|subjects|..] == after
      && after[0] == op && after[1..] == perms + rest && after[1 + |perms|..] == rest
  {
  }

  lemma ParseClause(c: Clause, rest: string)
    requires ValidClause(c) && (rest == "" || !IsPerm(rest[0]))
    ensures Parse(c.subjects + [c.op] + c.perms + rest) ==
            Parse(rest).(clauses := [c] + Parse(rest).clauses)
  {
    ClauseCut(c.subjects, c.op, c.perms, rest);
    LeadingSubjectsAre(c.subjects, [c.op] + c.perms + rest);
    LeadingPermsAre(c.perms, rest);
  }

  // ----- the verdict -----

  /** Return value 0, return value -1, or the exit through `unknown`. */
  datatype Verdict = Satisfied | Violated | Illegal

  /**
   Clauses are judged in order and the first that does not hold decides; then an illegal
   remainder; subjects without an operator are judged as if followed by "=".
   */
  function Judge(mode: Mode, p: Parsed): Verdict
    decreases |p.clauses|
  {
    if p.clauses != [] then
      if Holds(mode, p.clauses[0]) then Judge(mode, p.(clauses := p.clauses[1..])) else Violated
    else if p.illegal != "" then Illegal
    else if Holds(mode, Clause(p.trail, '=', "")) then Satisfied
    else Violated
  }

  // ----- masks -----

  /** S_IRWXU, S_IRWXG, S_IRWXO. */
  function SubjectBits(c: char): Mode {
    if c == 'u' then {8, 7, 6} else if c == 'g' then {5, 4, 3} else {2, 1, 0}
  }

  /** The bit of one permission for the owner, the group and the others. */
  function PermBits(c: char): Mode {
    if c == 'r' then {8, 5, 2} else if c == 'w' then {7, 4, 1} else {6, 3, 0}
  }

  /** The masks as they are accumulated character by character. */
  function SubjectMask(s: string): Mode {
    if s == "" then {} else SubjectMask(s[..|s| - 1]) + SubjectBits(s[|s| - 1])
  }

  function AccessMask(s: string): Mode {
    if s == "" then {} else AccessMask(s[..|s| - 1]) + PermBits(s[|s| - 1])
  }

  lemma {:induction false} InSubjectMask(s: string, subject: char, perm: char)
    requires forall i :: 0 <= i < |s| ==> IsSubject(s[i])
    requires IsSubject(subject) && IsPerm(perm)
    ensures Bit(subject, perm) in SubjectMask(s) <==> subject in s
  {
    if s != "" {
      var t := s[..|s| - 1];
      InSubjectMask(t, subject, perm);
      assert s == t + [s[|s| - 1]];
    }
  }

  lemma {:induction false} InAccessMask(s: string, subject: char, perm: char)
    requires forall i :: 0 <= i < |s| ==> IsPerm(s[i])
    requires IsSubject(subject) && IsPerm(perm)
    ensures Bit(subject, perm) in AccessMask(s) <==> perm in s
  {
    if s != "" {
      var t := s[..|s| - 1];
      InAccessMask(t, subject, perm);
      assert s == t + [s[|s| - 1]];
    }
  }

  lemma {:induction false} MaskIsBits(s: string)
    ensures forall b :: b in SubjectMask(s) ==> b < 9
  {
    if s != "" {
      MaskIsBits(s[..|s| - 1]);
    }
  }

  /** The comparison the source makes for a clause. */
  function Passes(mode: Mode, subjectMask: Mode, maskFunction: int, accessMask: Mode): bool {
    if maskFunction == -1 then mode * (accessMask * subjectMask) == {}
    else if maskFunction == 0 then mode * subjectMask == accessMask * subjectMask
    else if maskFunction == 1 then mode * (accessMask * subjectMask) == accessMask * subjectMask
    else true
  }

  function FunctionOf(op: char): int {
    if op == '-' then -1 else if op == '+' then 1 else 0
  }

  /** The comparison looks at each bit of the subject mask by itself. */
  predicate BitPasses(mode: Mode, subjectMask: Mode, maskFunction: int, accessMask: Mode, b: nat) {
    b in subjectMask ==>
      if maskFunction == -1 then b in accessMask ==> b !in mode
      else if maskFunction == 0 then b in mode <==> b in accessMask
      else b in accessMask ==> b in mode
  }

  lemma PassesBitwise(mode: Mode, sm: Mode, f: int, am: Mode)
    requires f == -1 || f == 0 || f == 1
    ensures Passes(mode, sm, f, am) <==> forall b :: BitPasses(mode, sm, f, am, b)
  {
    if Passes(mode, sm, f, am) {
      forall b ensures BitPasses(mode, sm, f, am, b) {
        assert b in mode * sm <==> b in mode && b in sm;
        assert b in am * sm <==> b in am && b in sm;
        assert b in mode * (am * sm) <==> b in mode && b in am && b in sm;
      }
    }
    if forall b :: BitPasses(mode, sm, f, am, b) {
      forall b
        ensures f == -1 ==> b !in mode * (am * sm)
        ensures f == 0 ==> (b in mode * sm <==> b in am * sm)
        ensures f == 1 ==> (b in mode * (am * sm) <==> b in am * sm)
      {
        assert BitPasses(mode, sm, f, am, b);
      }
    }
  }

  lemma BitAgrees(mode: Mode, c: Clause, subject: char, perm: char)
    requires ValidClause(c) && IsSubject(subject) && IsPerm(perm)
    ensures BitPasses(mode, SubjectMask(c.subjects), FunctionOf(c.op), AccessMask(c.perms), Bit(subject, perm)) <==>
            (subject in c.subjects ==> Agrees(mode, subject, perm, c))
  {
    InSubjectMask(c.subjects, subject, perm);
    InAccessMask(c.perms, subject, perm);
  }

  /** The mask comparison decides exactly whether the clause holds. */
  lemma PassesIffHolds(mode: Mode, c: Clause)
    requires ValidClause(c)
    ensures Passes(mode, SubjectMask(c.subjects), FunctionOf(c.op), AccessMask(c.perms)) <==> Holds(mode, c)
  {
    var sm, f, am := SubjectMask(c.subjects), FunctionOf(c.op), AccessMask(c.perms);
    PassesBitwise(mode, sm, f, am);
    MaskIsBits(c.subjects);
    BitAgrees(mode, c, 'u', 'r'); BitAgrees(mode, c, 'u', 'w'); BitAgrees(mode, c, 'u', 'x');
    BitAgrees(mode, c, 'g', 'r'); BitAgrees(mode, c, 'g', 'w'); BitAgrees(mode, c, 'g', 'x');
    BitAgrees(mode, c, 'o', 'r'); BitAgrees(mode, c, 'o', 'w'); BitAgrees(mode, c, 'o', 'x');
    NineBits(mode, sm, f, am);
  }

  lemma NineBits(mode: Mode, sm: Mode, f: int, am: Mode)
    requires forall b :: b in sm ==> b < 9
    ensures (forall b :: BitPasses(mode, sm, f, am, b)) <==>
      && BitPasses(mode, sm, f, am, 0) && BitPasses(mode, sm, f, am, 1) && BitPasses(mode, sm, f, am, 2)
      && BitPasses(mode, sm, f, am, 3) && BitPasses(mode, sm, f, am, 4) && BitPasses(mode, sm, f, am, 5)
      && BitPasses(mode, sm, f, am, 6) && BitPasses(mode, sm, f, am, 7) && BitPasses(mode, sm, f, am, 8)
  {
  }

  // ----- the source's loop -----

  /** The variables of the loop. */
  datatype Scan = Scan(state: int, subjectMask: Mode, maskFunction: int, accessMask: Mode)

  const START := Scan(0, {}, 0, {})

  /** The clause of which nothing has been read. */
  const NOTHING := Clause("", '=', "")

  /** The second half of the loop body: the character extends the clause, or is illegal. */
  method Extend(mode: Mode, s: string, i: nat, scan: Scan, ghost want: Verdict, ghost open: Clause)
    returns (legal: bool, next: Scan, ghost open': Clause)
    requires i < |s| && Reading(mode, s[i..], want, scan, open) && (scan.state == 1 ==> IsPerm(s[i]))
    ensures if legal then Reading(mode, s[i + 1..], want, next, open') else want == Illegal
  {
    var c := s[i];
    legal, next, open' := true, scan, open;
    if scan.state == 1 {
      TakePerm(mode, s, i, want, scan, open);
      next := scan.(accessMask := scan.accessMask + PermBits(c));
      open' := open.(perms := open.perms + [c]);
    } else if IsSubject(c) {
      TakeSubject(mode, s, i, want, scan, open);
      next := scan.(subjectMask := scan.subjectMask + SubjectBits(c));
      open' := open.(subjects := open.subjects + [c]);
    } else if IsOp(c) {
      TakeOp(mode, s, i, want, scan, open);
      next := scan.(maskFunction := FunctionOf(c), state := 1);
      open' := open.(op := c);
    } else {
      IllegalHere(mode, open.subjects, s[i..]);
      legal := false;
    }
  }

  /** `check_access`: one pass, the last clause flushed after the loop. */
  method CheckAccess(mode: Mode, s: string) returns (r: Verdict)
    ensures r == Judge(mode, Parse(s))
  {
    var scan := START;
    ghost var open := NOTHING;
    ghost var want := Judge(mode, Parse(s));
    var i := 0;
    AtStart(mode, s);
    while i < |s|
      invariant 0 <= i <= |s|
      invariant Reading(mode, s[i..], want, scan, open)
    {
      if scan.state == 1 && !IsPerm(s[i]) {
        Flush(mode, s, i, want, scan, open);
        if !Passes(mode, scan.subjectMask, scan.maskFunction, scan.accessMask) {
          return Violated;
        }
        scan, open := START, NOTHING;
      }
      var legal;
      legal, scan, open := Extend(mode, s, i, scan, want, open);
      if !legal {
        return Illegal;
      }
      i := i + 1;
    }
    Finish(mode, s[i..], want, scan, open);
    return if Passes(mode, scan.subjectMask, scan.maskFunction, scan.accessMask) then Satisfied else Violated;
  }

  /** The text of the clause being read. */
  ghost function Open(state: int, c: Clause): string {
    if state == 0 then c.subjects else c.subjects + [c.op] + c.perms
  }

  /**
   The masks agree with the clause being read, and the verdict on it and the rest of the string
   is the one looked for.
   */
  ghost predicate Reading(mode: Mode, rest: string, want: Verdict, scan: Scan, c: Clause) {
    && ValidClause(c) && Masks(scan, c)
    && Judge(mode, Parse(Open(scan.state, c) + rest)) == want
  }

  ghost predicate Masks(scan: Scan, c: Clause) {
    && (scan.state == 0 || scan.state == 1)
    && scan.subjectMask == SubjectMask(c.subjects)
    && scan.maskFunction == FunctionOf(c.op)
    && scan.accessMask == AccessMask(c.perms)
    && (scan.state == 0 ==> c.op == '=' && c.perms == "")
  }

  lemma OneOn(text: string, s: string, i: nat)
    requires i < |s|
    ensures text + s[i..] == text + [s[i]] + s[i + 1..]
  {
  }

  lemma TakeSubject(mode: Mode, s: string, i: nat, want: Verdict, scan: Scan, open: Clause)
    requires i < |s| && IsSubject(s[i]) && scan.state == 0 && Reading(mode, s[i..], want, scan, open)
    ensures Reading(mode, s[i + 1..], want, scan.(subjectMask := scan.subjectMask + SubjectBits(s[i])),
                    open.(subjects := open.subjects + [s[i]]))
  {
    OneOn(open.subjects, s, i);
    assert (open.subjects + [s[i]])[..|open.subjects|] == open.subjects;
  }

  lemma TakeOp(mode: Mode, s: string, i: nat, want: Verdict, scan: Scan, open: Clause)
    requires i < |s| && IsOp(s[i]) && scan.state == 0 && Reading(mode, s[i..], want, scan, open)
    ensures Reading(mode, s[i + 1..], want, scan.(maskFunction := FunctionOf(s[i]), state := 1), open.(op := s[i]))
  {
    OneOn(open.subjects, s, i);
    assert open.subjects + [s[i]] + "" == open.subjects + [s[i]];
  }

  lemma TakePerm(mode: Mode, s: string, i: nat, want: Verdict, scan: Scan, open: Clause)
    requires i < |s| && IsPerm(s[i]) && scan.state == 1 && Reading(mode, s[i..], want, scan, open)
    ensures Reading(mode, s[i + 1..], want, scan.(accessMask := scan.accessMask + PermBits(s[i])),
                    open.(perms := open.perms + [s[i]]))
  {
    var p, c := open.perms, s[i];
    OneOn(Open(1, open), s, i);
    assert (p + [c])[..|p|] == p;
    assert open.subjects + [open.op] + (p + [c]) == open.subjects + [open.op] + p + [c];
  }

  /** Between clauses the comparison decides: the verdict is reached, or it is that on the rest. */
  lemma Flush(mode: Mode, s: string, i: nat, want: Verdict, scan: Scan, c: Clause)
    requires i < |s| && !IsPerm(s[i]) && scan.state == 1 && Reading(mode, s[i..], want, scan, c)
    ensures if Passes(mode, scan.subjectMask, scan.maskFunction, scan.accessMask)
      then Reading(mode, s[i..], want, START, NOTHING) else want == Violated
  {
    var rest := s[i..];
    JudgeClause(mode, c, rest);
    NothingRead(mode, rest);
    PassesIffHolds(mode, c);
  }

  lemma JudgeClause(mode: Mode, c: Clause, rest: string)
    requires ValidClause(c) && (rest == "" || !IsPerm(rest[0]))
    ensures Judge(mode, Parse(Open(1, c) + rest)) == if Holds(mode, c) then Judge(mode, Parse(rest)) else Violated
  {
    ParseClause(c, rest);
    JudgeFirst(mode, c, Parse(rest));
  }

  lemma NothingRead(mode: Mode, rest: string)
    ensures Reading(mode, rest, Judge(mode, Parse(rest)), START, NOTHING)
  {
    assert Open(0, NOTHING) + rest == rest;
  }

  lemma AtStart(mode: Mode, s: string)
    ensures Reading(mode, s[0..], Judge(mode, Parse(s)), START, NOTHING)
  {
    assert s[0..] == s;
    NothingRead(mode, s);
  }

  lemma IllegalHere(mode: Mode, subjects: string, rest: string)
    requires forall i :: 0 <= i < |subjects| ==> IsSubject(subjects[i])
    requires rest != "" && !IsSubject(rest[0]) && !IsOp(rest[0])
    ensures Judge(mode, Parse(subjects + rest)) == Illegal
  {
    LeadingSubjectsAre(subjects, rest);
    assert (subjects + rest)[|subjects|..] == rest;
  }

  lemma Finish(mode: Mode, rest: string, want: Verdict, scan: Scan, c: Clause)
    requires rest == "" && Reading(mode, rest, want, scan, c)
    ensures want == if Passes(mode, scan.subjectMask, scan.maskFunction, scan.accessMask) then Satisfied else Violated
  {
    if scan.state == 0 {
      JudgeTrail(mode, c.subjects, rest);
    } else {
      JudgeClause(mode, c, rest);
      JudgeTrail(mode, rest, rest);
      assert rest + rest == rest;
    }
    assert want == if Holds(mode, c) then Satisfied else Violated;
    PassesIffHolds(mode, c);
  }

  lemma JudgeTrail(mode: Mode, subjects: string, rest: string)
    requires rest == "" && forall i :: 0 <= i < |subjects| ==> IsSubject(subjects[i])
    ensures Judge(mode, Parse(subjects + rest)) ==
            if Holds(mode, Clause(subjects, '=', rest)) then Satisfied else Violated
  {
    LeadingSubjectsAre(subjects, rest);
    assert (subjects + rest)[|subjects|..] == rest;
  }

  lemma JudgeFirst(mode: Mode, c: Clause, p: Parsed)
    ensures Judge(mode, p.(clauses := [c] + p.clauses)) == if Holds(mode, c) then Judge(mode, p) else Violated
  {
    assert ([c] + p.clauses)[1..] == p.clauses;
  }

  /**
   Main theorem: for any concatenation of clauses the check succeeds exactly when the mode
   satisfies every clause, the last one included.
   */
  lemma {:induction false} AllClausesDecide(mode: Mode, clauses: seq<Clause>)
    requires forall i :: 0 <= i < |clauses| ==> ValidClause(clauses[i])
    ensures var verdict := Judge(mode, Parse(RenderClauses(clauses)));
      && verdict != Illegal
      && (verdict == Satisfied <==> forall i :: 0 <= i < |clauses| ==> Holds(mode, clauses[i]))
  {
    var p := Parsed(clauses, "", "");
    ParseOfRender(p);
    assert Render(p) == RenderClauses(clauses);
    SatisfiedIff(mode, p);
    IllegalIff(mode, p);
  }

  // ----- what single clauses ask for -----

  /** The verdict on one clause. */
  predicate Asks(mode: Mode, subject: char, op: char, perms: string) {
    Judge(mode, Parse([subject] + [op] + perms)) == Satisfied
  }

  lemma AsksIff(mode: Mode, subject: char, op: char, perms: string)
    requires ValidClause(Clause([subject], op, perms))
    ensures Asks(mode, subject, op, perms) <==> Holds(mode, Clause([subject], op, perms))
  {
    var c := Clause([subject], op, perms);
    AllClausesDecide(mode, [c]);
    RenderOne(c);
  }

  lemma RenderOne(c: Clause)
    ensures RenderClauses([c]) == c.subjects + [c.op] + c.perms
  {
    assert [c][1..] == [] && RenderClauses([]) == "";
    assert c.subjects + [c.op] + c.perms + "" == c.subjects + [c.op] + c.perms;
  }

  lemma HoldsForOne(mode: Mode, subject: char, op: char, perms: string)
    requires IsSubject(subject)
    ensures Holds(mode, Clause([subject], op, perms)) <==> HoldsFor(mode, subject, Clause([subject], op, perms))
  {
  }

  lemma HoldsPlus(mode: Mode, subject: char, perm: char)
    requires IsSubject(subject) && IsPerm(perm)
    ensures Holds(mode, Clause([subject], '+', [perm])) <==> Has(mode, subject, perm)
  {
    HoldsForOne(mode, subject, '+', [perm]);
  }

  /** The nine permissions by the bits of S_IRUSR (0400) to S_IXOTH (0001). */
  lemma PlusAsks(mode: Mode, subject: char, perm: char)
    requires IsSubject(subject) && IsPerm(perm)
    ensures Asks(mode, subject, '+', [perm]) <==>
      match subject
      case 'u' => (if perm == 'r' then 8 else if perm == 'w' then 7 else 6) in mode
      case 'g' => (if perm == 'r' then 5 else if perm == 'w' then 4 else 3) in mode
      case _ => (if perm == 'r' then 2 else if perm == 'w' then 1 else 0) in mode
  {
    AsksIff(mode, subject, '+', [perm]);
    HoldsPlus(mode, subject, perm);
  }

  lemma MinusAsks(mode: Mode, subject: char, perm: char)
    requires IsSubject(subject) && IsPerm(perm)
    ensures Asks(mode, subject, '-', [perm]) <==> !Has(mode, subject, perm)
  {
    AsksIff(mode, subject, '-', [perm]);
    HoldsForOne(mode, subject, '-', [perm]);
  }

  /** With "=" the subject has the permissions listed and no other. */
  lemma EqualsAsks(mode: Mode, subject: char, perms: string)
    requires IsSubject(subject) && forall i :: 0 <= i < |perms| ==> IsPerm(perms[i])
    ensures Asks(mode, subject, '=', perms) <==>
      && (Has(mode, subject, 'r') <==> 'r' in perms)
      && (Has(mode, subject, 'w') <==> 'w' in perms)
      && (Has(mode, subject, 'x') <==> 'x' in perms)
  {
    AsksIff(mode, subject, '=', perms);
    HoldsForOne(mode, subject, '=', perms);
  }

  /**
   For any string: success means that nothing illegal remains, that the mode satisfies every clause,
   and that left-over subjects have no permission at all.
   */
  lemma {:induction false} SatisfiedIff(mode: Mode, p: Parsed)
    ensures Judge(mode, p) == Satisfied <==>
      && p.illegal == ""
      && (forall i :: 0 <= i < |p.clauses| ==> Holds(mode, p.clauses[i]))
      && Holds(mode, Clause(p.trail, '=', ""))
    decreases |p.clauses|
  {
    if p.clauses != [] {
      var q := p.(clauses := p.clauses[1..]);
      SatisfiedIff(mode, q);
      AllHoldStep(mode, p.clauses);
    }
  }

  lemma AllHoldStep(mode: Mode, clauses: seq<Clause>)
    requires clauses != []
    ensures (forall i :: 0 <= i < |clauses| ==> Holds(mode, clauses[i])) <==>
      Holds(mode, clauses[0]) && forall i :: 0 <= i < |clauses[1..]| ==> Holds(mode, clauses[1..][i])
  {
    assert forall i :: 0 < i < |clauses| ==> clauses[i] == clauses[1..][i - 1];
  }

  /** The string is called illegal exactly if all its clauses hold and something illegal remains. */
  lemma {:induction false} IllegalIff(mode: Mode, p: Parsed)
    ensures Judge(mode, p) == Illegal <==>
      p.illegal != "" && forall i :: 0 <= i < |p.clauses| ==> Holds(mode, p.clauses[i])
    decreases |p.clauses|
  {
    if p.clauses != [] {
      IllegalIff(mode, p.(clauses := p.clauses[1..]));
      AllHoldStep(mode, p.clauses);
    }
  }
}
