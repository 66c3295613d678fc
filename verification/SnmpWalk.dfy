/**
 The subtree walk of lib/snmp_utils.c: a GETNEXT (SNMPv1) or GETBULK client that keeps asking
 an agent for what follows the last OID it has seen.
 */
module SnmpWalk {
  import opened Oids

  const ERR_NOERROR := 0
  const ERR_NOSUCHNAME := 2
  const TYPE_ENDOFMIBVIEW := 0x82
  const MAX_REPETITIONS := 16

  datatype Version = V1 | V2c | V3

  datatype VarBind = VarBind(name: Oid, asnType: int, value: seq<int>)

  /** What one request brings back: nothing at all, or a PDU. */
  datatype Response = NoResponse | Pdu(errstat: int, variables: seq<VarBind>)

  /** The agent may answer the same question differently at its n-th request. */
  type Agent = (nat, Oid) -> Response

  /**
   The state of the walk. `NotIncreasing` is the exit through `critical`; the status of a
   finished walk is STAT_SUCCESS (`ok`) or STAT_ERROR.
   */
  datatype Walk =
    | Running(last: Oid, vars: seq<VarBind>)
    | Finished(ok: bool, vars: seq<VarBind>)
    | NotIncreasing(vars: seq<VarBind>)

  /** The loop over the variables of one answer. */
  function Absorb(root: Oid, last: Oid, vars: seq<VarBind>, answer: seq<VarBind>): Walk
    decreases |answer|
  {
    if answer == [] then Running(last, vars)
    else
      var v := answer[0];
      if TreeCompare(v.name, last) < 0 then NotIncreasing(vars)
      else if v.asnType == TYPE_ENDOFMIBVIEW || TreeCompare(root, v.name) != 0 then Finished(true, vars)
      else Absorb(root, v.name, vars + [v], answer[1..])
  }

  /** One round of the outer loop. */
  function Receive(version: Version, root: Oid, last: Oid, vars: seq<VarBind>, response: Response): Walk {
    match response
    case NoResponse => Finished(false, vars)
    case Pdu(errstat, variables) =>
      if errstat == ERR_NOERROR then Absorb(root, last, vars, variables)
      else if version.V1? && errstat == ERR_NOSUCHNAME then Running(last, vars)
      else Finished(false, vars)
  }

  /** The state after n requests. */
  function After(version: Version, root: Oid, agent: Agent, n: nat): Walk {
    if n == 0 then Running(root, [])
    else
      var w := After(version, root, agent, n - 1);
      if w.Running? then Receive(version, root, w.last, w.vars, agent(n - 1, w.last)) else w
  }

  // ----- how a round goes, entry by entry -----

  /** The name an entry of an answer is compared with. */
  function NameBefore(last: Oid, answer: seq<VarBind>, i: nat): Oid
    requires i < |answer|
  {
    if i == 0 then last else answer[i - 1].name
  }

  function LastOf(last: Oid, answer: seq<VarBind>): Oid {
    if answer == [] then last else answer[|answer| - 1].name
  }

  /** An entry before the one it follows: it is smaller in the first component in which they differ. */
  predicate GoesBack(last: Oid, answer: seq<VarBind>, i: nat)
    requires i < |answer|
  {
    SmallerSomewhere(answer[i].name, NameBefore(last, answer, i))
  }

  /** An entry at which the loop over the answer stops: endOfMibView, unrelated to the root, or going back. */
  predicate Stops(root: Oid, last: Oid, answer: seq<VarBind>, i: nat)
    requires i < |answer|
  {
    || answer[i].asnType == 0x82
    || !(root <= answer[i].name || answer[i].name <= root)
    || GoesBack(last, answer, i)
  }

  /** The first entry at which the loop stops. */
  predicate FirstStop(root: Oid, last: Oid, answer: seq<VarBind>, i: nat) {
    && i < |answer| && Stops(root, last, answer, i)
    && forall j :: 0 <= j < i ==> !Stops(root, last, answer, j)
  }

  /** There is no such entry. */
  predicate AllStored(root: Oid, last: Oid, answer: seq<VarBind>) {
    forall i :: 0 <= i < |answer| ==> !Stops(root, last, answer, i)
  }

  /** What a request must lead to, told by the answer alone; 2 is noSuchName. */
  ghost predicate Outcome(version: Version, root: Oid, last: Oid, vars: seq<VarBind>, response: Response, w: Walk) {
    match response
    case NoResponse => w == Finished(false, vars)
    case Pdu(errstat, answer) =>
      if errstat == 0 then
        && (AllStored(root, last, answer) ==> w == Running(LastOf(last, answer), vars + answer))
        && (forall i: nat :: FirstStop(root, last, answer, i) ==>
             w == if GoesBack(last, answer, i) then NotIncreasing(vars + answer[..i])
                  else Finished(true, vars + answer[..i]))
      else if version.V1? && errstat == 2 then w == Running(last, vars)
      else w == Finished(false, vars)
  }

  lemma StopsByComparison(root: Oid, last: Oid, answer: seq<VarBind>, i: nat)
    requires i < |answer|
    ensures GoesBack(last, answer, i) <==> TreeCompare(answer[i].name, NameBefore(last, answer, i)) < 0
    ensures Stops(root, last, answer, i) <==>
      || answer[i].asnType == TYPE_ENDOFMIBVIEW
      || TreeCompare(root, answer[i].name) != 0
      || TreeCompare(answer[i].name, NameBefore(last, answer, i)) < 0
  {
    TreeCompareNegative(answer[i].name, NameBefore(last, answer, i));
    TreeCompareZero(root, answer[i].name);
  }

  lemma StopsLater(root: Oid, last: Oid, answer: seq<VarBind>, i: nat)
    requires 0 < i < |answer|
    ensures Stops(root, last, answer, i) <==> Stops(root, answer[0].name, answer[1..], i - 1)
    ensures GoesBack(last, answer, i) <==> GoesBack(answer[0].name, answer[1..], i - 1)
  {
    assert answer[i] == answer[1..][i - 1];
    assert NameBefore(last, answer, i) == NameBefore(answer[0].name, answer[1..], i - 1);
  }

  /** Without an entry to stop at, the loop stores the whole answer and runs to its end. */
  lemma {:induction false} AbsorbRuns(root: Oid, last: Oid, vars: seq<VarBind>, answer: seq<VarBind>)
    requires AllStored(root, last, answer)
    ensures Absorb(root, last, vars, answer) == Running(LastOf(last, answer), vars + answer)
    decreases |answer|
  {
    if answer == [] {
      assert vars + answer == vars;
    } else {
      var rest := answer[1..];
      StopsByComparison(root, last, answer, 0);
      forall i | 0 <= i < |rest| ensures !Stops(root, answer[0].name, rest, i) {
        StopsLater(root, last, answer, i + 1);
      }
      AbsorbRuns(root, answer[0].name, vars + [answer[0]], rest);
      assert vars + [answer[0]] + rest == vars + answer;
    }
  }

  /** The entries before the first one to stop at are stored, and that one decides how the walk ends. */
  lemma {:induction false} AbsorbStops(root: Oid, last: Oid, vars: seq<VarBind>, answer: seq<VarBind>, i: nat)
    requires FirstStop(root, last, answer, i)
    ensures Absorb(root, last, vars, answer) ==
      if GoesBack(last, answer, i) then NotIncreasing(vars + answer[..i]) else Finished(true, vars + answer[..i])
    decreases |answer|
  {
    StopsByComparison(root, last, answer, 0);
    if i == 0 {
      assert vars + answer[..0] == vars;
    } else {
      var first, rest := answer[0], answer[1..];
      forall j | 0 < j <= i
        ensures Stops(root, last, answer, j) <==> Stops(root, first.name, rest, j - 1)
        ensures GoesBack(last, answer, j) <==> GoesBack(first.name, rest, j - 1)
      {
        StopsLater(root, last, answer, j);
      }
      forall j | 0 <= j < i - 1 ensures !Stops(root, first.name, rest, j) {
        assert !Stops(root, last, answer, j + 1);
      }
      AbsorbStops(root, first.name, vars + [first], rest, i - 1);
      assert vars + [first] + rest[..i - 1] == vars + answer[..i];
    }
  }

  lemma {:induction false} SomeFirstStop(root: Oid, last: Oid, answer: seq<VarBind>, n: nat) returns (i: nat)
    requires n < |answer| && Stops(root, last, answer, n)
    ensures FirstStop(root, last, answer, i)
  {
    if j: nat :| j < n && Stops(root, last, answer, j) {
      i := SomeFirstStop(root, last, answer, j);
    } else {
      i := n;
    }
  }

  /** A request leads to what its answer demands, and to nothing else. */
  lemma ReceiveIff(version: Version, root: Oid, last: Oid, vars: seq<VarBind>, response: Response, w: Walk)
    ensures Outcome(version, root, last, vars, response, w) <==> w == Receive(version, root, last, vars, response)
  {
    if response.Pdu? && response.errstat == ERR_NOERROR {
      var answer := response.variables;
      forall i: nat | FirstStop(root, last, answer, i)
        ensures Receive(version, root, last, vars, response) ==
          if GoesBack(last, answer, i) then NotIncreasing(vars + answer[..i]) else Finished(true, vars + answer[..i])
      {
        AbsorbStops(root, last, vars, answer, i);
      }
      if AllStored(root, last, answer) {
        AbsorbRuns(root, last, vars, answer);
      } else {
        var n: nat :| n < |answer| && Stops(root, last, answer, n);
        var i := SomeFirstStop(root, last, answer, n);
      }
    }
  }

  /** Request n was made and its answer goes back before it stops the walk otherwise. */
  ghost predicate GoesBackAt(version: Version, root: Oid, agent: Agent, n: nat) {
    var w := After(version, root, agent, n);
    && w.Running? && agent(n, w.last).Pdu? && agent(n, w.last).errstat == 0
    && exists i: nat :: FirstStop(root, w.last, agent(n, w.last).variables, i) &&
                   GoesBack(w.last, agent(n, w.last).variables, i)
  }

  /** The exit for OIDs that are not increasing is taken exactly at an answer that goes back. */
  lemma NotIncreasingStep(version: Version, root: Oid, agent: Agent, n: nat)
    requires After(version, root, agent, n).Running?
    ensures After(version, root, agent, n + 1).NotIncreasing? <==> GoesBackAt(version, root, agent, n)
  {
    var w := After(version, root, agent, n);
    var response := agent(n, w.last);
    ReceiveIff(version, root, w.last, w.vars, response, After(version, root, agent, n + 1));
    if response.Pdu? && response.errstat == ERR_NOERROR && !AllStored(root, w.last, response.variables) {
      var k: nat :| k < |response.variables| && Stops(root, w.last, response.variables, k);
      var i := SomeFirstStop(root, w.last, response.variables, k);
      assert forall j: nat :: FirstStop(root, w.last, response.variables, j) ==> j == i;
    }
  }

  /** In any run: an answer that goes back is met if and only if the run takes that exit. */
  lemma {:induction false} NotIncreasingIff(version: Version, root: Oid, agent: Agent, n: nat)
    ensures After(version, root, agent, n).NotIncreasing? <==>
      exists m: nat :: m < n && GoesBackAt(version, root, agent, m)
  {
    if n > 0 {
      NotIncreasingIff(version, root, agent, n - 1);
      if After(version, root, agent, n - 1).Running? {
        NotIncreasingStep(version, root, agent, n - 1);
      }
    }
  }

  ghost predicate Ends(version: Version, root: Oid, agent: Agent) {
    exists n :: !After(version, root, agent, n).Running?
  }

  lemma {:induction false} EndedStaysEnded(version: Version, root: Oid, agent: Agent, m: nat, n: nat)
    requires m <= n && !After(version, root, agent, m).Running?
    ensures After(version, root, agent, n) == After(version, root, agent, m)
    decreases n
  {
    if m < n {
      EndedStaysEnded(version, root, agent, m, n - 1);
    }
  }

  /**
   `mp_snmp_subtree_query`: loops until the walk leaves the running state. Request n is the last;
   its answer alone says how the walk ends and what it stores in addition.
   */
  method SubtreeQuery(version: Version, root: Oid, agent: Agent) returns (result: Walk, ghost n: nat)
    requires Ends(version, root, agent)
    ensures !result.Running?
    ensures After(version, root, agent, n).Running? && result == After(version, root, agent, n + 1)
    ensures var w := After(version, root, agent, n);
      Outcome(version, root, w.last, w.vars, agent(n, w.last), result)
    ensures result.NotIncreasing? <==> GoesBackAt(version, root, agent, n)
  {
    ghost var bound: nat :| !After(version, root, agent, bound).Running?;
    var last, vars := root, [];
    var k: nat := 0;
    n := 0;
    while true
      invariant After(version, root, agent, k) == Running(last, vars)
      decreases bound - k
    {
      if bound <= k {
        EndedStaysEnded(version, root, agent, bound, k);
      }
      n := k;
      var response := agent(k, last);
      ghost var next := After(version, root, agent, k + 1);
      assert next == Receive(version, root, last, vars, response);
      ReceiveIff(version, root, last, vars, response, next);
      NotIncreasingStep(version, root, agent, n);
      k := k + 1;
      if response.NoResponse? {
        return Finished(false, vars), n;
      } else if response.errstat == ERR_NOERROR {
        var rest := response.variables;
        while rest != []
          invariant next == Absorb(root, last, vars, rest)
          decreases |rest|
        {
          var v := rest[0];
          if TreeCompare(v.name, last) < 0 {
            return NotIncreasing(vars), n;
          }
          if v.asnType == TYPE_ENDOFMIBVIEW || TreeCompare(root, v.name) != 0 {
            return Finished(true, vars), n;
          }
          vars := vars + [v];
          last := v.name;
          rest := rest[1..];
        }
      } else if version.V1? && response.errstat == ERR_NOSUCHNAME {
        // end of the tree: the source does not leave the loop here
      } else {
        return Finished(false, vars), n;
      }
    }
  }

  // ----- agents -----

  ghost predicate ValidMib(mib: seq<VarBind>) {
    && (forall i, j :: 0 <= i < j < |mib| ==> Less(mib[i].name, mib[j].name))
    && (forall i :: 0 <= i < |mib| ==> mib[i].asnType != TYPE_ENDOFMIBVIEW)
  }

  /** The index of the first MIB entry after `o`, or the length of the MIB. */
  function Next(mib: seq<VarBind>, o: Oid): (k: nat)
    ensures k <= |mib|
    ensures k < |mib| ==> Less(o, mib[k].name)
    ensures forall i :: 0 <= i < k ==> !Less(o, mib[i].name)
  {
    if mib == [] || Less(o, mib[0].name) then 0 else 1 + Next(mib[1..], o)
  }

  /**
   An answer to a GETBULK: entries in MIB order from index k on and, if it runs past the end of
   the MIB, an endOfMibView carrying the last name. The client reads nothing after that.
   */
  predicate BulkRun(mib: seq<VarBind>, k: nat, last: Oid, answer: seq<VarBind>)
    requires k <= |mib|
    decreases |answer|
  {
    answer == [] ||
    (if k < |mib| then answer[0] == mib[k] && BulkRun(mib, k + 1, mib[k].name, answer[1..])
     else answer[0].name == last && answer[0].asnType == TYPE_ENDOFMIBVIEW)
  }

  /** What a correct agent may answer; answers can get lost and requests can fail. */
  predicate Conforms(version: Version, mib: seq<VarBind>, last: Oid, response: Response) {
    response.Pdu? ==>
      var k := Next(mib, last);
      && (response.errstat == ERR_NOERROR ==>
        if version.V1? then k < |mib| && response.variables == [mib[k]]
        else 1 <= |response.variables| <= MAX_REPETITIONS && BulkRun(mib, k, last, response.variables))
      && (version.V1? && response.errstat == ERR_NOSUCHNAME ==> k == |mib|)
  }

  ghost predicate ConformingAgent(version: Version, mib: seq<VarBind>, agent: Agent) {
    forall n, last :: Conforms(version, mib, last, agent(n, last))
  }

  /** The agent answers every request, and without an error unless it is an SNMPv1 end of the MIB. */
  ghost predicate ReliableAgent(version: Version, mib: seq<VarBind>, agent: Agent) {
    forall n, last :: var response := agent(n, last);
      && response.Pdu?
      && Conforms(version, mib, last, response)
      && (response.errstat == ERR_NOERROR || (version.V1? && response.errstat == ERR_NOSUCHNAME))
  }

  /** What the walk is for: the entries properly below the root, in MIB order. */
  function Subtree(mib: seq<VarBind>, root: Oid): seq<VarBind> {
    if mib == [] then []
    else (if root < mib[0].name then [mib[0]] else []) + Subtree(mib[1..], root)
  }

  // ----- the subtree is one run of the MIB -----

  lemma {:induction false} SubtreeConcat(a: seq<VarBind>, b: seq<VarBind>, root: Oid)
    ensures Subtree(a + b, root) == Subtree(a, root) + Subtree(b, root)
  {
    if a == [] {
      assert a + b == b;
    } else {
      assert (a + b)[1..] == a[1..] + b;
      SubtreeConcat(a[1..], b, root);
    }
  }

  lemma {:induction false} SubtreeAll(a: seq<VarBind>, root: Oid)
    requires forall i :: 0 <= i < |a| ==> root < a[i].name
    ensures Subtree(a, root) == a
  {
    if a != [] {
      SubtreeAll(a[1..], root);
    }
  }

  lemma {:induction false} SubtreeNone(a: seq<VarBind>, root: Oid)
    requires forall i :: 0 <= i < |a| ==> !(root < a[i].name)
    ensures Subtree(a, root) == []
  {
    if a != [] {
      SubtreeNone(a[1..], root);
    }
  }

  lemma RunSplit(mib: seq<VarBind>, root: Oid, k: nat, e: nat)
    requires k <= e <= |mib|
    requires forall i :: 0 <= i < k ==> !(root < mib[i].name)
    requires forall i :: k <= i < e ==> root < mib[i].name
    ensures Subtree(mib, root) == mib[k..e] + Subtree(mib[e..], root)
  {
    var a, b, c := mib[..k], mib[k..e], mib[e..];
    SubtreeNone(a, root);
    SubtreeAll(b, root);
    InThree(mib, k, e);
    SubtreeConcat(a, b + c, root);
    SubtreeConcat(b, c, root);
  }

  lemma InThree(mib: seq<VarBind>, k: nat, e: nat)
    requires k <= e <= |mib|
    ensures mib == mib[..k] + (mib[k..e] + mib[e..])
  {
  }

  lemma SubtreeSplit(mib: seq<VarBind>, root: Oid, e: nat)
    requires ValidMib(mib) && Next(mib, root) <= e <= |mib|
    requires forall i :: Next(mib, root) <= i < e ==> root < mib[i].name
    ensures Subtree(mib, root) == mib[Next(mib, root)..e] + Subtree(mib[e..], root)
  {
    var k := Next(mib, root);
    forall i | 0 <= i < k ensures !(root < mib[i].name) {
      if root < mib[i].name {
        PrefixIsLess(root, mib[i].name);
      }
    }
    RunSplit(mib, root, k, e);
  }

  lemma AfterNext(mib: seq<VarBind>, o: Oid, i: nat)
    requires ValidMib(mib) && Next(mib, o) <= i < |mib|
    ensures Less(o, mib[i].name)
  {
    var k := Next(mib, o);
    if k < i {
      LessTransitive(o, mib[k].name, mib[i].name);
    }
  }

  lemma NextOfEntry(mib: seq<VarBind>, k: nat)
    requires ValidMib(mib) && k < |mib|
    ensures Next(mib, mib[k].name) == k + 1
  {
    var o := mib[k].name;
    LessIrreflexive(o);
    forall i | 0 <= i < k + 1 ensures !Less(o, mib[i].name) {
      if Less(o, mib[i].name) && i < k {
        LessTransitive(o, mib[i].name, o);
      }
    }
    NextIs(mib, o, k + 1);
  }

  lemma NextIs(mib: seq<VarBind>, o: Oid, n: nat)
    requires n <= |mib| && forall i :: 0 <= i < n ==> !Less(o, mib[i].name)
    requires n < |mib| ==> Less(o, mib[n].name)
    ensures Next(mib, o) == n
  {
  }

  lemma SubtreeEndsAt(mib: seq<VarBind>, root: Oid, e: nat)
    requires ValidMib(mib) && Next(mib, root) <= e <= |mib|
    requires forall i :: Next(mib, root) <= i < e ==> root < mib[i].name
    requires e < |mib| ==> !(root < mib[e].name)
    ensures Subtree(mib, root) == mib[Next(mib, root)..e]
  {
    SubtreeSplit(mib, root, e);
    forall i | 0 <= i < |mib[e..]| ensures !(root < mib[e..][i].name) {
      if i > 0 {
        AfterNext(mib, root, e);
        SubtreeIsConvex(root, mib[e].name, mib[e + i].name);
      }
    }
    SubtreeNone(mib[e..], root);
  }

  // ----- every reachable state -----

  /** `vars` is the run of MIB entries from index k up to e, all below the root, `last` its last name. */
  ghost predicate Run(mib: seq<VarBind>, root: Oid, k: nat, e: nat, last: Oid, vars: seq<VarBind>) {
    && k <= e <= |mib|
    && last == (if k == e then root else mib[e - 1].name)
    && vars == mib[k..e]
    && (forall i :: k <= i < e ==> root < mib[i].name)
  }

  /** The entries stored so far are exactly the run of the MIB from the root to the last OID. */
  ghost predicate Synced(mib: seq<VarBind>, root: Oid, last: Oid, vars: seq<VarBind>) {
    Run(mib, root, Next(mib, root), Next(mib, last), last, vars)
  }

  /** What every state of a walk against a correct agent satisfies. */
  ghost predicate Sound(mib: seq<VarBind>, root: Oid, w: Walk) {
    match w
    case Running(last, vars) => Synced(mib, root, last, vars)
    case Finished(ok, vars) => if ok then vars == Subtree(mib, root) else vars <= Subtree(mib, root)
    case NotIncreasing(_) => false
  }

  lemma RunExtend(mib: seq<VarBind>, root: Oid, k: nat, e: nat, last: Oid, vars: seq<VarBind>)
    requires Run(mib, root, k, e, last, vars) && e < |mib| && root < mib[e].name
    ensures Run(mib, root, k, e + 1, mib[e].name, vars + [mib[e]])
  {
    assert mib[k..e + 1] == mib[k..e] + [mib[e]];
  }

  lemma SyncedExtend(mib: seq<VarBind>, root: Oid, last: Oid, vars: seq<VarBind>)
    requires ValidMib(mib) && Synced(mib, root, last, vars)
    requires Next(mib, last) < |mib| && root < mib[Next(mib, last)].name
    ensures var v := mib[Next(mib, last)];
      Synced(mib, root, v.name, vars + [v]) && Next(mib, v.name) == Next(mib, last) + 1
  {
    var k, e := Next(mib, root), Next(mib, last);
    NextOfEntry(mib, e);
    RunExtend(mib, root, k, e, last, vars);
    SyncedAt(mib, root, mib[e].name, vars + [mib[e]], k, e + 1);
  }

  lemma SyncedAt(mib: seq<VarBind>, root: Oid, last: Oid, vars: seq<VarBind>, k: nat, e: nat)
    requires k == Next(mib, root) && e == Next(mib, last) && Run(mib, root, k, e, last, vars)
    ensures Synced(mib, root, last, vars)
  {
  }

  /** The next MIB entry passes the check for increasing OIDs and ends the walk unless it is below the root. */
  lemma EntryAbsorbed(mib: seq<VarBind>, root: Oid, last: Oid, vars: seq<VarBind>, answer: seq<VarBind>)
    requires ValidMib(mib) && Synced(mib, root, last, vars)
    requires Next(mib, last) < |mib| && answer != [] && answer[0] == mib[Next(mib, last)]
    ensures var v := mib[Next(mib, last)];
      Absorb(root, last, vars, answer) ==
      if root < v.name then Absorb(root, v.name, vars + [v], answer[1..]) else Finished(true, vars)
  {
    var e := Next(mib, last);
    AfterNext(mib, root, e);
    TreeCompareOfLess(last, mib[e].name);
    TreeCompareAfterRoot(root, mib[e].name);
  }

  /** An answer moves the walk forward along the MIB or ends it with the whole subtree. */
  lemma {:induction false} AbsorbSound(mib: seq<VarBind>, root: Oid, last: Oid, vars: seq<VarBind>,
                                       answer: seq<VarBind>)
    requires ValidMib(mib) && Synced(mib, root, last, vars)
    requires BulkRun(mib, Next(mib, last), last, answer)
    ensures var w := Absorb(root, last, vars, answer);
      && Sound(mib, root, w)
      && (w.Running? ==> Next(mib, w.last) == Next(mib, last) + |answer|)
      && (w.Finished? ==> w.ok)
    decreases |answer|
  {
    if answer != [] {
      var e := Next(mib, last);
      if e == |mib| {
        TreeCompareZero(last, last);
        SubtreeEndsAt(mib, root, e);
      } else {
        EntryAbsorbed(mib, root, last, vars, answer);
        if root < mib[e].name {
          SyncedExtend(mib, root, last, vars);
          AbsorbSound(mib, root, mib[e].name, vars + [mib[e]], answer[1..]);
        } else {
          SubtreeEndsAt(mib, root, e);
        }
      }
    }
  }

  /** Without an error, the answer is a run of entries for both versions. */
  lemma ConformingRun(version: Version, mib: seq<VarBind>, last: Oid, response: Response)
    requires Conforms(version, mib, last, response) && response.Pdu? && response.errstat == ERR_NOERROR
    ensures response.variables != [] && BulkRun(mib, Next(mib, last), last, response.variables)
  {
    if version.V1? {
      assert response.variables[1..] == [];
    }
  }

  lemma ReceiveSound(version: Version, mib: seq<VarBind>, root: Oid, last: Oid, vars: seq<VarBind>, response: Response)
    requires ValidMib(mib) && Synced(mib, root, last, vars) && Conforms(version, mib, last, response)
    ensures var w := Receive(version, root, last, vars, response);
      && Sound(mib, root, w)
      && (w.Running? ==>
          || Next(mib, w.last) > Next(mib, last)
          || (version.V1? && Next(mib, last) == |mib| && w == Running(last, vars)))
  {
    if response.Pdu? && response.errstat == ERR_NOERROR {
      ConformingRun(version, mib, last, response);
      AbsorbSound(mib, root, last, vars, response.variables);
    } else {
      SubtreeSplit(mib, root, Next(mib, last));
    }
  }

  lemma RootSynced(mib: seq<VarBind>, root: Oid)
    ensures Synced(mib, root, root, [])
  {
  }

  /**
   Safety over whole runs: against any correct agent, however it cuts its answers and whichever
   of them get lost, the "not increasing" exit is never taken, a finished walk holds exactly the
   subtree, a failed one a prefix of it.
   */
  lemma {:induction false} WalkSound(version: Version, mib: seq<VarBind>, root: Oid, agent: Agent, n: nat)
    requires ValidMib(mib) && ConformingAgent(version, mib, agent)
    ensures Sound(mib, root, After(version, root, agent, n))
  {
    if n == 0 {
      RootSynced(mib, root);
    } else {
      WalkSound(version, mib, root, agent, n - 1);
      var w := After(version, root, agent, n - 1);
      if w.Running? {
        ReceiveSound(version, mib, root, w.last, w.vars, agent(n - 1, w.last));
      }
    }
  }

  /** Some MIB entry lies after the whole subtree. */
  ghost predicate EntryAfterSubtree(mib: seq<VarBind>, root: Oid) {
    exists i :: 0 <= i < |mib| && Less(root, mib[i].name) && !(root < mib[i].name)
  }

  /** While an entry lies after the subtree, a running walk has not reached the end of the MIB. */
  lemma RunningBeforeEnd(mib: seq<VarBind>, root: Oid, last: Oid, vars: seq<VarBind>)
    requires ValidMib(mib) && Synced(mib, root, last, vars) && EntryAfterSubtree(mib, root)
    ensures Next(mib, last) < |mib|
  {
    var i :| 0 <= i < |mib| && Less(root, mib[i].name) && !(root < mib[i].name);
    assert Next(mib, root) <= i;
  }

  /** Every request of a running walk has moved it at least one entry along the MIB. */
  lemma {:induction false} Progress(version: Version, mib: seq<VarBind>, root: Oid, agent: Agent, n: nat)
    requires ValidMib(mib) && ConformingAgent(version, mib, agent)
    requires version.V1? ==> EntryAfterSubtree(mib, root)
    ensures var w := After(version, root, agent, n);
      w.Running? ==> Synced(mib, root, w.last, w.vars) && Next(mib, w.last) >= Next(mib, root) + n
  {
    if n == 0 {
      RootSynced(mib, root);
    } else {
      Progress(version, mib, root, agent, n - 1);
      var w := After(version, root, agent, n - 1);
      if w.Running? {
        ReceiveSound(version, mib, root, w.last, w.vars, agent(n - 1, w.last));
        if version.V1? {
          RunningBeforeEnd(mib, root, w.last, w.vars);
        }
      }
    }
  }

  lemma SyncedWithinSubtree(mib: seq<VarBind>, root: Oid, last: Oid, vars: seq<VarBind>)
    requires ValidMib(mib) && Synced(mib, root, last, vars)
    ensures vars <= Subtree(mib, root)
  {
    SubtreeSplit(mib, root, Next(mib, last));
  }

  /** The walk is over after at most one request more than the subtree has entries. */
  lemma WalkEnds(version: Version, mib: seq<VarBind>, root: Oid, agent: Agent)
    requires ValidMib(mib) && ConformingAgent(version, mib, agent)
    requires version.V1? ==> EntryAfterSubtree(mib, root)
    ensures !After(version, root, agent, |Subtree(mib, root)| + 1).Running?
    ensures Ends(version, root, agent)
  {
    var n := |Subtree(mib, root)| + 1;
    var w := After(version, root, agent, n);
    Progress(version, mib, root, agent, n);
    if w.Running? {
      SyncedWithinSubtree(mib, root, w.last, w.vars);
    }
  }

  /** A reliable agent never makes the walk fail. */
  lemma {:induction false} ReliableNeverFails(version: Version, mib: seq<VarBind>, root: Oid, agent: Agent, n: nat)
    requires ValidMib(mib) && ReliableAgent(version, mib, agent)
    ensures var w := After(version, root, agent, n); w.Finished? ==> w.ok
  {
    if n > 0 {
      ReliableNeverFails(version, mib, root, agent, n - 1);
      var w := After(version, root, agent, n - 1);
      if w.Running? {
        WalkSound(version, mib, root, agent, n - 1);
        var response := agent(n - 1, w.last);
        if response.errstat == ERR_NOERROR {
          if version.V1? {
            assert response.variables[1..] == [];
            assert BulkRun(mib, Next(mib, w.last), w.last, response.variables);
          }
          AbsorbSound(mib, root, w.last, w.vars, response.variables);
        }
      }
    }
  }

  /** The walk fetches exactly the subtree: every entry, in order, none twice, nothing else. */
  lemma WalkExact(version: Version, mib: seq<VarBind>, root: Oid, agent: Agent)
    requires ValidMib(mib) && ReliableAgent(version, mib, agent)
    requires version.V1? ==> EntryAfterSubtree(mib, root)
    ensures After(version, root, agent, |Subtree(mib, root)| + 1) == Finished(true, Subtree(mib, root))
  {
    var n := |Subtree(mib, root)| + 1;
    WalkEnds(version, mib, root, agent);
    WalkSound(version, mib, root, agent, n);
    ReliableNeverFails(version, mib, root, agent, n);
  }

  // ----- where the loop does not end -----

  /** With nothing after the subtree, an SNMPv1 walk is forever told noSuchName and asks again. */
  lemma {:induction false} V1StaysRunning(mib: seq<VarBind>, root: Oid, agent: Agent, n: nat)
    requires ValidMib(mib) && ReliableAgent(V1, mib, agent)
    requires !EntryAfterSubtree(mib, root)
    ensures var w := After(V1, root, agent, n); w.Running? && Synced(mib, root, w.last, w.vars)
  {
    if n == 0 {
      RootSynced(mib, root);
    } else {
      V1StaysRunning(mib, root, agent, n - 1);
      var w := After(V1, root, agent, n - 1);
      var response := agent(n - 1, w.last);
      ReceiveSound(V1, mib, root, w.last, w.vars, response);
      var e := Next(mib, w.last);
      if response.errstat == ERR_NOERROR {
        AfterNext(mib, root, e);
        assert root < mib[e].name;
        EntryAbsorbed(mib, root, w.last, w.vars, response.variables);
        assert response.variables[1..] == [];
      }
    }
  }

  /** An SNMPv1 walk ends if and only if the MIB holds an entry after the subtree. */
  lemma V1EndsIff(mib: seq<VarBind>, root: Oid, agent: Agent)
    requires ValidMib(mib) && ReliableAgent(V1, mib, agent)
    ensures Ends(V1, root, agent) <==> EntryAfterSubtree(mib, root)
  {
    if EntryAfterSubtree(mib, root) {
      WalkEnds(V1, mib, root, agent);
    } else {
      forall n ensures After(V1, root, agent, n).Running? {
        V1StaysRunning(mib, root, agent, n);
      }
    }
  }

  // ----- what the check for increasing OIDs gives against any agent -----

  function LastName(root: Oid, vars: seq<VarBind>): Oid {
    if vars == [] then root else vars[|vars| - 1].name
  }

  /** All stored names are related to the root, and consecutive ones never compare as decreasing. */
  predicate NonDecreasing(root: Oid, vars: seq<VarBind>) {
    && (forall i :: 0 <= i < |vars| ==> TreeCompare(root, vars[i].name) == 0 && vars[i].asnType != TYPE_ENDOFMIBVIEW)
    && (forall i :: 0 < i < |vars| ==> TreeCompare(vars[i].name, vars[i - 1].name) >= 0)
  }

  lemma {:induction false} AbsorbNonDecreasing(root: Oid, last: Oid, vars: seq<VarBind>, answer: seq<VarBind>)
    requires NonDecreasing(root, vars) && last == LastName(root, vars)
    ensures var w := Absorb(root, last, vars, answer);
      vars <= w.vars && NonDecreasing(root, w.vars) && (w.Running? ==> w.last == LastName(root, w.vars))
    decreases |answer|
  {
    if answer != [] && TreeCompare(answer[0].name, last) >= 0 && answer[0].asnType != TYPE_ENDOFMIBVIEW
      && TreeCompare(root, answer[0].name) == 0 {
      AbsorbNonDecreasing(root, answer[0].name, vars + [answer[0]], answer[1..]);
    }
  }

  /** Whatever the agent sends, only names related to the root are stored, and never backwards. */
  lemma {:induction false} AnyAgentNonDecreasing(version: Version, root: Oid, agent: Agent, n: nat)
    ensures var w := After(version, root, agent, n);
      NonDecreasing(root, w.vars) && (w.Running? ==> w.last == LastName(root, w.vars))
  {
    if n > 0 {
      AnyAgentNonDecreasing(version, root, agent, n - 1);
      var w := After(version, root, agent, n - 1);
      if w.Running? {
        var response := agent(n - 1, w.last);
        if response.Pdu? && response.errstat == ERR_NOERROR {
          AbsorbNonDecreasing(root, w.last, w.vars, response.variables);
        }
      }
    }
  }

  /** An agent that gives the same answer to every request. */
  function Repeat(answer: seq<VarBind>): Agent {
    (n: nat, last: Oid) => Pdu(ERR_NOERROR, answer)
  }

  /** The first round goes as the later ones do: a name related to the root does not go back behind it. */
  lemma StartsAlike(root: Oid, last: Oid, answer: seq<VarBind>)
    requires AllStored(root, last, answer)
    ensures AllStored(root, root, answer)
  {
    forall i | 0 <= i < |answer| ensures !Stops(root, root, answer, i) {
      assert !Stops(root, last, answer, i);
      if i == 0 {
        TreeCompareZero(answer[0].name, root);
        TreeCompareNegative(answer[0].name, root);
      }
    }
  }

  lemma {:induction false} CyclicRuns(version: Version, root: Oid, answer: seq<VarBind>, n: nat)
    requires answer == [] || AllStored(root, answer[|answer| - 1].name, answer)
    ensures var w := After(version, root, Repeat(answer), n);
      w.Running? && |w.vars| == n * |answer| && w.last == if n == 0 then root else LastOf(root, answer)
  {
    if n > 0 {
      CyclicRuns(version, root, answer, n - 1);
      var w := After(version, root, Repeat(answer), n - 1);
      if answer != [] {
        StartsAlike(root, LastOf(root, answer), answer);
      }
      OneMoreRound(version, root, w.last, w.vars, answer);
      OneMoreTime(n, |answer|);
    }
  }

  lemma OneMoreRound(version: Version, root: Oid, last: Oid, vars: seq<VarBind>, answer: seq<VarBind>)
    requires AllStored(root, last, answer)
    ensures Receive(version, root, last, vars, Pdu(ERR_NOERROR, answer)) == Running(LastOf(last, answer), vars + answer)
  {
    AbsorbRuns(root, last, vars, answer);
  }

  lemma OneMoreTime(n: nat, k: nat)
    requires n > 0
    ensures n * k == (n - 1) * k + k
  {
  }

  lemma StoppedSomewhere(version: Version, root: Oid, last: Oid, vars: seq<VarBind>, answer: seq<VarBind>)
    requires !AllStored(root, last, answer)
    ensures !Receive(version, root, last, vars, Pdu(ERR_NOERROR, answer)).Running?
  {
    var n: nat :| n < |answer| && Stops(root, last, answer, n);
    var i := SomeFirstStop(root, last, answer, n);
    AbsorbStops(root, last, vars, answer, i);
  }

  /**
   What the check for increasing OIDs is worth: the walk of an agent that repeats its answer ends
   if and only if the answer is not empty and, read again after itself, is not stored whole.
   */
  lemma RepeatEndsIff(version: Version, root: Oid, answer: seq<VarBind>)
    ensures Ends(version, root, Repeat(answer)) <==>
      answer != [] && !AllStored(root, answer[|answer| - 1].name, answer)
  {
    var agent := Repeat(answer);
    if answer == [] || AllStored(root, answer[|answer| - 1].name, answer) {
      forall n ensures After(version, root, agent, n).Running? {
        CyclicRuns(version, root, answer, n);
      }
    } else {
      var one, two := After(version, root, agent, 1), After(version, root, agent, 2);
      assert After(version, root, agent, 0) == Running(root, []);
      if AllStored(root, root, answer) {
        AbsorbRuns(root, root, [], answer);
        StoppedSomewhere(version, root, one.last, one.vars, answer);
        assert !two.Running?;
      } else {
        StoppedSomewhere(version, root, root, [], answer);
      }
    }
  }

  /** The comparison is not strict, so it does not stop an agent that repeats one entry below the root. */
  lemma StuckAgentNeverEnds(version: Version, root: Oid, v: VarBind, n: nat)
    requires root < v.name && v.asnType != TYPE_ENDOFMIBVIEW
    ensures !Ends(version, root, Repeat([v]))
    ensures var w := After(version, root, Repeat([v]), n); w.Running? && |w.vars| == n
  {
    StopsByComparison(root, v.name, [v], 0);
    TreeCompareZero(root, v.name);
    TreeCompareZero(v.name, v.name);
    assert AllStored(root, v.name, [v]);
    RepeatEndsIff(version, root, [v]);
    CyclicRuns(version, root, [v], n);
  }

  /** It ignores what follows the shorter OID, so an agent may even go up and down again. */
  lemma UpAndDownNeverEnds(version: Version, a: VarBind, b: VarBind, c: VarBind)
    requires a.name == [1, 2] && b.name == [1] && c.name == [1, 1]
    requires a.asnType != TYPE_ENDOFMIBVIEW && b.asnType != TYPE_ENDOFMIBVIEW && c.asnType != TYPE_ENDOFMIBVIEW
    ensures !Ends(version, [1], Repeat([a, b, c]))
  {
    var answer := [a, b, c];
    assert !SmallerSomewhere(a.name, c.name) && !SmallerSomewhere(b.name, a.name) && !SmallerSomewhere(c.name, b.name);
    assert [1] <= a.name && [1] <= b.name && [1] <= c.name;
    assert AllStored([1], c.name, answer);
    RepeatEndsIff(version, [1], answer);
  }

  // ----- agents that meet the assumptions -----

  /** The agent that answers with the next entry alone and says properly where the MIB ends. */
  function OneByOne(version: Version, mib: seq<VarBind>): Agent {
    (n: nat, last: Oid) =>
      var k := Next(mib, last);
      if k < |mib| then Pdu(ERR_NOERROR, [mib[k]])
      else if version.V1? then Pdu(ERR_NOSUCHNAME, [])
      else Pdu(ERR_NOERROR, [VarBind(last, TYPE_ENDOFMIBVIEW, [])])
  }

  /** Every MIB has an agent for which the theorems speak. */
  lemma OneByOneIsReliable(version: Version, mib: seq<VarBind>)
    ensures ReliableAgent(version, mib, OneByOne(version, mib))
    ensures ConformingAgent(version, mib, OneByOne(version, mib))
  {
    var agent := OneByOne(version, mib);
    forall n: nat, last: Oid
      ensures Conforms(version, mib, last, agent(n, last))
    {
      var k := Next(mib, last);
      if k < |mib| {
        assert [mib[k]][1..] == [];
      }
    }
  }
}
