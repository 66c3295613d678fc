/**
 Reading a fetched subtree as a table (lib/snmp_utils.c): a plugin takes the idx-th match of each
 column OID and treats the values it gets as one row.
 */
module SnmpTable {
  import opened Oids
  import opened SnmpWalk

  const ASN_INTEGER := 0x02
  const ASN_OCTET_STR := 0x04
  const ASN_COUNTER := 0x41
  const ASN_GAUGE := 0x42
  const ASN_TIMETICKS := 0x43

  /** The bytes written to the caller's target, or nothing (return value 0). */
  datatype Copied = Rejected | Copied(bytes: seq<int>)

  /** `copy_value`: the type must match and the value fit; strings get a terminator. */
  function CopyValue(v: VarBind, asnType: int, targetLen: nat): Copied {
    if v.asnType != asnType then Rejected
    else if asnType in {ASN_INTEGER, ASN_COUNTER, ASN_GAUGE, ASN_TIMETICKS} then
      if |v.value| > targetLen then Rejected else Copied(v.value)
    else if asnType == ASN_OCTET_STR then
      if targetLen > 0 && |v.value| + 1 > targetLen then Rejected else Copied(v.value + [0])
    else Rejected
  }

  /** Related OIDs: one of them is a prefix of the other. */
  predicate Related(a: Oid, b: Oid) {
    a <= b || b <= a
  }

  /** The entries before i that are related to the column. */
  ghost function RelatedBefore(vars: seq<VarBind>, column: Oid, i: nat): set<int>
    requires i <= |vars|
  {
    set j | 0 <= j < i && Related(column, vars[j].name)
  }

  lemma RelatedBeforeStep(vars: seq<VarBind>, column: Oid, i: nat)
    requires i < |vars|
    ensures |RelatedBefore(vars, column, i + 1)| ==
            |RelatedBefore(vars, column, i)| + if Related(column, vars[i].name) then 1 else 0
  {
    var before := RelatedBefore(vars, column, i);
    assert RelatedBefore(vars, column, i + 1) == if Related(column, vars[i].name) then before + {i} else before;
  }

  /** Entry i is the match of the column before which there are exactly idx others. */
  ghost predicate MatchAt(vars: seq<VarBind>, column: Oid, idx: nat, i: nat) {
    && i < |vars| && Related(column, vars[i].name)
    && |RelatedBefore(vars, column, i)| == idx
  }

  /** The value has the type asked for, the type is one of those known, and it fits the target. */
  predicate Acceptable(v: VarBind, asnType: int, targetLen: nat) {
    && v.asnType == asnType
    && (|| (asnType in {0x02, 0x41, 0x42, 0x43} && |v.value| <= targetLen)
        || (asnType == 0x04 && (targetLen == 0 || |v.value| < targetLen)))
  }

  /** What reading one value must give: its bytes, with a terminator for a string, or a rejection. */
  predicate Read(v: VarBind, asnType: int, targetLen: nat, r: Copied) {
    r == if Acceptable(v, asnType, targetLen) then Copied(v.value + if asnType == 0x04 then [0] else []) else Rejected
  }

  /** What reading the idx-th value of a column must give. */
  ghost predicate ReadAt(vars: seq<VarBind>, column: Oid, idx: nat, asnType: int, targetLen: nat, r: Copied) {
    && (forall i: nat :: MatchAt(vars, column, idx, i) ==> Read(vars[i], asnType, targetLen, r))
    && (r.Copied? ==> exists i: nat :: MatchAt(vars, column, idx, i))
  }

  lemma CopyIsRead(v: VarBind, asnType: int, targetLen: nat)
    ensures Read(v, asnType, targetLen, CopyValue(v, asnType, targetLen))
  {
    assert v.value + [] == v.value;
  }

  /** The stored entries the tree comparison takes for members of a column, in order. */
  function Matches(vars: seq<VarBind>, column: Oid): seq<VarBind> {
    if vars == [] then []
    else (if TreeCompare(column, vars[0].name) == 0 then [vars[0]] else []) + Matches(vars[1..], column)
  }

  function Lookup(vars: seq<VarBind>, column: Oid, idx: nat, asnType: int, targetLen: nat): Copied {
    var found := Matches(vars, column);
    if idx < |found| then CopyValue(found[idx], asnType, targetLen) else Rejected
  }

  lemma {:induction false} MatchesConcat(a: seq<VarBind>, b: seq<VarBind>, column: Oid)
    ensures Matches(a + b, column) == Matches(a, column) + Matches(b, column)
  {
    if a == [] {
      assert a + b == b;
    } else {
      var first := if TreeCompare(column, a[0].name) == 0 then [a[0]] else [];
      assert (a + b)[0] == a[0] && (a + b)[1..] == a[1..] + b;
      MatchesConcat(a[1..], b, column);
      assert first + (Matches(a[1..], column) + Matches(b, column)) ==
             first + Matches(a[1..], column) + Matches(b, column);
    }
  }

  lemma MatchesStep(vars: seq<VarBind>, column: Oid, i: nat)
    requires i < |vars|
    ensures Matches(vars[..i + 1], column) ==
            Matches(vars[..i], column) + if TreeCompare(column, vars[i].name) == 0 then [vars[i]] else []
    ensures Matches(vars[..i + 1], column) <= Matches(vars, column)
  {
    assert vars[..i + 1] == vars[..i] + [vars[i]];
    MatchesConcat(vars[..i], [vars[i]], column);
    assert [vars[i]][1..] == [];
    assert vars == vars[..i + 1] + vars[i + 1..];
    MatchesConcat(vars[..i + 1], vars[i + 1..], column);
  }

  lemma {:induction false} MatchesCounted(vars: seq<VarBind>, column: Oid, i: nat)
    requires i <= |vars|
    ensures |Matches(vars[..i], column)| == |RelatedBefore(vars, column, i)|
  {
    if i > 0 {
      MatchesCounted(vars, column, i - 1);
      MatchesStep(vars, column, i - 1);
      TreeCompareZero(column, vars[i - 1].name);
      RelatedBeforeStep(vars, column, i - 1);
    }
  }

  /** The matches listed are the matches counted. */
  lemma MatchAtIff(vars: seq<VarBind>, column: Oid, idx: nat, i: nat)
    requires MatchAt(vars, column, idx, i)
    ensures idx < |Matches(vars, column)| && Matches(vars, column)[idx] == vars[i]
  {
    MatchesCounted(vars, column, i);
    MatchesStep(vars, column, i);
    TreeCompareZero(column, vars[i].name);
    assert Matches(vars[..i + 1], column)[idx] == vars[i];
  }

  lemma {:induction false} SomeMatchAt(vars: seq<VarBind>, column: Oid, idx: nat, n: nat) returns (i: nat)
    requires n <= |vars| && idx < |Matches(vars[..n], column)|
    ensures MatchAt(vars, column, idx, i)
  {
    MatchesStep(vars, column, n - 1);
    if idx < |Matches(vars[..n - 1], column)| {
      i := SomeMatchAt(vars, column, idx, n - 1);
    } else {
      i := n - 1;
      MatchesCounted(vars, column, i);
      TreeCompareZero(column, vars[i].name);
    }
  }

  /** Lookup reads the idx-th match and rejects if there is none. */
  lemma LookupReads(vars: seq<VarBind>, column: Oid, idx: nat, asnType: int, targetLen: nat)
    ensures ReadAt(vars, column, idx, asnType, targetLen, Lookup(vars, column, idx, asnType, targetLen))
  {
    forall i: nat | MatchAt(vars, column, idx, i)
      ensures Read(vars[i], asnType, targetLen, Lookup(vars, column, idx, asnType, targetLen))
    {
      MatchAtIff(vars, column, idx, i);
      CopyIsRead(vars[i], asnType, targetLen);
    }
    if idx < |Matches(vars, column)| {
      assert vars[..|vars|] == vars;
      var i := SomeMatchAt(vars, column, idx, |vars|);
    }
  }

  /** `mp_snmp_subtree_get_value`: counts matches in j until the idx-th is reached. */
  method GetValue(vars: seq<VarBind>, column: Oid, idx: nat, asnType: int, targetLen: nat) returns (r: Copied)
    ensures ReadAt(vars, column, idx, asnType, targetLen, r)
    ensures r == Lookup(vars, column, idx, asnType, targetLen)
  {
    LookupReads(vars, column, idx, asnType, targetLen);
    if |vars| < 1 {
      return Rejected;
    }
    var i, j := 0, 0;
    while i < |vars|
      invariant 0 <= i <= |vars|
      invariant j == |Matches(vars[..i], column)| <= idx
    {
      MatchesStep(vars, column, i);
      if TreeCompare(column, vars[i].name) == 0 {
        if j == idx {
          assert Matches(vars, column)[idx] == Matches(vars[..i + 1], column)[idx];
          return CopyValue(vars[i], asnType, targetLen);
        }
        j := j + 1;
      }
      i := i + 1;
    }
    assert vars[..i] == vars;
    return Rejected;
  }

  /** One requested value of a row. */
  datatype Column = Column(oid: Oid, asnType: int, targetLen: nat)

  /** The value of the column in the row with this index. */
  ghost predicate ColumnRead(vars: seq<VarBind>, idx: nat, column: Column, r: Copied) {
    ReadAt(vars, column.oid, idx, column.asnType, column.targetLen, r)
  }

  ghost predicate ColumnsRead(vars: seq<VarBind>, idx: nat, columns: seq<Column>, targets: seq<Copied>) {
    |targets| == |columns| && forall c :: 0 <= c < |columns| ==> ColumnRead(vars, idx, columns[c], targets[c])
  }

  /** The columns whose values were accepted. */
  ghost function AcceptedOf(targets: seq<Copied>): set<int> {
    set c | 0 <= c < |targets| && targets[c].Copied?
  }

  lemma OneMoreTarget(targets: seq<Copied>, v: Copied)
    ensures |AcceptedOf(targets + [v])| == |AcceptedOf(targets)| + if v.Copied? then 1 else 0
  {
    assert AcceptedOf(targets + [v]) ==
      if v.Copied? then AcceptedOf(targets) + {|targets|} else AcceptedOf(targets);
  }

  lemma OneMoreColumn(vars: seq<VarBind>, idx: nat, columns: seq<Column>, c: nat, targets: seq<Copied>, v: Copied)
    requires c < |columns| && ColumnsRead(vars, idx, columns[..c], targets) && ColumnRead(vars, idx, columns[c], v)
    ensures ColumnsRead(vars, idx, columns[..c + 1], targets + [v])
  {
    forall d | 0 <= d < c ensures ColumnRead(vars, idx, columns[..c + 1][d], (targets + [v])[d]) {
      assert columns[..c][d] == columns[..c + 1][d] && (targets + [v])[d] == targets[d];
    }
  }

  lemma NothingStored(idx: nat, columns: seq<Column>, targets: seq<Copied>)
    requires |targets| == |columns| && forall c :: 0 <= c < |targets| ==> targets[c] == Rejected
    ensures ColumnsRead([], idx, columns, targets) && AcceptedOf(targets) == {}
  {
  }

  /** `mp_snmp_subtree_get_values`: all columns with one index. */
  method GetValues(vars: seq<VarBind>, idx: nat, columns: seq<Column>) returns (count: nat, targets: seq<Copied>)
    ensures ColumnsRead(vars, idx, columns, targets) && count == |AcceptedOf(targets)|
  {
    count, targets := 0, [];
    if |vars| < 1 {
      targets := seq(|columns|, _ => Rejected);
      NothingStored(idx, columns, targets);
      return;
    }
    for c := 0 to |columns|
      invariant ColumnsRead(vars, idx, columns[..c], targets)
      invariant count == |AcceptedOf(targets)|
    {
      var v := GetValue(vars, columns[c].oid, idx, columns[c].asnType, columns[c].targetLen);
      OneMoreTarget(targets, v);
      OneMoreColumn(vars, idx, columns, c, targets, v);
      targets := targets + [v];
      if v.Copied? {
        count := count + 1;
      }
    }
    assert columns[..|columns|] == columns;
  }

  // ----- rows -----

  ghost predicate SortedNames(vars: seq<VarBind>) {
    forall i, j :: 0 <= i < j < |vars| ==> Less(vars[i].name, vars[j].name)
  }

  ghost predicate Stored(vars: seq<VarBind>, o: Oid) {
    exists i :: 0 <= i < |vars| && vars[i].name == o
  }

  /** No stored OID is a proper prefix of the column. */
  ghost predicate CleanColumn(vars: seq<VarBind>, column: Oid) {
    forall i :: 0 <= i < |vars| ==> !(vars[i].name < column)
  }

  /** The instance suffixes of a column, in the order the index counts them. */
  function Instances(vars: seq<VarBind>, column: Oid): (s: seq<Oid>)
    ensures |s| == |Matches(vars, column)|
  {
    var found := Matches(vars, column);
    seq(|found|, i requires 0 <= i < |found| =>
      if |column| <= |found[i].name| then found[i].name[|column|..] else [])
  }

  ghost predicate SameInstances(vars: seq<VarBind>, a: Oid, b: Oid) {
    forall s: Oid :: Stored(vars, a + s) <==> Stored(vars, b + s)
  }

  lemma {:induction false} MatchesAreStored(vars: seq<VarBind>, column: Oid, v: VarBind)
    ensures v in Matches(vars, column) <==> v in vars && TreeCompare(column, v.name) == 0
  {
    if vars != [] {
      assert vars == [vars[0]] + vars[1..];
      MatchesAreStored(vars[1..], column, v);
    }
  }

  lemma {:induction false} MatchesSorted(vars: seq<VarBind>, column: Oid)
    requires SortedNames(vars)
    ensures SortedNames(Matches(vars, column))
  {
    if vars != [] {
      MatchesSorted(vars[1..], column);
      forall v | v in Matches(vars[1..], column) ensures Less(vars[0].name, v.name) {
        MatchesAreStored(vars[1..], column, v);
      }
    }
  }

  /** In a clean column every match is the column OID followed by its instance suffix. */
  lemma MatchIsColumnPlusInstance(vars: seq<VarBind>, column: Oid, i: nat)
    requires CleanColumn(vars, column) && i < |Matches(vars, column)|
    ensures Matches(vars, column)[i].name == column + Instances(vars, column)[i]
    ensures Stored(vars, column + Instances(vars, column)[i])
  {
    var v := Matches(vars, column)[i];
    MatchesAreStored(vars, column, v);
    TreeCompareZero(column, v.name);
    var j :| 0 <= j < |vars| && vars[j] == v;
    assert column <= v.name;
    assert vars[j].name == column + Instances(vars, column)[i];
  }

  lemma StoredIsInstance(vars: seq<VarBind>, column: Oid, s: Oid)
    requires Stored(vars, column + s)
    ensures s in Instances(vars, column)
  {
    var j :| 0 <= j < |vars| && vars[j].name == column + s;
    TreeCompareZero(column, vars[j].name);
    MatchesAreStored(vars, column, vars[j]);
    var i :| 0 <= i < |Matches(vars, column)| && Matches(vars, column)[i] == vars[j];
    assert (column + s)[|column|..] == s;
    assert Instances(vars, column)[i] == s;
  }

  ghost predicate Sorted(s: seq<Oid>) {
    forall i, j :: 0 <= i < j < |s| ==> Less(s[i], s[j])
  }

  lemma InstancesSorted(vars: seq<VarBind>, column: Oid)
    requires SortedNames(vars) && CleanColumn(vars, column)
    ensures Sorted(Instances(vars, column))
  {
    MatchesSorted(vars, column);
    var s := Instances(vars, column);
    forall i, j | 0 <= i < j < |s| ensures Less(s[i], s[j]) {
      MatchIsColumnPlusInstance(vars, column, i);
      MatchIsColumnPlusInstance(vars, column, j);
      LessUnderPrefix(column, s[i], s[j]);
    }
  }

  lemma FirstIsLeast(s: seq<Oid>, x: Oid)
    requires Sorted(s) && x in s
    ensures x == s[0] || Less(s[0], x)
  {
  }

  lemma HasFirst(s: seq<Oid>)
    ensures s == [] || s[0] in s
  {
  }

  /** A strictly increasing sequence is determined by its elements. */
  lemma {:induction false} SortedUnique(s: seq<Oid>, t: seq<Oid>)
    requires Sorted(s) && Sorted(t)
    requires forall x :: x in s <==> x in t
    ensures s == t
  {
    HasFirst(t);
    if s != [] {
      assert s[0] in t;
      assert t[0] in s;
      FirstIsLeast(s, t[0]);
      FirstIsLeast(t, s[0]);
      if s[0] != t[0] {
        LessTransitive(s[0], t[0], s[0]);
        LessIrreflexive(s[0]);
      }
      LessIrreflexive(s[0]);
      forall x ensures x in s[1..] <==> x in t[1..] {
        assert x in s <==> x == s[0] || x in s[1..];
        assert x in t <==> x == t[0] || x in t[1..];
      }
      SortedUnique(s[1..], t[1..]);
      assert s == [s[0]] + s[1..] && t == [t[0]] + t[1..];
    }
  }

  /**
   Row alignment: in a sorted subtree, the idx-th match of one column and the idx-th match of
   another carry the same instance for every index if and only if the two columns have the same
   instances.
   */
  lemma RowsAlignIff(vars: seq<VarBind>, a: Oid, b: Oid)
    requires SortedNames(vars) && CleanColumn(vars, a) && CleanColumn(vars, b)
    ensures Instances(vars, a) == Instances(vars, b) <==> SameInstances(vars, a, b)
  {
    forall s: Oid
      ensures s in Instances(vars, a) <==> Stored(vars, a + s)
      ensures s in Instances(vars, b) <==> Stored(vars, b + s)
    {
      InstanceIffStored(vars, a, s);
      InstanceIffStored(vars, b, s);
    }
    if SameInstances(vars, a, b) {
      InstancesSorted(vars, a);
      InstancesSorted(vars, b);
      SortedUnique(Instances(vars, a), Instances(vars, b));
    }
  }

  lemma InstanceIffStored(vars: seq<VarBind>, column: Oid, s: Oid)
    requires CleanColumn(vars, column)
    ensures s in Instances(vars, column) <==> Stored(vars, column + s)
  {
    if s in Instances(vars, column) {
      var i :| 0 <= i < |Instances(vars, column)| && Instances(vars, column)[i] == s;
      MatchIsColumnPlusInstance(vars, column, i);
    }
    if Stored(vars, column + s) {
      StoredIsInstance(vars, column, s);
    }
  }

  // ----- from the agent to the row -----

  lemma {:induction false} SubtreeMembers(mib: seq<VarBind>, root: Oid, v: VarBind)
    ensures v in Subtree(mib, root) <==> v in mib && root < v.name
  {
    if mib != [] {
      assert mib == [mib[0]] + mib[1..];
      SubtreeMembers(mib[1..], root, v);
    }
  }

  lemma {:induction false} SubtreeSorted(mib: seq<VarBind>, root: Oid)
    requires SortedNames(mib)
    ensures SortedNames(Subtree(mib, root))
  {
    if mib != [] {
      SubtreeSorted(mib[1..], root);
      forall v | v in Subtree(mib[1..], root) ensures Less(mib[0].name, v.name) {
        SubtreeMembers(mib[1..], root, v);
      }
    }
  }

  lemma SubtreeStored(mib: seq<VarBind>, root: Oid, o: Oid)
    ensures Stored(Subtree(mib, root), o) <==> Stored(mib, o) && root < o
  {
    var sub := Subtree(mib, root);
    if Stored(sub, o) {
      var i :| 0 <= i < |sub| && sub[i].name == o;
      SubtreeMembers(mib, root, sub[i]);
    }
    if Stored(mib, o) && root < o {
      var i :| 0 <= i < |mib| && mib[i].name == o;
      SubtreeMembers(mib, root, mib[i]);
    }
  }

  /** No MIB entry below the root sits on the path to the column. */
  ghost predicate CleanBelow(mib: seq<VarBind>, root: Oid, column: Oid) {
    root < column && forall i :: 0 <= i < |mib| && root < mib[i].name ==> !(mib[i].name < column)
  }

  lemma CleanColumnFetched(mib: seq<VarBind>, root: Oid, column: Oid)
    requires CleanBelow(mib, root, column)
    ensures CleanColumn(Subtree(mib, root), column)
  {
    var sub := Subtree(mib, root);
    forall i | 0 <= i < |sub| ensures !(sub[i].name < column) {
      SubtreeMembers(mib, root, sub[i]);
    }
  }

  /**
   The whole chain: after a walk against any reliable agent, reading two columns of the MIB that
   have the same instances with one index reads one row of the agent's table.
   */
  lemma FetchedRowsAlign(version: Version, mib: seq<VarBind>, root: Oid, agent: Agent, a: Oid, b: Oid, idx: nat)
    requires ValidMib(mib) && ReliableAgent(version, mib, agent)
    requires version.V1? ==> EntryAfterSubtree(mib, root)
    requires CleanBelow(mib, root, a) && CleanBelow(mib, root, b) && SameInstances(mib, a, b)
    ensures var w := After(version, root, agent, |Subtree(mib, root)| + 1);
      && w.Finished? && w.ok
      && |Matches(w.vars, a)| == |Matches(w.vars, b)|
      && (idx < |Matches(w.vars, a)| ==>
          exists s: Oid ::
            && Matches(w.vars, a)[idx].name == a + s && Matches(w.vars, a)[idx] in mib
            && Matches(w.vars, b)[idx].name == b + s && Matches(w.vars, b)[idx] in mib)
  {
    WalkExact(version, mib, root, agent);
    var vars := Subtree(mib, root);
    SubtreeSorted(mib, root);
    CleanColumnFetched(mib, root, a);
    CleanColumnFetched(mib, root, b);
    forall s: Oid ensures Stored(vars, a + s) <==> Stored(vars, b + s) {
      SubtreeStored(mib, root, a + s);
      SubtreeStored(mib, root, b + s);
    }
    RowsAlignIff(vars, a, b);
    if idx < |Matches(vars, a)| {
      MatchIsColumnPlusInstance(vars, a, idx);
      MatchIsColumnPlusInstance(vars, b, idx);
      var va, vb := Matches(vars, a)[idx], Matches(vars, b)[idx];
      MatchesAreStored(vars, a, va);
      MatchesAreStored(vars, b, vb);
      SubtreeMembers(mib, root, va);
      SubtreeMembers(mib, root, vb);
      assert va.name == a + Instances(vars, a)[idx] && vb.name == b + Instances(vars, a)[idx];
    }
  }

  /** The row in which the values of both columns are, if they have as many. */
  ghost predicate RowRead(mib: seq<VarBind>, a: Column, b: Column, s: Oid, ra: Copied, rb: Copied) {
    exists i, j ::
      && 0 <= i < |mib| && mib[i].name == a.oid + s && Read(mib[i], a.asnType, a.targetLen, ra)
      && 0 <= j < |mib| && mib[j].name == b.oid + s && Read(mib[j], b.asnType, b.targetLen, rb)
  }

  /**
   What a plugin gets: the values read in two columns with one index are those of one row of the
   agent's table, and both are rejected if there is no such row.
   */
  lemma FetchedValuesAlign(version: Version, mib: seq<VarBind>, root: Oid, agent: Agent, a: Column, b: Column,
                           idx: nat, ra: Copied, rb: Copied)
    requires ValidMib(mib) && ReliableAgent(version, mib, agent)
    requires version.V1? ==> EntryAfterSubtree(mib, root)
    requires CleanBelow(mib, root, a.oid) && CleanBelow(mib, root, b.oid) && SameInstances(mib, a.oid, b.oid)
    requires var vars := After(version, root, agent, |Subtree(mib, root)| + 1).vars;
      ColumnRead(vars, idx, a, ra) && ColumnRead(vars, idx, b, rb)
    ensures var vars := After(version, root, agent, |Subtree(mib, root)| + 1).vars;
      if exists i: nat :: MatchAt(vars, a.oid, idx, i) then exists s: Oid :: RowRead(mib, a, b, s, ra, rb)
      else ra == rb == Rejected
  {
    FetchedRowsAlign(version, mib, root, agent, a.oid, b.oid, idx);
    ValuesAlign(mib, After(version, root, agent, |Subtree(mib, root)| + 1).vars, a, b, idx, ra, rb);
  }

  lemma ValuesAlign(mib: seq<VarBind>, vars: seq<VarBind>, a: Column, b: Column, idx: nat, ra: Copied, rb: Copied)
    requires |Matches(vars, a.oid)| == |Matches(vars, b.oid)|
    requires idx < |Matches(vars, a.oid)| ==>
      exists s: Oid ::
        && Matches(vars, a.oid)[idx].name == a.oid + s && Matches(vars, a.oid)[idx] in mib
        && Matches(vars, b.oid)[idx].name == b.oid + s && Matches(vars, b.oid)[idx] in mib
    requires ColumnRead(vars, idx, a, ra) && ColumnRead(vars, idx, b, rb)
    ensures if exists i: nat :: MatchAt(vars, a.oid, idx, i) then exists s: Oid :: RowRead(mib, a, b, s, ra, rb)
      else ra == rb == Rejected
  {
    if idx < |Matches(vars, a.oid)| {
      assert vars[..|vars|] == vars;
      var n := SomeMatchAt(vars, a.oid, idx, |vars|);
      MatchIsRead(vars, a, idx, ra);
      MatchIsRead(vars, b, idx, rb);
      var s: Oid :| Matches(vars, a.oid)[idx].name == a.oid + s && Matches(vars, a.oid)[idx] in mib &&
                    Matches(vars, b.oid)[idx].name == b.oid + s && Matches(vars, b.oid)[idx] in mib;
      RowOf(mib, a, b, s, Matches(vars, a.oid)[idx], Matches(vars, b.oid)[idx], ra, rb);
    } else {
      NoMatchIsRejected(vars, a, idx, ra);
      NoMatchIsRejected(vars, b, idx, rb);
      NoMatchAt(vars, a.oid, idx);
    }
  }

  lemma RowOf(mib: seq<VarBind>, a: Column, b: Column, s: Oid, va: VarBind, vb: VarBind, ra: Copied, rb: Copied)
    requires va in mib && va.name == a.oid + s && Read(va, a.asnType, a.targetLen, ra)
    requires vb in mib && vb.name == b.oid + s && Read(vb, b.asnType, b.targetLen, rb)
    ensures RowRead(mib, a, b, s, ra, rb)
  {
    var i :| 0 <= i < |mib| && mib[i] == va;
    var j :| 0 <= j < |mib| && mib[j] == vb;
  }

  lemma NoMatchAt(vars: seq<VarBind>, column: Oid, idx: nat)
    requires idx >= |Matches(vars, column)|
    ensures forall i: nat :: !MatchAt(vars, column, idx, i)
  {
    forall i: nat ensures !MatchAt(vars, column, idx, i) {
      if MatchAt(vars, column, idx, i) {
        MatchAtIff(vars, column, idx, i);
      }
    }
  }

  lemma MatchIsRead(vars: seq<VarBind>, column: Column, idx: nat, r: Copied)
    requires ReadAt(vars, column.oid, idx, column.asnType, column.targetLen, r) && idx < |Matches(vars, column.oid)|
    ensures Read(Matches(vars, column.oid)[idx], column.asnType, column.targetLen, r)
  {
    assert vars[..|vars|] == vars;
    var i := SomeMatchAt(vars, column.oid, idx, |vars|);
    MatchAtIff(vars, column.oid, idx, i);
  }

  lemma NoMatchIsRejected(vars: seq<VarBind>, column: Column, idx: nat, r: Copied)
    requires ReadAt(vars, column.oid, idx, column.asnType, column.targetLen, r) && idx >= |Matches(vars, column.oid)|
    ensures r == Rejected
  {
    if i: nat :| MatchAt(vars, column.oid, idx, i) {
      MatchAtIff(vars, column.oid, idx, i);
    }
  }
}
