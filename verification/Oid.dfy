/**
 Object identifiers: the lexicographic order an SNMP agent keeps its MIB in, and
 `snmp_oidtree_compare`, the comparison the walk and the table lookup use. The latter looks
 only at the common length of its arguments, so it calls an OID equal to all its prefixes.
 */
module Oids {

  type Oid = seq<nat>

  /** Lexicographic order; a proper prefix comes first. */
  predicate Less(a: Oid, b: Oid) {
    b != [] && (a == [] || a[0] < b[0] || (a[0] == b[0] && Less(a[1..], b[1..])))
  }

  /** `snmp_oidtree_compare` of net-snmp. */
  function TreeCompare(a: Oid, b: Oid): int {
    if a == [] || b == [] then 0
    else if a[0] < b[0] then -1
    else if a[0] > b[0] then 1
    else TreeCompare(a[1..], b[1..])
  }

  lemma {:induction false} LessTransitive(a: Oid, b: Oid, c: Oid)
    requires Less(a, b) && Less(b, c)
    ensures Less(a, c)
  {
    if a != [] && a[0] == b[0] == c[0] {
      LessTransitive(a[1..], b[1..], c[1..]);
    }
  }

  lemma {:induction false} LessIrreflexive(a: Oid)
    ensures !Less(a, a)
  {
    if a != [] {
      LessIrreflexive(a[1..]);
    }
  }

  lemma {:induction false} LessTotal(a: Oid, b: Oid)
    ensures a == b || Less(a, b) || Less(b, a)
  {
    if a != [] && b != [] && a[0] == b[0] {
      LessTotal(a[1..], b[1..]);
      assert a == [a[0]] + a[1..] && b == [b[0]] + b[1..];
    }
  }

  /** The tree comparison is zero exactly on OIDs of which one is a prefix of the other. */
  lemma {:induction false} TreeCompareZero(a: Oid, b: Oid)
    ensures TreeCompare(a, b) == 0 <==> a <= b || b <= a
  {
    if a != [] && b != [] {
      TreeCompareZero(a[1..], b[1..]);
      assert a == [a[0]] + a[1..] && b == [b[0]] + b[1..];
    }
  }

  /** It is smaller in the first component in which they differ. */
  predicate SmallerSomewhere(a: Oid, b: Oid) {
    exists k :: 0 <= k < |a| && k < |b| && SmallerAt(a, b, k)
  }

  predicate SmallerAt(a: Oid, b: Oid, k: nat)
    requires k < |a| && k < |b|
  {
    a[k] < b[k] && forall j :: 0 <= j < k ==> a[j] == b[j]
  }

  lemma {:induction false} TreeCompareNegative(a: Oid, b: Oid)
    ensures TreeCompare(a, b) < 0 <==> SmallerSomewhere(a, b)
  {
    if a != [] && b != [] && a[0] == b[0] {
      TreeCompareNegative(a[1..], b[1..]);
      if SmallerSomewhere(a[1..], b[1..]) {
        var k :| 0 <= k < |a[1..]| && k < |b[1..]| && SmallerAt(a[1..], b[1..], k);
        assert forall j :: 0 < j < k + 1 ==> a[j] == a[1..][j - 1] && b[j] == b[1..][j - 1];
        assert SmallerAt(a, b, k + 1);
      }
      if k :| 0 <= k < |a| && k < |b| && SmallerAt(a, b, k) {
        assert SmallerAt(a[1..], b[1..], k - 1);
      }
    } else if a != [] && b != [] && a[0] < b[0] {
      assert SmallerAt(a, b, 0);
    }
  }

  /** An OID after another one never compares as decreasing. */
  lemma {:induction false} TreeCompareOfLess(a: Oid, b: Oid)
    requires Less(a, b)
    ensures TreeCompare(b, a) >= 0
  {
    if a != [] && a[0] == b[0] {
      TreeCompareOfLess(a[1..], b[1..]);
    }
  }

  lemma {:induction false} PrefixIsLess(a: Oid, b: Oid)
    requires a < b
    ensures Less(a, b)
  {
    if a != [] {
      PrefixIsLess(a[1..], b[1..]);
    }
  }

  /** Among the OIDs after `root`, zero means "inside the subtree". */
  lemma TreeCompareAfterRoot(root: Oid, o: Oid)
    requires Less(root, o)
    ensures TreeCompare(root, o) == 0 <==> root < o
  {
    TreeCompareZero(root, o);
    LessIrreflexive(o);
    if o < root {
      PrefixIsLess(o, root);
      LessTransitive(o, root, o);
    }
  }

  /** A subtree is one run of the order: once the order has left it, it never comes back. */
  lemma {:induction false} SubtreeIsConvex(root: Oid, b: Oid, c: Oid)
    requires Less(root, b) && !(root < b) && Less(b, c)
    ensures !(root < c)
  {
    if root != [] && root[0] == b[0] == c[0] {
      assert root == [root[0]] + root[1..] && b == [b[0]] + b[1..];
      SubtreeIsConvex(root[1..], b[1..], c[1..]);
    }
  }

  lemma {:induction false} LessUnderPrefix(p: Oid, s: Oid, t: Oid)
    ensures Less(p + s, p + t) <==> Less(s, t)
  {
    if p == [] {
      assert p + s == s && p + t == t;
    } else {
      assert (p + s)[1..] == p[1..] + s && (p + t)[1..] == p[1..] + t;
      LessUnderPrefix(p[1..], s, t);
    }
  }
}
