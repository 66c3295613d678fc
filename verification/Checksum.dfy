/** The Internet checksum (`mp_ip_csum` in lib/mp_net.c, section 1 of RFC 1071). */
module Checksum {

  const WORD := 0x1_0000
  const INT_MAX := 0x7FFF_FFFF

  ghost predicate Words(w: seq<nat>) {
    forall i :: 0 <= i < |w| ==> w[i] < WORD
  }

  function Sum(w: seq<nat>): nat {
    if w == [] then 0 else Sum(w[..|w| - 1]) + w[|w| - 1]
  }

  /** The one's complement sum: the residue modulo 65535, with 65535 for a non-zero multiple. */
  function OnesSum(total: nat): (r: nat)
    ensures r < WORD && r % 65535 == total % 65535
    ensures r == 0 <==> total == 0
  {
    if total > 0 && total % 65535 == 0 then 65535 else total % 65535
  }

  function Csum(w: seq<nat>): nat {
    65535 - OnesSum(Sum(w))
  }

  /** Two folds of a sum that fits an int. */
  lemma TwoFoldsSuffice(total: nat)
    requires total <= INT_MAX
    ensures var once := total / WORD + total % WORD;
      var twice := once + once / WORD;
      twice <= INT_MAX && twice % WORD == OnesSum(total)
  {
    var once := total / WORD + total % WORD;
    assert total == 65536 * (total / WORD) + total % WORD;
    assert once % 65535 == total % 65535 by {
      assert total == 65535 * (total / WORD) + once;
    }
  }

  lemma {:induction false} SumBound(w: seq<nat>)
    requires Words(w)
    ensures Sum(w) <= 65535 * |w|
  {
    if w != [] {
      SumBound(w[..|w| - 1]);
    }
  }

  /** `mp_ip_csum` over the words of an even-length block; the int sum never overflows. */
  method IpCsum(w: seq<nat>) returns (r: nat)
    requires Words(w) && |w| <= 32768
    ensures r == Csum(w)
  {
    var sum, i := 0, 0;
    while i < |w|
      invariant 0 <= i <= |w|
      invariant sum == Sum(w[..i]) <= INT_MAX
    {
      assert w[..i + 1][..i] == w[..i];
      SumBound(w[..i + 1]);
      sum := sum + w[i];
      i := i + 1;
    }
    assert w[..i] == w;
    TwoFoldsSuffice(sum);
    sum := sum / WORD + sum % WORD;
    sum := sum + sum / WORD;
    r := 65535 - sum % WORD;
  }

  lemma {:induction false} SumUpdate(w: seq<nat>, k: nat, v: nat)
    requires k < |w|
    ensures Sum(w[k := v]) == Sum(w) - w[k] + v
  {
    var n := |w| - 1;
    if k == n {
      assert w[k := v][..n] == w[..n];
    } else {
      assert w[k := v][..n] == w[..n][k := v];
      SumUpdate(w[..n], k, v);
    }
  }

  /** A block checks out exactly when it is not all zero and its sum is a multiple of 65535. */
  lemma ZeroCsumIff(w: seq<nat>)
    ensures Csum(w) == 0 <==> Sum(w) > 0 && Sum(w) % 65535 == 0
  {
  }

  /** Storing the checksum in the zeroed checksum word makes the block check out. */
  lemma StoredCsumVerifies(w: seq<nat>, k: nat)
    requires k < |w| && w[k] == 0
    ensures Csum(w[k := Csum(w)]) == 0
  {
    SumUpdate(w, k, Csum(w));
    var total, r := Sum(w), OnesSum(Sum(w));
    assert Sum(w[k := Csum(w)]) == total + 65535 - r;
    Congruent(total, r);
    ZeroCsumIff(w[k := Csum(w)]);
  }

  lemma Congruent(a: nat, b: nat)
    requires a % 65535 == b % 65535 && b <= 65535
    ensures (a + 65535 - b) % 65535 == 0
  {
    assert a + 65535 - b == 65535 * (a / 65535 - b / 65535 + 1);
  }

  /** A block that checked out no longer does after any one word is changed, 0 against 65535 excepted. */
  lemma ChangedWordIsDetectedIff(w: seq<nat>, k: nat, v: nat)
    requires Words(w) && k < |w| && v < WORD && Csum(w) == 0
    ensures Csum(w[k := v]) == 0 <==>
            v == w[k] || (v == 65535 && w[k] == 0) || (v == 0 && w[k] == 65535 && Sum(w) > 65535)
  {
    SumUpdate(w, k, v);
    ZeroCsumIff(w);
    ZeroCsumIff(w[k := v]);
    var total := Sum(w);
    var delta := v - w[k];
    assert (total + delta) % 65535 == 0 <==> delta % 65535 == 0 by {
      assert total == 65535 * (total / 65535);
    }
    assert -65535 <= delta <= 65535;
    assert delta % 65535 == 0 <==> delta == 0 || delta == 65535 || delta == -65535;
    MemberBelowSum(w, k);
  }

  lemma {:induction false} MemberBelowSum(w: seq<nat>, k: nat)
    requires k < |w|
    ensures w[k] <= Sum(w)
  {
    var n := |w| - 1;
    if k < n {
      MemberBelowSum(w[..n], k);
    }
  }

  // ----- byte order -----

  /** The word with its two bytes exchanged. */
  function Swap(x: nat): (y: nat)
    requires x < WORD
    ensures y < WORD
  {
    x % 256 * 256 + x / 256
  }

  function SwapAll(w: seq<nat>): (s: seq<nat>)
    requires Words(w)
    ensures |s| == |w| && Words(s)
  {
    seq(|w|, i requires 0 <= i < |w| => Swap(w[i]))
  }

  lemma SwapIsTimes256(x: nat)
    requires x < WORD
    ensures 256 * x == Swap(x) + 65535 * (x / 256)
  {
  }

  lemma {:induction false} SwappedSum(w: seq<nat>) returns (q: nat)
    requires Words(w)
    ensures 256 * Sum(w) == Sum(SwapAll(w)) + 65535 * q
    ensures Sum(w) == 0 <==> Sum(SwapAll(w)) == 0
  {
    if w == [] {
      q := 0;
    } else {
      var n := |w| - 1;
      q := SwappedSum(w[..n]);
      assert SwapAll(w)[..n] == SwapAll(w[..n]);
      SwapIsTimes256(w[n]);
      q := q + w[n] / 256;
    }
  }

  lemma AboveResidue(a: nat) returns (k: int)
    ensures a == OnesSum(a) + 65535 * k
  {
    k := if a > 0 && a % 65535 == 0 then a / 65535 - 1 else a / 65535;
  }

  lemma SwapResidue(a: nat, b: nat, q: nat)
    requires 256 * a == b + 65535 * q
    requires a == 0 <==> b == 0
    ensures OnesSum(b) == Swap(OnesSum(a))
  {
    var r := OnesSum(a);
    SwapIsTimes256(r);
    var k := AboveResidue(a);
    assert b == Swap(r) + 65535 * (256 * k + r / 256 - q);
    SameResidue(b, Swap(r), 256 * k + r / 256 - q);
  }

  lemma SameResidue(b: nat, s: nat, m: int)
    requires b == s + 65535 * m && s < WORD
    requires s == 0 <==> b == 0
    ensures OnesSum(b) == s
  {
    assert b % 65535 == s % 65535;
  }

  lemma SwapComplement(r: nat)
    requires r < WORD
    ensures Swap(65535 - r) == 65535 - Swap(r)
  {
    var h, l := r / 256, r % 256;
    assert 65535 - r == 256 * (255 - h) + (255 - l);
    assert (65535 - r) / 256 == 255 - h && (65535 - r) % 256 == 255 - l;
  }

  /**
   The source adds words in host order. On a machine with the other byte order it computes the
   byte-swapped checksum, so the bytes it stores are the same on both.
   */
  lemma ByteOrderIndependent(w: seq<nat>)
    requires Words(w)
    ensures Csum(SwapAll(w)) == Swap(Csum(w))
  {
    var q := SwappedSum(w);
    SwapResidue(Sum(w), Sum(SwapAll(w)), q);
    SwapComplement(OnesSum(Sum(w)));
  }
}
