/** Numbers as digit sequences, least significant digit first, with digits of w bits. */
module Radix {

  function Pow2(n: nat): (p: nat)
    ensures p > 0
  {
    if n == 0 then 1 else 2 * Pow2(n - 1)
  }

  /** The left shift. */
  function Shift(x: nat, n: nat): nat {
    x * Pow2(n)
  }

  lemma {:induction false} Pow2Add(a: nat, b: nat)
    ensures Pow2(a + b) == Pow2(a) * Pow2(b)
  {
    if a > 0 {
      Pow2Add(a - 1, b);
      assert a + b - 1 == a - 1 + b;
      Doubled(Pow2(a - 1), Pow2(b));
    }
  }

  lemma Doubled(x: nat, y: nat)
    ensures 2 * (x * y) == 2 * x * y
  {
  }

  lemma {:induction false} Pow2Mono(a: nat, b: nat)
    requires a <= b
    ensures Pow2(a) <= Pow2(b)
    decreases b
  {
    if a < b {
      Pow2Mono(a, b - 1);
    }
  }

  lemma Pow2Values()
    ensures Pow2(7) == 128 && Pow2(8) == 256
  {
    assert Pow2(4) == 16;
  }

  ghost predicate DigitsBelow(s: seq<nat>, b: nat) {
    forall i :: 0 <= i < |s| ==> s[i] < b
  }

  /** The number the digits stand for. */
  function Value(w: nat, s: seq<nat>): nat
    decreases |s|
  {
    if s == [] then 0 else s[0] + Pow2(w) * Value(w, s[1..])
  }

  function Quotient(v: nat, p: nat): (q: nat)
    requires p > 0
  {
    v / p
  }

  function Remainder(v: nat, p: nat): (r: nat)
    requires p > 0
    ensures r < p
  {
    v % p
  }

  /** The n lowest digits of a number. */
  function Digits(w: nat, v: nat, n: nat): (s: seq<nat>)
    ensures |s| == n
    decreases n
  {
    if n == 0 then [] else [Remainder(v, Pow2(w))] + Digits(w, Quotient(v, Pow2(w)), n - 1)
  }

  lemma {:induction false} DigitsAreBelow(w: nat, v: nat, n: nat)
    ensures DigitsBelow(Digits(w, v, n), Pow2(w))
    decreases n
  {
    if n > 0 {
      DigitsAreBelow(w, Quotient(v, Pow2(w)), n - 1);
    }
  }

  lemma {:induction false} ValueAppend(w: nat, s: seq<nat>, x: nat)
    ensures Value(w, s + [x]) == Value(w, s) + x * Pow2(w * |s|)
    decreases |s|
  {
    if s == [] {
      assert s + [x] == [x] && [x][1..] == [];
      assert Pow2(w) * Value(w, []) == 0;
    } else {
      ValueAppend(w, s[1..], x);
      assert (s + [x])[1..] == s[1..] + [x];
      Pow2Add(w, w * (|s| - 1));
      assert w + w * (|s| - 1) == w * |s|;
      Rearrange(Pow2(w), Value(w, s[1..]), x, Pow2(w * (|s| - 1)));
    }
  }

  lemma Rearrange(p: nat, v: nat, x: nat, q: nat)
    ensures p * (v + x * q) == p * v + x * (p * q)
  {
    assert p * (v + x * q) == p * v + p * (x * q);
    assert p * (x * q) == x * (p * q);
  }

  lemma DivModOfSum(p: nat, d: nat, v: nat)
    requires d < p
    ensures (d + p * v) % p == d && (d + p * v) / p == v
  {
    var n := d + p * v;
    var q, r := n / p, n % p;
    assert n == p * q + r && 0 <= r < p;
    assert p * (q - v) == p * q - p * v == d - r;
    SmallMultiple(p, q - v);
  }

  /** The only multiple of p within p of zero is zero. */
  lemma SmallMultiple(p: nat, k: int)
    requires -(p as int) < p * k < p
    ensures k == 0
  {
  }

  /** Reading digits of a number gives back a prefix of the digits it was built from. */
  lemma {:induction false} DigitsOfValue(w: nat, s: seq<nat>, m: nat)
    requires DigitsBelow(s, Pow2(w)) && m <= |s|
    ensures Digits(w, Value(w, s), m) == s[..m]
    decreases |s|
  {
    if m > 0 {
      DivModOfSum(Pow2(w), s[0], Value(w, s[1..]));
      DigitsOfValue(w, s[1..], m - 1);
      assert s[..m] == [s[0]] + s[1..][..m - 1];
    }
  }

  lemma {:induction false} ValueBound(w: nat, s: seq<nat>)
    requires DigitsBelow(s, Pow2(w))
    ensures Value(w, s) < Pow2(w * |s|)
    decreases |s|
  {
    if s != [] {
      ValueBound(w, s[1..]);
      Pow2Add(w, w * (|s| - 1));
      assert w + w * (|s| - 1) == w * |s|;
      OneMoreDigit(s[0], Value(w, s[1..]), Pow2(w), Pow2(w * (|s| - 1)));
    }
  }

  lemma OneMoreDigit(d: nat, v: nat, p: nat, q: nat)
    requires d < p && v < q
    ensures d + p * v < p * q
  {
    assert p * (v + 1) <= p * q;
  }

  /** Reading enough digits of a number loses nothing. */
  lemma {:induction false} ValueOfDigits(w: nat, v: nat, n: nat)
    requires v < Pow2(w * n)
    ensures Value(w, Digits(w, v, n)) == v
    decreases n
  {
    if n > 0 {
      var p := Pow2(w);
      var q, r, s := Quotient(v, p), Remainder(v, p), Digits(w, v, n);
      Pow2Add(w, w * (n - 1));
      assert w + w * (n - 1) == w * n;
      QuotientBound(v, p, Pow2(w * (n - 1)));
      ValueOfDigits(w, q, n - 1);
      assert s[0] == r && s[1..] == Digits(w, q, n - 1);
      DivModSplit(v, p);
    }
  }

  lemma DivModSplit(v: nat, p: nat)
    requires p > 0
    ensures v == Remainder(v, p) + p * Quotient(v, p)
  {
  }

  lemma QuotientBound(v: nat, p: nat, q: nat)
    requires p > 0 && v < p * q
    ensures Quotient(v, p) < q
  {
    DivModSplit(v, p);
  }

  // ----- bits -----

  /** Bit number j. */
  function Bit(v: nat, j: nat): (b: nat)
    ensures b < 2
  {
    v / Pow2(j) % 2
  }

  lemma DivOfSum(x: nat, a: nat, r: nat)
    requires a > 0
    ensures (x * a + r) / a == x + Quotient(r, a)
  {
    var q, m := Quotient(r, a), Remainder(r, a);
    DivModSplit(r, a);
    Gather(x, a, q, m);
    DivModOfSum(a, m, x + q);
  }

  lemma Gather(x: nat, a: nat, q: nat, m: nat)
    ensures x * a + (m + a * q) == m + a * (x + q)
  {
  }

  /** Dividing twice is dividing by the product. */
  lemma DivDiv(v: nat, p: nat, q: nat)
    requires p > 0 && q > 0
    ensures p * q > 0 && Quotient(Quotient(v, p), q) == v / (p * q)
  {
    var u, m := Quotient(v, p), Remainder(v, p);
    var k, r := Quotient(u, q), Remainder(u, q);
    DivModSplit(v, p);
    DivModSplit(u, q);
    Nested(p, q, k, r, m);
    DivModOfSum(p * q, m + p * r, k);
  }

  lemma Nested(p: nat, q: nat, k: nat, r: nat, m: nat)
    requires r < q && m < p
    ensures m + p * (r + q * k) == m + p * r + p * q * k
    ensures m + p * r < p * q && p * q > 0
  {
    Rearrange(p, r, k, q);
    assert p * (r + k * q) == p * r + k * (p * q);
    assert p * (r + 1) <= p * q;
  }

  /** A remainder keeps the bits below the modulus. */
  lemma LowBit(v: nat, a: nat, b: nat)
    requires a > 0 && b > 0
    ensures a * (2 * b) > 0 && v % (a * (2 * b)) / a % 2 == v / a % 2
  {
    var p := a * (2 * b);
    var q, r := Quotient(v, p), Remainder(v, p);
    DivModSplit(v, p);
    Regrouped(a, b, q);
    DivOfSum(2 * (b * q), a, r);
    EvenKeepsParity(b * q, Quotient(r, a));
  }

  lemma Regrouped(a: nat, b: nat, q: nat)
    ensures a * (2 * b) * q == 2 * (b * q) * a
  {
    assert a * (2 * b) == 2 * (a * b);
    assert (a * b) * q == (b * q) * a;
  }

  lemma EvenKeepsParity(x: nat, y: nat)
    ensures (2 * x + y) % 2 == y % 2
  {
  }

  lemma LowDigitBit(w: nat, v: nat, j: nat)
    requires j < w
    ensures Bit(Remainder(v, Pow2(w)), j) == Bit(v, j)
  {
    Pow2Add(j, 1 + (w - j - 1));
    assert j + (1 + (w - j - 1)) == w && Pow2(1 + (w - j - 1)) == 2 * Pow2(w - j - 1);
    LowBit(v, Pow2(j), Pow2(w - j - 1));
  }

  /** Bit j of digit i is bit w i + j of the number. */
  lemma {:induction false} DigitBits(w: nat, v: nat, n: nat, i: nat, j: nat)
    requires i < n && j < w
    ensures Bit(Digits(w, v, n)[i], j) == Bit(v, w * i + j)
    decreases n
  {
    if i == 0 {
      LowDigitBit(w, v, j);
      assert w * 0 + j == j;
    } else {
      var p := Pow2(w);
      var q := Quotient(v, p);
      assert Digits(w, v, n)[i] == Digits(w, q, n - 1)[i - 1];
      DigitBits(w, q, n - 1, i - 1, j);
      ShiftedBit(w, v, w * (i - 1) + j);
      assert w + (w * (i - 1) + j) == w * i + j;
    }
  }

  lemma ShiftedBit(w: nat, v: nat, k: nat)
    ensures Bit(Quotient(v, Pow2(w)), k) == Bit(v, w + k)
  {
    Pow2Add(w, k);
    DivDiv(v, Pow2(w), Pow2(k));
  }

  lemma NoBitAbove(v: nat, n: nat)
    requires v < Pow2(n)
    ensures Bit(v, n) == 0
  {
    assert v + Pow2(n) * 0 == v;
    DivModOfSum(Pow2(n), v, 0);
  }

  // ----- the bit operations of the packing loop -----

  /** The bitwise or of two unsigned numbers. */
  function BitOr(a: nat, b: nat): nat {
    if a == 0 && b == 0 then 0
    else 2 * BitOr(a / 2, b / 2) + if a % 2 == 1 || b % 2 == 1 then 1 else 0
  }

  lemma {:induction false} OrZero(b: nat)
    ensures BitOr(0, b) == b
  {
    if b > 0 {
      OrZero(b / 2);
    }
  }

  /** Or-ing a number in above the bits in use is adding it. */
  lemma {:induction false} OrAbove(a: nat, x: nat, n: nat)
    requires a < Pow2(n)
    ensures BitOr(a, x * Pow2(n)) == a + x * Pow2(n)
    decreases n
  {
    if n == 0 {
      OrZero(x);
      assert x * Pow2(0) == x;
    } else {
      var b := x * Pow2(n);
      var h := x * Pow2(n - 1);
      assert b == 2 * h;
      OrAbove(a / 2, x, n - 1);
    }
  }
}
