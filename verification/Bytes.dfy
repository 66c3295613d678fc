/** Bytes found at an offset of a longer sequence. */
module Bytes {

  /** The bytes stand in the data at this position. */
  predicate At(data: seq<nat>, pos: nat, x: seq<nat>) {
    pos + |x| <= |data| && forall i :: 0 <= i < |x| ==> data[pos + i] == x[i]
  }

  lemma AtSplits(data: seq<nat>, pos: nat, a: seq<nat>, b: seq<nat>)
    requires At(data, pos, a + b)
    ensures At(data, pos, a) && At(data, pos + |a|, b)
  {
    forall i | 0 <= i < |a| ensures data[pos + i] == a[i] {
      assert (a + b)[i] == a[i];
    }
    forall i | 0 <= i < |b| ensures data[pos + |a| + i] == b[i] {
      assert (a + b)[|a| + i] == b[i];
    }
  }

  lemma AtSplitsInFour(data: seq<nat>, pos: nat, a: seq<nat>, b: seq<nat>, c: seq<nat>, d: seq<nat>)
    requires At(data, pos, a + (b + (c + d)))
    ensures At(data, pos, a) && At(data, pos + |a|, b) && At(data, pos + |a| + |b|, c)
    ensures At(data, pos + |a| + |b| + |c|, d)
  {
    AtSplits(data, pos, a, b + (c + d));
    AtSplits(data, pos + |a|, b, c + d);
    AtSplits(data, pos + |a| + |b|, c, d);
  }

  lemma AtStart(x: seq<nat>, rest: seq<nat>)
    ensures At(x + rest, 0, x)
  {
  }

  lemma AtIsSlice(data: seq<nat>, pos: nat, x: seq<nat>)
    requires At(data, pos, x)
    ensures data[pos..pos + |x|] == x
  {
  }

  lemma SliceIsAt(data: seq<nat>, pos: nat, x: seq<nat>)
    requires pos + |x| <= |data| && data[pos..pos + |x|] == x
    ensures At(data, pos, x)
  {
    assert forall i :: 0 <= i < |x| ==> x[i] == data[pos..pos + |x|][i];
  }
}
