/** Searching and cutting strings, as `strchr`, `strsep` and `strspn` do. */
module Text {

  predicate Free(s: string, c: char) {
    forall i :: 0 <= i < |s| ==> s[i] != c
  }

  /** The position of the first c, or the length. */
  function FirstOf(s: string, c: char): (k: nat)
    ensures k <= |s|
  {
    if s == "" || s[0] == c then 0 else 1 + FirstOf(s[1..], c)
  }

  lemma {:induction false} FirstOfIs(s: string, c: char)
    ensures var k := FirstOf(s, c); Free(s[..k], c) && (k < |s| ==> s[k] == c)
  {
    if s != "" && s[0] != c {
      FirstOfIs(s[1..], c);
      var k := FirstOf(s, c);
      assert s[..k] == [s[0]] + s[1..][..k - 1];
    }
  }

  lemma {:induction false} FirstOfAfter(a: string, c: char, b: string)
    requires Free(a, c)
    ensures FirstOf(a + [c] + b, c) == |a|
  {
    if a != "" {
      assert (a + [c] + b)[1..] == a[1..] + [c] + b;
      FirstOfAfter(a[1..], c, b);
    }
  }

  lemma {:induction false} FirstOfFree(a: string, c: char)
    requires Free(a, c)
    ensures FirstOf(a, c) == |a|
  {
    if a != "" {
      FirstOfFree(a[1..], c);
    }
  }

  lemma Parts(a: string, c: char, b: string)
    ensures var s := a + [c] + b; s[..|a|] == a && s[|a| + 1..] == b && |s| == |a| + 1 + |b|
  {
  }

  /** Cutting at the first c: the text before it and, if there is one, the text after it. */
  lemma CutAtFirst(a: string, c: char, b: string)
    requires Free(a, c)
    ensures var s := a + [c] + b;
      FirstOf(s, c) == |a| < |s| && s[..|a|] == a && s[|a| + 1..] == b
  {
    FirstOfAfter(a, c, b);
    Parts(a, c, b);
  }
}
