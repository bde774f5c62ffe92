// Searching in strings.
module Strings {
  predicate StartsWith(s: string, prefix: string) {
    |prefix| <= |s| && s[..|prefix|] == prefix
  }

  // The index of c at or after i, or the length when there is none
  function Find(s: string, c: char, i: nat): (r: nat)
    requires i <= |s|
    ensures i <= r <= |s|
    ensures r < |s| ==> s[r] == c
    ensures forall k :: i <= k < r ==> s[k] != c
    decreases |s| - i
  {
    if i == |s| || s[i] == c then i else Find(s, c, i + 1)
  }

  lemma {:induction false} FindIs(s: string, c: char, i: nat, n: nat)
    requires i <= n <= |s| && (n < |s| ==> s[n] == c)
    requires forall k :: i <= k < n ==> s[k] != c
    ensures Find(s, c, i) == n
    decreases n - i
  {
    if i < n {
      FindIs(s, c, i + 1, n);
    }
  }

  // The text stands at position i
  predicate Here(t: string, i: nat, w: string) {
    i + |w| <= |t| && t[i..i + |w|] == w
  }

  lemma HereSplit(t: string, i: nat, a: string, b: string)
    requires Here(t, i, a + b)
    ensures Here(t, i, a) && Here(t, i + |a|, b)
  {
    assert t[i..i + |a|] == t[i..i + |a + b|][..|a|];
    assert t[i + |a|..i + |a| + |b|] == t[i..i + |a + b|][|a|..];
  }

  lemma HereFirst(t: string, i: nat, w: string)
    requires Here(t, i, w) && |w| > 0
    ensures i < |t| && t[i] == w[0]
    ensures |w| > 1 ==> i + 1 < |t| && t[i + 1] == w[1]
  {
    assert t[i..i + |w|][0] == t[i];
    assert |w| > 1 ==> t[i..i + |w|][1] == t[i + 1];
  }

  lemma HereLength(t: string, i: nat, w: string)
    requires Here(t, i, w)
    ensures i + |w| <= |t|
  {
  }
}
