/** Numbers and sequences that several modules need. */
module Sequences {

  function Min(a: nat, b: nat): nat {
    if a <= b then a else b
  }

  function Max(a: nat, b: nat): nat {
    if a >= b then a else b
  }

  ghost predicate Distinct<T>(s: seq<T>) {
    forall i, j :: 0 <= i < j < |s| ==> s[i] != s[j]
  }

  lemma SlicesShrink<T>(s: seq<T>, a: nat, b: nat, n: nat)
    requires 0 < n && a + n <= |s| && b + n <= |s| && s[a..a + n] == s[b..b + n]
    ensures s[a..a + (n - 1)] == s[b..b + (n - 1)] && s[a + (n - 1)] == s[b + (n - 1)]
  {
    assert s[a..a + n][..n - 1] == s[a..a + (n - 1)] && s[b..b + n][..n - 1] == s[b..b + (n - 1)];
    assert s[a..a + n][n - 1] == s[a + (n - 1)] && s[b..b + n][n - 1] == s[b + (n - 1)];
  }

  lemma SlicesGrow<T>(s: seq<T>, a: nat, b: nat, n: nat)
    requires a + n < |s| && b + n < |s| && s[a..a + n] == s[b..b + n] && s[a + n] == s[b + n]
    ensures s[a..a + (n + 1)] == s[b..b + (n + 1)]
  {
    assert s[a..a + (n + 1)] == s[a..a + n] + [s[a + n]];
    assert s[b..b + (n + 1)] == s[b..b + n] + [s[b + n]];
  }

  /** The first position whose element has no smaller key, or the end. */
  ghost function Place<T>(s: seq<T>, key: T -> int, p: int): (k: nat)
    ensures k <= |s| && (forall i :: 0 <= i < k ==> key(s[i]) < p) && (k < |s| ==> p <= key(s[k]))
  {
    if s == [] || p <= key(s[0]) then 0 else 1 + Place(s[1..], key, p)
  }

  lemma {:induction false} PlaceIs<T>(s: seq<T>, key: T -> int, p: int, k: nat)
    requires k <= |s| && (forall i :: 0 <= i < k ==> key(s[i]) < p) && (k < |s| ==> p <= key(s[k]))
    ensures Place(s, key, p) == k
    decreases k
  {
    if k > 0 {
      PlaceIs(s[1..], key, p, k - 1);
    }
  }
}
