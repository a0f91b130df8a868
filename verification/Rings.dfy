/** Positions of an endless sequence in a ring of n slots. */
module Rings {

  /** k % n */
  function At(k: nat, n: nat): (r: nat)
    requires n > 0
    ensures r < n && (k < n ==> r == k)
  {
    if k < n then k else At(k - n, n)
  }

  lemma {:induction false} Ahead(k: nat, d: nat, n: nat)
    requires n > 0 && d <= n
    ensures At(k + d, n) == if At(k, n) + d < n then At(k, n) + d else At(k, n) + d - n
    decreases k
  {
    if k >= n {
      Ahead(k - n, d, n);
    }
  }

  lemma Wrapped(k: nat, d: nat, n: nat)
    requires n > 0 && d <= n
    ensures At(k + d, n) == (At(k, n) + d) % n
  {
    Ahead(k, d, n);
    ModOnce(At(k, n) + d, n);
  }

  lemma ModOnce(y: nat, n: nat)
    requires n > 0 && y < 2 * n
    ensures y % n == if y < n then y else y - n
  {
    var q := y / n;
    assert y == q * n + y % n;
    assert q <= 1;
    if q == 1 {
      assert q * n == n;
    } else {
      assert q * n == 0;
    }
  }

  lemma Next(k: nat, n: nat)
    requires n > 0
    ensures At(k + 1, n) == (At(k, n) + 1) % n
  {
    Ahead(k, 1, n);
  }

  /** Positions less than n apart are in different slots. */
  lemma Apart(a: nat, b: nat, n: nat)
    requires a < b < a + n
    ensures At(a, n) != At(b, n)
  {
    Ahead(a, b - a, n);
  }
}
