/** Vectors and matrices over exact reals: products, transposes and their laws. */
module MatrixAlgebra {

  type Vec = seq<real>
  type Mat = seq<seq<real>>

  /** The n-by-n part in the upper left corner exists. */
  predicate Covers(a: Mat, n: nat) {
    n <= |a| && forall i :: 0 <= i < |a| ==> n <= |a[i]|
  }

  /** Sum of a[k] * b[k] for k < n. */
  function Dot(a: Vec, b: Vec, n: nat): real
    requires n <= |a| && n <= |b|
  {
    if n == 0 then 0.0 else Dot(a, b, n - 1) + a[n - 1] * b[n - 1]
  }

  function Col(a: Mat, j: nat, n: nat): (v: Vec)
    requires Covers(a, n) && j < n
    ensures |v| == n && forall i :: 0 <= i < n ==> v[i] == a[i][j]
  {
    seq(n, i requires 0 <= i < n => a[i][j])
  }

  ghost predicate Agree(a: Mat, b: Mat, n: nat)
    requires Covers(a, n) && Covers(b, n)
  {
    forall i, j :: 0 <= i < n && 0 <= j < n ==> a[i][j] == b[i][j]
  }

  function Mul(a: Mat, b: Mat, n: nat): (c: Mat)
    requires Covers(a, n) && Covers(b, n)
    ensures |c| == n && forall i :: 0 <= i < n ==> |c[i]| == n
    ensures forall i, j :: 0 <= i < n && 0 <= j < n ==> c[i][j] == Dot(a[i], Col(b, j, n), n)
  {
    seq(n, i requires 0 <= i < n => seq(n, j requires 0 <= j < n => Dot(a[i], Col(b, j, n), n)))
  }

  function Transposed(a: Mat, n: nat): (t: Mat)
    requires Covers(a, n)
    ensures |t| == n && forall i :: 0 <= i < n ==> |t[i]| == n
    ensures forall i, j :: 0 <= i < n && 0 <= j < n ==> t[i][j] == a[j][i]
  {
    seq(n, i requires 0 <= i < n => Col(a, i, n))
  }

  function Delta(i: int, j: int): real {
    if i == j then 1.0 else 0.0
  }

  ghost predicate IsIdentity(a: Mat, n: nat)
    requires Covers(a, n)
  {
    forall i, j :: 0 <= i < n && 0 <= j < n ==> a[i][j] == Delta(i, j)
  }

  // ----- laws of the dot product -----

  lemma {:induction false} DotSame(a: Vec, a': Vec, b: Vec, b': Vec, n: nat)
    requires n <= |a| && n <= |a'| && n <= |b| && n <= |b'|
    requires forall k :: 0 <= k < n ==> a[k] == a'[k] && b[k] == b'[k]
    ensures Dot(a, b, n) == Dot(a', b', n)
  {
    if n > 0 {
      DotSame(a, a', b, b', n - 1);
    }
  }

  lemma {:induction false} DotCommutes(a: Vec, b: Vec, n: nat)
    requires n <= |a| && n <= |b|
    ensures Dot(a, b, n) == Dot(b, a, n)
  {
    if n > 0 {
      DotCommutes(a, b, n - 1);
    }
  }

  /** u = v + s * w under the dot product with x. */
  lemma {:induction false} DotLinear(u: Vec, v: Vec, s: real, w: Vec, x: Vec, n: nat)
    requires n <= |u| && n <= |v| && n <= |w| && n <= |x|
    requires forall k :: 0 <= k < n ==> u[k] == v[k] + s * w[k]
    ensures Dot(u, x, n) == Dot(v, x, n) + s * Dot(w, x, n)
  {
    if n > 0 {
      DotLinear(u, v, s, w, x, n - 1);
      Distribute(Dot(v, x, n - 1), Dot(w, x, n - 1), v[n - 1], s, w[n - 1], x[n - 1]);
    }
  }

  lemma {:induction false} DotAdd(u: Vec, v: Vec, w: Vec, x: Vec, n: nat)
    requires n <= |u| && n <= |v| && n <= |w| && n <= |x|
    requires forall k :: 0 <= k < n ==> u[k] == v[k] + w[k]
    ensures Dot(u, x, n) == Dot(v, x, n) + Dot(w, x, n)
  {
    if n > 0 {
      DotAdd(u, v, w, x, n - 1);
      assert (v[n - 1] + w[n - 1]) * x[n - 1] == v[n - 1] * x[n - 1] + w[n - 1] * x[n - 1];
    }
  }

  lemma Distribute(p: real, q: real, v: real, s: real, w: real, x: real)
    ensures (p + s * q) + (v + s * w) * x == (p + v * x) + s * (q + w * x)
  {
  }

  /** All terms of the sum from lo on are zero. */
  lemma {:induction false} DotTruncates(a: Vec, b: Vec, lo: nat, n: nat)
    requires lo <= n <= |a| && n <= |b|
    requires forall k :: lo <= k < n ==> a[k] == 0.0 || b[k] == 0.0
    ensures Dot(a, b, n) == Dot(a, b, lo)
    decreases n
  {
    if lo < n {
      DotTruncates(a, b, lo, n - 1);
    }
  }

  lemma DotUnit(a: Vec, e: Vec, j: nat, n: nat)
    requires j < n <= |a| && n <= |e|
    requires forall k :: 0 <= k < n ==> e[k] == Delta(k, j)
    ensures Dot(a, e, n) == a[j]
  {
    DotTruncates(a, e, j + 1, n);
    DotTruncates(a, e, 0, j);
  }

  // ----- laws of the matrix product -----

  /** The row vector a * b, using the first m rows of b. */
  function RowTimes(a: Vec, b: Mat, m: nat, n: nat): (v: Vec)
    requires Covers(b, n) && m <= n && m <= |a|
    ensures |v| == n && forall k :: 0 <= k < n ==> v[k] == Dot(a, Col(b, k, n), m)
  {
    seq(n, k requires 0 <= k < n => Dot(a, Col(b, k, n), m))
  }

  function TimesColumn(b: Mat, x: Vec, n: nat): (v: Vec)
    requires Covers(b, n) && n <= |x|
    ensures |v| == n && forall j :: 0 <= j < n ==> v[j] == Dot(b[j], x, n)
  {
    seq(n, j requires 0 <= j < n => Dot(b[j], x, n))
  }

  lemma OneMoreRow(a: Vec, b: Mat, m: nat, n: nat)
    requires Covers(b, n) && 0 < m <= n && m <= |a|
    ensures forall k :: 0 <= k < n ==>
      RowTimes(a, b, m, n)[k] == RowTimes(a, b, m - 1, n)[k] + a[m - 1] * b[m - 1][k]
  {
    forall k | 0 <= k < n
      ensures RowTimes(a, b, m, n)[k] == RowTimes(a, b, m - 1, n)[k] + a[m - 1] * b[m - 1][k]
    {
      assert Col(b, k, n)[m - 1] == b[m - 1][k];
    }
  }

  /** (a * b) * x == a * (b * x), with the sum over the rows of b cut at m. */
  lemma {:induction false} Exchange(a: Vec, b: Mat, x: Vec, m: nat, n: nat)
    requires Covers(b, n) && m <= n && m <= |a| && n <= |x|
    ensures Dot(RowTimes(a, b, m, n), x, n) == Dot(a, TimesColumn(b, x, n), m)
    decreases m
  {
    hide RowTimes, TimesColumn, Col;
    if m == 0 {
      DotTruncates(RowTimes(a, b, 0, n), x, 0, n);
    } else {
      Exchange(a, b, x, m - 1, n);
      OneMoreRow(a, b, m, n);
      DotLinear(RowTimes(a, b, m, n), RowTimes(a, b, m - 1, n), a[m - 1], b[m - 1], x, n);
    }
  }

  lemma MulAssociates(a: Mat, b: Mat, c: Mat, n: nat)
    requires Covers(a, n) && Covers(b, n) && Covers(c, n)
    ensures Mul(Mul(a, b, n), c, n) == Mul(a, Mul(b, c, n), n)
  {
    var ab, bc := Mul(a, b, n), Mul(b, c, n);
    forall i, j | 0 <= i < n && 0 <= j < n
      ensures Dot(ab[i], Col(c, j, n), n) == Dot(a[i], Col(bc, j, n), n)
    {
      var x := Col(c, j, n);
      assert ab[i] == RowTimes(a[i], b, n, n);
      assert Col(bc, j, n) == TimesColumn(b, x, n);
      Exchange(a[i], b, x, n, n);
    }
    SameEntries(Mul(ab, c, n), Mul(a, bc, n), n);
  }

  lemma SameEntries(a: Mat, b: Mat, n: nat)
    requires |a| == n && |b| == n && forall i :: 0 <= i < n ==> |a[i]| == n && |b[i]| == n
    requires forall i, j :: 0 <= i < n && 0 <= j < n ==> a[i][j] == b[i][j]
    ensures a == b
  {
    forall i | 0 <= i < n ensures a[i] == b[i] {
      assert forall j :: 0 <= j < n ==> a[i][j] == b[i][j];
    }
  }

  lemma TransposeOfProduct(a: Mat, b: Mat, n: nat)
    requires Covers(a, n) && Covers(b, n)
    ensures Transposed(Mul(a, b, n), n) == Mul(Transposed(b, n), Transposed(a, n), n)
  {
    var l, r := Transposed(Mul(a, b, n), n), Mul(Transposed(b, n), Transposed(a, n), n);
    forall i, j | 0 <= i < n && 0 <= j < n ensures l[i][j] == r[i][j] {
      assert Col(Transposed(a, n), j, n) == a[j][..n];
      DotCommutes(a[j], Col(b, i, n), n);
      DotSame(Transposed(b, n)[i], Col(b, i, n), Col(Transposed(a, n), j, n), a[j], n);
    }
    SameEntries(l, r, n);
  }

  lemma IdentityLeft(e: Mat, a: Mat, n: nat)
    requires Covers(e, n) && Covers(a, n) && IsIdentity(e, n)
    ensures Agree(Mul(e, a, n), a, n)
  {
    forall i, j | 0 <= i < n && 0 <= j < n ensures Mul(e, a, n)[i][j] == a[i][j] {
      DotCommutes(e[i], Col(a, j, n), n);
      DotUnit(Col(a, j, n), e[i], i, n);
    }
  }

  lemma MulRespects(a: Mat, a': Mat, b: Mat, b': Mat, n: nat)
    requires Covers(a, n) && Covers(a', n) && Covers(b, n) && Covers(b', n)
    requires Agree(a, a', n) && Agree(b, b', n)
    ensures Mul(a, b, n) == Mul(a', b', n)
  {
    forall i, j | 0 <= i < n && 0 <= j < n ensures Mul(a, b, n)[i][j] == Mul(a', b', n)[i][j] {
      DotSame(a[i], a'[i], Col(b, j, n), Col(b', j, n), n);
    }
    SameEntries(Mul(a, b, n), Mul(a', b', n), n);
  }
}
