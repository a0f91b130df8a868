/** What LU elimination with row swaps maintains, and why the two substitutions then invert. */
module LuFactors {
  import opened MatrixAlgebra
  import opened Sequences

  ghost predicate Permutes(perm: seq<nat>, inverse: seq<nat>, r: nat) {
    && |perm| == r && |inverse| == r
    && (forall i :: 0 <= i < r ==> perm[i] < r && inverse[perm[i]] == i)
    && (forall i :: 0 <= i < r ==> inverse[i] < r && perm[inverse[i]] == i)
  }

  /** L is unit lower triangular and filled only in its first n columns. */
  ghost predicate UnitLower(L: Mat, n: nat, r: nat)
    requires Covers(L, r)
  {
    forall i, j :: 0 <= i < r && 0 <= j < r && (n <= j || i <= j) ==> L[i][j] == Delta(i, j)
  }

  /** U is zero below the diagonal in its first n columns, with nonzero pivots. */
  ghost predicate Upper(U: Mat, n: nat, r: nat)
    requires Covers(U, r) && n <= r
  {
    && (forall i, k :: 0 <= i < r && 0 <= k < n && k < i ==> U[i][k] == 0.0)
    && (forall j :: 0 <= j < n ==> U[j][j] != 0.0)
  }

  /** Row perm[i] of A, rebuilt from the factors after n elimination steps. */
  ghost predicate RowRebuilt(A: Mat, L: Mat, U: Mat, perm: seq<nat>, n: nat, r: nat, i: nat)
    requires Covers(A, r) && Covers(L, r) && Covers(U, r) && n <= r
    requires i < r && |perm| == r && perm[i] < r
  {
    forall k :: 0 <= k < r ==> A[perm[i]][k] == RowTimes(L[i], U, Min(i, n), r)[k] + U[i][k]
  }

  ghost predicate Factored(A: Mat, L: Mat, U: Mat, perm: seq<nat>, inverse: seq<nat>, n: nat, r: nat) {
    && Covers(A, r) && Covers(L, r) && Covers(U, r) && n <= r
    && Permutes(perm, inverse, r)
    && UnitLower(L, n, r) && Upper(U, n, r)
    && forall i :: 0 <= i < r ==> RowRebuilt(A, L, U, perm, n, r, i)
  }

  // ----- the start -----

  lemma Unfactored(A: Mat, L: Mat, U: Mat, perm: seq<nat>, r: nat)
    requires Covers(A, r) && Covers(L, r) && Covers(U, r)
    requires Agree(A, U, r) && IsIdentity(L, r)
    requires |perm| == r && forall i :: 0 <= i < r ==> perm[i] == i
    ensures Factored(A, L, U, perm, perm, 0, r)
  {
  }

  // ----- swapping rows n and p -----

  function Swap(i: nat, n: nat, p: nat): nat {
    if i == n then p else if i == p then n else i
  }

  /** U with rows n and p swapped, and L with rows and columns n and p swapped. */
  ghost predicate RowsSwapped(U: Mat, U': Mat, n: nat, p: nat, r: nat)
    requires Covers(U, r) && Covers(U', r) && n < r && p < r
  {
    forall i, k :: 0 <= i < r && 0 <= k < r ==> U'[i][k] == U[Swap(i, n, p)][k]
  }

  ghost predicate Conjugated(L: Mat, L': Mat, n: nat, p: nat, r: nat)
    requires Covers(L, r) && Covers(L', r) && n < r && p < r
  {
    forall i, j :: 0 <= i < r && 0 <= j < r ==> L'[i][j] == L[Swap(i, n, p)][Swap(j, n, p)]
  }

  function SwapAt(s: seq<nat>, n: nat, p: nat): (t: seq<nat>)
    requires n < |s| && p < |s|
    ensures |t| == |s| && forall i :: 0 <= i < |s| ==> t[i] == s[Swap(i, n, p)]
  {
    s[n := s[p]][p := s[n]]
  }

  function SwapValues(s: seq<nat>, n: nat, p: nat): (t: seq<nat>)
    ensures |t| == |s| && forall i :: 0 <= i < |s| ==> t[i] == Swap(s[i], n, p)
  {
    seq(|s|, i requires 0 <= i < |s| => Swap(s[i], n, p))
  }

  lemma SwapKeepsShapes(L: Mat, U: Mat, L': Mat, U': Mat, n: nat, p: nat, r: nat)
    requires Covers(L, r) && Covers(U, r) && Covers(L', r) && Covers(U', r) && n < p < r
    requires UnitLower(L, n, r) && Upper(U, n, r)
    requires RowsSwapped(U, U', n, p, r) && Conjugated(L, L', n, p, r)
    ensures UnitLower(L', n, r) && Upper(U', n, r)
  {
    forall i, j | 0 <= i < r && 0 <= j < r && (n <= j || i <= j) ensures L'[i][j] == Delta(i, j) {
      var i0, j0 := Swap(i, n, p), Swap(j, n, p);
      assert L'[i][j] == L[i0][j0];
      assert n <= j0 || i0 <= j0;
    }
    forall i, k | 0 <= i < r && 0 <= k < n && k < i ensures U'[i][k] == 0.0 {
      assert U'[i][k] == U[Swap(i, n, p)][k];
    }
  }

  lemma SwapPermutes(perm: seq<nat>, inverse: seq<nat>, n: nat, p: nat, r: nat)
    requires Permutes(perm, inverse, r) && n < r && p < r
    ensures Permutes(SwapAt(perm, n, p), SwapValues(inverse, n, p), r)
  {
  }

  lemma SwapKeepsFactors(A: Mat, L: Mat, U: Mat, L': Mat, U': Mat, perm: seq<nat>, inverse: seq<nat>, n: nat, p: nat,
                         r: nat)
    requires Factored(A, L, U, perm, inverse, n, r) && n < p < r
    requires Covers(L', r) && Covers(U', r)
    requires RowsSwapped(U, U', n, p, r) && Conjugated(L, L', n, p, r)
    ensures Factored(A, L', U', SwapAt(perm, n, p), SwapValues(inverse, n, p), n, r)
  {
    hide RowsSwapped, Conjugated, UnitLower, Upper, RowRebuilt;
    SwapKeepsShapes(L, U, L', U', n, p, r);
    SwapPermutes(perm, inverse, n, p, r);
    forall i | 0 <= i < r ensures RowRebuilt(A, L', U', SwapAt(perm, n, p), n, r, i) {
      SwappedRow(A, L, U, L', U', perm, n, p, r, i);
    }
  }

  lemma SwappedRow(A: Mat, L: Mat, U: Mat, L': Mat, U': Mat, perm: seq<nat>, n: nat, p: nat, r: nat, i: nat)
    requires Covers(A, r) && Covers(L, r) && Covers(U, r) && Covers(L', r) && Covers(U', r)
    requires n < p < r && i < r && |perm| == r && forall k :: 0 <= k < r ==> perm[k] < r
    requires RowsSwapped(U, U', n, p, r) && Conjugated(L, L', n, p, r)
    requires RowRebuilt(A, L, U, perm, n, r, Swap(i, n, p))
    ensures RowRebuilt(A, L', U', SwapAt(perm, n, p), n, r, i)
  {
    var i0, m := Swap(i, n, p), Min(i, n);
    assert m == Min(i0, n);
    forall k | 0 <= k < r
      ensures A[perm[i0]][k] == RowTimes(L'[i], U', m, r)[k] + U'[i][k]
    {
      assert U'[i][k] == U[i0][k];
      forall j | 0 <= j < m ensures L[i0][j] == L'[i][j] && Col(U, k, r)[j] == Col(U', k, r)[j] {
        assert L'[i][j] == L[Swap(i, n, p)][Swap(j, n, p)];
        assert U'[j][k] == U[Swap(j, n, p)][k];
      }
      DotSame(L[i0], L'[i], Col(U, k, r), Col(U', k, r), m);
    }
  }

  // ----- one elimination step -----

  /** Column n is eliminated below the diagonal; the multipliers go to column n of L. */
  ghost predicate Eliminated(L: Mat, U: Mat, L': Mat, U': Mat, n: nat, r: nat)
    requires Covers(L, r) && Covers(U, r) && Covers(L', r) && Covers(U', r) && n < r
    requires U[n][n] != 0.0
  {
    && (forall i, j {:trigger L'[i][j]} :: 0 <= i < r && 0 <= j < r ==>
          L'[i][j] == if n < i && j == n then U[i][n] / U[n][n] else L[i][j])
    && (forall i, k {:trigger U'[i][k]} :: 0 <= i < r && 0 <= k < r ==>
          U'[i][k] == if n < i && n <= k then U[i][k] - L'[i][n] * U[n][k] else U[i][k])
  }

  lemma EliminationKeepsFactors(A: Mat, L: Mat, U: Mat, L': Mat, U': Mat, perm: seq<nat>, inverse: seq<nat>, n: nat,
                                r: nat)
    requires Factored(A, L, U, perm, inverse, n, r) && n < r
    requires Covers(L', r) && Covers(U', r) && U[n][n] != 0.0
    requires Eliminated(L, U, L', U', n, r)
    ensures Factored(A, L', U', perm, inverse, n + 1, r)
  {
    var n1 := n + 1;
    forall i | 0 <= i < r ensures RowRebuilt(A, L', U', perm, n1, r, i) {
      EliminatedRow(A, L, U, L', U', perm, n, r, i);
    }
    forall i, j | 0 <= i < r && 0 <= j < r && (n + 1 <= j || i <= j) ensures L'[i][j] == Delta(i, j) {
      assert L'[i][j] == L[i][j];
    }
    forall i, k | 0 <= i < r && 0 <= k < n + 1 && k < i ensures U'[i][k] == 0.0 {
      if k < n {
        assert U'[i][k] == U[i][k];
      } else {
        assert U'[i][n] == U[i][n] - L'[i][n] * U[n][n] && L'[i][n] == U[i][n] / U[n][n];
        Quotient(U[i][n], U[n][n]);
      }
    }
    forall j | 0 <= j < n + 1 ensures U'[j][j] != 0.0 {
      assert U'[j][j] == U[j][j];
    }
  }

  lemma Quotient(a: real, b: real)
    requires b != 0.0
    ensures a - (a / b) * b == 0.0
  {
  }

  lemma EliminatedEntry(L: Mat, U: Mat, L': Mat, U': Mat, n: nat, r: nat, i: nat, k: nat)
    requires Covers(L, r) && Covers(U, r) && Covers(L', r) && Covers(U', r)
    requires n < r && i < r && k < r && U[n][n] != 0.0
    requires Eliminated(L, U, L', U', n, r) && Upper(U, n, r)
    ensures Dot(L'[i], Col(U', k, r), Min(i, n + 1)) + U'[i][k] == Dot(L[i], Col(U, k, r), Min(i, n)) + U[i][k]
  {
    hide Dot;
    var m, c, c' := Min(i, n), Col(U, k, r), Col(U', k, r);
    forall j | 0 <= j < m ensures L[i][j] == L'[i][j] && c[j] == c'[j] {
      assert U'[j][k] == U[j][k];
    }
    DotSame(L[i], L'[i], c, c', m);
    var below := U'[i][k];
    assert below == if n < i && n <= k then U[i][k] - L'[i][n] * U[n][k] else U[i][k];
    if n < i {
      DotMore(L'[i], c', n + 1);
      assert U'[n][k] == U[n][k] && (k < n ==> U[n][k] == 0.0);
    }
  }

  lemma DotMore(a: Vec, b: Vec, n: nat)
    requires 0 < n <= |a| && n <= |b|
    ensures Dot(a, b, n) == Dot(a, b, n - 1) + a[n - 1] * b[n - 1]
  {
  }

  lemma EliminatedRow(A: Mat, L: Mat, U: Mat, L': Mat, U': Mat, perm: seq<nat>, n: nat, r: nat, i: nat)
    requires Covers(A, r) && Covers(L, r) && Covers(U, r) && Covers(L', r) && Covers(U', r)
    requires n < r && i < r && |perm| == r && perm[i] < r && U[n][n] != 0.0
    requires Eliminated(L, U, L', U', n, r) && Upper(U, n, r)
    requires RowRebuilt(A, L, U, perm, n, r, i)
    ensures RowRebuilt(A, L', U', perm, n + 1, r, i)
  {
    hide Dot, Eliminated, Upper;
    forall k | 0 <= k < r
      ensures A[perm[i]][k] == RowTimes(L'[i], U', Min(i, n + 1), r)[k] + U'[i][k]
    {
      assert A[perm[i]][k] == RowTimes(L[i], U, Min(i, n), r)[k] + U[i][k];
      EliminatedEntry(L, U, L', U', n, r, i, k);
    }
  }

  // ----- the substitutions -----

  /** L * y = p for unit lower triangular L. */
  ghost predicate SolvesLower(L: Mat, y: Vec, p: Vec, r: nat)
    requires Covers(L, r) && |y| == r && |p| == r
  {
    forall i :: 0 <= i < r ==> p[i] == y[i] + Dot(L[i], y, i)
  }

  ghost predicate SolvesUpper(U: Mat, x: Vec, y: Vec, r: nat)
    requires Covers(U, r) && |x| == r && |y| == r
  {
    forall i :: 0 <= i < r ==> Dot(U[i], x, r) == y[i]
  }

  /** The first |y| equations of L * y = p hold. */
  ghost predicate SolvesFirst(L: Mat, y: Vec, p: Vec, r: nat)
    requires Covers(L, r) && |y| <= r && |p| == r
  {
    forall i :: 0 <= i < |y| ==> p[i] == y[i] + Dot(L[i], y, i)
  }

  lemma SolvesOneMore(L: Mat, y: Vec, p: Vec, r: nat, v: real)
    requires Covers(L, r) && |y| < r && |p| == r && SolvesFirst(L, y, p, r)
    requires p[|y|] == v + Dot(L[|y|], y, |y|)
    ensures SolvesFirst(L, y + [v], p, r)
  {
    forall i | 0 <= i <= |y| ensures p[i] == (y + [v])[i] + Dot(L[i], y + [v], i) {
      DotSame(L[i], L[i], y, y + [v], i);
    }
  }

  /** The equations of U * x = y from lo on hold, and x is zero before lo. */
  ghost predicate SolvesLast(U: Mat, x: Vec, y: Vec, lo: nat, r: nat)
    requires Covers(U, r) && |x| == r && |y| == r
  {
    && (forall i :: 0 <= i < lo && i < r ==> x[i] == 0.0)
    && (forall i :: lo <= i < r ==> Dot(U[i], x, r) == y[i])
  }

  lemma {:induction false} DotUpdate(a: Vec, x: Vec, i: nat, v: real, n: nat)
    requires n <= |a| && n <= |x| && i < |x| && x[i] == 0.0
    ensures Dot(a, x[i := v], n) == Dot(a, x, n) + (if i < n then a[i] * v else 0.0)
  {
    if n > 0 {
      DotUpdate(a, x, i, v, n - 1);
    }
  }

  lemma SolvesOneBefore(U: Mat, x: Vec, y: Vec, i: nat, r: nat, v: real)
    requires Covers(U, r) && Upper(U, r, r) && |x| == r && |y| == r && i < r
    requires SolvesLast(U, x, y, i + 1, r) && v * U[i][i] == y[i] - Dot(U[i], x, r)
    ensures SolvesLast(U, x[i := v], y, i, r)
  {
    forall a | i <= a < r ensures Dot(U[a], x[i := v], r) == y[a] {
      DotUpdate(U[a], x, i, v, r);
      if i < a {
        assert U[a][i] == 0.0;
      }
    }
  }

  /** Solving L * y = e and U * x = y for a permuted unit column solves A * x = unit column. */
  lemma ColumnSolved(A: Mat, L: Mat, U: Mat, perm: seq<nat>, inverse: seq<nat>, r: nat, c: nat, p: Vec, y: Vec, x: Vec,
                     row: nat)
    requires Factored(A, L, U, perm, inverse, r, r) && c < r && row < r
    requires |p| == r && |y| == r && |x| == r
    requires forall i :: 0 <= i < r ==> p[i] == Delta(c, perm[i])
    requires SolvesLower(L, y, p, r) && SolvesUpper(U, x, y, r)
    ensures Dot(A[row], x, r) == Delta(row, c)
  {
    var i := inverse[row];
    assert RowRebuilt(A, L, U, perm, r, r, i);
    RowProduct(A, L, U, perm, r, i, x);
    DotSame(L[i], L[i], TimesColumn(U, x, r), y, i);
  }

  lemma RowProduct(A: Mat, L: Mat, U: Mat, perm: seq<nat>, r: nat, i: nat, x: Vec)
    requires Covers(A, r) && Covers(L, r) && Covers(U, r) && i < r && |perm| == r && perm[i] < r && |x| == r
    requires RowRebuilt(A, L, U, perm, r, r, i)
    ensures Dot(A[perm[i]], x, r) == Dot(L[i], TimesColumn(U, x, r), i) + Dot(U[i], x, r)
  {
    Exchange(L[i], U, x, i, r);
    var lu := RowTimes(L[i], U, i, r);
    assert forall k :: 0 <= k < r ==> A[perm[i]][k] == lu[k] + U[i][k];
    hide *;
    DotAdd(A[perm[i]], lu, U[i], x, r);
  }

  // ----- the inverse is two-sided -----

  lemma {:induction false} UpperPartVanishes(A: Mat, L: Mat, U: Mat, perm: seq<nat>, inverse: seq<nat>, r: nat, v: Vec,
                                             n: nat)
    requires Factored(A, L, U, perm, inverse, r, r) && |v| == r && n <= r
    requires forall i :: 0 <= i < r ==> Dot(A[i], v, r) == 0.0
    ensures forall i :: 0 <= i < n ==> Dot(U[i], v, r) == 0.0
    decreases n
  {
    if n > 0 {
      var i := n - 1;
      UpperPartVanishes(A, L, U, perm, inverse, r, v, i);
      assert RowRebuilt(A, L, U, perm, r, r, i);
      RowProduct(A, L, U, perm, r, i, v);
      DotTruncates(L[i], TimesColumn(U, v, r), 0, i);
    }
  }

  lemma {:induction false} UpperKernel(U: Mat, r: nat, v: Vec, n: nat)
    requires Covers(U, r) && Upper(U, r, r) && |v| == r && n <= r
    requires forall i :: 0 <= i < r ==> Dot(U[i], v, r) == 0.0
    ensures forall i :: r - n <= i < r ==> v[i] == 0.0
    decreases n
  {
    if n > 0 {
      UpperKernel(U, r, v, n - 1);
      var i := r - n;
      DotTruncates(U[i], v, i + 1, r);
      DotTruncates(U[i], v, 0, i);
      assert U[i][i] * v[i] == 0.0;
    }
  }

  /** A factored matrix sends only the zero vector to zero. */
  lemma Injective(A: Mat, L: Mat, U: Mat, perm: seq<nat>, inverse: seq<nat>, r: nat, v: Vec)
    requires Factored(A, L, U, perm, inverse, r, r) && |v| == r
    requires forall i :: 0 <= i < r ==> Dot(A[i], v, r) == 0.0
    ensures forall i :: 0 <= i < r ==> v[i] == 0.0
  {
    UpperPartVanishes(A, L, U, perm, inverse, r, v, r);
    UpperKernel(U, r, v, r);
  }

  lemma ColumnIsUnit(A: Mat, L: Mat, U: Mat, perm: seq<nat>, inverse: seq<nat>, Z: Mat, r: nat, j: nat)
    requires Factored(A, L, U, perm, inverse, r, r) && Covers(Z, r) && j < r
    requires Agree(Mul(A, Z, r), A, r)
    ensures forall i :: 0 <= i < r ==> Z[i][j] == Delta(i, j)
  {
    var z := Col(Z, j, r);
    var e := seq(r, i requires 0 <= i < r => Delta(i, j));
    var v := seq(r, i requires 0 <= i < r => z[i] + (-1.0) * e[i]);
    forall i | 0 <= i < r ensures Dot(A[i], v, r) == 0.0 {
      DotLinear(v, z, -1.0, e, A[i], r);
      DotCommutes(A[i], v, r);
      DotCommutes(A[i], z, r);
      DotCommutes(A[i], e, r);
      DotUnit(A[i], e, j, r);
      assert Mul(A, Z, r)[i][j] == A[i][j];
    }
    Injective(A, L, U, perm, inverse, r, v);
    forall i | 0 <= i < r ensures Z[i][j] == Delta(i, j) {
      assert v[i] == 0.0;
      assert z[i] == Z[i][j];
    }
  }

  lemma RightInverseIsLeft(A: Mat, L: Mat, U: Mat, perm: seq<nat>, inverse: seq<nat>, X: Mat, r: nat)
    requires Factored(A, L, U, perm, inverse, r, r) && Covers(X, r)
    requires IsIdentity(Mul(A, X, r), r)
    ensures IsIdentity(Mul(X, A, r), r)
  {
    var XA := Mul(X, A, r);
    MulAssociates(A, X, A, r);
    IdentityLeft(Mul(A, X, r), A, r);
    assert Agree(Mul(A, XA, r), A, r);
    forall i, j | 0 <= i < r && 0 <= j < r ensures XA[i][j] == Delta(i, j) {
      ColumnIsUnit(A, L, U, perm, inverse, XA, r, j);
    }
  }
}
