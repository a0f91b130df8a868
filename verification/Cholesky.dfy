/** The Cholesky factor of a symmetric matrix, and the inverse built from it. */
module Cholesky {
  import opened MatrixAlgebra
  import opened LuFactors
  import opened MatrixInverse
  import opened SmallInverse

  // ----- the factor -----

  ghost predicate IsSqrt(sqrt: real -> real) {
    forall x: real {:trigger sqrt(x)} :: x > 0.0 ==> sqrt(x) > 0.0 && sqrt(x) * sqrt(x) == x
  }

  ghost predicate Symmetric(A: Mat, n: nat)
    requires Covers(A, n)
  {
    forall i, j :: 0 <= i < n && 0 <= j < n ==> A[i][j] == A[j][i]
  }

  ghost predicate LowerTriangular(L: Mat, n: nat)
    requires Covers(L, n)
  {
    forall i, j :: 0 <= i < n && 0 <= j < n && i < j ==> L[i][j] == 0.0
  }

  ghost predicate PositiveDiagonal(L: Mat, n: nat)
    requires Covers(L, n)
  {
    forall i :: 0 <= i < n ==> L[i][i] > 0.0
  }

  /** Entry (i, j), i >= j, of a factor: its product with row j up to column j gives A[i][j]. */
  ghost predicate EntryFits(A: Mat, L: Mat, i: nat, j: nat, n: nat)
    requires Covers(A, n) && Covers(L, n) && j <= i < n
  {
    Dot(L[i], L[j], j) + L[i][j] * L[j][j] == A[i][j]
  }

  /** What one pass of the loop body makes of entry (i, j). */
  ghost predicate EntryComputed(A: Mat, L: Mat, i: nat, j: nat, n: nat, sqrt: real -> real)
    requires Covers(A, n) && Covers(L, n) && j <= i < n
  {
    var rest := A[i][j] - Dot(L[i], L[j], j);
    if i == j then L[j][j] == (if rest <= 0.0 then 0.0 else sqrt(rest))
    else L[i][j] == (if L[j][j] <= 0.0 then 0.0 else rest / L[j][j])
  }

  /** The matrix that the decomposition computes. */
  ghost predicate Computed(A: Mat, L: Mat, n: nat, sqrt: real -> real) {
    && Covers(A, n) && Covers(L, n) && LowerTriangular(L, n)
    && forall i, j :: 0 <= j <= i < n ==> EntryComputed(A, L, i, j, n, sqrt)
  }

  /** L * L^T == A, with L lower triangular. */
  ghost predicate IsFactor(A: Mat, L: Mat, n: nat) {
    && Covers(A, n) && Covers(L, n) && LowerTriangular(L, n)
    && Agree(Mul(L, Transposed(L, n), n), A, n)
  }

  lemma DotStep(a: Vec, b: Vec, j: nat)
    requires j < |a| && j < |b|
    ensures Dot(a, b, j + 1) == Dot(a, b, j) + a[j] * b[j]
  {
  }

  lemma DotLower(L: Mat, n: nat, i: nat, j: nat)
    requires Covers(L, n) && LowerTriangular(L, n) && j <= i < n
    ensures Dot(L[i], L[j], n) == Dot(L[i], L[j], j) + L[i][j] * L[j][j]
  {
    hide Dot;
    DotTail(L[i], L[j], j, n);
  }

  lemma DotTail(a: Vec, b: Vec, j: nat, n: nat)
    requires j < n <= |a| && n <= |b| && forall k :: j < k < n ==> b[k] == 0.0
    ensures Dot(a, b, n) == Dot(a, b, j) + a[j] * b[j]
  {
    DotTruncates(a, b, j + 1, n);
    DotStep(a, b, j);
    hide Dot;
  }

  lemma RowsProduct(L: Mat, n: nat, i: nat, j: nat)
    requires Covers(L, n) && LowerTriangular(L, n) && j <= i < n
    ensures Mul(L, Transposed(L, n), n)[i][j] == Dot(L[i], L[j], j) + L[i][j] * L[j][j]
    ensures Mul(L, Transposed(L, n), n)[j][i] == Dot(L[i], L[j], j) + L[i][j] * L[j][j]
  {
    hide Dot, Mul, Transposed, Col;
    DotLower(L, n, i, j);
    DotSame(L[i], L[i], Col(Transposed(L, n), j, n), L[j], n);
    DotSame(L[j], L[j], Col(Transposed(L, n), i, n), L[i], n);
    DotCommutes(L[j], L[i], n);
  }

  lemma EntrySolved(A: Mat, L: Mat, i: nat, j: nat, n: nat, sqrt: real -> real)
    requires Covers(A, n) && Covers(L, n) && j <= i < n && IsSqrt(sqrt)
    requires EntryComputed(A, L, i, j, n, sqrt) && L[j][j] > 0.0
    ensures EntryFits(A, L, i, j, n)
  {
    var rest := A[i][j] - Dot(L[i], L[j], j);
    if i == j {
      assert sqrt(rest) * sqrt(rest) == rest;
    } else {
      DivideBack(rest, L[j][j]);
    }
  }

  /** With positive pivots the computed matrix is a factor. */
  lemma ComputedIsFactor(A: Mat, L: Mat, n: nat, sqrt: real -> real)
    requires Computed(A, L, n, sqrt) && IsSqrt(sqrt) && Symmetric(A, n) && PositiveDiagonal(L, n)
    ensures IsFactor(A, L, n)
  {
    forall i, j | 0 <= i < n && 0 <= j < n ensures Mul(L, Transposed(L, n), n)[i][j] == A[i][j] {
      var hi, lo := if i >= j then i else j, if i >= j then j else i;
      assert EntryComputed(A, L, hi, lo, n, sqrt);
      EntrySolved(A, L, hi, lo, n, sqrt);
      RowsProduct(L, n, hi, lo);
      assert A[i][j] == A[j][i];
    }
  }

  lemma RootsEqual(x: real, y: real)
    requires x > 0.0 && y > 0.0 && x * x == y * y
    ensures x == y
  {
    assert (x - y) * (x + y) == 0.0;
  }

  lemma DivideOut(x: real, d: real, p: real)
    requires d != 0.0 && x * d == p
    ensures p / d == x
  {
  }

  /** Column j of the computed matrix is column j of any factor with a positive diagonal. */
  lemma {:induction false} ColumnsEqual(A: Mat, L: Mat, G: Mat, n: nat, sqrt: real -> real, m: nat)
    requires Computed(A, L, n, sqrt) && IsSqrt(sqrt)
    requires IsFactor(A, G, n) && PositiveDiagonal(G, n) && m <= n
    ensures forall i, j :: 0 <= i < n && 0 <= j < m && j <= i ==> L[i][j] == G[i][j]
    decreases m
  {
    if m > 0 {
      var j := m - 1;
      ColumnsEqual(A, L, G, n, sqrt, j);
      EntryEqual(A, L, G, n, sqrt, j, j);
      forall i | j < i < n ensures L[i][j] == G[i][j] {
        EntryEqual(A, L, G, n, sqrt, i, j);
      }
    }
  }

  lemma EntryEqual(A: Mat, L: Mat, G: Mat, n: nat, sqrt: real -> real, i: nat, j: nat)
    requires Computed(A, L, n, sqrt) && IsSqrt(sqrt)
    requires IsFactor(A, G, n) && PositiveDiagonal(G, n) && j <= i < n
    requires forall a, k :: 0 <= a < n && 0 <= k < j && k <= a ==> L[a][k] == G[a][k]
    requires i != j ==> L[j][j] == G[j][j]
    ensures L[i][j] == G[i][j]
  {
    assert EntryComputed(A, L, i, j, n, sqrt);
    DotSame(L[i], G[i], L[j], G[j], j);
    RowsProduct(G, n, i, j);
    var rest := A[i][j] - Dot(L[i], L[j], j);
    assert rest == G[i][j] * G[j][j];
    if i == j {
      assert rest > 0.0;
      RootsEqual(sqrt(rest), G[j][j]);
    } else {
      DivideOut(G[i][j], G[j][j], rest);
    }
  }

  /** The pivots are all positive exactly when A has a factor with positive diagonal, which is then the result. */
  lemma PositiveIffFactorable(A: Mat, L: Mat, n: nat, sqrt: real -> real)
    requires Computed(A, L, n, sqrt) && IsSqrt(sqrt) && Symmetric(A, n)
    ensures PositiveDiagonal(L, n) <==> exists G :: IsFactor(A, G, n) && PositiveDiagonal(G, n)
    ensures forall G :: IsFactor(A, G, n) && PositiveDiagonal(G, n) ==> Agree(L, G, n)
  {
    if PositiveDiagonal(L, n) {
      ComputedIsFactor(A, L, n, sqrt);
    }
    forall G | IsFactor(A, G, n) && PositiveDiagonal(G, n) ensures Agree(L, G, n) {
      ColumnsEqual(A, L, G, n, sqrt, n);
    }
  }

  // ----- the decomposition -----

  /** The innermost loop: the products of rows i and j up to column j. */
  method RowDot(L: array2<real>, i: nat, j: nat, M: nat) returns (sum: real)
    requires Square(L, M) && i < M && j < M
    ensures sum == Dot(Entries(L)[i], Entries(L)[j], j)
  {
    sum := 0.0;
    ghost var a, b := Entries(L)[i], Entries(L)[j];
    for k := 0 to j
      invariant sum == Dot(a, b, k)
    {
      sum := sum + L[i, k] * L[j, k];
    }
  }

  /** Columns before j, and rows before i of column j, are final; the rest is zero. */
  ghost predicate Filled(A: Mat, L: Mat, j: nat, i: nat, n: nat, sqrt: real -> real)
    requires Covers(A, n) && Covers(L, n)
  {
    && (forall a, b :: 0 <= a < n && 0 <= b < n && (a < b || b > j || (b == j && a >= i)) ==> L[a][b] == 0.0)
    && (forall a, b :: 0 <= b <= a < n && (b < j || (b == j && a < i)) ==> EntryComputed(A, L, a, b, n, sqrt))
  }

  /** Writing entry (i, j) does not disturb the entries computed before. */
  lemma FillOne(A: Mat, L: Mat, L': Mat, j: nat, i: nat, n: nat, sqrt: real -> real)
    requires Covers(A, n) && Covers(L, n) && Covers(L', n) && j <= i < n
    requires Filled(A, L, j, i, n, sqrt) && EntryComputed(A, L', i, j, n, sqrt)
    requires forall a, b :: 0 <= a < n && 0 <= b < n && (a != i || b != j) ==> L'[a][b] == L[a][b]
    ensures Filled(A, L', j, i + 1, n, sqrt)
  {
    forall a, b | 0 <= b <= a < n && (b < j || (b == j && a < i + 1)) ensures EntryComputed(A, L', a, b, n, sqrt) {
      if a != i || b != j {
        assert EntryComputed(A, L, a, b, n, sqrt);
        DotSame(L[a], L'[a], L[b], L'[b], b);
      }
    }
  }

  /** The loop body: entry (i, j) from the entries before it. */
  method ComputeEntry(A: array2<real>, L: array2<real>, i: nat, j: nat, M: nat, sqrt: real -> real)
    requires Square(A, M) && Square(L, M) && A != L && j <= i < M && IsSqrt(sqrt)
    requires Filled(Entries(A), Entries(L), j, i, M, sqrt)
    modifies L
    ensures Filled(Entries(A), Entries(L), j, i + 1, M, sqrt)
  {
    hide Filled, EntryComputed, Dot, IsSqrt;
    ghost var Am, L0 := Entries(A), Entries(L);
    var sum := RowDot(L, i, j, M);
    var rest := A[i, j] - sum;
    if i == j {
      L[j, j] := if rest <= 0.0 then 0.0 else sqrt(rest);
    } else if L[j, j] <= 0.0 {
      L[i, j] := 0.0;
    } else {
      L[i, j] := rest / L[j, j];
    }
    NewEntry(Am, L0, Entries(L), i, j, M, sqrt);
    FillOne(Am, L0, Entries(L), j, i, M, sqrt);
  }

  method Decompose(A: array2<real>, M: nat, sqrt: real -> real) returns (L: array2<real>)
    requires Square(A, M) && IsSqrt(sqrt)
    ensures Square(L, M) && Computed(Entries(A), Entries(L), M, sqrt)
    ensures forall i, j :: 0 <= i < j < M ==> L[i, j] == 0.0
    ensures forall i, j :: 0 <= j <= i < M ==> L[j, j] >= 0.0 && (L[j, j] == 0.0 ==> L[i, j] == 0.0)
  {
    hide Filled, EntryComputed, Dot, IsSqrt;
    L := new real[M, M]((i, j) => 0.0);
    ghost var Am := Entries(A);
    NothingFilled(Am, Entries(L), M, sqrt);
    for j := 0 to M
      invariant Entries(A) == Am
      invariant Filled(Am, Entries(L), j, j, M, sqrt)
    {
      for i := j to M
        invariant Entries(A) == Am
        invariant Filled(Am, Entries(L), j, i, M, sqrt)
      {
        ComputeEntry(A, L, i, j, M, sqrt);
      }
      NextColumn(Am, Entries(L), j, M, sqrt);
    }
    AllFilled(Am, Entries(L), M, sqrt);
    ZeroColumns(Am, Entries(L), M, sqrt);
  }

  /** No pivot is negative, and below a zero pivot is nothing. */
  lemma ZeroColumns(A: Mat, L: Mat, n: nat, sqrt: real -> real)
    requires Computed(A, L, n, sqrt) && IsSqrt(sqrt)
    ensures forall i, j :: 0 <= i < j < n ==> L[i][j] == 0.0
    ensures forall i, j :: 0 <= j <= i < n ==> L[j][j] >= 0.0 && (L[j][j] == 0.0 ==> L[i][j] == 0.0)
  {
    forall i, j | 0 <= j <= i < n ensures L[j][j] >= 0.0 && (L[j][j] == 0.0 ==> L[i][j] == 0.0) {
      assert EntryComputed(A, L, j, j, n, sqrt) && EntryComputed(A, L, i, j, n, sqrt);
    }
  }

  lemma NothingFilled(A: Mat, L: Mat, n: nat, sqrt: real -> real)
    requires Covers(A, n) && Covers(L, n) && forall a, b :: 0 <= a < n && 0 <= b < n ==> L[a][b] == 0.0
    ensures Filled(A, L, 0, 0, n, sqrt)
  {
  }

  lemma NextColumn(A: Mat, L: Mat, j: nat, n: nat, sqrt: real -> real)
    requires Covers(A, n) && Covers(L, n) && j < n && Filled(A, L, j, n, n, sqrt)
    ensures Filled(A, L, j + 1, j + 1, n, sqrt)
  {
  }

  lemma AllFilled(A: Mat, L: Mat, n: nat, sqrt: real -> real)
    requires Covers(A, n) && Covers(L, n) && Filled(A, L, n, n, n, sqrt)
    ensures Computed(A, L, n, sqrt)
  {
  }

  lemma NewEntry(A: Mat, L: Mat, L': Mat, i: nat, j: nat, n: nat, sqrt: real -> real)
    requires Covers(A, n) && Covers(L, n) && Covers(L', n) && j <= i < n
    requires forall a, b :: 0 <= a < n && 0 <= b < n && (a != i || b != j) ==> L'[a][b] == L[a][b]
    requires var rest := A[i][j] - Dot(L[i], L[j], j);
      if i == j then L'[j][j] == (if rest <= 0.0 then 0.0 else sqrt(rest))
      else L'[i][j] == (if L[j][j] <= 0.0 then 0.0 else rest / L[j][j])
    ensures EntryComputed(A, L', i, j, n, sqrt)
  {
    hide Dot;
    DotSame(L[i], L'[i], L[j], L'[j], j);
  }

  // ----- the inverse through the factor -----

  method Transpose(A: array2<real>, M: nat) returns (T: array2<real>)
    requires Square(A, M)
    ensures Square(T, M) && Entries(T) == Transposed(Entries(A), M)
  {
    T := new real[M, M]((i, j) requires 0 <= i < M && 0 <= j < M reads A => A[j, i]);
    SameEntries(Entries(T), Transposed(Entries(A), M), M);
  }

  /** The innermost loop of the product. */
  method AccumulateEntry(A: array2<real>, B: array2<real>, C: array2<real>, i: nat, k: nat, M: nat)
    requires Square(A, M) && Square(B, M) && Square(C, M) && C != A && C != B && i < M && k < M && C[i, k] == 0.0
    modifies C
    ensures C[i, k] == Mul(Entries(A), Entries(B), M)[i][k]
    ensures forall a, b :: 0 <= a < M && 0 <= b < M && (a != i || b != k) ==> C[a, b] == old(C[a, b])
  {
    hide Entries, Mul, Col;
    ghost var row, col := Entries(A)[i], Col(Entries(B), k, M);
    for j := 0 to M
      invariant C[i, k] == Dot(row, col, j)
      invariant forall a, b :: 0 <= a < M && 0 <= b < M && (a != i || b != k) ==> C[a, b] == old(C[a, b])
    {
      assert A[i, j] == row[j] && B[j, k] == col[j];
      C[i, k] := C[i, k] + A[i, j] * B[j, k];
    }
  }

  method Multiply(A: array2<real>, B: array2<real>, M: nat) returns (C: array2<real>)
    requires Square(A, M) && Square(B, M)
    ensures Square(C, M) && Entries(C) == Mul(Entries(A), Entries(B), M)
  {
    hide Mul;
    ghost var Am, Bm, AB := Entries(A), Entries(B), Mul(Entries(A), Entries(B), M);
    C := new real[M, M]((i, j) => 0.0);
    for i := 0 to M
      invariant Entries(A) == Am && Entries(B) == Bm
      invariant forall a, b :: 0 <= a < M && 0 <= b < M ==> C[a, b] == if a < i then AB[a][b] else 0.0
    {
      for k := 0 to M
        invariant Entries(A) == Am && Entries(B) == Bm
        invariant forall a, b :: 0 <= a < M && 0 <= b < M ==>
          C[a, b] == if a < i || (a == i && b < k) then AB[a][b] else 0.0
      {
        AccumulateEntry(A, B, C, i, k, M);
      }
    }
    SameEntries(Entries(C), AB, M);
  }

  /** If L * L^T == A and R inverts L, then R^T * R inverts A. */
  lemma FactorInverse(A: Mat, L: Mat, R: Mat, n: nat)
    requires IsFactor(A, L, n) && Inverses(L, R, n)
    ensures Inverses(A, Mul(Transposed(R, n), R, n), n)
  {
    var Lt, Rt := Transposed(L, n), Transposed(R, n);
    var X := Mul(Rt, R, n);
    var LLt := Mul(L, Lt, n);
    assert IsIdentity(Mul(Lt, Rt, n), n) && IsIdentity(Mul(Rt, Lt, n), n) by {
      TransposeOfProduct(R, L, n);
      TransposeOfProduct(L, R, n);
    }
    FourFold(L, Lt, Rt, R, n);
    FourFold(Rt, R, L, Lt, n);
    MulRespects(A, LLt, X, X, n);
    MulRespects(X, X, A, LLt, n);
  }

  /** If b * c and a * d are identities, so is (a * b) * (c * d). */
  lemma FourFold(a: Mat, b: Mat, c: Mat, d: Mat, n: nat)
    requires Covers(a, n) && Covers(b, n) && Covers(c, n) && Covers(d, n)
    requires IsIdentity(Mul(b, c, n), n) && IsIdentity(Mul(a, d, n), n)
    ensures IsIdentity(Mul(Mul(a, b, n), Mul(c, d, n), n), n)
  {
    var bc, cd := Mul(b, c, n), Mul(c, d, n);
    MulAssociates(a, b, cd, n);
    MulAssociates(b, c, d, n);
    IdentityLeft(bc, d, n);
    MulRespects(a, a, Mul(bc, d, n), d, n);
  }

  ghost predicate AllZero(X: Mat, n: nat)
    requires Covers(X, n)
  {
    forall i, j :: 0 <= i < n && 0 <= j < n ==> X[i][j] == 0.0
  }

  /** When the inversion of an M-by-M matrix fails: two and three rows go by the determinant, all others by LU. */
  ghost predicate Refused(A: Mat, M: nat)
    requires Covers(A, M)
  {
    if M == 2 then !Reaches(Det2(A))
    else if M == 3 then !Reaches(Det3(A))
    else GivesUp(A, M) && !SafeLower(A, M)
  }

  /** The inverse, or the zero matrix; a single row is the LU case, too. */
  method Inverse(A: array2<real>, M: nat) returns (X: array2<real>)
    requires Square(A, M)
    ensures Square(X, M)
    ensures Inverses(Entries(A), Entries(X), M) || (Refused(Entries(A), M) && AllZero(Entries(X), M))
  {
    hide Inverses, GivesUp, SafeLower, Det2, Det3;
    var ok;
    if M == 2 {
      ok, X := Inv2(A);
    } else if M == 3 {
      ok, X := Inv3(A);
    } else {
      ok, X := InvLU(A, M, M);
    }
    if !ok {
      X := new real[M, M]((i, j) => 0.0);
    }
  }

  /**
   * The inverse of a symmetric matrix with positive pivots, provided that the inversion of its
   * factor is not refused.
   */
  method CholeskyInv(A: array2<real>, M: nat, sqrt: real -> real) returns (X: array2<real>, ghost L: Mat)
    requires Square(A, M) && IsSqrt(sqrt)
    ensures Square(X, M) && Computed(Entries(A), L, M, sqrt)
    ensures Symmetric(Entries(A), M) && PositiveDiagonal(L, M) ==>
      Inverses(Entries(A), Entries(X), M) || (Refused(L, M) && AllZero(Entries(X), M))
  {
    hide Inverses, Refused, Computed, IsSqrt, Symmetric, PositiveDiagonal, IsFactor, AllZero;
    var factor := Decompose(A, M, sqrt);
    L := Entries(factor);
    var inverse := Inverse(factor, M);
    var transposed := Transpose(inverse, M);
    X := Multiply(transposed, inverse, M);
    if Symmetric(Entries(A), M) && PositiveDiagonal(L, M) {
      ComputedIsFactor(Entries(A), L, M, sqrt);
      if Inverses(L, Entries(inverse), M) {
        FactorInverse(Entries(A), L, Entries(inverse), M);
      } else {
        ZeroProduct(Entries(transposed), Entries(inverse), M);
      }
    }
  }

  /** A positive diagonal above the tolerance is never refused; two and three rows need it of the product. */
  lemma NotRefused(A: Mat, L: Mat, M: nat, sqrt: real -> real)
    requires Covers(A, M) && IsSqrt(sqrt) && Computed(A, L, M, sqrt) && PositiveDiagonal(L, M)
    requires forall i :: 0 <= i < M ==> Reaches(L[i][i])
    requires M == 2 ==> Reaches(L[0][0] * L[1][1])
    requires M == 3 ==> Reaches(L[0][0] * (L[1][1] * L[2][2]))
    ensures !Refused(L, M)
  {
    if M == 2 {
      assert L[0][1] == 0.0;
    } else if M == 3 {
      assert L[0][1] == 0.0 && L[0][2] == 0.0 && L[1][2] == 0.0;
    }
  }

  lemma ZeroProduct(A: Mat, B: Mat, n: nat)
    requires Covers(A, n) && Covers(B, n) && AllZero(B, n)
    ensures AllZero(Mul(A, B, n), n)
  {
    forall i, j | 0 <= i < n && 0 <= j < n ensures Mul(A, B, n)[i][j] == 0.0 {
      DotTruncates(A[i], Col(B, j, n), 0, n);
    }
  }
}
