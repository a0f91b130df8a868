/** Inversion by LU factorization with row swaps, in place. */
module MatrixInverse {
  import opened MatrixAlgebra
  import opened LuFactors

  /** 2^-23, the machine epsilon of a 32-bit float. */
  const FLT_EPSILON: real := 1.0 / 8388608.0

  function Abs(x: real): real {
    if x < 0.0 then -x else x
  }

  /** At least 2^-23 in absolute value. */
  ghost predicate Reaches(x: real) {
    x <= -1.0 / 8388608.0 || 1.0 / 8388608.0 <= x
  }

  /** The matrix that an array holds. */
  ghost function Entries(a: array2<real>): (m: Mat)
    reads a
    ensures |m| == a.Length0
    ensures forall i :: 0 <= i < a.Length0 ==> |m[i]| == a.Length1
    ensures forall i, j :: 0 <= i < a.Length0 && 0 <= j < a.Length1 ==> m[i][j] == a[i, j]
  {
    seq(a.Length0, i requires 0 <= i < a.Length0 reads a =>
      seq(a.Length1, j requires 0 <= j < a.Length1 reads a => a[i, j]))
  }

  predicate Square(a: array2<real>, n: nat) {
    a.Length0 == a.Length1 == n
  }

  method SetIdentity(a: array2<real>)
    modifies a
    ensures forall i, j :: 0 <= i < a.Length0 && 0 <= j < a.Length1 ==> a[i, j] == Delta(i, j)
  {
    forall i, j | 0 <= i < a.Length0 && 0 <= j < a.Length1 {
      a[i, j] := 0.0;
    }
    var min := if a.Length0 > a.Length1 then a.Length1 else a.Length0;
    for i := 0 to min
      invariant forall r, c :: 0 <= r < a.Length0 && 0 <= c < a.Length1 ==>
        a[r, c] == if r < i then Delta(r, c) else 0.0
    {
      a[i, i] := 1.0;
    }
  }

  method SwapRows(m: array2<real>, a: nat, b: nat)
    requires a < m.Length0 && b < m.Length0
    modifies m
    ensures forall i, j :: 0 <= i < m.Length0 && 0 <= j < m.Length1 ==> m[i, j] == old(m[Swap(i, a, b), j])
  {
    if a == b {
      return;
    }
    for j := 0 to m.Length1
      invariant forall r, c :: 0 <= r < m.Length0 && 0 <= c < m.Length1 ==>
        m[r, c] == if c < j then old(m[Swap(r, a, b), c]) else old(m[r, c])
    {
      var tmp := m[a, j];
      m[a, j] := m[b, j];
      m[b, j] := tmp;
    }
  }

  method SwapCols(m: array2<real>, a: nat, b: nat)
    requires a < m.Length1 && b < m.Length1
    modifies m
    ensures forall i, j :: 0 <= i < m.Length0 && 0 <= j < m.Length1 ==> m[i, j] == old(m[i, Swap(j, a, b)])
  {
    if a == b {
      return;
    }
    for i := 0 to m.Length0
      invariant forall r, c :: 0 <= r < m.Length0 && 0 <= c < m.Length1 ==>
        m[r, c] == if r < i then old(m[r, Swap(c, a, b)]) else old(m[r, c])
    {
      var tmp := m[i, a];
      m[i, a] := m[i, b];
      m[i, b] := tmp;
    }
  }

  /** Row i of P is the unit row of perm[i]. */
  ghost predicate Selects(P: array2<real>, perm: seq<nat>, r: nat)
    requires r <= P.Length0 && r <= P.Length1
    reads P
  {
    |perm| == r && forall i, c :: 0 <= i < r && 0 <= c < r ==> P[i, c] == Delta(c, perm[i])
  }

  lemma FactoredShape(A: Mat, L: Mat, U: Mat, perm: seq<nat>, inverse: seq<nat>, n: nat, r: nat)
    requires Factored(A, L, U, perm, inverse, n, r)
    ensures |perm| == r && forall i :: 0 <= i < r ==> perm[i] < r
    ensures n <= r && Covers(U, r) && Upper(U, n, r)
  {
  }

  function Counting(n: nat): (s: seq<nat>)
    ensures |s| == n && forall i :: 0 <= i < n ==> s[i] == i
  {
    if n == 0 then [] else Counting(n - 1) + [n - 1]
  }

  /** Exchange rows n and p of U and P, and rows and columns n and p of L. */
  method SwapPivot(U: array2<real>, P: array2<real>, L: array2<real>, n: nat, p: nat, rank: nat, M: nat,
                   ghost A: Mat, ghost perm: seq<nat>, ghost inverse: seq<nat>)
    returns (ghost perm': seq<nat>, ghost inverse': seq<nat>)
    requires Square(U, M) && Square(P, M) && Square(L, M) && n < p < rank <= M
    requires U != P && U != L && P != L
    requires Factored(A, Entries(L), Entries(U), perm, inverse, n, rank) && Selects(P, perm, rank)
    modifies U, P, L
    ensures Factored(A, Entries(L), Entries(U), perm', inverse', n, rank) && Selects(P, perm', rank)
    ensures U[n, n] == old(U[p, n]) && forall i :: 0 <= i < n ==> U[i, i] == old(U[i, i])
  {
    hide Factored, RowsSwapped, Conjugated, Delta, Entries;
    FactoredShape(A, Entries(L), Entries(U), perm, inverse, n, rank);
    ghost var L0, U0 := Entries(L), Entries(U);
    SwapRows(U, p, n);
    SwapRows(P, p, n);
    SwapRows(L, p, n);
    SwapCols(L, p, n);
    perm', inverse' := SwapAt(perm, n, p), SwapValues(inverse, n, p);
    Swapped(L0, U0, Entries(L), Entries(U), n, p, rank);
    SwapKeepsFactors(A, L0, U0, Entries(L), Entries(U), perm, inverse, n, p, rank);
  }

  /** Bring a row with a usable entry in column n up to row n, if there is one. */
  method TryPivot(U: array2<real>, P: array2<real>, L: array2<real>, n: nat, rank: nat, M: nat,
                  ghost A: Mat, ghost perm: seq<nat>, ghost inverse: seq<nat>)
    returns (ghost perm': seq<nat>, ghost inverse': seq<nat>)
    requires Square(U, M) && Square(P, M) && Square(L, M) && n < rank <= M
    requires U != P && U != L && P != L
    requires Factored(A, Entries(L), Entries(U), perm, inverse, n, rank) && Selects(P, perm, rank)
    modifies U, P, L
    ensures Factored(A, Entries(L), Entries(U), perm', inverse', n, rank) && Selects(P, perm', rank)
    ensures Abs(U[n, n]) > FLT_EPSILON
      || ((forall i :: n < i < rank ==> Abs(U[i, n]) <= FLT_EPSILON)
          && Entries(U) == old(Entries(U)) && Entries(L) == old(Entries(L)))
    ensures forall i :: 0 <= i < n ==> U[i, i] == old(U[i, i])
  {
    hide Factored, Selects;
    perm', inverse' := perm, inverse;
    for i := n + 1 to rank
      invariant unchanged(U) && unchanged(P) && unchanged(L)
      invariant forall a :: n < a < i ==> Abs(U[a, n]) <= FLT_EPSILON
    {
      if Abs(U[i, n]) > FLT_EPSILON {
        perm', inverse' := SwapPivot(U, P, L, n, i, rank, M, A, perm, inverse);
        return;
      }
    }
  }

  lemma Swapped(L: Mat, U: Mat, L': Mat, U': Mat, n: nat, p: nat, r: nat)
    requires Covers(L, r) && Covers(U, r) && Covers(L', r) && Covers(U', r) && n < r && p < r
    requires forall i, k :: 0 <= i < r && 0 <= k < r ==> U'[i][k] == U[Swap(i, p, n)][k]
    requires forall i, j :: 0 <= i < r && 0 <= j < r ==> L'[i][j] == L[Swap(i, p, n)][Swap(j, p, n)]
    ensures RowsSwapped(U, U', n, p, r) && Conjugated(L, L', n, p, r)
  {
    forall i, j | 0 <= i < r && 0 <= j < r
      ensures L'[i][j] == L[Swap(i, n, p)][Swap(j, n, p)] && U'[i][j] == U[Swap(i, n, p)][j]
    {
      assert Swap(i, n, p) == Swap(i, p, n) && Swap(j, n, p) == Swap(j, p, n);
    }
  }

  /** Subtract the multiple of row n from row i that clears column n. */
  method EliminateRow(U: array2<real>, L: array2<real>, i: nat, n: nat, rank: nat, M: nat)
    requires Square(U, M) && Square(L, M) && n < i < rank <= M && U != L && U[n, n] != 0.0
    modifies U, L
    ensures forall a, b {:trigger L[a, b]} :: 0 <= a < M && 0 <= b < M ==>
      L[a, b] == if a == i && b == n then old(U[i, n] / U[n, n]) else old(L[a, b])
    ensures forall a, b {:trigger U[a, b]} :: 0 <= a < M && 0 <= b < M ==>
      U[a, b] == if a == i && n <= b < rank then old(U[i, b]) - L[i, n] * old(U[n, b]) else old(U[a, b])
  {
    L[i, n] := U[i, n] / U[n, n];
    ghost var l := L[i, n];
    for k := n to rank
      invariant L[i, n] == l
      invariant forall a, b {:trigger L[a, b]} :: 0 <= a < M && 0 <= b < M ==>
        L[a, b] == if a == i && b == n then l else old(L[a, b])
      invariant forall a, b {:trigger U[a, b]} :: 0 <= a < M && 0 <= b < M ==>
        U[a, b] == if a == i && n <= b < k then old(U[i, b]) - l * old(U[n, b]) else old(U[a, b])
    {
      U[i, k] := U[i, k] - L[i, n] * U[n, k];
    }
  }

  /** Entry (a, b) of L, and of U, once the rows below n and above i are eliminated. */
  ghost function LEntry(L0: Mat, U0: Mat, n: nat, r: nat, i: nat, a: nat, b: nat): real
    requires Covers(L0, r) && Covers(U0, r) && n < r && a < r && b < |L0[a]| && U0[n][n] != 0.0
  {
    if n < a < i && b == n then U0[a][n] / U0[n][n] else L0[a][b]
  }

  ghost function UEntry(U0: Mat, n: nat, r: nat, i: nat, a: nat, b: nat): real
    requires Covers(U0, r) && n < r && a < r && b < |U0[a]| && U0[n][n] != 0.0
  {
    if n < a < i && n <= b < r then U0[a][b] - (U0[a][n] / U0[n][n]) * U0[n][b] else U0[a][b]
  }

  method EliminateColumn(U: array2<real>, L: array2<real>, n: nat, rank: nat, M: nat)
    requires Square(U, M) && Square(L, M) && n < rank <= M && U != L && U[n, n] != 0.0
    modifies U, L
    ensures Eliminated(old(Entries(L)), old(Entries(U)), Entries(L), Entries(U), n, rank)
  {
    hide Entries;
    ghost var L0, U0 := Entries(L), Entries(U);
    for i := n + 1 to rank
      invariant forall a, b {:trigger L[a, b]} :: 0 <= a < rank && 0 <= b < rank ==>
        L[a, b] == LEntry(L0, U0, n, rank, i, a, b)
      invariant forall a, b {:trigger U[a, b]} :: 0 <= a < rank && 0 <= b < rank ==>
        U[a, b] == UEntry(U0, n, rank, i, a, b)
    {
      assert U[n, n] == UEntry(U0, n, rank, i, n, n);
      assert U[i, n] == UEntry(U0, n, rank, i, i, n);
      label before:
      EliminateRow(U, L, i, n, rank, M);
      assert L[i, n] == U0[i][n] / U0[n][n];
      forall a, b | 0 <= a < rank && 0 <= b < rank ensures U[a, b] == UEntry(U0, n, rank, i + 1, a, b) {
        assert old@before(U[a, b]) == UEntry(U0, n, rank, i, a, b);
        assert old@before(U[n, b]) == UEntry(U0, n, rank, i, n, b);
      }
    }
    Eliminates(L0, U0, Entries(L), Entries(U), n, rank);
  }

  lemma Eliminates(L: Mat, U: Mat, L': Mat, U': Mat, n: nat, r: nat)
    requires Covers(L, r) && Covers(U, r) && Covers(L', r) && Covers(U', r) && n < r && U[n][n] != 0.0
    requires forall a, b :: 0 <= a < r && 0 <= b < r ==> L'[a][b] == LEntry(L, U, n, r, r, a, b)
    requires forall a, b :: 0 <= a < r && 0 <= b < r ==> U'[a][b] == UEntry(U, n, r, r, a, b)
    ensures Eliminated(L, U, L', U', n, r)
  {
  }

  /** The innermost loop of both substitutions: subtract from entry (i, c) what the solved entries contribute. */
  method SubtractProducts(T: array2<real>, P: array2<real>, i: nat, c: nat, lo: nat, hi: nat, M: nat, ghost v: Vec)
    requires Square(T, M) && Square(P, M) && T != P && i < M && c < M && lo <= hi <= M
    requires i < lo || hi <= i
    requires hi <= |v| && forall j :: lo <= j < hi ==> v[j] == P[j, c]
    modifies P
    ensures P[i, c] == old(P[i, c]) - (Dot(Entries(T)[i], v, hi) - Dot(Entries(T)[i], v, lo))
    ensures forall a, b :: 0 <= a < M && 0 <= b < M && (a != i || b != c) ==> P[a, b] == old(P[a, b])
  {
    ghost var row := Entries(T)[i];
    for j := lo to hi
      invariant P[i, c] == old(P[i, c]) - (Dot(row, v, j) - Dot(row, v, lo))
      invariant forall a, b :: 0 <= a < M && 0 <= b < M && (a != i || b != c) ==> P[a, b] == old(P[a, b])
    {
      assert P[j, c] == v[j] && T[i, j] == row[j];
      P[i, c] := P[i, c] - T[i, j] * P[j, c];
    }
  }

  /** Column c of P is replaced by the solution of L * y = that column. */
  method ForwardColumn(L: array2<real>, P: array2<real>, c: nat, rank: nat, M: nat)
    requires Square(L, M) && Square(P, M) && c < rank <= M && L != P
    modifies P
    ensures SolvesLower(Entries(L), Col(Entries(P), c, rank), Col(old(Entries(P)), c, rank), rank)
    ensures forall a, b :: 0 <= a < M && 0 <= b < M && b != c ==> P[a, b] == old(P[a, b])
  {
    hide Dot, SolvesFirst, Entries;
    ghost var Lm, p := Entries(L), Col(Entries(P), c, rank);
    ghost var y: Vec := [];
    NoneSolved(Lm, p, rank);
    for i := 0 to rank
      invariant |y| == i && SolvesFirst(Lm, y, p, rank)
      invariant forall a :: 0 <= a < rank ==> P[a, c] == if a < i then y[a] else p[a]
      invariant forall a, b :: 0 <= a < M && 0 <= b < M && b != c ==> P[a, b] == old(P[a, b])
    {
      SubtractProducts(L, P, i, c, 0, i, M, y);
      DotNothing(Lm[i], y);
      SolvesOneMore(Lm, y, p, rank, P[i, c]);
      y := y + [P[i, c]];
    }
    assert Col(Entries(P), c, rank) == y;
    AllSolved(Lm, y, p, rank);
  }

  lemma DotNothing(a: Vec, b: Vec)
    ensures Dot(a, b, 0) == 0.0
  {
  }

  lemma NoneSolved(L: Mat, p: Vec, r: nat)
    requires Covers(L, r) && |p| == r
    ensures SolvesFirst(L, [], p, r)
  {
  }

  lemma AllSolved(L: Mat, y: Vec, p: Vec, r: nat)
    requires Covers(L, r) && |p| == r && |y| == r && SolvesFirst(L, y, p, r)
    ensures SolvesLower(L, y, p, r)
  {
  }

  /** Column c of P is replaced by the solution of U * x = that column. */
  method BackColumn(U: array2<real>, P: array2<real>, c: nat, rank: nat, M: nat)
    requires Square(U, M) && Square(P, M) && c < rank <= M && U != P && Upper(Entries(U), rank, rank)
    modifies P
    ensures SolvesUpper(Entries(U), Col(Entries(P), c, rank), Col(old(Entries(P)), c, rank), rank)
    ensures forall a, b :: 0 <= a < M && 0 <= b < M && b != c ==> P[a, b] == old(P[a, b])
  {
    hide Dot, Entries;
    ghost var Um, y := Entries(U), Col(Entries(P), c, rank);
    ghost var x: Vec := seq(rank, i => 0.0);
    for k := 0 to rank
      invariant |x| == rank && SolvesLast(Um, x, y, rank - k, rank)
      invariant forall a :: 0 <= a < rank ==> P[a, c] == if a < rank - k then y[a] else x[a]
      invariant forall a, b :: 0 <= a < M && 0 <= b < M && b != c ==> P[a, b] == old(P[a, b])
    {
      var i := rank - 1 - k;
      SubtractProducts(U, P, i, c, i + 1, rank, M, x);
      DotTruncates(Um[i], x, 0, i + 1);
      DotNothing(Um[i], x);
      assert U[i, i] == Um[i][i] != 0.0;
      DivideBack(P[i, c], U[i, i]);
      P[i, c] := P[i, c] / U[i, i];
      SolvesOneBefore(Um, x, y, i, rank, P[i, c]);
      x := x[i := P[i, c]];
    }
    assert Col(Entries(P), c, rank) == x;
  }

  lemma DivideBack(a: real, b: real)
    requires b != 0.0
    ensures (a / b) * b == a
  {
  }

  method ForwardSubstitution(L: array2<real>, P: array2<real>, rank: nat, M: nat)
    requires Square(L, M) && Square(P, M) && rank <= M && L != P
    modifies P
    ensures forall c :: 0 <= c < rank ==>
      SolvesLower(Entries(L), Col(Entries(P), c, rank), Col(old(Entries(P)), c, rank), rank)
  {
    hide Entries, SolvesLower;
    ghost var P0 := Entries(P);
    for c := 0 to rank
      invariant forall d :: 0 <= d < c ==> SolvesLower(Entries(L), Col(Entries(P), d, rank), Col(P0, d, rank), rank)
      invariant forall a, b :: 0 <= a < M && c <= b < M ==> P[a, b] == P0[a][b]
    {
      ghost var P1 := Entries(P);
      assert Col(P1, c, rank) == Col(P0, c, rank);
      ForwardColumn(L, P, c, rank, M);
      forall d | 0 <= d < c ensures SolvesLower(Entries(L), Col(Entries(P), d, rank), Col(P0, d, rank), rank) {
        assert Col(Entries(P), d, rank) == Col(P1, d, rank);
      }
    }
  }

  method BackSubstitution(U: array2<real>, P: array2<real>, rank: nat, M: nat)
    requires Square(U, M) && Square(P, M) && rank <= M && U != P && Upper(Entries(U), rank, rank)
    modifies P
    ensures forall c :: 0 <= c < rank ==>
      SolvesUpper(Entries(U), Col(Entries(P), c, rank), Col(old(Entries(P)), c, rank), rank)
  {
    hide Entries, SolvesUpper, Upper;
    ghost var P0 := Entries(P);
    for c := 0 to rank
      invariant forall d :: 0 <= d < c ==> SolvesUpper(Entries(U), Col(Entries(P), d, rank), Col(P0, d, rank), rank)
      invariant forall a, b :: 0 <= a < M && c <= b < M ==> P[a, b] == P0[a][b]
    {
      ghost var P1 := Entries(P);
      assert Col(P1, c, rank) == Col(P0, c, rank);
      BackColumn(U, P, c, rank, M);
      forall d | 0 <= d < c ensures SolvesUpper(Entries(U), Col(Entries(P), d, rank), Col(P0, d, rank), rank) {
        assert Col(Entries(P), d, rank) == Col(P1, d, rank);
      }
    }
  }

  /** Each is the inverse of the other on the leading r rows and columns. */
  ghost predicate Inverses(A: Mat, X: Mat, r: nat) {
    && Covers(A, r) && Covers(X, r)
    && IsIdentity(Mul(A, X, r), r) && IsIdentity(Mul(X, A, r), r)
  }

  /** Both substitutions together invert the factored matrix. */
  lemma SubstitutionsInvert(A: Mat, L: Mat, U: Mat, perm: seq<nat>, inverse: seq<nat>, P: Mat, Y: Mat, X: Mat, r: nat)
    requires Factored(A, L, U, perm, inverse, r, r) && Covers(P, r) && Covers(Y, r) && Covers(X, r)
    requires forall i, c :: 0 <= i < r && 0 <= c < r ==> P[i][c] == Delta(c, perm[i])
    requires forall c :: 0 <= c < r ==> SolvesLower(L, Col(Y, c, r), Col(P, c, r), r)
    requires forall c :: 0 <= c < r ==> SolvesUpper(U, Col(X, c, r), Col(Y, c, r), r)
    ensures Inverses(A, X, r)
  {
    forall i, j | 0 <= i < r && 0 <= j < r ensures Mul(A, X, r)[i][j] == Delta(i, j) {
      ColumnSolved(A, L, U, perm, inverse, r, j, Col(P, j, r), Col(Y, j, r), Col(X, j, r), i);
    }
    RightInverseIsLeft(A, L, U, perm, inverse, X, r);
  }

  /** Column n of some partial factorization of A holds no entry above the tolerance from row n down. */
  ghost predicate GivesUp(A: Mat, rank: nat) {
    exists L, U, perm, inverse, n :: NoPivot(A, L, U, perm, inverse, n, rank)
  }

  ghost predicate NoPivot(A: Mat, L: Mat, U: Mat, perm: seq<nat>, inverse: seq<nat>, n: nat, rank: nat) {
    && n < rank && Factored(A, L, U, perm, inverse, n, rank)
    && forall i :: n <= i < rank ==> -1.0 / 8388608.0 <= U[i][n] <= 1.0 / 8388608.0
  }

  /** A factorization of A whose pivots all reach the tolerance of 2^-23. */
  ghost predicate GoesThrough(A: Mat, rank: nat) {
    exists L, U, perm, inverse :: Factored(A, L, U, perm, inverse, rank, rank) && PivotsReach(U, rank, rank)
  }

  ghost predicate PivotsReach(U: Mat, n: nat, r: nat) {
    n <= r && Covers(U, r) && forall i :: 0 <= i < n ==> Reaches(U[i][i])
  }


  /** Lower triangular with a diagonal that the tolerance lets pass. */
  ghost predicate SafeLower(U: Mat, r: nat)
    requires Covers(U, r)
  {
    && (forall i, k :: 0 <= i < r && 0 <= k < r && i < k ==> U[i][k] == 0.0)
    && (forall i :: 0 <= i < r ==> Reaches(U[i][i]))
  }

  /** The part that is still to be eliminated is lower triangular with a safe diagonal. */
  ghost predicate SafeFrom(U: Mat, n: nat, r: nat)
    requires Covers(U, r) && n <= r
  {
    && (forall i, k :: 0 <= i < r && 0 <= k < r && i < k ==> U[i][k] == 0.0)
    && (forall i :: n <= i < r ==> Reaches(U[i][i]))
  }

  lemma SafeStep(L: Mat, U: Mat, L': Mat, U': Mat, n: nat, r: nat)
    requires Covers(L, r) && Covers(U, r) && Covers(L', r) && Covers(U', r) && n < r && U[n][n] != 0.0
    requires Eliminated(L, U, L', U', n, r) && SafeFrom(U, n, r)
    ensures SafeFrom(U', n + 1, r)
  {
    forall i, k | 0 <= i < r && 0 <= k < r && i <= k
      ensures U'[i][k] == (if n < i && n <= k then U[i][k] - L'[i][n] * U[n][k] else U[i][k])
      ensures n < i ==> U'[i][k] == U[i][k]
    {
      assert n < i ==> U[n][k] == 0.0;
    }
  }

  /** Elimination with row swaps.  It gives up only when no usable pivot is left. */
  method Eliminate(U: array2<real>, P: array2<real>, L: array2<real>, rank: nat, M: nat,
                   ghost A: Mat, ghost perm0: seq<nat>)
    returns (ok: bool, ghost perm: seq<nat>, ghost inverse: seq<nat>)
    requires Square(U, M) && Square(P, M) && Square(L, M) && rank <= M
    requires U != P && U != L && P != L
    requires Factored(A, Entries(L), Entries(U), perm0, perm0, 0, rank) && Selects(P, perm0, rank)
    modifies U, P, L
    ensures ok ==> Factored(A, Entries(L), Entries(U), perm, inverse, rank, rank) && Selects(P, perm, rank)
    ensures ok ==> PivotsReach(Entries(U), rank, rank)
    ensures !ok ==> GivesUp(A, rank) && !SafeLower(old(Entries(U)), rank)
  {
    hide Factored, Eliminated, SafeFrom, PivotsReach, Entries, Selects;
    perm, inverse := perm0, perm0;
    ghost var safe := SafeLower(Entries(U), rank);
    SafeStart(Entries(U), rank);
    NoPivotYet(Entries(U), rank);
    for n := 0 to rank
      invariant Factored(A, Entries(L), Entries(U), perm, inverse, n, rank) && Selects(P, perm, rank)
      invariant safe ==> SafeFrom(Entries(U), n, rank)
      invariant PivotsReach(Entries(U), n, rank)
    {
      SafePivot(Entries(U), n, rank);
      ghost var U1 := Entries(U);
      if Abs(U[n, n]) < FLT_EPSILON {
        perm, inverse := TryPivot(U, P, L, n, rank, M, A, perm, inverse);
      }
      if Abs(U[n, n]) < FLT_EPSILON {
        assert NoPivot(A, Entries(L), Entries(U), perm, inverse, n, rank);
        return false, perm, inverse;
      }
      ghost var L0, U0 := Entries(L), Entries(U);
      OneMorePivot(U1, U0, n, rank);
      EliminateColumn(U, L, n, rank, M);
      PivotsStay(L0, U0, Entries(L), Entries(U), n, rank);
      EliminationKeepsFactors(A, L0, U0, Entries(L), Entries(U), perm, inverse, n, rank);
      if safe {
        SafeStep(L0, U0, Entries(L), Entries(U), n, rank);
      }
    }
    ok := true;
  }

  lemma NoPivotYet(U: Mat, r: nat)
    requires Covers(U, r)
    ensures PivotsReach(U, 0, r)
  {
  }

  lemma OneMorePivot(U: Mat, U': Mat, n: nat, r: nat)
    requires PivotsReach(U, n, r) && n < r && Covers(U', r) && Abs(U'[n][n]) >= FLT_EPSILON
    requires forall i :: 0 <= i < n ==> U'[i][i] == U[i][i]
    ensures PivotsReach(U', n + 1, r)
  {
  }

  lemma PivotsStay(L: Mat, U: Mat, L': Mat, U': Mat, n: nat, r: nat)
    requires Covers(L, r) && Covers(U, r) && Covers(L', r) && Covers(U', r) && n < r && U[n][n] != 0.0
    requires Eliminated(L, U, L', U', n, r) && PivotsReach(U, n + 1, r)
    ensures PivotsReach(U', n + 1, r)
  {
  }

  lemma SafeStart(U: Mat, r: nat)
    requires Covers(U, r)
    ensures SafeLower(U, r) ==> SafeFrom(U, 0, r)
  {
  }

  lemma SafePivot(U: Mat, n: nat, r: nat)
    requires Covers(U, r) && n < r
    ensures SafeFrom(U, n, r) ==> Abs(U[n][n]) >= FLT_EPSILON
  {
  }

  /** The inverse by LU factorization; it succeeds on every safe lower triangular matrix. */
  method InvLU(A: array2<real>, rank: nat, M: nat) returns (ok: bool, X: array2<real>)
    requires Square(A, M) && rank <= M
    ensures ok ==> Square(X, M) && Inverses(Entries(A), Entries(X), rank) && GoesThrough(Entries(A), rank)
    ensures !ok ==> GivesUp(Entries(A), rank) && !SafeLower(Entries(A), rank)
  {
    hide Factored, PivotsReach, Upper, SolvesLower, SolvesUpper, Inverses, GivesUp, SafeLower, Entries;
    var L := new real[M, M];
    SetIdentity(L);
    var U := new real[M, M]((i, j) requires 0 <= i < M && 0 <= j < M reads A => A[i, j]);
    X := new real[M, M];
    SetIdentity(X);
    ghost var Am := Entries(A);
    SameEntries(Entries(U), Am, M);
    Unfactored(Am, Entries(L), Entries(U), Counting(rank), rank);
    ghost var perm, inverse;
    ok, perm, inverse := Eliminate(U, X, L, rank, M, Am, Counting(rank));
    if !ok {
      return;
    }
    FactoredShape(Am, Entries(L), Entries(U), perm, inverse, rank, rank);
    ghost var Pm := Entries(X);
    ForwardSubstitution(L, X, rank, M);
    ghost var Ym := Entries(X);
    BackSubstitution(U, X, rank, M);
    SubstitutionsInvert(Am, Entries(L), Entries(U), perm, inverse, Pm, Ym, Entries(X), rank);
  }
}
