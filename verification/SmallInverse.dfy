/** The inverses of 2-by-2 and 3-by-3 matrices in closed form. */
module SmallInverse {
  import opened MatrixAlgebra
  import opened MatrixInverse

  /** C times the reciprocal of det inverts A if C times A is det times the identity, from both sides. */
  lemma ScaledInverse(A: Mat, C: Mat, X: Mat, n: nat, det: real)
    requires Covers(A, n) && Covers(C, n) && Covers(X, n) && det != 0.0
    requires forall i, j :: 0 <= i < n && 0 <= j < n ==> X[i][j] == C[i][j] / det
    requires forall i, j :: 0 <= i < n && 0 <= j < n ==> Dot(A[i], Col(C, j, n), n) == Scaled(det, i, j)
    requires forall i, j :: 0 <= i < n && 0 <= j < n ==> Dot(C[i], Col(A, j, n), n) == Scaled(det, i, j)
    ensures Inverses(A, X, n)
  {
    hide Dot, Scaled, Delta, Times;
    forall i, j | 0 <= i < n && 0 <= j < n ensures Mul(A, X, n)[i][j] == Delta(i, j) {
      OneEntry(A[i], Col(C, j, n), Col(X, j, n), n, i, j, det);
    }
    forall i, j | 0 <= i < n && 0 <= j < n ensures Mul(X, A, n)[i][j] == Delta(i, j) {
      DotCommutes(C[i], Col(A, j, n), n);
      DotCommutes(X[i], Col(A, j, n), n);
      OneEntry(Col(A, j, n), C[i], X[i], n, i, j, det);
    }
  }

  lemma OneEntry(a: Vec, c: Vec, x: Vec, n: nat, i: nat, j: nat, det: real)
    requires n <= |a| && n <= |c| && n <= |x| && det != 0.0
    requires forall k :: 0 <= k < n ==> x[k] == c[k] / det
    requires Dot(a, c, n) == Scaled(det, i, j)
    ensures Dot(a, x, n) == Delta(i, j)
  {
    DotOver(a, c, x, n, det);
    hide Dot, Scaled, Delta, Times;
    CancelDet(Dot(a, x, n), i, j, det);
  }

  /** The entry of det times the identity. */
  function Scaled(det: real, i: nat, j: nat): real {
    if i == j then det else 0.0
  }

  function Times(det: real, x: real): real {
    det * x
  }

  lemma CancelDet(x: real, i: nat, j: nat, det: real)
    requires det != 0.0 && Times(det, x) == Scaled(det, i, j)
    ensures x == Delta(i, j)
  {
    CancelFactor(x, Delta(i, j), det);
  }

  lemma CancelFactor(x: real, y: real, det: real)
    requires det != 0.0 && det * x == det * y
    ensures x == y
  {
  }

  lemma {:induction false} DotOver(a: Vec, c: Vec, x: Vec, n: nat, det: real)
    requires n <= |a| && n <= |c| && n <= |x| && det != 0.0
    requires forall k :: 0 <= k < n ==> x[k] == c[k] / det
    ensures Times(det, Dot(a, x, n)) == Dot(a, c, n)
    decreases n
  {
    if n > 0 {
      DotOver(a, c, x, n - 1, det);
      OneOver(Dot(a, x, n - 1), a[n - 1], c[n - 1], x[n - 1], det);
    }
  }

  lemma OneOver(s: real, a: real, c: real, x: real, det: real)
    requires det != 0.0 && x == c / det
    ensures det * (s + a * x) == det * s + a * c
  {
    assert det * x == c;
    assert det * (a * x) == a * (det * x);
  }

  // ----- two by two -----

  function Det2(A: Mat): real
    requires Covers(A, 2)
  {
    A[0][0] * A[1][1] - A[1][0] * A[0][1]
  }

  function Adjugate2(A: Mat): (C: Mat)
    requires Covers(A, 2)
    ensures Covers(C, 2)
  {
    [[A[1][1], -A[0][1]], [-A[1][0], A[0][0]]]
  }

  lemma Dot2(a: Vec, b: Vec)
    requires |a| >= 2 && |b| >= 2
    ensures Dot(a, b, 2) == a[0] * b[0] + a[1] * b[1]
  {
    assert Dot(a, b, 1) == Dot(a, b, 0) + a[0] * b[0];
  }

  lemma Adjugate2Times(A: Mat, i: nat, j: nat)
    requires Covers(A, 2) && i < 2 && j < 2
    ensures Dot(A[i], Col(Adjugate2(A), j, 2), 2) == Scaled(Det2(A), i, j)
    ensures Dot(Adjugate2(A)[i], Col(A, j, 2), 2) == Scaled(Det2(A), i, j)
  {
    Dot2(A[i], Col(Adjugate2(A), j, 2));
    Dot2(Adjugate2(A)[i], Col(A, j, 2));
    hide Dot;
  }

  /** Divide every entry. */
  method Divide(X: array2<real>, det: real)
    requires det != 0.0
    modifies X
    ensures forall i, j :: 0 <= i < X.Length0 && 0 <= j < X.Length1 ==> X[i, j] == old(X[i, j]) / det
  {
    for i := 0 to X.Length0
      invariant forall a, b :: 0 <= a < i && 0 <= b < X.Length1 ==> X[a, b] == old(X[a, b]) / det
      invariant forall a, b :: i <= a < X.Length0 && 0 <= b < X.Length1 ==> X[a, b] == old(X[a, b])
    {
      for j := 0 to X.Length1
        invariant forall a, b :: 0 <= a < i && 0 <= b < X.Length1 ==> X[a, b] == old(X[a, b]) / det
        invariant forall a, b :: i < a < X.Length0 && 0 <= b < X.Length1 ==> X[a, b] == old(X[a, b])
        invariant forall b :: 0 <= b < j ==> X[i, b] == old(X[i, b]) / det
        invariant forall b :: j <= b < X.Length1 ==> X[i, b] == old(X[i, b])
      {
        X[i, j] := X[i, j] / det;
      }
    }
  }

  lemma Closed2(A: Mat, X: Mat, det: real)
    requires Covers(A, 2) && Covers(X, 2) && det == Det2(A) && det != 0.0
    requires forall i, j :: 0 <= i < 2 && 0 <= j < 2 ==> X[i][j] == Adjugate2(A)[i][j] / det
    ensures Inverses(A, X, 2)
  {
    hide Det2, Adjugate2, Dot, Inverses;
    forall i, j | 0 <= i < 2 && 0 <= j < 2
      ensures Dot(A[i], Col(Adjugate2(A), j, 2), 2) == Scaled(det, i, j)
      ensures Dot(Adjugate2(A)[i], Col(A, j, 2), 2) == Scaled(det, i, j)
    {
      Adjugate2Times(A, i, j);
    }
    ScaledInverse(A, Adjugate2(A), X, 2, det);
  }

  method Fill2(A: array2<real>, X: array2<real>)
    requires Square(A, 2) && Square(X, 2) && A != X
    modifies X
    ensures forall i, j :: 0 <= i < 2 && 0 <= j < 2 ==> X[i, j] == Adjugate2(Entries(A))[i][j]
  {
    X[0, 0] := A[1, 1];
    X[1, 0] := -A[1, 0];
    X[0, 1] := -A[0, 1];
    X[1, 1] := A[0, 0];
  }

  method Inv2(A: array2<real>) returns (ok: bool, X: array2<real>)
    requires Square(A, 2)
    ensures Det2(Entries(A)) == A[0, 0] * A[1, 1] - A[1, 0] * A[0, 1]
    ensures ok <==> Reaches(Det2(Entries(A)))
    ensures ok ==> Square(X, 2) && Inverses(Entries(A), Entries(X), 2)
  {
    var det := A[0, 0] * A[1, 1] - A[1, 0] * A[0, 1];
    assert det == Det2(Entries(A));
    hide Inverses, Adjugate2, Det2;
    X := new real[2, 2];
    if Abs(det) < FLT_EPSILON {
      return false, X;
    }
    Fill2(A, X);
    Divide(X, det);
    Closed2(Entries(A), Entries(X), det);
    ok := true;
  }

  // ----- three by three -----

  function Minor(a: real, b: real, c: real, d: real): real {
    a * b - c * d
  }

  function Det3(A: Mat): real
    requires Covers(A, 3)
  {
    A[0][0] * (A[1][1] * A[2][2] - A[2][1] * A[1][2])
    - A[0][1] * (A[1][0] * A[2][2] - A[1][2] * A[2][0])
    + A[0][2] * (A[1][0] * A[2][1] - A[1][1] * A[2][0])
  }

  function Adjugate3(A: Mat): (C: Mat)
    requires Covers(A, 3)
    ensures Covers(C, 3)
  {
    [
      [
        Minor(A[1][1], A[2][2], A[2][1], A[1][2]),
        Minor(A[0][2], A[2][1], A[0][1], A[2][2]),
        Minor(A[0][1], A[1][2], A[0][2], A[1][1])
      ],
      [
        Minor(A[1][2], A[2][0], A[1][0], A[2][2]),
        Minor(A[0][0], A[2][2], A[0][2], A[2][0]),
        Minor(A[1][0], A[0][2], A[0][0], A[1][2])
      ],
      [
        Minor(A[1][0], A[2][1], A[2][0], A[1][1]),
        Minor(A[2][0], A[0][1], A[0][0], A[2][1]),
        Minor(A[0][0], A[1][1], A[1][0], A[0][1])
      ]
    ]
  }

  function Sum3(a: real, b: real, c: real, x: real, y: real, z: real): real {
    a * x + b * y + c * z
  }

  lemma Dot3(a: Vec, b: Vec)
    requires |a| >= 3 && |b| >= 3
    ensures Dot(a, b, 3) == Sum3(a[0], a[1], a[2], b[0], b[1], b[2])
  {
    Dot2(a, b);
  }

  /** The products of a matrix and its adjugate, entry by entry. */
  lemma ExpansionsRaw(a: real, b: real, c: real, d: real, e: real, f: real, g: real, h: real, i: real)
    ensures var det := a * (e * i - h * f) - b * (d * i - f * g) + c * (d * h - e * g);
      && Sum3(a, b, c, e * i - h * f, f * g - d * i, d * h - g * e) == det
      && Sum3(d, e, f, c * h - b * i, a * i - c * g, g * b - a * h) == det
      && Sum3(g, h, i, b * f - c * e, d * c - a * f, a * e - d * b) == det
      && Sum3(e * i - h * f, c * h - b * i, b * f - c * e, a, d, g) == det
      && Sum3(f * g - d * i, a * i - c * g, d * c - a * f, b, e, h) == det
      && Sum3(d * h - g * e, g * b - a * h, a * e - d * b, c, f, i) == det
    ensures Sum3(a, b, c, c * h - b * i, a * i - c * g, g * b - a * h) == 0.0
    ensures Sum3(a, b, c, b * f - c * e, d * c - a * f, a * e - d * b) == 0.0
    ensures Sum3(d, e, f, e * i - h * f, f * g - d * i, d * h - g * e) == 0.0
    ensures Sum3(d, e, f, b * f - c * e, d * c - a * f, a * e - d * b) == 0.0
    ensures Sum3(g, h, i, e * i - h * f, f * g - d * i, d * h - g * e) == 0.0
    ensures Sum3(g, h, i, c * h - b * i, a * i - c * g, g * b - a * h) == 0.0
    ensures Sum3(e * i - h * f, c * h - b * i, b * f - c * e, b, e, h) == 0.0
    ensures Sum3(e * i - h * f, c * h - b * i, b * f - c * e, c, f, i) == 0.0
    ensures Sum3(f * g - d * i, a * i - c * g, d * c - a * f, a, d, g) == 0.0
    ensures Sum3(f * g - d * i, a * i - c * g, d * c - a * f, c, f, i) == 0.0
    ensures Sum3(d * h - g * e, g * b - a * h, a * e - d * b, a, d, g) == 0.0
    ensures Sum3(d * h - g * e, g * b - a * h, a * e - d * b, b, e, h) == 0.0
  {
  }

  lemma Expansions(a: real, b: real, c: real, d: real, e: real, f: real, g: real, h: real, i: real)
    ensures var det := a * (e * i - h * f) - b * (d * i - f * g) + c * (d * h - e * g);
      && Sum3(a, b, c, Minor(e, i, h, f), Minor(f, g, d, i), Minor(d, h, g, e)) == det
      && Sum3(d, e, f, Minor(c, h, b, i), Minor(a, i, c, g), Minor(g, b, a, h)) == det
      && Sum3(g, h, i, Minor(b, f, c, e), Minor(d, c, a, f), Minor(a, e, d, b)) == det
      && Sum3(Minor(e, i, h, f), Minor(c, h, b, i), Minor(b, f, c, e), a, d, g) == det
      && Sum3(Minor(f, g, d, i), Minor(a, i, c, g), Minor(d, c, a, f), b, e, h) == det
      && Sum3(Minor(d, h, g, e), Minor(g, b, a, h), Minor(a, e, d, b), c, f, i) == det
    ensures Sum3(a, b, c, Minor(c, h, b, i), Minor(a, i, c, g), Minor(g, b, a, h)) == 0.0
    ensures Sum3(a, b, c, Minor(b, f, c, e), Minor(d, c, a, f), Minor(a, e, d, b)) == 0.0
    ensures Sum3(d, e, f, Minor(e, i, h, f), Minor(f, g, d, i), Minor(d, h, g, e)) == 0.0
    ensures Sum3(d, e, f, Minor(b, f, c, e), Minor(d, c, a, f), Minor(a, e, d, b)) == 0.0
    ensures Sum3(g, h, i, Minor(e, i, h, f), Minor(f, g, d, i), Minor(d, h, g, e)) == 0.0
    ensures Sum3(g, h, i, Minor(c, h, b, i), Minor(a, i, c, g), Minor(g, b, a, h)) == 0.0
    ensures Sum3(Minor(e, i, h, f), Minor(c, h, b, i), Minor(b, f, c, e), b, e, h) == 0.0
    ensures Sum3(Minor(e, i, h, f), Minor(c, h, b, i), Minor(b, f, c, e), c, f, i) == 0.0
    ensures Sum3(Minor(f, g, d, i), Minor(a, i, c, g), Minor(d, c, a, f), a, d, g) == 0.0
    ensures Sum3(Minor(f, g, d, i), Minor(a, i, c, g), Minor(d, c, a, f), c, f, i) == 0.0
    ensures Sum3(Minor(d, h, g, e), Minor(g, b, a, h), Minor(a, e, d, b), a, d, g) == 0.0
    ensures Sum3(Minor(d, h, g, e), Minor(g, b, a, h), Minor(a, e, d, b), b, e, h) == 0.0
  {
    hide Sum3;
    ExpansionsRaw(a, b, c, d, e, f, g, h, i);
  }

  lemma Adjugate3Times(A: Mat, i: nat, j: nat)
    requires Covers(A, 3) && i < 3 && j < 3
    ensures Dot(A[i], Col(Adjugate3(A), j, 3), 3) == Scaled(Det3(A), i, j)
    ensures Dot(Adjugate3(A)[i], Col(A, j, 3), 3) == Scaled(Det3(A), i, j)
  {
    hide Dot, Sum3, Minor;
    Dot3(A[i], Col(Adjugate3(A), j, 3));
    Dot3(Adjugate3(A)[i], Col(A, j, 3));
    Expansions(A[0][0], A[0][1], A[0][2], A[1][0], A[1][1], A[1][2], A[2][0], A[2][1], A[2][2]);
    assert i == 0 || i == 1 || i == 2;
    assert j == 0 || j == 1 || j == 2;
  }

  lemma Closed3(A: Mat, X: Mat, det: real)
    requires Covers(A, 3) && Covers(X, 3) && det == Det3(A) && det != 0.0
    requires forall i, j :: 0 <= i < 3 && 0 <= j < 3 ==> X[i][j] == Adjugate3(A)[i][j] / det
    ensures Inverses(A, X, 3)
  {
    hide Det3, Adjugate3, Dot, Inverses;
    forall i, j | 0 <= i < 3 && 0 <= j < 3
      ensures Dot(A[i], Col(Adjugate3(A), j, 3), 3) == Scaled(det, i, j)
      ensures Dot(Adjugate3(A)[i], Col(A, j, 3), 3) == Scaled(det, i, j)
    {
      Adjugate3Times(A, i, j);
    }
    ScaledInverse(A, Adjugate3(A), X, 3, det);
  }

  method SetRow(X: array2<real>, i: nat, a: real, b: real, c: real)
    requires Square(X, 3) && i < 3
    modifies X
    ensures X[i, 0] == a && X[i, 1] == b && X[i, 2] == c
    ensures forall k, j :: 0 <= k < 3 && 0 <= j < 3 && k != i ==> X[k, j] == old(X[k, j])
  {
    X[i, 0] := a;
    X[i, 1] := b;
    X[i, 2] := c;
  }

  method Fill3(A: array2<real>, X: array2<real>)
    requires Square(A, 3) && Square(X, 3) && A != X
    modifies X
    ensures forall i, j :: 0 <= i < 3 && 0 <= j < 3 ==> X[i, j] == Adjugate3(Entries(A))[i][j]
  {
    hide Minor, Entries;
    SetRow(X, 0, Minor(A[1, 1], A[2, 2], A[2, 1], A[1, 2]), Minor(A[0, 2], A[2, 1], A[0, 1], A[2, 2]),
           Minor(A[0, 1], A[1, 2], A[0, 2], A[1, 1]));
    SetRow(X, 1, Minor(A[1, 2], A[2, 0], A[1, 0], A[2, 2]), Minor(A[0, 0], A[2, 2], A[0, 2], A[2, 0]),
           Minor(A[1, 0], A[0, 2], A[0, 0], A[1, 2]));
    SetRow(X, 2, Minor(A[1, 0], A[2, 1], A[2, 0], A[1, 1]), Minor(A[2, 0], A[0, 1], A[0, 0], A[2, 1]),
           Minor(A[0, 0], A[1, 1], A[1, 0], A[0, 1]));
  }

  method Inv3(A: array2<real>) returns (ok: bool, X: array2<real>)
    requires Square(A, 3)
    ensures Det3(Entries(A)) == A[0, 0] * (A[1, 1] * A[2, 2] - A[2, 1] * A[1, 2])
      - A[0, 1] * (A[1, 0] * A[2, 2] - A[1, 2] * A[2, 0]) + A[0, 2] * (A[1, 0] * A[2, 1] - A[1, 1] * A[2, 0])
    ensures ok <==> Reaches(Det3(Entries(A)))
    ensures ok ==> Square(X, 3) && Inverses(Entries(A), Entries(X), 3)
  {
    var det := A[0, 0] * (A[1, 1] * A[2, 2] - A[2, 1] * A[1, 2])
      - A[0, 1] * (A[1, 0] * A[2, 2] - A[1, 2] * A[2, 0])
      + A[0, 2] * (A[1, 0] * A[2, 1] - A[1, 1] * A[2, 0]);
    assert det == Det3(Entries(A));
    hide Inverses, Adjugate3, Det3;
    X := new real[3, 3];
    if Abs(det) < FLT_EPSILON {
      return false, X;
    }
    Fill3(A, X);
    Divide(X, det);
    Closed3(Entries(A), Entries(X), det);
    ok := true;
  }
}
