/** The 3x3 projective warp and its inverse, over exact reals. */
module Projective {
  datatype Matrix = Matrix(
    a11: real, a12: real, a13: real, a21: real, a22: real, a23: real, a31: real, a32: real, a33: real)

  const IDENTITY := Matrix(1.0, 0.0, 0.0, 0.0, 1.0, 0.0, 0.0, 0.0, 1.0)

  /** The row-major array of nine numbers the program passes around. */
  function FromArray(s: seq<real>): Matrix
    requires |s| == 9
  {
    Matrix(s[0], s[1], s[2], s[3], s[4], s[5], s[6], s[7], s[8])
  }

  function Det2(a: real, b: real, c: real, d: real): real {
    a * d - b * c
  }

  function Det3(m: Matrix): real {
    m.a11 * (m.a22 * m.a33 - m.a23 * m.a32) - m.a12 * (m.a21 * m.a33 - m.a23 * m.a31)
    + m.a13 * (m.a21 * m.a32 - m.a22 * m.a31)
  }

  /** The nine signed minors, transposed, in the order inv_mtrx_3x3 writes them. */
  function Adjugate(m: Matrix): Matrix {
    Matrix(Det2(m.a22, m.a23, m.a32, m.a33), Det2(m.a13, m.a12, m.a33, m.a32), Det2(m.a12, m.a13, m.a22, m.a23),
           Det2(m.a23, m.a21, m.a33, m.a31), Det2(m.a11, m.a13, m.a31, m.a33), Det2(m.a13, m.a11, m.a23, m.a21),
           Det2(m.a21, m.a22, m.a31, m.a32), Det2(m.a12, m.a11, m.a32, m.a31), Det2(m.a11, m.a12, m.a21, m.a22))
  }

  /** Row times column. */
  function Dot(a: real, b: real, c: real, x: real, y: real, z: real): real {
    a * x + b * y + c * z
  }

  function Mul(m: Matrix, n: Matrix): Matrix {
    Matrix(Dot(m.a11, m.a12, m.a13, n.a11, n.a21, n.a31), Dot(m.a11, m.a12, m.a13, n.a12, n.a22, n.a32),
           Dot(m.a11, m.a12, m.a13, n.a13, n.a23, n.a33),
           Dot(m.a21, m.a22, m.a23, n.a11, n.a21, n.a31), Dot(m.a21, m.a22, m.a23, n.a12, n.a22, n.a32),
           Dot(m.a21, m.a22, m.a23, n.a13, n.a23, n.a33),
           Dot(m.a31, m.a32, m.a33, n.a11, n.a21, n.a31), Dot(m.a31, m.a32, m.a33, n.a12, n.a22, n.a32),
           Dot(m.a31, m.a32, m.a33, n.a13, n.a23, n.a33))
  }

  function Inverse(m: Matrix): Matrix
    requires Det3(m) != 0.0
  {
    var a, d := Adjugate(m), Det3(m);
    Matrix(a.a11 / d, a.a12 / d, a.a13 / d, a.a21 / d, a.a22 / d, a.a23 / d, a.a31 / d, a.a32 / d, a.a33 / d)
  }

  /** Writes the inverse; every input is read before the first store, so the two arrays may be the same. */
  method InvMatrix(mtrx: array<real>, inv: array<real>)
    requires mtrx.Length == 9 && inv.Length == 9 && Det3(FromArray(mtrx[..])) != 0.0
    modifies inv
    ensures var m, n := old(FromArray(mtrx[..])), FromArray(inv[..]);
            Mul(m, n) == IDENTITY && Mul(n, m) == IDENTITY
  {
    var a11, a12, a13 := mtrx[0], mtrx[1], mtrx[2];
    var a21, a22, a23 := mtrx[3], mtrx[4], mtrx[5];
    var a31, a32, a33 := mtrx[6], mtrx[7], mtrx[8];
    var det := Det3(Matrix(a11, a12, a13, a21, a22, a23, a31, a32, a33));
    inv[0] := Det2(a22, a23, a32, a33) / det;
    inv[1] := Det2(a13, a12, a33, a32) / det;
    inv[2] := Det2(a12, a13, a22, a23) / det;
    inv[3] := Det2(a23, a21, a33, a31) / det;
    inv[4] := Det2(a11, a13, a31, a33) / det;
    inv[5] := Det2(a13, a11, a23, a21) / det;
    inv[6] := Det2(a21, a22, a31, a32) / det;
    inv[7] := Det2(a12, a11, a32, a31) / det;
    inv[8] := Det2(a11, a12, a21, a22) / det;
    InverseTwoSided(old(FromArray(mtrx[..])));
  }

  /** Expanding along a row and its own cofactors gives the determinant. */
  lemma OwnCofactors(a: real, b: real, c: real, d: real, e: real, f: real, g: real, h: real, i: real)
    ensures Dot(a, b, c, Det2(e, f, h, i), Det2(f, d, i, g), Det2(d, e, g, h))
            == Det3(Matrix(a, b, c, d, e, f, g, h, i))
  {
  }

  /** Along another row's it gives zero. */
  lemma OtherCofactors(d: real, e: real, f: real, g: real, h: real, i: real)
    ensures Dot(d, e, f, Det2(e, f, h, i), Det2(f, d, i, g), Det2(d, e, g, h)) == 0.0
    ensures Dot(g, h, i, Det2(e, f, h, i), Det2(f, d, i, g), Det2(d, e, g, h)) == 0.0
  {
  }

  /** The determinant may be expanded along any row. */
  lemma RotateRows(a: real, b: real, c: real, d: real, e: real, f: real, g: real, h: real, i: real)
    ensures Det3(Matrix(a, b, c, d, e, f, g, h, i)) == Det3(Matrix(d, e, f, g, h, i, a, b, c))
  {
  }

  lemma FlipDet2(a: real, b: real, c: real, d: real)
    ensures Det2(a, b, c, d) == Det2(d, c, b, a)
  {
  }

  lemma DivideDot(a: real, b: real, c: real, x: real, y: real, z: real, d: real)
    requires d != 0.0
    ensures Dot(a, b, c, x / d, y / d, z / d) == Dot(a, b, c, x, y, z) / d
  {
    var u, v, w := x / d, y / d, z / d;
    assert u * d == x && v * d == y && w * d == z;
    assert Dot(a, b, c, x, y, z) == Dot(a, b, c, u, v, w) * d;
  }

  lemma AdjugateColumn1(m: Matrix)
    ensures var p := Mul(m, Adjugate(m));
            p.a11 == Det3(m) && p.a21 == 0.0 && p.a31 == 0.0
  {
    OwnCofactors(m.a11, m.a12, m.a13, m.a21, m.a22, m.a23, m.a31, m.a32, m.a33);
    OtherCofactors(m.a21, m.a22, m.a23, m.a31, m.a32, m.a33);
  }

  lemma AdjugateColumn2(m: Matrix)
    ensures var p := Mul(m, Adjugate(m));
            p.a12 == 0.0 && p.a22 == Det3(m) && p.a32 == 0.0
  {
    OwnCofactors(m.a21, m.a22, m.a23, m.a31, m.a32, m.a33, m.a11, m.a12, m.a13);
    OtherCofactors(m.a31, m.a32, m.a33, m.a11, m.a12, m.a13);
    RotateRows(m.a11, m.a12, m.a13, m.a21, m.a22, m.a23, m.a31, m.a32, m.a33);
    FlipDet2(m.a13, m.a12, m.a33, m.a32);
    FlipDet2(m.a11, m.a13, m.a31, m.a33);
    FlipDet2(m.a12, m.a11, m.a32, m.a31);
  }

  lemma AdjugateColumn3(m: Matrix)
    ensures var p := Mul(m, Adjugate(m));
            p.a13 == 0.0 && p.a23 == 0.0 && p.a33 == Det3(m)
  {
    OwnCofactors(m.a31, m.a32, m.a33, m.a11, m.a12, m.a13, m.a21, m.a22, m.a23);
    OtherCofactors(m.a11, m.a12, m.a13, m.a21, m.a22, m.a23);
    RotateRows(m.a31, m.a32, m.a33, m.a11, m.a12, m.a13, m.a21, m.a22, m.a23);
  }

  lemma InverseRight(m: Matrix)
    requires Det3(m) != 0.0
    ensures Mul(m, Inverse(m)) == IDENTITY
  {
    var a, d := Adjugate(m), Det3(m);
    AdjugateColumn1(m);
    AdjugateColumn2(m);
    AdjugateColumn3(m);
    DivideDot(m.a11, m.a12, m.a13, a.a11, a.a21, a.a31, d);
    DivideDot(m.a11, m.a12, m.a13, a.a12, a.a22, a.a32, d);
    DivideDot(m.a11, m.a12, m.a13, a.a13, a.a23, a.a33, d);
    DivideDot(m.a21, m.a22, m.a23, a.a11, a.a21, a.a31, d);
    DivideDot(m.a21, m.a22, m.a23, a.a12, a.a22, a.a32, d);
    DivideDot(m.a21, m.a22, m.a23, a.a13, a.a23, a.a33, d);
    DivideDot(m.a31, m.a32, m.a33, a.a11, a.a21, a.a31, d);
    DivideDot(m.a31, m.a32, m.a33, a.a12, a.a22, a.a32, d);
    DivideDot(m.a31, m.a32, m.a33, a.a13, a.a23, a.a33, d);
  }

  function Transpose(m: Matrix): Matrix {
    Matrix(m.a11, m.a21, m.a31, m.a12, m.a22, m.a32, m.a13, m.a23, m.a33)
  }

  lemma TransposeMul(m: Matrix, n: Matrix)
    ensures Mul(Transpose(n), Transpose(m)) == Transpose(Mul(m, n))
  {
  }

  lemma TransposeInverse(m: Matrix)
    ensures Det3(Transpose(m)) == Det3(m) && Adjugate(Transpose(m)) == Transpose(Adjugate(m))
    ensures Det3(m) != 0.0 ==> Inverse(Transpose(m)) == Transpose(Inverse(m))
  {
  }

  /** For every matrix with nonzero determinant the computed matrix is a two-sided inverse. */
  lemma InverseTwoSided(m: Matrix)
    requires Det3(m) != 0.0
    ensures Mul(m, Inverse(m)) == IDENTITY && Mul(Inverse(m), m) == IDENTITY
  {
    InverseRight(m);
    TransposeInverse(m);
    InverseRight(Transpose(m));
    TransposeMul(Inverse(m), m);
  }

  // ----- the warp

  datatype Point = Point(x: real, y: real)

  function X(m: Matrix, p: Point): real { m.a11 * p.x + m.a12 * p.y + m.a13 }

  function Y(m: Matrix, p: Point): real { m.a21 * p.x + m.a22 * p.y + m.a23 }

  function Z(m: Matrix, p: Point): real { m.a31 * p.x + m.a32 * p.y + m.a33 }

  /** Homogeneous multiplication followed by the division by z. */
  function Warp(m: Matrix, p: Point): Point
    requires Z(m, p) != 0.0
  {
    Point(X(m, p) / Z(m, p), Y(m, p) / Z(m, p))
  }

  /** One row of `a` applied to the warped point, times z, is the same row of the product applied to the point. */
  lemma RowCompose(a0: real, a1: real, a2: real, b: Matrix, p: Point)
    requires Z(b, p) != 0.0
    ensures (a0 * (X(b, p) / Z(b, p)) + a1 * (Y(b, p) / Z(b, p)) + a2) * Z(b, p)
            == Dot(a0, a1, a2, b.a11, b.a21, b.a31) * p.x + Dot(a0, a1, a2, b.a12, b.a22, b.a32) * p.y
               + Dot(a0, a1, a2, b.a13, b.a23, b.a33)
  {
    var x, y, z := X(b, p), Y(b, p), Z(b, p);
    var u, v := x / z, y / z;
    assert u * z == x && v * z == y;
    assert (a0 * u + a1 * v + a2) * z == a0 * (u * z) + a1 * (v * z) + a2 * z;
    RowExpand(a0, a1, a2, b, p);
  }

  lemma RowExpand(a0: real, a1: real, a2: real, b: Matrix, p: Point)
    ensures a0 * X(b, p) + a1 * Y(b, p) + a2 * Z(b, p)
            == Dot(a0, a1, a2, b.a11, b.a21, b.a31) * p.x + Dot(a0, a1, a2, b.a12, b.a22, b.a32) * p.y
               + Dot(a0, a1, a2, b.a13, b.a23, b.a33)
  {
  }

  lemma ComposeX(a: Matrix, b: Matrix, p: Point)
    requires Z(b, p) != 0.0
    ensures X(a, Warp(b, p)) * Z(b, p) == X(Mul(a, b), p)
  {
    RowCompose(a.a11, a.a12, a.a13, b, p);
  }

  lemma ComposeY(a: Matrix, b: Matrix, p: Point)
    requires Z(b, p) != 0.0
    ensures Y(a, Warp(b, p)) * Z(b, p) == Y(Mul(a, b), p)
  {
    RowCompose(a.a21, a.a22, a.a23, b, p);
  }

  lemma ComposeZ(a: Matrix, b: Matrix, p: Point)
    requires Z(b, p) != 0.0
    ensures Z(a, Warp(b, p)) * Z(b, p) == Z(Mul(a, b), p)
  {
    RowCompose(a.a31, a.a32, a.a33, b, p);
  }

  lemma NonzeroTogether(x: real, z: real, y: real)
    requires z != 0.0 && x * z == y
    ensures x != 0.0 <==> y != 0.0
  {
  }

  lemma QuotientsEqual(n: real, d: real, n': real, d': real, z: real)
    requires z != 0.0 && d != 0.0 && d' != 0.0 && n * z == n' && d * z == d'
    ensures n / d == n' / d'
  {
    var q := n / d;
    assert q * d == n;
    assert q * d' == n' by {
      assert q * d' == q * (d * z) == (q * d) * z;
    }
  }

  /** Warping twice is warping once by the product, and the denominators agree. */
  lemma WarpCompose(a: Matrix, b: Matrix, p: Point)
    requires Z(b, p) != 0.0
    ensures Z(a, Warp(b, p)) * Z(b, p) == Z(Mul(a, b), p)
    ensures Z(a, Warp(b, p)) != 0.0 <==> Z(Mul(a, b), p) != 0.0
    ensures Z(a, Warp(b, p)) != 0.0 ==> Warp(a, Warp(b, p)) == Warp(Mul(a, b), p)
  {
    ComposeX(a, b, p);
    ComposeY(a, b, p);
    ComposeZ(a, b, p);
    WarpComposeFrom(a, Mul(a, b), p, Warp(b, p), Z(b, p));
  }

  lemma WarpComposeFrom(a: Matrix, c: Matrix, p: Point, q: Point, z: real)
    requires z != 0.0 && X(a, q) * z == X(c, p) && Y(a, q) * z == Y(c, p) && Z(a, q) * z == Z(c, p)
    ensures Z(a, q) != 0.0 <==> Z(c, p) != 0.0
    ensures Z(a, q) != 0.0 ==> Warp(a, q) == Warp(c, p)
  {
    NonzeroTogether(Z(a, q), z, Z(c, p));
    if Z(a, q) != 0.0 {
      QuotientsEqual(X(a, q), Z(a, q), X(c, p), Z(c, p), z);
      QuotientsEqual(Y(a, q), Z(a, q), Y(c, p), Z(c, p), z);
    }
  }

  lemma Quotient(n: real, d: real)
    requires d != 0.0
    ensures (n / d) * d == n
  {
  }

  /** The warp in numbers, for the nine numbers as the program passes them: the point (x, y, 1) times the matrix is the
      warped point (u, v, 1), scaled by the denominator. */
  lemma WarpExactly(s: seq<real>, p: Point)
    requires |s| == 9 && s[6] * p.x + s[7] * p.y + s[8] != 0.0
    ensures var m := FromArray(s);
            var w := s[6] * p.x + s[7] * p.y + s[8];
            && Z(m, p) == w
            && Warp(m, p).x * w == s[0] * p.x + s[1] * p.y + s[2]
            && Warp(m, p).y * w == s[3] * p.x + s[4] * p.y + s[5]
  {
    var m := FromArray(s);
    Quotient(X(m, p), Z(m, p));
    Quotient(Y(m, p), Z(m, p));
  }

  lemma WarpIdentity(p: Point)
    ensures Z(IDENTITY, p) == 1.0 && Warp(IDENTITY, p) == p
  {
  }

  /** The inverse warp undoes the forward warp wherever the forward warp is defined: its own denominator cannot
      vanish. */
  lemma InverseWarpUndoes(m: Matrix, p: Point)
    requires Det3(m) != 0.0 && Z(m, p) != 0.0
    ensures Z(Inverse(m), Warp(m, p)) != 0.0
    ensures Warp(Inverse(m), Warp(m, p)) == p
  {
    InverseTwoSided(m);
    WarpCompose(Inverse(m), m, p);
    WarpIdentity(p);
  }

  /** And the forward warp undoes the inverse one. */
  lemma ForwardWarpUndoes(m: Matrix, p: Point)
    requires Det3(m) != 0.0 && Z(Inverse(m), p) != 0.0
    ensures Z(m, Warp(Inverse(m), p)) != 0.0
    ensures Warp(m, Warp(Inverse(m), p)) == p
  {
    InverseTwoSided(m);
    WarpCompose(m, Inverse(m), p);
    WarpIdentity(p);
  }
}
