/** Plane rotations of a symmetric matrix and of its accumulated eigenvectors,
    over the reals. */
module Rotations {
  import opened Sums

  /** A plane and an angle: indices p < q, cosine c and sine s. */
  datatype Plane = Plane(p: int, q: int, c: real, s: real) {
    /** The first coordinate of a rotated pair. */
    function First(x: real, y: real): real { c * x - s * y }

    /** The second coordinate of a rotated pair. */
    function Second(x: real, y: real): real { s * x + c * y }
  }

  ghost predicate InPlane(n: nat, r: Plane) {
    0 <= r.p < r.q < n && r.c * r.c + r.s * r.s == 1.0
  }

  /** The column rotation `A J`. */
  function RotateColumns(a: Matrix, r: Plane): Matrix {
    (i: int, j: int) =>
      if j == r.p then r.First(a(i, r.p), a(i, r.q))
      else if j == r.q then r.Second(a(i, r.p), a(i, r.q))
      else a(i, j)
  }

  /** The row rotation (transpose of J times A). */
  function RotateRows(a: Matrix, r: Plane): Matrix {
    (i: int, j: int) =>
      if i == r.p then r.First(a(r.p, j), a(r.q, j))
      else if i == r.q then r.Second(a(r.p, j), a(r.q, j))
      else a(i, j)
  }

  function Rotate(a: Matrix, r: Plane): Matrix {
    RotateRows(RotateColumns(a, r), r)
  }

  /** `y` is the vector `x` rotated in the plane. */
  ghost predicate Rotated(n: nat, x: int -> real, y: int -> real, r: Plane) {
    && y(r.p) == r.First(x(r.p), x(r.q))
    && y(r.q) == r.Second(x(r.p), x(r.q))
    && forall i :: 0 <= i < n && i != r.p && i != r.q ==> y(i) == x(i)
  }

  // ---- algebra of one plane ----------------------------------------------------------

  /** A rotation of two pairs keeps the sum of products. */
  lemma PlaneProducts(r: Plane, x: real, y: real, u: real, v: real)
    requires r.c * r.c + r.s * r.s == 1.0
    ensures Times(r.First(x, y), r.First(u, v)) + Times(r.Second(x, y), r.Second(u, v)) == Times(x, u) + Times(y, v)
  {
    var c, s := r.c, r.s;
    var cc, ss, cs := c * c, s * s, c * s;
    assert (c * x - s * y) * (c * u - s * v) == cc * (x * u) - cs * (x * v) - cs * (y * u) + ss * (y * v);
    assert (s * x + c * y) * (s * u + c * v) == ss * (x * u) + cs * (x * v) + cs * (y * u) + cc * (y * v);
    assert cc * (x * u) + ss * (x * u) == (cc + ss) * (x * u);
    assert cc * (y * v) + ss * (y * v) == (cc + ss) * (y * v);
  }

  /** The two off-diagonal entries of a rotated symmetric block agree. */
  lemma CrossTerms(r: Plane, pp: real, pq: real, qq: real)
    ensures r.First(r.Second(pp, pq), r.Second(pq, qq)) == r.Second(r.First(pp, pq), r.First(pq, qq))
    ensures r.First(r.Second(pp, pq), r.Second(pq, qq)) == r.c * r.s * (pp - qq) + (r.c * r.c - r.s * r.s) * pq
  {
    var c, s := r.c, r.s;
    assert c * (s * pp + c * pq) == c * s * pp + c * c * pq;
    assert s * (s * pq + c * qq) == s * s * pq + c * s * qq;
    assert s * (c * pp - s * pq) == c * s * pp - s * s * pq;
    assert c * (c * pq - s * qq) == c * c * pq - c * s * qq;
    assert c * s * (pp - qq) == c * s * pp - c * s * qq;
    assert (c * c - s * s) * pq == c * c * pq - s * s * pq;
  }

  /** The diagonal of a rotated symmetric block keeps its sum. */
  lemma BlockTrace(r: Plane, pp: real, pq: real, qq: real)
    requires r.c * r.c + r.s * r.s == 1.0
    ensures r.First(r.First(pp, pq), r.First(pq, qq)) + r.Second(r.Second(pp, pq), r.Second(pq, qq)) == pp + qq
  {
    var c, s := r.c, r.s;
    assert c * (c * pp - s * pq) == c * c * pp - c * s * pq;
    assert s * (c * pq - s * qq) == c * s * pq - s * s * qq;
    assert s * (s * pp + c * pq) == s * s * pp + c * s * pq;
    assert c * (s * pq + c * qq) == c * s * pq + c * c * qq;
    assert c * c * pp + s * s * pp == (c * c + s * s) * pp;
    assert c * c * qq + s * s * qq == (c * c + s * s) * qq;
  }

  /** A rotated symmetric block keeps its sum of squares. */
  lemma BlockSquares(r: Plane, pp: real, pq: real, qq: real)
    requires r.c * r.c + r.s * r.s == 1.0
    ensures var a, b := r.First(r.First(pp, pq), r.First(pq, qq)), r.Second(r.Second(pp, pq), r.Second(pq, qq));
      var x := r.First(r.Second(pp, pq), r.Second(pq, qq));
      Times(a, a) + Times(b, b) + Times(x, x) + Times(x, x) == Times(pp, pp) + Times(qq, qq) + Times(pq, pq)
          + Times(pq, pq)
  {
    PlaneProducts(r, pp, pq, pp, pq);
    PlaneProducts(r, pq, qq, pq, qq);
    PlaneProducts(r, r.First(pp, pq), r.First(pq, qq), r.First(pp, pq), r.First(pq, qq));
    PlaneProducts(r, r.Second(pp, pq), r.Second(pq, qq), r.Second(pp, pq), r.Second(pq, qq));
    CrossTerms(r, pp, pq, qq);
  }

  lemma UnitPairs(r: Plane)
    requires r.c * r.c + r.s * r.s == 1.0
    ensures r.First(0.0, 0.0) == 0.0 && r.Second(0.0, 0.0) == 0.0
    ensures r.First(r.First(1.0, 0.0), r.First(0.0, 1.0)) == 1.0
    ensures r.Second(r.First(1.0, 0.0), r.First(0.0, 1.0)) == 0.0
    ensures r.First(r.Second(1.0, 0.0), r.Second(0.0, 1.0)) == 0.0
    ensures r.Second(r.Second(1.0, 0.0), r.Second(0.0, 1.0)) == 1.0
  {
  }

  // ---- dot products ---------------------------------------------------------------------

  /** Rotating two vectors in the same plane keeps their dot product. */
  lemma DotRotate(n: nat, x: int -> real, u: int -> real, y: int -> real, v: int -> real, r: Plane)
    requires InPlane(n, r) && Rotated(n, x, y, r) && Rotated(n, u, v, r)
    ensures Dot(n, y, v) == Dot(n, x, u)
  {
    var f, g := (i: int) => Times(x(i), u(i)), (i: int) => Times(y(i), v(i));
    DotIsSum(n, x, u, f);
    DotIsSum(n, y, v, g);
    SumTwo(n, f, g, r.p, r.q);
    PlaneProducts(r, x(r.p), x(r.q), u(r.p), u(r.q));
  }

  lemma FirstAdds(r: Plane, a: real, b: real, x: real, y: real, z: real)
    ensures r.First(a, b) + Times(r.First(x, y), z) == r.First(a + Times(x, z), b + Times(y, z))
  {
    assert (r.c * x - r.s * y) * z == r.c * (x * z) - r.s * (y * z);
  }

  lemma SecondAdds(r: Plane, a: real, b: real, x: real, y: real, z: real)
    ensures r.Second(a, b) + Times(r.Second(x, y), z) == r.Second(a + Times(x, z), b + Times(y, z))
  {
    assert (r.s * x + r.c * y) * z == r.s * (x * z) + r.c * (y * z);
  }

  /** Dot products of the two combined vectors of a rotation. */
  lemma {:induction false} DotCombines(n: nat, r: Plane, x: int -> real, y: int -> real, f: int -> real,
      g: int -> real, z: int -> real)
    requires forall i :: 0 <= i < n ==> f(i) == r.First(x(i), y(i)) && g(i) == r.Second(x(i), y(i))
    ensures Dot(n, f, z) == r.First(Dot(n, x, z), Dot(n, y, z))
    ensures Dot(n, g, z) == r.Second(Dot(n, x, z), Dot(n, y, z))
  {
    if n > 0 {
      DotCombines(n - 1, r, x, y, f, g, z);
      FirstAdds(r, Dot(n - 1, x, z), Dot(n - 1, y, z), x(n - 1), y(n - 1), z(n - 1));
      SecondAdds(r, Dot(n - 1, x, z), Dot(n - 1, y, z), x(n - 1), y(n - 1), z(n - 1));
    }
  }

  // ---- what a rotation keeps ---------------------------------------------------------

  ghost predicate Symmetric(n: nat, a: Matrix) {
    forall i, j :: 0 <= i < n && 0 <= j < n ==> a(i, j) == a(j, i)
  }

  function Delta(i: int, j: int): real { if i == j then 1.0 else 0.0 }

  /** The columns of `v` are orthonormal. */
  ghost predicate Orthonormal(n: nat, v: Matrix) {
    forall i, j :: 0 <= i < n && 0 <= j < n ==> Dot(n, Column(v, i), Column(v, j)) == Delta(i, j)
  }

  function Product(n: nat, a: Matrix, b: Matrix): Matrix {
    (i: int, j: int) => Dot(n, Row(a, i), Column(b, j))
  }

  /** `A0 V = V A`. */
  ghost predicate Intertwines(n: nat, a0: Matrix, v: Matrix, a: Matrix) {
    forall k, j :: 0 <= k < n && 0 <= j < n ==> Product(n, a0, v)(k, j) == Product(n, v, a)(k, j)
  }

  /** `A0 = V A V^T`. */
  ghost predicate Reconstructs(n: nat, a0: Matrix, v: Matrix, a: Matrix) {
    forall k, l :: 0 <= k < n && 0 <= l < n ==> Dot(n, Row(Product(n, v, a), k), Row(v, l)) == a0(k, l)
  }

  /** Symmetry survives a rotation. */
  lemma RotationSymmetric(n: nat, a: Matrix, r: Plane)
    requires InPlane(n, r) && Symmetric(n, a)
    ensures Symmetric(n, Rotate(a, r))
  {
    var b := Rotate(a, r);
    CrossTerms(r, a(r.p, r.p), a(r.p, r.q), a(r.q, r.q));
    forall i, j | 0 <= i < n && 0 <= j < n
      ensures b(i, j) == b(j, i)
    {
      assert a(i, r.p) == a(r.p, i) && a(i, r.q) == a(r.q, i) && a(r.p, r.q) == a(r.q, r.p);
      assert a(j, r.p) == a(r.p, j) && a(j, r.q) == a(r.q, j) && a(i, j) == a(j, i);
    }
  }

  /** Column `j` of a column-rotated matrix dotted with any vector. */
  lemma RotatedColumnDot(n: nat, v: Matrix, r: Plane, j: int, z: int -> real)
    requires InPlane(n, r)
    ensures Dot(n, Column(RotateColumns(v, r), j), z) ==
      if j == r.p then r.First(Dot(n, Column(v, r.p), z), Dot(n, Column(v, r.q), z))
      else if j == r.q then r.Second(Dot(n, Column(v, r.p), z), Dot(n, Column(v, r.q), z))
      else Dot(n, Column(v, j), z)
  {
    var w := RotateColumns(v, r);
    DotCombines(n, r, Column(v, r.p), Column(v, r.q), Column(w, r.p), Column(w, r.q), z);
    if j != r.p && j != r.q {
      DotSame(n, Column(w, j), z, Column(v, j), z);
    }
  }

  /** Accumulating a rotation keeps the eigenvector columns orthonormal. */
  lemma RotationOrthonormal(n: nat, v: Matrix, r: Plane)
    requires InPlane(n, r) && Orthonormal(n, v)
    ensures Orthonormal(n, RotateColumns(v, r))
  {
    var w := RotateColumns(v, r);
    forall i, j | 0 <= i < n && 0 <= j < n
      ensures Dot(n, Column(w, i), Column(w, j)) == Delta(i, j)
    {
      var z := Column(w, i);
      RotatedColumnDot(n, v, r, j, z);
      DotCommutes(n, Column(w, i), Column(w, j));
      MixedDots(n, v, r, i, r.p);
      MixedDots(n, v, r, i, r.q);
      MixedDots(n, v, r, i, j);
      UnitPairs(r);
    }
  }

  lemma MixedDots(n: nat, v: Matrix, r: Plane, i: int, j: int)
    requires InPlane(n, r) && Orthonormal(n, v) && 0 <= i < n && 0 <= j < n
    ensures Dot(n, Column(v, j), Column(RotateColumns(v, r), i)) ==
      if i == r.p then r.First(Delta(r.p, j), Delta(r.q, j))
      else if i == r.q then r.Second(Delta(r.p, j), Delta(r.q, j))
      else Delta(i, j)
  {
    DotCommutes(n, Column(v, j), Column(RotateColumns(v, r), i));
    RotatedColumnDot(n, v, r, i, Column(v, j));
  }

  /** Row `k` of `V' A'` is the rotated row `k` of `V A`. */
  lemma ProductRotates(n: nat, v: Matrix, a: Matrix, r: Plane, k: int, j: int)
    requires InPlane(n, r)
    ensures Product(n, RotateColumns(v, r), Rotate(a, r))(k, j) == RotateColumns(Product(n, v, a), r)(k, j)
  {
    var b := RotateColumns(a, r);
    DotRotate(n, Row(v, k), Column(b, j), Row(RotateColumns(v, r), k), Column(RotateRows(b, r), j), r);
    DotCommutes(n, Row(v, k), Column(b, j));
    RotatedColumnDot(n, a, r, j, Row(v, k));
    DotCommutes(n, Column(a, r.p), Row(v, k));
    DotCommutes(n, Column(a, r.q), Row(v, k));
    DotCommutes(n, Column(a, j), Row(v, k));
  }

  lemma RotationIntertwines(n: nat, a0: Matrix, v: Matrix, a: Matrix, r: Plane)
    requires InPlane(n, r) && Intertwines(n, a0, v, a)
    ensures Intertwines(n, a0, RotateColumns(v, r), Rotate(a, r))
  {
    var w := RotateColumns(v, r);
    forall k, j | 0 <= k < n && 0 <= j < n
      ensures Product(n, a0, w)(k, j) == Product(n, w, Rotate(a, r))(k, j)
    {
      ProductRotates(n, v, a, r, k, j);
      DotCommutes(n, Row(a0, k), Column(w, j));
      RotatedColumnDot(n, v, r, j, Row(a0, k));
      DotCommutes(n, Column(v, r.p), Row(a0, k));
      DotCommutes(n, Column(v, r.q), Row(a0, k));
      DotCommutes(n, Column(v, j), Row(a0, k));
      assert Product(n, a0, v)(k, r.p) == Product(n, v, a)(k, r.p);
      assert Product(n, a0, v)(k, r.q) == Product(n, v, a)(k, r.q);
      assert Product(n, a0, v)(k, j) == Product(n, v, a)(k, j);
    }
  }

  /** `A0 = V A V^T` survives: the rotations cancel. */
  lemma RotationReconstructs(n: nat, a0: Matrix, v: Matrix, a: Matrix, r: Plane)
    requires InPlane(n, r) && Reconstructs(n, a0, v, a)
    ensures Reconstructs(n, a0, RotateColumns(v, r), Rotate(a, r))
  {
    var w := RotateColumns(v, r);
    var x, y := Product(n, v, a), Product(n, w, Rotate(a, r));
    forall k, l | 0 <= k < n && 0 <= l < n
      ensures Dot(n, Row(y, k), Row(w, l)) == a0(k, l)
    {
      forall j: int
        ensures y(k, j) == RotateColumns(x, r)(k, j)
      {
        ProductRotates(n, v, a, r, k, j);
      }
      DotRotate(n, Row(x, k), Row(v, l), Row(y, k), Row(w, l), r);
    }
  }

  // ---- norms ---------------------------------------------------------------------------

  function Diagonal(a: Matrix): int -> real { (i: int) => a(i, i) }

  function Trace(n: nat, a: Matrix): real { Sum(n, Diagonal(a)) }

  function Squares(a: Matrix): Matrix { (i: int, j: int) => Times(a(i, j), a(i, j)) }

  function UpperSquares(a: Matrix): Matrix { (i: int, j: int) => if i < j then Times(a(i, j), a(i, j)) else 0.0 }

  function LowerSquares(a: Matrix): Matrix { (i: int, j: int) => if j < i then Times(a(i, j), a(i, j)) else 0.0 }

  function DiagonalSquares(a: Matrix): Matrix { (i: int, j: int) => if i == j then Times(a(i, j), a(i, j)) else 0.0 }

  /** The squared Frobenius norm. */
  function Frobenius(n: nat, a: Matrix): real { DoubleSum(n, n, Squares(a)) }

  /** The squared upper off-diagonal norm that the sweeps drive to zero. */
  function Off(n: nat, a: Matrix): real { DoubleSum(n, n, UpperSquares(a)) }

  function DiagonalSquare(a: Matrix): int -> real { (i: int) => Times(a(i, i), a(i, i)) }

  function DiagonalNorm(n: nat, a: Matrix): real { Sum(n, DiagonalSquare(a)) }

  /** The trace survives a rotation. */
  lemma RotationTrace(n: nat, a: Matrix, r: Plane)
    requires InPlane(n, r) && Symmetric(n, a)
    ensures Trace(n, Rotate(a, r)) == Trace(n, a)
  {
    assert a(r.p, r.q) == a(r.q, r.p);
    SumTwo(n, Diagonal(a), Diagonal(Rotate(a, r)), r.p, r.q);
    BlockTrace(r, a(r.p, r.p), a(r.p, r.q), a(r.q, r.q));
  }

  lemma RowsNorm(n: nat, a: Matrix, b: Matrix)
    requires forall i :: 0 <= i < n ==> Dot(n, Row(a, i), Row(a, i)) == Dot(n, Row(b, i), Row(b, i))
    ensures Frobenius(n, a) == Frobenius(n, b)
  {
    var rows := (i: int) => Dot(n, Row(a, i), Row(a, i));
    forall i | 0 <= i < n
      ensures rows(i) == Sum(n, Row(Squares(a), i)) && rows(i) == Sum(n, Row(Squares(b), i))
    {
      DotIsSum(n, Row(a, i), Row(a, i), Row(Squares(a), i));
      DotIsSum(n, Row(b, i), Row(b, i), Row(Squares(b), i));
    }
    DoubleSumRows(n, n, Squares(a), rows);
    DoubleSumRows(n, n, Squares(b), rows);
  }

  lemma ColumnsNorm(n: nat, a: Matrix, b: Matrix)
    requires forall j :: 0 <= j < n ==> Dot(n, Column(a, j), Column(a, j)) == Dot(n, Column(b, j), Column(b, j))
    ensures Frobenius(n, a) == Frobenius(n, b)
  {
    var columns := (j: int) => Dot(n, Column(a, j), Column(a, j));
    forall j | 0 <= j < n
      ensures columns(j) == Sum(n, Column(Squares(a), j)) && columns(j) == Sum(n, Column(Squares(b), j))
    {
      DotIsSum(n, Column(a, j), Column(a, j), Column(Squares(a), j));
      DotIsSum(n, Column(b, j), Column(b, j), Column(Squares(b), j));
    }
    DoubleSumColumns(n, n, Squares(a), columns);
    DoubleSumColumns(n, n, Squares(b), columns);
  }

  lemma RotationFrobenius(n: nat, a: Matrix, r: Plane)
    requires InPlane(n, r)
    ensures Frobenius(n, Rotate(a, r)) == Frobenius(n, a)
  {
    var b := RotateColumns(a, r);
    forall i | 0 <= i < n
      ensures Dot(n, Row(a, i), Row(a, i)) == Dot(n, Row(b, i), Row(b, i))
    {
      DotRotate(n, Row(a, i), Row(a, i), Row(b, i), Row(b, i), r);
    }
    RowsNorm(n, a, b);
    var d := RotateRows(b, r);
    forall j | 0 <= j < n
      ensures Dot(n, Column(b, j), Column(b, j)) == Dot(n, Column(d, j), Column(d, j))
    {
      DotRotate(n, Column(b, j), Column(b, j), Column(d, j), Column(d, j), r);
    }
    ColumnsNorm(n, b, d);
  }

  /** For a symmetric matrix the Frobenius norm is the diagonal plus twice the
      upper triangle. */
  lemma SymmetricNorm(n: nat, a: Matrix)
    requires Symmetric(n, a)
    ensures Frobenius(n, a) == DiagonalNorm(n, a) + 2.0 * Off(n, a)
  {
    var offDiagonal := (i: int, j: int) => UpperSquares(a)(i, j) + LowerSquares(a)(i, j);
    DoubleSumAdds(n, n, UpperSquares(a), LowerSquares(a), offDiagonal);
    DoubleSumAdds(n, n, offDiagonal, DiagonalSquares(a), Squares(a));
    DoubleSumSwap(n, n, LowerSquares(a), UpperSquares(a));
    DiagonalAsRows(n, a);
  }

  lemma DiagonalAsRows(n: nat, a: Matrix)
    ensures DoubleSum(n, n, DiagonalSquares(a)) == DiagonalNorm(n, a)
  {
    var zero := (j: int) => 0.0;
    SumZero(n, zero);
    forall i | 0 <= i < n
      ensures DiagonalSquare(a)(i) == Sum(n, Row(DiagonalSquares(a), i))
    {
      SumOne(n, zero, Row(DiagonalSquares(a), i), i);
    }
    DoubleSumRows(n, n, DiagonalSquares(a), DiagonalSquare(a));
  }
}
