/** The cyclic Jacobi eigensolver over the reals: every rotation lowers the
    off-diagonal norm by exactly the square it eliminates, and the returned
    pairs satisfy the eigenvalue equation up to what is left off the diagonal. */
module Jacobi {
  import opened Sums
  import opened Rotations

  // ---- the angle ---------------------------------------------------------------------

  /** A square-root function on the non-negative reals. */
  ghost predicate IsSqrt(sqrt: real -> real) {
    forall x: real :: x >= 0.0 ==> sqrt(x) >= 0.0 && sqrt(x) * sqrt(x) == x
  }

  function Tangent(app: real, aqq: real, apq: real, sqrt: real -> real): real
    requires apq != 0.0 && IsSqrt(sqrt)
  {
    var theta := (aqq - app) / (2.0 * apq);
    if theta == 0.0 then 1.0
    else
      RootPositive(theta, sqrt);
      if theta > 0.0 then 1.0 / (theta + sqrt(theta * theta + 1.0))
      else -1.0 / (-theta + sqrt(theta * theta + 1.0))
  }

  lemma RootPositive(theta: real, sqrt: real -> real)
    requires IsSqrt(sqrt)
    ensures theta * theta >= 0.0 && sqrt(theta * theta + 1.0) > 0.0
  {
    var r := sqrt(theta * theta + 1.0);
    assert r * r == theta * theta + 1.0;
  }

  /** `theta` scaled back: twice theta times apq is the diagonal difference. */
  lemma ThetaScaled(app: real, aqq: real, apq: real)
    requires apq != 0.0
    ensures 2.0 * ((aqq - app) / (2.0 * apq)) * apq == aqq - app
  {
    var theta := (aqq - app) / (2.0 * apq);
    assert theta * (2.0 * apq) == aqq - app;
  }

  lemma InverseRoot(d: real, u: real, theta: real, r: real)
    requires d == theta + r && u * d == 1.0 && r * r == theta * theta + 1.0
    ensures u * u + 2.0 * theta * u == 1.0
  {
    assert d * d == theta * theta + 2.0 * (theta * r) + r * r;
    assert d * d == 1.0 + 2.0 * theta * d by {
      assert theta * d == theta * theta + theta * r;
    }
    assert u * u * (d * d) == (u * d) * (u * d);
    assert u * u * (d * d) == u * u + 2.0 * theta * (u * (u * d));
  }

  /** The tangent solves t^2 + 2 theta t = 1. */
  lemma TangentSolves(app: real, aqq: real, apq: real, sqrt: real -> real)
    requires apq != 0.0 && IsSqrt(sqrt)
    ensures var theta, t := (aqq - app) / (2.0 * apq), Tangent(app, aqq, apq, sqrt);
      t * t + 2.0 * theta * t == 1.0
  {
    var theta, t := (aqq - app) / (2.0 * apq), Tangent(app, aqq, apq, sqrt);
    if theta != 0.0 {
      RootPositive(theta, sqrt);
      var r := sqrt(theta * theta + 1.0);
      if theta > 0.0 {
        InverseRoot(theta + r, t, theta, r);
      } else {
        assert (-theta) * (-theta) == theta * theta;
        InverseRoot(-theta + r, -t, -theta, r);
        assert (-t) * (-t) == t * t;
        assert 2.0 * (-theta) * (-t) == 2.0 * theta * t;
      }
    }
  }

  /** The rotation for a block with these diagonal and off-diagonal entries. */
  function PlaneFor(p: int, q: int, app: real, aqq: real, apq: real, sqrt: real -> real): Plane
    requires apq != 0.0 && IsSqrt(sqrt)
  {
    var t := Tangent(app, aqq, apq, sqrt);
    RootPositive(t, sqrt);
    var c := 1.0 / sqrt(t * t + 1.0);
    Plane(p, q, c, t * c)
  }

  /** The rotation the solver applies at (p, q). */
  function Eliminating(a: Matrix, p: int, q: int, sqrt: real -> real): Plane
    requires a(p, q) != 0.0 && IsSqrt(sqrt)
  {
    PlaneFor(p, q, a(p, p), a(q, q), a(p, q), sqrt)
  }

  lemma EliminatingIsRotation(n: nat, a: Matrix, p: int, q: int, sqrt: real -> real)
    requires a(p, q) != 0.0 && IsSqrt(sqrt) && 0 <= p < q < n
    ensures InPlane(n, Eliminating(a, p, q, sqrt))
  {
    var t := Tangent(a(p, p), a(q, q), a(p, q), sqrt);
    RootPositive(t, sqrt);
    UnitCircle(t, sqrt(t * t + 1.0));
  }

  lemma UnitCircle(t: real, r: real)
    requires r > 0.0 && r * r == t * t + 1.0
    ensures (1.0 / r) * (1.0 / r) + (t * (1.0 / r)) * (t * (1.0 / r)) == 1.0
  {
    var c := 1.0 / r;
    assert c * r == 1.0;
    assert (c * c) * (r * r) == (c * r) * (c * r);
    assert (t * c) * (t * c) == (c * c) * (t * t);
    assert (c * c) * (t * t + 1.0) == (c * c) * (t * t) + c * c;
  }

  lemma Annihilates(c: real, t: real, theta: real, app: real, aqq: real, apq: real)
    requires t * t + 2.0 * theta * t == 1.0 && 2.0 * theta * apq == aqq - app
    ensures c * (t * c) * (app - aqq) + (c * c - (t * c) * (t * c)) * apq == 0.0
  {
    var cc := c * c;
    assert c * (t * c) == cc * t && (t * c) * (t * c) == cc * (t * t);
    assert cc * t * (app - aqq) == cc * (t * (app - aqq));
    assert (cc - cc * (t * t)) * apq == cc * ((1.0 - t * t) * apq);
    assert (1.0 - t * t) * apq == t * (2.0 * theta * apq) by {
      assert 1.0 - t * t == 2.0 * theta * t;
    }
    assert t * (app - aqq) + (1.0 - t * t) * apq == 0.0;
    assert cc * (t * (app - aqq)) + cc * ((1.0 - t * t) * apq) == cc * (t * (app - aqq) + (1.0 - t * t) * apq);
  }

  /** The chosen rotation makes the entry (p, q) zero. */
  lemma EliminatesEntry(n: nat, a: Matrix, p: int, q: int, sqrt: real -> real)
    requires a(p, q) != 0.0 && IsSqrt(sqrt) && 0 <= p < q < n && Symmetric(n, a)
    ensures Rotate(a, Eliminating(a, p, q, sqrt))(p, q) == 0.0
  {
    var r := Eliminating(a, p, q, sqrt);
    var t := Tangent(a(p, p), a(q, q), a(p, q), sqrt);
    var theta := (a(q, q) - a(p, p)) / (2.0 * a(p, q));
    assert a(q, p) == a(p, q);
    TangentSolves(a(p, p), a(q, q), a(p, q), sqrt);
    ThetaScaled(a(p, p), a(q, q), a(p, q));
    CrossTerms(r, a(p, p), a(p, q), a(q, q));
    Annihilates(r.c, t, theta, a(p, p), a(q, q), a(p, q));
  }

  /** A rotation that zeroes (p, q) lowers the squared upper off-diagonal norm
      by exactly the square of that entry. */
  lemma OffDecreases(n: nat, a: Matrix, r: Plane)
    requires InPlane(n, r) && Symmetric(n, a) && Rotate(a, r)(r.p, r.q) == 0.0
    ensures Off(n, Rotate(a, r)) == Off(n, a) - Times(a(r.p, r.q), a(r.p, r.q))
  {
    var b := Rotate(a, r);
    assert a(r.p, r.q) == a(r.q, r.p);
    RotationFrobenius(n, a, r);
    RotationSymmetric(n, a, r);
    SymmetricNorm(n, a);
    SymmetricNorm(n, b);
    SumTwo(n, DiagonalSquare(a), DiagonalSquare(b), r.p, r.q);
    BlockSquares(r, a(r.p, r.p), a(r.p, r.q), a(r.q, r.q));
  }

  // ---- what the whole computation keeps ----------------------------------------------

  /** The relation between the input, the current matrix and the eigenvectors. */
  ghost predicate Diagonalizing(n: nat, a0: Matrix, v: Matrix, a: Matrix) {
    && Symmetric(n, a)
    && Orthonormal(n, v)
    && Intertwines(n, a0, v, a)
    && Reconstructs(n, a0, v, a)
    && Trace(n, a) == Trace(n, a0)
    && Off(n, a) <= Off(n, a0)
  }

  /** One eliminating rotation keeps the relation and lowers the norm exactly. */
  lemma RotationStep(n: nat, a0: Matrix, v: Matrix, a: Matrix, p: int, q: int, sqrt: real -> real)
    requires Diagonalizing(n, a0, v, a) && IsSqrt(sqrt) && 0 <= p < q < n && a(p, q) != 0.0
    ensures var r := Eliminating(a, p, q, sqrt);
      && Diagonalizing(n, a0, RotateColumns(v, r), Rotate(a, r))
      && Rotate(a, r)(p, q) == 0.0
      && Off(n, Rotate(a, r)) == Off(n, a) - Times(a(p, q), a(p, q))
      && Off(n, Rotate(a, r)) < Off(n, a)
  {
    var r := Eliminating(a, p, q, sqrt);
    EliminatingIsRotation(n, a, p, q, sqrt);
    EliminatesEntry(n, a, p, q, sqrt);
    RotationSymmetric(n, a, r);
    RotationOrthonormal(n, v, r);
    RotationIntertwines(n, a0, v, a, r);
    RotationReconstructs(n, a0, v, a, r);
    RotationTrace(n, a, r);
    OffDecreases(n, a, r);
    SquarePositive(a(p, q));
  }

  lemma TimesPositive(x: real, y: real)
    requires x > 0.0 && y > 0.0
    ensures Times(x, y) > 0.0
  {
  }

  lemma SquareOfOpposite(x: real, y: real)
    requires y == -x
    ensures Times(x, x) == Times(y, y)
  {
    assert x * x == -(x * y) && x * y == -(y * y);
  }

  lemma SquarePositive(x: real)
    requires x != 0.0
    ensures Times(x, x) > 0.0
  {
    if x > 0.0 {
      TimesPositive(x, x);
    } else {
      TimesPositive(-x, -x);
      SquareOfOpposite(x, -x);
    }
  }

  function Identity(): Matrix { (i: int, j: int) => Delta(i, j) }

  lemma {:induction false} DotDelta(n: nat, x: int -> real, y: int -> real, k: int)
    requires forall i :: 0 <= i < n ==> y(i) == Delta(i, k)
    ensures Dot(n, x, y) == if 0 <= k < n then x(k) else 0.0
  {
    if n > 0 {
      DotDelta(n - 1, x, y, k);
    }
  }

  /** The solver starts from the identity. */
  lemma StartsDiagonalizing(n: nat, a0: Matrix)
    requires Symmetric(n, a0)
    ensures Diagonalizing(n, a0, Identity(), a0)
  {
    var e := Identity();
    forall i, j | 0 <= i < n && 0 <= j < n
      ensures Dot(n, Column(e, i), Column(e, j)) == Delta(i, j)
      ensures Product(n, a0, e)(i, j) == a0(i, j) && Product(n, e, a0)(i, j) == a0(i, j)
    {
      DotDelta(n, Column(e, i), Column(e, j), j);
      DotDelta(n, Row(a0, i), Column(e, j), j);
      DotCommutes(n, Row(e, i), Column(a0, j));
      DotDelta(n, Column(a0, j), Row(e, i), i);
    }
    forall k, l | 0 <= k < n && 0 <= l < n
      ensures Dot(n, Row(Product(n, e, a0), k), Row(e, l)) == a0(k, l)
    {
      DotDelta(n, Row(Product(n, e, a0), k), Row(e, l), l);
    }
  }

  // ---- eigenpairs --------------------------------------------------------------------

  /** Column `j` of `a` with its diagonal entry removed. */
  function OffColumn(a: Matrix, j: int): int -> real { (i: int) => if i == j then 0.0 else a(i, j) }

  /** The part of `V e` that uses the first `m` columns of `v`. */
  function Combination(m: nat, v: Matrix, e: int -> real): int -> real { (k: int) => Dot(m, Row(v, k), e) }

  lemma {:induction false} DotScaledSum(n: nat, x: int -> real, y: int -> real, b: real, w: int -> real, z: int -> real)
    requires forall i :: 0 <= i < n ==> w(i) == x(i) + Times(y(i), b)
    ensures Dot(n, w, z) == Dot(n, x, z) + Times(Dot(n, y, z), b)
  {
    if n > 0 {
      DotScaledSum(n - 1, x, y, b, w, z);
      Expand(x(n - 1), y(n - 1), b, z(n - 1));
      ExpandSum(Dot(n - 1, y, z), Times(y(n - 1), z(n - 1)), b);
    }
  }

  lemma Expand(x: real, y: real, b: real, z: real)
    ensures Times(x + Times(y, b), z) == Times(x, z) + Times(Times(y, z), b)
  {
  }

  lemma ExpandSum(x: real, y: real, b: real)
    ensures Times(x + y, b) == Times(x, b) + Times(y, b)
  {
  }

  /** A combination of columns is orthogonal to every later column. */
  lemma {:induction false} CombinationOrthogonal(n: nat, m: nat, v: Matrix, e: int -> real, j: int)
    requires Orthonormal(n, v) && m <= j < n
    ensures Dot(n, Combination(m, v, e), Column(v, j)) == 0.0
  {
    if m == 0 {
      DotZero(n, Combination(0, v, e), Column(v, j));
    } else {
      CombinationOrthogonal(n, m - 1, v, e, j);
      DotScaledSum(n, Combination(m - 1, v, e), Column(v, m - 1), e(m - 1), Combination(m, v, e), Column(v, j));
      assert Dot(n, Column(v, m - 1), Column(v, j)) == 0.0;
    }
  }

  lemma {:induction false} DotZero(n: nat, x: int -> real, y: int -> real)
    requires forall i :: 0 <= i < n ==> x(i) == 0.0
    ensures Dot(n, x, y) == 0.0
  {
    if n > 0 {
      DotZero(n - 1, x, y);
    }
  }

  /** Orthonormal columns keep lengths: the squared norm of `V e` is that of `e`. */
  lemma {:induction false} CombinationNorm(n: nat, m: nat, v: Matrix, e: int -> real)
    requires Orthonormal(n, v) && m <= n
    ensures Dot(n, Combination(m, v, e), Combination(m, v, e)) == Dot(m, e, e)
  {
    var w := Combination(m, v, e);
    if m == 0 {
      DotZero(n, w, w);
    } else {
      var u, y, b := Combination(m - 1, v, e), Column(v, m - 1), e(m - 1);
      CombinationNorm(n, m - 1, v, e);
      CombinationOrthogonal(n, m - 1, v, e, m - 1);
      DotScaledSum(n, u, y, b, w, w);
      DotCommutes(n, u, w);
      DotCommutes(n, y, w);
      DotScaledSum(n, u, y, b, w, u);
      DotScaledSum(n, u, y, b, w, y);
      DotCommutes(n, y, u);
      assert Dot(n, y, y) == 1.0;
    }
  }

  /** The residual of the j-th returned pair: `A0 v_j - a_jj v_j`. */
  function Residual(n: nat, a0: Matrix, v: Matrix, a: Matrix, j: int): int -> real {
    (k: int) => Product(n, a0, v)(k, j) - Times(v(k, j), a(j, j))
  }

  lemma {:induction false} DotWithoutOne(n: nat, x: int -> real, a: Matrix, j: int)
    ensures Dot(n, x, OffColumn(a, j)) == Dot(n, x, Column(a, j)) - if 0 <= j < n then Times(x(j), a(j, j)) else 0.0
  {
    if n > 0 {
      DotWithoutOne(n - 1, x, a, j);
    }
  }

  /** The squared residual of every pair is exactly the squared norm of what is
      left in its column off the diagonal. */
  lemma ResidualNorm(n: nat, a0: Matrix, v: Matrix, a: Matrix, j: int)
    requires Diagonalizing(n, a0, v, a) && 0 <= j < n
    ensures Dot(n, Residual(n, a0, v, a, j), Residual(n, a0, v, a, j)) == Dot(n, OffColumn(a, j), OffColumn(a, j))
  {
    var r, w := Residual(n, a0, v, a, j), Combination(n, v, OffColumn(a, j));
    forall k | 0 <= k < n
      ensures r(k) == w(k)
    {
      assert Product(n, a0, v)(k, j) == Product(n, v, a)(k, j);
      DotWithoutOne(n, Row(v, k), a, j);
    }
    DotSame(n, r, r, w, w);
    CombinationNorm(n, n, v, OffColumn(a, j));
  }

  /** In a symmetric matrix one column off the diagonal is at most the whole
      upper triangle. */
  lemma ColumnWithinOff(n: nat, a: Matrix, j: int)
    requires Symmetric(n, a) && 0 <= j < n
    ensures Dot(n, OffColumn(a, j), OffColumn(a, j)) <= Off(n, a)
  {
    var cross := (x: int, y: int) => if x < y && (x == j || y == j) then Times(a(x, y), a(x, y)) else 0.0;
    var others := (x: int, y: int) => if x < y && x != j && y != j then Times(a(x, y), a(x, y)) else 0.0;
    DoubleSumAdds(n, n, cross, others, UpperSquares(a));
    DoubleSumNonNegative(n, n, others);
    CrossIsColumn(n, a, j, cross);
  }

  lemma {:induction false} DoubleSumNonNegative(n: nat, m: nat, f: Matrix)
    requires forall i, j :: 0 <= i < n && 0 <= j < m ==> f(i, j) >= 0.0
    ensures DoubleSum(n, m, f) >= 0.0
  {
    if n > 0 {
      DoubleSumNonNegative(n - 1, m, f);
      SumNonNegative(m, Row(f, n - 1));
    }
  }

  lemma CrossIsColumn(n: nat, a: Matrix, j: int, cross: Matrix)
    requires Symmetric(n, a) && 0 <= j < n
    requires forall x, y :: cross(x, y) == if x < y && (x == j || y == j) then Times(a(x, y), a(x, y)) else 0.0
    ensures DoubleSum(n, n, cross) == Dot(n, OffColumn(a, j), OffColumn(a, j))
  {
    var row := (x: int, y: int) => if x == j && x < y then Times(a(x, y), a(x, y)) else 0.0;
    var column := (x: int, y: int) => if y == j && x < y then Times(a(x, y), a(x, y)) else 0.0;
    DoubleSumAdds(n, n, row, column, cross);
    var below := (i: int) => if j < i then Times(a(i, j), a(i, j)) else 0.0;
    var above := (i: int) => if i < j then Times(a(i, j), a(i, j)) else 0.0;
    LineSum(n, row, j, below);
    var transposed := (x: int, y: int) => if x == j && y < x then Times(a(y, x), a(y, x)) else 0.0;
    DoubleSumSwap(n, n, column, transposed);
    LineSum(n, transposed, j, above);
    var both := (i: int) => Times(OffColumn(a, j)(i), OffColumn(a, j)(i));
    forall i | 0 <= i < n
      ensures both(i) == below(i) + above(i)
    {
      assert OffColumn(a, j)(i) == if i == j then 0.0 else a(i, j);
      assert Times(0.0, 0.0) == 0.0;
    }
    SumAdds(n, below, above, both);
    DotIsSum(n, OffColumn(a, j), OffColumn(a, j), both);
  }

  /** A matrix that is zero outside one row sums to that row. */
  lemma LineSum(n: nat, f: Matrix, j: int, line: int -> real)
    requires 0 <= j < n
    requires forall x, y :: 0 <= x < n && 0 <= y < n ==> f(x, y) == if x == j then line(y) else 0.0
    ensures DoubleSum(n, n, f) == Sum(n, line)
  {
    var zero := (i: int) => 0.0;
    var rows := (i: int) => if i == j then Sum(n, line) else 0.0;
    forall i | 0 <= i < n
      ensures rows(i) == Sum(n, Row(f, i))
    {
      if i == j {
        SumSame(n, Row(f, i), line);
      } else {
        SumZero(n, Row(f, i));
      }
    }
    DoubleSumRows(n, n, f, rows);
    SumZero(n, zero);
    SumOne(n, zero, rows, j);
  }

  /** Every pair solves the eigenvalue equation with a squared residual of at
      most the remaining off-diagonal norm. */
  lemma EigenpairAccuracy(n: nat, a0: Matrix, v: Matrix, a: Matrix, j: int)
    requires Diagonalizing(n, a0, v, a) && 0 <= j < n
    ensures Dot(n, Residual(n, a0, v, a, j), Residual(n, a0, v, a, j)) <= Off(n, a)
  {
    ResidualNorm(n, a0, v, a, j);
    ColumnWithinOff(n, a, j);
  }

  function ResidualSquare(n: nat, a0: Matrix, v: Matrix, a: Matrix, j: int): real {
    Dot(n, Residual(n, a0, v, a, j), Residual(n, a0, v, a, j))
  }

  /** Every pair solves the eigenvalue equation within a squared residual. */
  ghost predicate Accurate(n: nat, a0: Matrix, v: Matrix, a: Matrix, tolerance: real) {
    forall j :: 0 <= j < n ==> ResidualSquare(n, a0, v, a, j) <= tolerance
  }

  lemma AllEigenpairs(n: nat, a0: Matrix, v: Matrix, a: Matrix, tolerance: real)
    requires Diagonalizing(n, a0, v, a) && Off(n, a) <= tolerance
    ensures Accurate(n, a0, v, a, tolerance)
  {
    forall j | 0 <= j < n
      ensures ResidualSquare(n, a0, v, a, j) <= tolerance
    {
      EigenpairAccuracy(n, a0, v, a, j);
    }
  }

  // ---- the solver ----------------------------------------------------------------------

  const MAX_SWEEPS := 100

  function TenTo(k: nat): (r: real)
    ensures r > 0.0
  {
    if k == 0 then 1.0 else 10.0 * TenTo(k - 1)
  }

  /** Entries below this magnitude are skipped. */
  function Negligible(): (r: real)
    ensures r > 0.0
  {
    1.0 / TenTo(300)
  }

  function Tolerance(): real { 1.0 / TenTo(20) }

  ghost predicate Holds(a: array2<real>, n: nat, m: Matrix)
    reads a
  {
    a.Length0 == n && a.Length1 == n && forall i, j :: 0 <= i < n && 0 <= j < n ==> a[i, j] == m(i, j)
  }

  method RotateColumnsInPlace(a: array2<real>, r: Plane, ghost m: Matrix)
    requires Holds(a, a.Length0, m) && 0 <= r.p < r.q < a.Length0
    modifies a
    ensures Holds(a, a.Length0, RotateColumns(m, r))
  {
    var n := a.Length0;
    for k := 0 to n
      invariant forall i, j :: 0 <= i < n && 0 <= j < n ==> a[i, j] == if i < k then RotateColumns(m, r)(i, j)
          else m(i, j)
    {
      var akp, akq := a[k, r.p], a[k, r.q];
      a[k, r.p] := r.c * akp - r.s * akq;
      a[k, r.q] := r.s * akp + r.c * akq;
    }
  }

  method RotateRowsInPlace(a: array2<real>, r: Plane, ghost m: Matrix)
    requires Holds(a, a.Length0, m) && 0 <= r.p < r.q < a.Length0
    modifies a
    ensures Holds(a, a.Length0, RotateRows(m, r))
  {
    var n := a.Length0;
    for k := 0 to n
      invariant forall i, j :: 0 <= i < n && 0 <= j < n ==> a[i, j] == if j < k then RotateRows(m, r)(i, j) else m(i, j)
    {
      var apk, aqk := a[r.p, k], a[r.q, k];
      a[r.p, k] := r.c * apk - r.s * aqk;
      a[r.q, k] := r.s * apk + r.c * aqk;
    }
  }

  /** The squared norm of the upper triangle, row tail by row tail. */
  method ComputeOff(a: array2<real>, ghost m: Matrix) returns (off: real)
    requires Holds(a, a.Length0, m)
    ensures off == Off(a.Length0, m)
  {
    var n := a.Length0;
    ghost var u := UpperSquares(m);
    off := 0.0;
    for p := 0 to n
      invariant off == DoubleSum(p, n, u)
    {
      SumZero(p + 1, Row(u, p));
      for q := p + 1 to n
        invariant off == DoubleSum(p, n, u) + Sum(q, Row(u, p))
      {
        assert Row(u, p)(q) == Times(a[p, q], a[p, q]);
        off := off + a[p, q] * a[p, q];
      }
    }
  }

  /** The sum of the squares of eliminated entries. */
  function SquareSum(gone: seq<real>): real {
    if gone == [] then 0.0 else SquareSum(gone[..|gone| - 1]) + Times(gone[|gone| - 1], gone[|gone| - 1])
  }

  lemma SquareSumOne(x: real)
    ensures SquareSum([x]) == Times(x, x)
  {
    assert [x][..0] == [];
  }

  lemma {:induction false} SquareSumAppend(s: seq<real>, t: seq<real>)
    ensures SquareSum(s + t) == SquareSum(s) + SquareSum(t)
  {
    if t == [] {
      assert s + t == s;
    } else {
      SquareSumAppend(s, t[..|t| - 1]);
      assert (s + t)[..|s + t| - 1] == s + t[..|t| - 1];
    }
  }

  /** From `m0` to `m` exactly these entries were eliminated, none of them negligible:
      the squared off-diagonal norm lost the sum of their squares. */
  ghost predicate Eliminated(n: nat, m0: Matrix, m: Matrix, gone: seq<real>) {
    AllSignificant(gone) && Off(n, m) == Off(n, m0) - SquareSum(gone)
  }

  lemma EliminatedMore(n: nat, m0: Matrix, m1: Matrix, m2: Matrix, gone: seq<real>, more: seq<real>)
    requires Eliminated(n, m0, m1, gone) && Eliminated(n, m1, m2, more)
    ensures Eliminated(n, m0, m2, gone + more)
  {
    SquareSumAppend(gone, more);
  }

  /** Eliminate the entry (p, q) unless it is negligible; the squared off-diagonal
      norm loses exactly the square of what was eliminated. */
  method RotateAt(a: array2<real>, v: array2<real>, p: nat, q: nat, sqrt: real -> real,
                  ghost a0: Matrix, ghost m0: Matrix, ghost v0: Matrix)
    returns (ghost m: Matrix, ghost w: Matrix, ghost gone: seq<real>)
    requires IsSqrt(sqrt) && a != v && Holds(a, a.Length0, m0) && Holds(v, a.Length0, v0)
    requires p < q < a.Length0 && Diagonalizing(a.Length0, a0, v0, m0)
    modifies a, v
    ensures Holds(a, a.Length0, m) && Holds(v, a.Length0, w) && Diagonalizing(a.Length0, a0, w, m)
    ensures gone == if -Negligible() < m0(p, q) < Negligible() then [] else [m0(p, q)]
    ensures Eliminated(a.Length0, m0, m, gone)
  {
    m, w, gone := m0, v0, [];
    var apq := a[p, q];
    if -Negligible() < apq < Negligible() {
      return;
    }
    var r := PlaneFor(p, q, a[p, p], a[q, q], apq, sqrt);
    RotationStep(a.Length0, a0, v0, m0, p, q, sqrt);
    RotateColumnsInPlace(a, r, m0);
    RotateRowsInPlace(a, r, RotateColumns(m0, r));
    RotateColumnsInPlace(v, r, v0);
    m, w, gone := Rotate(m0, r), RotateColumns(v0, r), [apq];
    SquareSumOne(apq);
  }

  /** One cyclic sweep over the upper triangle. The squared off-diagonal norm loses
      exactly the squares of the eliminated entries, none of them negligible. */
  method Sweep(a: array2<real>, v: array2<real>, sqrt: real -> real, ghost a0: Matrix, ghost m0: Matrix,
      ghost v0: Matrix)
    returns (ghost m: Matrix, ghost w: Matrix, ghost gone: seq<real>)
    requires IsSqrt(sqrt) && a != v && Holds(a, a.Length0, m0) && Holds(v, a.Length0, v0)
    requires Diagonalizing(a.Length0, a0, v0, m0)
    modifies a, v
    ensures Holds(a, a.Length0, m) && Holds(v, a.Length0, w) && Diagonalizing(a.Length0, a0, w, m)
    ensures Eliminated(a.Length0, m0, m, gone)
  {
    var n := a.Length0;
    m, w, gone := m0, v0, [];
    for p := 0 to n
      invariant Holds(a, n, m) && Holds(v, n, w) && Diagonalizing(n, a0, w, m)
      invariant Eliminated(n, m0, m, gone)
    {
      for q := p + 1 to n
        invariant Holds(a, n, m) && Holds(v, n, w) && Diagonalizing(n, a0, w, m)
        invariant Eliminated(n, m0, m, gone)
      {
        ghost var before, x := m, [];
        m, w, x := RotateAt(a, v, p, q, sqrt, a0, m, w);
        EliminatedMore(n, m0, before, m, gone, x);
        gone := gone + x;
      }
    }
  }

  predicate AllSignificant(gone: seq<real>) {
    forall k :: 0 <= k < |gone| ==> gone[k] <= -Negligible() || gone[k] >= Negligible()
  }

  /** Stops when the off-diagonal norm is small enough, else sweeps once more. */
  method SweepUnlessDone(a: array2<real>, v: array2<real>, sqrt: real -> real,
                         ghost a0: Matrix, ghost m0: Matrix, ghost v0: Matrix, ghost gone0: seq<real>)
    returns (done: bool, ghost m: Matrix, ghost w: Matrix, ghost gone: seq<real>)
    requires IsSqrt(sqrt) && a != v && Holds(a, a.Length0, m0) && Holds(v, a.Length0, v0)
    requires Diagonalizing(a.Length0, a0, v0, m0) && Eliminated(a.Length0, a0, m0, gone0)
    modifies a, v
    ensures Holds(a, a.Length0, m) && Holds(v, a.Length0, w) && Diagonalizing(a.Length0, a0, w, m)
    ensures Eliminated(a.Length0, a0, m, gone)
    ensures done ==> Accurate(a.Length0, a0, w, m, Tolerance())
  {
    var off := ComputeOff(a, m0);
    if off <= Tolerance() {
      AllEigenpairs(a.Length0, a0, v0, m0, Tolerance());
      return true, m0, v0, gone0;
    }
    ghost var more;
    m, w, more := Sweep(a, v, sqrt, a0, m0, v0);
    EliminatedMore(a.Length0, a0, m0, m, gone0, more);
    done, gone := false, gone0 + more;
  }

  /** Eigendecomposition of a symmetric matrix. The columns of `v` are always
      orthonormal and reconstruct the input from the final matrix `d`, whose
      diagonal is returned; when the sweeps converge every pair solves the
      eigenvalue equation with a squared residual of at most the tolerance. */
  method JacobiEigh(n: nat, input: Matrix, sqrt: real -> real)
    returns (eigenvalues: seq<real>, v: array2<real>, converged: bool, ghost d: Matrix, ghost w: Matrix,
        ghost gone: seq<real>)
    requires Symmetric(n, input) && IsSqrt(sqrt)
    ensures Holds(v, n, w) && fresh(v)
    ensures |eigenvalues| == n && forall i :: 0 <= i < n ==> eigenvalues[i] == d(i, i)
    ensures Diagonalizing(n, input, w, d)
    ensures Eliminated(n, input, d, gone)
    ensures converged ==> Accurate(n, input, w, d, Tolerance())
  {
    var a := new real[n, n]((i, j) => input(i, j));
    v := new real[n, n]((i, j) => Delta(i, j));
    d, w, converged, gone := input, Identity(), false, [];
    StartsDiagonalizing(n, input);
    for sweep := 0 to MAX_SWEEPS
      invariant fresh(a) && fresh(v) && a != v
      invariant Holds(a, n, d) && Holds(v, n, w) && Diagonalizing(n, input, w, d) && Eliminated(n, input, d, gone)
      invariant !converged
    {
      converged, d, w, gone := SweepUnlessDone(a, v, sqrt, input, d, w, gone);
      if converged {
        break;
      }
    }
    eigenvalues := ReadDiagonal(a, d);
  }

  method ReadDiagonal(a: array2<real>, ghost m: Matrix) returns (r: seq<real>)
    requires Holds(a, a.Length0, m)
    ensures |r| == a.Length0 && forall i :: 0 <= i < |r| ==> r[i] == m(i, i)
  {
    r := [];
    for i := 0 to a.Length0
      invariant |r| == i && forall k :: 0 <= k < i ==> r[k] == m(k, k)
    {
      r := r + [a[i, i]];
    }
  }
}
