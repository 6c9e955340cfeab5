/** Finite sums of reals. */
module Sums {

  function Sum(n: nat, f: int -> real): real {
    if n == 0 then 0.0 else Sum(n - 1, f) + f(n - 1)
  }

  function Times(x: real, y: real): real { x * y }

  /** The sum of products of two vectors. */
  function Dot(n: nat, x: int -> real, y: int -> real): real {
    if n == 0 then 0.0 else Dot(n - 1, x, y) + Times(x(n - 1), y(n - 1))
  }

  lemma {:induction false} SumSame(n: nat, f: int -> real, g: int -> real)
    requires forall i :: 0 <= i < n ==> f(i) == g(i)
    ensures Sum(n, f) == Sum(n, g)
  {
    if n > 0 {
      SumSame(n - 1, f, g);
    }
  }

  lemma {:induction false} DotIsSum(n: nat, x: int -> real, y: int -> real, f: int -> real)
    requires forall i :: 0 <= i < n ==> f(i) == Times(x(i), y(i))
    ensures Dot(n, x, y) == Sum(n, f)
  {
    if n > 0 {
      DotIsSum(n - 1, x, y, f);
    }
  }

  lemma {:induction false} DotSame(n: nat, x: int -> real, y: int -> real, u: int -> real, v: int -> real)
    requires forall i :: 0 <= i < n ==> x(i) == u(i) && y(i) == v(i)
    ensures Dot(n, x, y) == Dot(n, u, v)
  {
    if n > 0 {
      DotSame(n - 1, x, y, u, v);
    }
  }

  lemma {:induction false} SumAdds(n: nat, f: int -> real, g: int -> real, h: int -> real)
    requires forall i :: 0 <= i < n ==> h(i) == f(i) + g(i)
    ensures Sum(n, h) == Sum(n, f) + Sum(n, g)
  {
    if n > 0 {
      SumAdds(n - 1, f, g, h);
    }
  }

  lemma {:induction false} SumNonNegative(n: nat, f: int -> real)
    requires forall i :: 0 <= i < n ==> f(i) >= 0.0
    ensures Sum(n, f) >= 0.0
  {
    if n > 0 {
      SumNonNegative(n - 1, f);
    }
  }

  lemma {:induction false} SumZero(n: nat, f: int -> real)
    requires forall i :: 0 <= i < n ==> f(i) == 0.0
    ensures Sum(n, f) == 0.0
  {
    if n > 0 {
      SumZero(n - 1, f);
    }
  }

  /** Sums of functions that agree except at one index. */
  lemma {:induction false} SumOne(n: nat, f: int -> real, g: int -> real, p: int)
    requires 0 <= p < n && forall i :: 0 <= i < n && i != p ==> f(i) == g(i)
    ensures Sum(n, g) == Sum(n, f) - f(p) + g(p)
  {
    if p == n - 1 {
      SumSame(n - 1, f, g);
    } else {
      SumOne(n - 1, f, g, p);
    }
  }

  /** Sums of functions that agree except at two indices. */
  lemma SumTwo(n: nat, f: int -> real, g: int -> real, p: int, q: int)
    requires 0 <= p < n && 0 <= q < n && p != q
    requires forall i :: 0 <= i < n && i != p && i != q ==> f(i) == g(i)
    ensures Sum(n, g) == Sum(n, f) - f(p) - f(q) + g(p) + g(q)
  {
    var h := (i: int) => if i == p then g(p) else f(i);
    SumOne(n, f, h, p);
    SumOne(n, h, g, q);
  }

  lemma {:induction false} DotCommutes(n: nat, x: int -> real, y: int -> real)
    ensures Dot(n, x, y) == Dot(n, y, x)
  {
    if n > 0 {
      DotCommutes(n - 1, x, y);
    }
  }

  type Matrix = (int, int) -> real

  function Row(a: Matrix, i: int): int -> real { (j: int) => a(i, j) }

  function Column(a: Matrix, j: int): int -> real { (i: int) => a(i, j) }

  /** A rectangle of terms, summed row by row. */
  function DoubleSum(n: nat, m: nat, f: Matrix): real {
    if n == 0 then 0.0 else DoubleSum(n - 1, m, f) + Sum(m, Row(f, n - 1))
  }

  lemma {:induction false} DoubleSumAdds(n: nat, m: nat, f: Matrix, g: Matrix, h: Matrix)
    requires forall i, j :: 0 <= i < n && 0 <= j < m ==> h(i, j) == f(i, j) + g(i, j)
    ensures DoubleSum(n, m, h) == DoubleSum(n, m, f) + DoubleSum(n, m, g)
  {
    if n > 0 {
      DoubleSumAdds(n - 1, m, f, g, h);
      SumAdds(m, Row(f, n - 1), Row(g, n - 1), Row(h, n - 1));
    }
  }

  /** The same terms summed column by column, as a sum of column sums. */
  lemma {:induction false} DoubleSumColumns(n: nat, m: nat, f: Matrix, columns: int -> real)
    requires forall j :: 0 <= j < m ==> columns(j) == Sum(n, Column(f, j))
    ensures DoubleSum(n, m, f) == Sum(m, columns)
  {
    if n == 0 {
      SumZero(m, columns);
    } else {
      var shorter := (j: int) => Sum(n - 1, Column(f, j));
      DoubleSumColumns(n - 1, m, f, shorter);
      forall j | 0 <= j < m
        ensures columns(j) == shorter(j) + f(n - 1, j)
      {
        var column := Column(f, j);
        assert Sum(n, column) == Sum(n - 1, column) + column(n - 1);
      }
      SumAdds(m, shorter, Row(f, n - 1), columns);
    }
  }

  lemma {:induction false} DoubleSumRows(n: nat, m: nat, f: Matrix, rows: int -> real)
    requires forall i :: 0 <= i < n ==> rows(i) == Sum(m, Row(f, i))
    ensures DoubleSum(n, m, f) == Sum(n, rows)
  {
    if n > 0 {
      DoubleSumRows(n - 1, m, f, rows);
    }
  }

  /** Exchanging the order of summation. */
  lemma DoubleSumSwap(n: nat, m: nat, f: Matrix, g: Matrix)
    requires forall i, j :: 0 <= i < n && 0 <= j < m ==> f(i, j) == g(j, i)
    ensures DoubleSum(n, m, f) == DoubleSum(m, n, g)
  {
    var columns := (j: int) => Sum(n, Column(f, j));
    DoubleSumColumns(n, m, f, columns);
    forall j | 0 <= j < m
      ensures columns(j) == Sum(n, Row(g, j))
    {
      SumSame(n, Column(f, j), Row(g, j));
    }
    DoubleSumRows(m, n, g, columns);
  }
}
