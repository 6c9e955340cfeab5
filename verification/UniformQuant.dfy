/** The symmetric uniform quantiser: 2^bits centred levels over [-1.5, 1.5], over
    the reals, before the final scaling by sigma. */
module UniformQuant {

  const HALF_RANGE := 1.5

  function StepSize(n: nat): (s: real)
    requires n > 0
    ensures s > 0.0
  {
    3.0 / n as real
  }

  /** The point `x` steps from the lower end of the range. */
  function At(s: real, x: real): real {
    s * x - HALF_RANGE
  }

  /** The position of `p` in steps from the lower end of the range. */
  function Position(s: real, p: real): real
    requires s > 0.0
  {
    (p + HALF_RANGE) / s
  }

  lemma PositionAt(s: real, x: real, p: real)
    requires s > 0.0
    ensures At(s, Position(s, p)) == p && Position(s, At(s, x)) == x
  {
    Quotient(s, x);
  }

  lemma Quotient(s: real, x: real)
    requires s > 0.0
    ensures (s * x - HALF_RANGE + HALF_RANGE) / s == x
  {
    assert s * x - HALF_RANGE + HALF_RANGE == s * x;
  }

  /** The centre of cell `i`. */
  function Level(n: nat, i: int): real
    requires n > 0
  {
    At(StepSize(n), i as real + 0.5)
  }

  function Clamp(x: int, n: nat): (r: nat)
    requires n > 0
    ensures r < n
  {
    if x < 0 then 0 else if x >= n then n - 1 else x
  }

  /** The index of the cell that holds `p`, or of the outermost cell. */
  function Quant(n: nat, p: real): (r: nat)
    requires n > 0
    ensures r < n
  {
    Clamp(Position(StepSize(n), p).Floor, n)
  }

  function Distance(x: real, y: real): real {
    if x < y then y - x else x - y
  }

  /** In units of the step, counted from the lower end of the range. */
  lemma NearestCell(x: real, n: nat, i: nat)
    requires i < n
    ensures Distance(x, Clamp(x.Floor, n) as real + 0.5) <= Distance(x, i as real + 0.5)
  {
    var f := x.Floor;
    assert f as real <= x < f as real + 1.0;
    if i < f {
      assert i as real + 1.0 <= f as real;
    } else if i > f {
      assert f as real + 1.0 <= i as real;
    }
  }

  lemma Spread(s: real, x: real, y: real)
    requires s > 0.0
    ensures At(s, y) - At(s, x) == s * (y - x)
    ensures At(s, x) < At(s, y) <==> x < y
  {
    assert s * (y - x) == s * y - s * x;
    if x < y {
      Positive(s, y - x);
    } else if x > y {
      Positive(s, x - y);
      assert s * (x - y) == s * x - s * y;
    }
  }

  lemma ScaledDistance(s: real, x: real, y: real)
    requires s > 0.0
    ensures Distance(At(s, x), At(s, y)) == s * Distance(x, y)
  {
    Spread(s, x, y);
    Spread(s, y, x);
  }

  /** Scaling and shifting keeps which of two points is nearer. */
  lemma NearerScaled(s: real, x: real, a: real, b: real)
    requires s > 0.0 && Distance(x, a) <= Distance(x, b)
    ensures Distance(At(s, x), At(s, a)) <= Distance(At(s, x), At(s, b))
  {
    ScaledDistance(s, x, a);
    ScaledDistance(s, x, b);
    Monotone(s, Distance(x, a), Distance(x, b));
  }

  lemma Positive(s: real, d: real)
    requires s > 0.0 && d > 0.0
    ensures s * d > 0.0
  {
  }

  lemma Monotone(s: real, a: real, b: real)
    requires s > 0.0 && a <= b
    ensures s * a <= s * b
  {
  }

  /** No level is nearer to `p` than the one of its code. */
  lemma QuantIsNearest(n: nat, p: real, i: nat)
    requires i < n
    ensures Distance(p, Level(n, Quant(n, p))) <= Distance(p, Level(n, i))
  {
    var s := StepSize(n);
    var x := Position(s, p);
    PositionAt(s, 0.0, p);
    NearestCell(x, n, i);
    NearerScaled(s, x, Clamp(x.Floor, n) as real + 0.5, i as real + 0.5);
  }

  /** Every level is quantised to its own code. */
  lemma LevelQuantises(n: nat, i: nat)
    requires i < n
    ensures Quant(n, Level(n, i)) == i
  {
    PositionAt(StepSize(n), i as real + 0.5, 0.0);
    assert (i as real + 0.5).Floor == i;
  }

  /** With an even number of levels the code keeps the sign of `p`: half the codes
      stand for negative values, half for the others. */
  lemma QuantKeepsSign(n: nat, m: nat, p: real)
    requires n == 2 * m && m > 0
    ensures p < 0.0 <==> Quant(n, p) < m
    ensures Level(n, m) > 0.0 > Level(n, m - 1)
  {
    var s := StepSize(n);
    var x := Position(s, p);
    HalfRange(n, m);
    PositionAt(s, 0.0, p);
    Spread(s, x, m as real);
    Spread(s, m as real, m as real + 0.5);
    Spread(s, (m - 1) as real + 0.5, m as real);
  }

  lemma HalfRange(n: nat, m: nat)
    requires n == 2 * m && m > 0
    ensures At(StepSize(n), m as real) == 0.0
  {
    var r := m as real;
    assert n as real == 2.0 * r;
    Thirds(r);
  }

  lemma Thirds(r: real)
    requires r > 0.0
    ensures 3.0 / (2.0 * r) * r == 1.5
  {
    var q := 3.0 / (2.0 * r);
    assert q * (2.0 * r) == 3.0;
    assert q * (2.0 * r) == 2.0 * (q * r);
  }
}
