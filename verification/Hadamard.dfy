/** The fast Walsh-Hadamard transform in place, and the randomised Hadamard
    transform built on it, over the reals. */
module Hadamard {
  import opened Sums
  import opened Words

  // ---- powers of two -------------------------------------------------------------------

  lemma {:induction false} PowersGrow(j: nat, k: nat)
    requires Pow2(j) < Pow2(k)
    ensures j < k && 2 * Pow2(j) <= Pow2(k)
  {
    if k > 0 && j > 0 {
      PowersGrow(j - 1, k - 1);
    }
  }

  ghost predicate IsPow2(n: nat) {
    exists k :: n == Pow2(k)
  }

  /** Smallest power of two not below `n`. */
  method NextPow2(n: nat) returns (p: nat)
    ensures IsPow2(p) && n <= p
    ensures forall q: nat :: IsPow2(q) && n <= q ==> p <= q
  {
    p := 1;
    ghost var k := 0;
    while p < n
      invariant p == Pow2(k)
      invariant forall j :: n <= Pow2(j) ==> p <= Pow2(j)
      decreases n - p
    {
      forall j | n <= Pow2(j)
        ensures 2 * p <= Pow2(j)
      {
        PowersGrow(k, j);
      }
      assert Pow2(k + 1) == 2 * p;
      p, k := 2 * p, k + 1;
    }
  }

  // ---- trees of halves -------------------------------------------------------------------

  /** A vector whose length is a power of two, split into halves all the way. */
  datatype Tree = Leaf(value: real) | Node(left: Tree, right: Tree)

  predicate Perfect(t: Tree, k: nat) {
    match t
    case Leaf(_) => k == 0
    case Node(a, b) => k > 0 && Perfect(a, k - 1) && Perfect(b, k - 1)
  }

  function Flatten(t: Tree): (r: seq<real>)
    ensures r != []
  {
    match t
    case Leaf(x) => [x]
    case Node(a, b) => Flatten(a) + Flatten(b)
  }

  /** The tree of a vector of length 2^k. */
  function TreeOf(k: nat, v: seq<real>): (t: Tree)
    requires |v| == Pow2(k)
    ensures Perfect(t, k)
  {
    if k == 0 then Leaf(v[0])
    else Node(TreeOf(k - 1, v[..Pow2(k - 1)]), TreeOf(k - 1, v[Pow2(k - 1)..]))
  }

  lemma {:induction false} FlattenTreeOf(k: nat, v: seq<real>)
    requires |v| == Pow2(k)
    ensures Flatten(TreeOf(k, v)) == v
  {
    if k > 0 {
      FlattenTreeOf(k - 1, v[..Pow2(k - 1)]);
      FlattenTreeOf(k - 1, v[Pow2(k - 1)..]);
    }
  }

  lemma {:induction false} TreeOfFlatten(k: nat, t: Tree)
    requires Perfect(t, k)
    ensures |Flatten(t)| == Pow2(k) && TreeOf(k, Flatten(t)) == t
  {
    if t.Node? {
      TreeOfFlatten(k - 1, t.left);
      TreeOfFlatten(k - 1, t.right);
      var f := Flatten(t);
      assert f[..Pow2(k - 1)] == Flatten(t.left) && f[Pow2(k - 1)..] == Flatten(t.right);
    }
  }

  // ---- pointwise operations ----------------------------------------------------------------

  function Add(s: Tree, t: Tree): (r: Tree)
    ensures forall k :: Perfect(s, k) ==> Perfect(r, k)
  {
    match s
    case Leaf(x) => if t.Leaf? then Leaf(x + t.value) else s
    case Node(a, b) => if t.Node? then Node(Add(a, t.left), Add(b, t.right)) else s
  }

  function Sub(s: Tree, t: Tree): (r: Tree)
    ensures forall k :: Perfect(s, k) ==> Perfect(r, k)
  {
    match s
    case Leaf(x) => if t.Leaf? then Leaf(x - t.value) else s
    case Node(a, b) => if t.Node? then Node(Sub(a, t.left), Sub(b, t.right)) else s
  }

  function Scale(t: Tree, c: real): (r: Tree)
    ensures forall k :: Perfect(t, k) ==> Perfect(r, k)
  {
    match t
    case Leaf(x) => Leaf(Times(x, c))
    case Node(a, b) => Node(Scale(a, c), Scale(b, c))
  }

  function Inner(s: Tree, t: Tree): real {
    match s
    case Leaf(x) => if t.Leaf? then Times(x, t.value) else 0.0
    case Node(a, b) => if t.Node? then Inner(a, t.left) + Inner(b, t.right) else 0.0
  }

  lemma {:induction false} Exchange(a: Tree, b: Tree, c: Tree, d: Tree, k: nat)
    requires Perfect(a, k) && Perfect(b, k) && Perfect(c, k) && Perfect(d, k)
    ensures Add(Add(a, c), Add(b, d)) == Add(Add(a, b), Add(c, d))
    ensures Sub(Add(a, c), Add(b, d)) == Add(Sub(a, b), Sub(c, d))
    ensures Add(Sub(a, c), Sub(b, d)) == Sub(Add(a, b), Add(c, d))
    ensures Sub(Sub(a, c), Sub(b, d)) == Sub(Sub(a, b), Sub(c, d))
  {
    if a.Node? {
      Exchange(a.left, b.left, c.left, d.left, k - 1);
      Exchange(a.right, b.right, c.right, d.right, k - 1);
    }
  }

  lemma TimesDistributes(x: real, y: real, c: real)
    ensures Times(x, c) + Times(y, c) == Times(x + y, c)
    ensures Times(x, c) - Times(y, c) == Times(x - y, c)
  {
  }

  lemma {:induction false} AddScales(s: Tree, t: Tree, c: real, k: nat)
    requires Perfect(s, k) && Perfect(t, k)
    ensures Add(Scale(s, c), Scale(t, c)) == Scale(Add(s, t), c)
    ensures Sub(Scale(s, c), Scale(t, c)) == Scale(Sub(s, t), c)
  {
    if s.Node? {
      AddScales(s.left, t.left, c, k - 1);
      AddScales(s.right, t.right, c, k - 1);
    } else {
      TimesDistributes(s.value, t.value, c);
    }
  }

  lemma {:induction false} SumPlusDifference(s: Tree, t: Tree, k: nat)
    requires Perfect(s, k) && Perfect(t, k)
    ensures Add(Add(s, t), Sub(s, t)) == Scale(s, 2.0)
    ensures Sub(Add(s, t), Sub(s, t)) == Scale(t, 2.0)
  {
    if s.Node? {
      SumPlusDifference(s.left, t.left, k - 1);
      SumPlusDifference(s.right, t.right, k - 1);
    }
  }

  lemma TimesAssociates(x: real, b: real, c: real)
    ensures Times(Times(x, b), c) == Times(x, Times(b, c))
  {
  }

  lemma {:induction false} ScaleTwice(t: Tree, b: real, c: real)
    ensures Scale(Scale(t, b), c) == Scale(t, Times(b, c))
  {
    match t
    case Leaf(x) => TimesAssociates(x, b, c);
    case Node(l, r) =>
      ScaleTwice(l, b, c);
      ScaleTwice(r, b, c);
  }

  lemma {:induction false} ScaleOne(t: Tree)
    ensures Scale(t, 1.0) == t
  {
    if t.Node? {
      ScaleOne(t.left);
      ScaleOne(t.right);
    }
  }

  lemma Parallelogram(x: real, y: real, u: real, v: real)
    ensures Times(x + y, u + v) + Times(x - y, u - v) == 2.0 * Times(x, u) + 2.0 * Times(y, v)
  {
    assert (x + y) * (u + v) == x * u + x * v + y * u + y * v;
    assert (x - y) * (u - v) == x * u - x * v - y * u + y * v;
  }

  lemma {:induction false} InnerParallelogram(a: Tree, b: Tree, c: Tree, d: Tree, k: nat)
    requires Perfect(a, k) && Perfect(b, k) && Perfect(c, k) && Perfect(d, k)
    ensures Inner(Add(a, b), Add(c, d)) + Inner(Sub(a, b), Sub(c, d)) == 2.0 * Inner(a, c) + 2.0 * Inner(b, d)
  {
    if a.Node? {
      InnerParallelogram(a.left, b.left, c.left, d.left, k - 1);
      InnerParallelogram(a.right, b.right, c.right, d.right, k - 1);
    } else {
      Parallelogram(a.value, b.value, c.value, d.value);
    }
  }

  lemma ScaledProduct(x: real, y: real, c: real)
    ensures Times(Times(x, c), Times(y, c)) == Times(Times(c, c), Times(x, y))
  {
  }

  lemma TimesSum(c: real, x: real, y: real)
    ensures Times(c, x) + Times(c, y) == Times(c, x + y)
  {
  }

  lemma {:induction false} InnerScale(s: Tree, t: Tree, c: real, k: nat)
    requires Perfect(s, k) && Perfect(t, k)
    ensures Inner(Scale(s, c), Scale(t, c)) == Times(Times(c, c), Inner(s, t))
  {
    if s.Node? {
      InnerScale(s.left, t.left, c, k - 1);
      InnerScale(s.right, t.right, c, k - 1);
      TimesSum(Times(c, c), Inner(s.left, t.left), Inner(s.right, t.right));
    } else {
      ScaledProduct(s.value, t.value, c);
    }
  }

  // ---- the recursive transform ---------------------------------------------------------------

  /** The unscaled Walsh-Hadamard transform: sums of the transformed halves,
      then their differences. */
  function Wht(t: Tree, k: nat): (r: Tree)
    requires Perfect(t, k)
    ensures Perfect(r, k)
  {
    match t
    case Leaf(_) => t
    case Node(a, b) =>
      Node(Add(Wht(a, k - 1), Wht(b, k - 1)), Sub(Wht(a, k - 1), Wht(b, k - 1)))
  }

  lemma {:induction false} WhtAdds(s: Tree, t: Tree, k: nat)
    requires Perfect(s, k) && Perfect(t, k)
    ensures Wht(Add(s, t), k) == Add(Wht(s, k), Wht(t, k))
    ensures Wht(Sub(s, t), k) == Sub(Wht(s, k), Wht(t, k))
  {
    if s.Node? {
      WhtAdds(s.left, t.left, k - 1);
      WhtAdds(s.right, t.right, k - 1);
      Exchange(Wht(s.left, k - 1), Wht(s.right, k - 1), Wht(t.left, k - 1), Wht(t.right, k - 1), k - 1);
    }
  }

  lemma {:induction false} WhtScales(t: Tree, c: real, k: nat)
    requires Perfect(t, k)
    ensures Wht(Scale(t, c), k) == Scale(Wht(t, k), c)
  {
    if t.Node? {
      WhtScales(t.left, c, k - 1);
      WhtScales(t.right, c, k - 1);
      AddScales(Wht(t.left, k - 1), Wht(t.right, k - 1), c, k - 1);
    }
  }

  /** The length 2^k as a real number. */
  function Size(k: nat): real {
    if k == 0 then 1.0 else Times(Size(k - 1), 2.0)
  }

  lemma {:induction false} SizeIsPow2(k: nat)
    ensures Size(k) == Pow2(k) as real
  {
    if k > 0 {
      SizeIsPow2(k - 1);
    }
  }

  /** Two transforms multiply by the length. */
  lemma {:induction false} WhtTwice(t: Tree, k: nat)
    requires Perfect(t, k)
    ensures Wht(Wht(t, k), k) == Scale(t, Size(k))
  {
    if t.Leaf? {
      ScaleOne(t);
    } else {
      var a, b := Wht(t.left, k - 1), Wht(t.right, k - 1);
      WhtAdds(a, b, k - 1);
      WhtTwice(t.left, k - 1);
      WhtTwice(t.right, k - 1);
      SumPlusDifference(Wht(a, k - 1), Wht(b, k - 1), k - 1);
      ScaleTwice(t.left, Size(k - 1), 2.0);
      ScaleTwice(t.right, Size(k - 1), 2.0);
    }
  }

  /** Dot products are multiplied by the length. */
  lemma {:induction false} WhtInner(s: Tree, t: Tree, k: nat)
    requires Perfect(s, k) && Perfect(t, k)
    ensures Inner(Wht(s, k), Wht(t, k)) == Times(Size(k), Inner(s, t))
  {
    if s.Node? {
      WhtInner(s.left, t.left, k - 1);
      WhtInner(s.right, t.right, k - 1);
      InnerParallelogram(Wht(s.left, k - 1), Wht(s.right, k - 1), Wht(t.left, k - 1), Wht(t.right, k - 1), k - 1);
      Doubled(Size(k - 1), Inner(s.left, t.left), Inner(s.right, t.right));
    }
  }

  lemma Doubled(h: real, a: real, b: real)
    ensures 2.0 * Times(h, a) + 2.0 * Times(h, b) == Times(Times(h, 2.0), a + b)
  {
  }

  // ---- the orthonormal transform -------------------------------------------------------------

  /** `scale` is one over the square root of the length 2^k. */
  predicate Normalizes(scale: real, k: nat) {
    Times(Times(scale, scale), Size(k)) == 1.0
  }

  function Transform(t: Tree, k: nat, scale: real): (r: Tree)
    requires Perfect(t, k)
    ensures Perfect(r, k)
  {
    Scale(Wht(t, k), scale)
  }

  lemma ThreeFactors(n: real, c: real, x: real)
    requires Times(Times(c, c), n) == 1.0
    ensures Times(Times(n, c), c) == 1.0
    ensures Times(Times(c, c), Times(n, x)) == x
  {
    assert n * c * c == c * c * n;
    assert (c * c) * (n * x) == (c * c * n) * x;
  }

  /** The scaled transform is its own inverse. */
  lemma TransformInvolution(t: Tree, k: nat, scale: real)
    requires Perfect(t, k) && Normalizes(scale, k)
    ensures Transform(Transform(t, k, scale), k, scale) == t
  {
    WhtScales(Wht(t, k), scale, k);
    WhtTwice(t, k);
    ScaleTwice(t, Size(k), scale);
    ScaleTwice(t, Times(Size(k), scale), scale);
    ThreeFactors(Size(k), scale, 0.0);
    ScaleOne(t);
  }

  /** The scaled transform keeps every dot product. */
  lemma TransformOrthogonal(s: Tree, t: Tree, k: nat, scale: real)
    requires Perfect(s, k) && Perfect(t, k) && Normalizes(scale, k)
    ensures Inner(Transform(s, k, scale), Transform(t, k, scale)) == Inner(s, t)
  {
    WhtInner(s, t, k);
    InnerScale(Wht(s, k), Wht(t, k), scale, k);
    ThreeFactors(Size(k), scale, Inner(s, t));
  }

  // ---- vectors -------------------------------------------------------------------------------

  function Dot(x: seq<real>, y: seq<real>): real
    requires |x| == |y|
  {
    if x == [] then 0.0 else Times(x[0], y[0]) + Dot(x[1..], y[1..])
  }

  lemma {:induction false} DotConcat(a: seq<real>, b: seq<real>, c: seq<real>, d: seq<real>)
    requires |a| == |c| && |b| == |d|
    ensures Dot(a + b, c + d) == Dot(a, c) + Dot(b, d)
  {
    if a == [] {
      assert a + b == b && c + d == d;
    } else {
      DotConcat(a[1..], b, c[1..], d);
      assert (a + b)[1..] == a[1..] + b && (c + d)[1..] == c[1..] + d;
    }
  }

  lemma {:induction false} InnerIsDot(s: Tree, t: Tree, k: nat)
    requires Perfect(s, k) && Perfect(t, k)
    ensures |Flatten(s)| == |Flatten(t)| && Inner(s, t) == Dot(Flatten(s), Flatten(t))
  {
    match s
    case Leaf(x) =>
      assert Dot([], []) == 0.0;
    case Node(a, b) =>
      InnerIsDot(a, t.left, k - 1);
      InnerIsDot(b, t.right, k - 1);
      DotConcat(Flatten(a), Flatten(b), Flatten(t.left), Flatten(t.right));
  }

  /** The transform of a vector of length 2^k. */
  function TransformVector(k: nat, v: seq<real>, scale: real): (r: seq<real>)
    requires |v| == Pow2(k)
    ensures |r| == |v|
  {
    TreeOfFlatten(k, Transform(TreeOf(k, v), k, scale));
    Flatten(Transform(TreeOf(k, v), k, scale))
  }

  /** On vectors: the transform is its own inverse. */
  lemma VectorInvolution(k: nat, v: seq<real>, scale: real)
    requires |v| == Pow2(k) && Normalizes(scale, k)
    ensures TransformVector(k, TransformVector(k, v, scale), scale) == v
  {
    var t := TreeOf(k, v);
    TreeOfFlatten(k, Transform(t, k, scale));
    TransformInvolution(t, k, scale);
    FlattenTreeOf(k, v);
  }

  /** On vectors: the transform keeps every dot product. */
  lemma VectorOrthogonal(k: nat, x: seq<real>, y: seq<real>, scale: real)
    requires |x| == |y| == Pow2(k) && Normalizes(scale, k)
    ensures Dot(TransformVector(k, x, scale), TransformVector(k, y, scale)) == Dot(x, y)
  {
    var s, t := TreeOf(k, x), TreeOf(k, y);
    TransformOrthogonal(s, t, k, scale);
    InnerIsDot(s, t, k);
    InnerIsDot(Transform(s, k, scale), Transform(t, k, scale), k);
    FlattenTreeOf(k, x);
    FlattenTreeOf(k, y);
  }

  // ---- the loops -------------------------------------------------------------------------------

  /** Every tree is perfect of height `k`. */
  predicate AllPerfect(ts: seq<Tree>, k: nat) {
    forall i :: 0 <= i < |ts| ==> Perfect(ts[i], k)
  }

  /** The images of the trees, one after another. */
  function Blocks(f: Tree -> seq<real>, ts: seq<Tree>): (r: seq<real>)
  {
    if ts == [] then [] else f(ts[0]) + Blocks(f, ts[1..])
  }

  /** A tree of height `k` shows in the array as its transform. */
  function Image(k: nat): Tree -> seq<real> {
    (t: Tree) => if Perfect(t, k) then Flatten(Wht(t, k)) else []
  }

  /** Neighbouring trees joined two by two. */
  function Pairs(ts: seq<Tree>): (r: seq<Tree>)
    ensures 2 * |r| <= |ts| <= 2 * |r| + 1
  {
    if |ts| < 2 then [] else [Node(ts[0], ts[1])] + Pairs(ts[2..])
  }

  lemma {:induction false} PairsPerfect(ts: seq<Tree>, k: nat)
    requires AllPerfect(ts, k)
    ensures AllPerfect(Pairs(ts), k + 1)
    decreases |ts|
  {
    if |ts| >= 2 {
      PairsPerfect(ts[2..], k);
    }
  }

  lemma {:induction false} BlocksAppend(f: Tree -> seq<real>, ts: seq<Tree>, t: Tree)
    ensures Blocks(f, ts + [t]) == Blocks(f, ts) + f(t)
    decreases |ts|
  {
    if ts == [] {
      assert ts + [t] == [t];
      assert Blocks(f, [t]) == f(t) + Blocks(f, []);
    } else {
      BlocksAppend(f, ts[1..], t);
      assert (ts + [t])[1..] == ts[1..] + [t];
    }
  }

  /** Concatenation of the plain blocks. */
  function FlattenAll(ts: seq<Tree>): seq<real> {
    if ts == [] then [] else Flatten(ts[0]) + FlattenAll(ts[1..])
  }

  lemma {:induction false} PairsFlatten(ts: seq<Tree>)
    requires |ts| % 2 == 0
    ensures FlattenAll(Pairs(ts)) == FlattenAll(ts)
    decreases |ts|
  {
    if ts != [] {
      PairsFlatten(ts[2..]);
      assert ts[1..][1..] == ts[2..];
      var p := Pairs(ts);
      assert p[0] == Node(ts[0], ts[1]) && p[1..] == Pairs(ts[2..]);
    }
  }

  lemma FlattenPair(a: Tree, b: Tree, k: nat)
    requires Perfect(a, k) && Perfect(b, k)
    ensures |Flatten(Wht(a, k))| == Pow2(k) && |Flatten(Wht(b, k))| == Pow2(k)
    ensures Flatten(Wht(Node(a, b), k + 1)) == Join(Flatten(Wht(a, k)), Flatten(Wht(b, k)))
  {
    TreeOfFlatten(k, Wht(a, k));
    TreeOfFlatten(k, Wht(b, k));
    FlattenAdds(Wht(a, k), Wht(b, k), k);
  }

  /** One butterfly on values: sums in the first half, differences in the second. */
  function Join(a: seq<real>, b: seq<real>): (r: seq<real>)
    requires |a| == |b|
    ensures |r| == 2 * |a|
  {
    seq(|a|, i requires 0 <= i < |a| => a[i] + b[i]) + seq(|a|, i requires 0 <= i < |a| => a[i] - b[i])
  }

  lemma {:induction false} FlattenAdds(s: Tree, t: Tree, k: nat)
    requires Perfect(s, k) && Perfect(t, k)
    ensures |Flatten(s)| == |Flatten(t)|
    ensures Flatten(Add(s, t)) + Flatten(Sub(s, t)) == Join(Flatten(s), Flatten(t))
    ensures |Flatten(Add(s, t))| == |Flatten(s)| == |Flatten(Sub(s, t))|
  {
    if s.Node? {
      FlattenAdds(s.left, t.left, k - 1);
      FlattenAdds(s.right, t.right, k - 1);
      JoinConcat(Flatten(s.left), Flatten(s.right), Flatten(t.left), Flatten(t.right),
                 Flatten(Add(s.left, t.left)), Flatten(Sub(s.left, t.left)),
                 Flatten(Add(s.right, t.right)), Flatten(Sub(s.right, t.right)));
    }
  }

  lemma JoinConcat(a: seq<real>, b: seq<real>, c: seq<real>, d: seq<real>,
                   sum1: seq<real>, dif1: seq<real>, sum2: seq<real>, dif2: seq<real>)
    requires |a| == |c| == |sum1| == |dif1| && |b| == |d| == |sum2| == |dif2|
    requires sum1 + dif1 == Join(a, c) && sum2 + dif2 == Join(b, d)
    ensures (sum1 + sum2) + (dif1 + dif2) == Join(a + b, c + d)
  {
    forall i | 0 <= i < |a|
      ensures sum1[i] == a[i] + c[i] && dif1[i] == a[i] - c[i]
    {
      assert (sum1 + dif1)[i] == Join(a, c)[i] && (sum1 + dif1)[|a| + i] == Join(a, c)[|a| + i];
    }
    forall i | 0 <= i < |b|
      ensures sum2[i] == b[i] + d[i] && dif2[i] == b[i] - d[i]
    {
      assert (sum2 + dif2)[i] == Join(b, d)[i] && (sum2 + dif2)[|b| + i] == Join(b, d)[|b| + i];
    }
  }

  /** Sums and differences of the pairs `h` apart in one block of length `2h`. */
  method Butterfly(v: array<real>, i: nat, h: nat)
    requires i + 2 * h <= v.Length
    modifies v
    ensures v[..] == old(v[..i]) + Join(old(v[i..i + h]), old(v[i + h..i + 2 * h])) + old(v[i + 2 * h..])
  {
    for j := i to i + h
      invariant forall x :: 0 <= x < v.Length ==>
        v[x] == if i <= x < j then old(v[x]) + old(v[x + h])
                else if i + h <= x < j + h then old(v[x - h]) - old(v[x])
                else old(v[x])
    {
      var a, b := v[j], v[j + h];
      v[j] := a + b;
      v[j + h] := a - b;
    }
    ghost var was := old(v[..]);
    assert was[..i] == old(v[..i]) && was[i..i + h] == old(v[i..i + h]);
    assert was[i + h..i + 2 * h] == old(v[i + h..i + 2 * h]) && was[i + 2 * h..] == old(v[i + 2 * h..]);
    Paired(was, v[..], i, h);
  }

  lemma Paired(was: seq<real>, now: seq<real>, i: nat, h: nat)
    requires |now| == |was| && i + 2 * h <= |was|
    requires forall x {:trigger now[x]} :: i <= x < i + h ==> now[x] == was[x] + was[x + h]
    requires forall x {:trigger now[x]} :: i + h <= x < i + 2 * h ==> now[x] == was[x - h] - was[x]
    requires forall x {:trigger now[x]} :: 0 <= x < |was| ==> i <= x < i + 2 * h || now[x] == was[x]
    ensures now == was[..i] + Join(was[i..i + h], was[i + h..i + 2 * h]) + was[i + 2 * h..]
  {
    var a, b := was[i..i + h], was[i + h..i + 2 * h];
    var j := Join(a, b);
    forall k | 0 <= k < 2 * h
      ensures now[i..i + 2 * h][k] == j[k]
    {
      if k < h {
        assert j[k] == a[k] + b[k] && now[i + k] == was[i + k] + was[i + k + h];
      } else {
        assert j[k] == a[k - h] - b[k - h] && now[i + k] == was[i + k - h] - was[i + k];
      }
    }
    assert now[i..i + 2 * h] == j;
    assert now[..i] == was[..i] && now[i + 2 * h..] == was[i + 2 * h..];
    assert now == now[..i] + now[i..i + 2 * h] + now[i + 2 * h..];
  }

  lemma Split(done: seq<real>, a: seq<real>, b: seq<real>, rest: seq<real>)
    requires |a| == |b|
    ensures var s, i, h := done + (a + (b + rest)), |done|, |a|;
      && i + 2 * h <= |s|
      && s[..i] == done && s[i..i + h] == a && s[i + h..i + 2 * h] == b && s[i + 2 * h..] == rest
  {
  }

  /** The image under `g` of a pair is the butterfly of the images under `f`. */
  ghost predicate Joins(f: Tree -> seq<real>, g: Tree -> seq<real>, h: nat) {
    forall a: Tree, b: Tree {:trigger g(Node(a, b))} ::
      |f(a)| == h && |f(b)| == h ==> g(Node(a, b)) == Join(f(a), f(b))
  }

  ghost predicate Sized(f: Tree -> seq<real>, ts: seq<Tree>, h: nat) {
    forall i :: 0 <= i < |ts| ==> |f(ts[i])| == h
  }

  lemma ImagesJoin(k: nat)
    ensures Joins(Image(k), Image(k + 1), Pow2(k))
  {
    forall a: Tree, b: Tree | |Image(k)(a)| == Pow2(k) && |Image(k)(b)| == Pow2(k)
      ensures Image(k + 1)(Node(a, b)) == Join(Image(k)(a), Image(k)(b))
    {
      PairImage(a, b, k);
    }
  }

  lemma ImagesSized(ts: seq<Tree>, k: nat)
    requires AllPerfect(ts, k)
    ensures Sized(Image(k), ts, Pow2(k))
  {
    forall i | 0 <= i < |ts|
      ensures |Image(k)(ts[i])| == Pow2(k)
    {
      TreeOfFlatten(k, Wht(ts[i], k));
    }
  }

  lemma PairImage(a: Tree, b: Tree, k: nat)
    requires |Image(k)(a)| == Pow2(k) && |Image(k)(b)| == Pow2(k)
    ensures Image(k + 1)(Node(a, b)) == Join(Image(k)(a), Image(k)(b))
  {
    ImageOf(a, k);
    ImageOf(b, k);
    ImageOf(Node(a, b), k + 1);
    FlattenPair(a, b, k);
  }

  lemma ImageOf(t: Tree, k: nat)
    ensures Perfect(t, k) ==> Image(k)(t) == Flatten(Wht(t, k))
    ensures !Perfect(t, k) ==> Image(k)(t) == []
  {
  }

  lemma TwoBlocks(f: Tree -> seq<real>, ts: seq<Tree>)
    requires |ts| >= 2
    ensures Blocks(f, ts) == f(ts[0]) + (f(ts[1]) + Blocks(f, ts[2..]))
  {
    assert ts[1..][0] == ts[1] && ts[1..][1..] == ts[2..];
  }

  /** Join two adjacent blocks in place. */
  method JoinAt(v: array<real>, i: nat, h: nat,
                ghost done: seq<real>, ghost a: seq<real>, ghost b: seq<real>, ghost rest: seq<real>)
    requires v[..] == done + (a + (b + rest)) && |done| == i && |a| == h && |b| == h
    modifies v
    ensures v[..] == (done + Join(a, b)) + rest
  {
    Split(done, a, b, rest);
    assert v[..i] == v[..][..i] && v[i..i + h] == v[..][i..i + h];
    assert v[i + h..i + 2 * h] == v[..][i + h..i + 2 * h] && v[i + 2 * h..] == v[..][i + 2 * h..];
    Butterfly(v, i, h);
  }

  lemma NothingLeft(f: Tree -> seq<real>, h: nat, todo: seq<Tree>)
    requires h > 0 && Sized(f, todo, h) && Blocks(f, todo) == []
    ensures todo == []
  {
  }

  /** One pair of trees moves from the waiting list to the finished one. */
  lemma MovePair(f: Tree -> seq<real>, g: Tree -> seq<real>, h: nat, done: seq<Tree>, todo: seq<Tree>)
    requires h > 0 && |todo| % 2 == 0 && Joins(f, g, h) && Sized(f, todo, h) && |Blocks(f, todo)| > 0
    ensures |todo| >= 2 && |f(todo[0])| == h && |f(todo[1])| == h
    ensures Blocks(f, todo) == f(todo[0]) + (f(todo[1]) + Blocks(f, todo[2..]))
    ensures var pair := Node(todo[0], todo[1]);
      && Blocks(g, done + [pair]) == Blocks(g, done) + Join(f(todo[0]), f(todo[1]))
      && (done + [pair]) + Pairs(todo[2..]) == done + Pairs(todo)
      && Sized(f, todo[2..], h)
  {
    var pair := Node(todo[0], todo[1]);
    TwoBlocks(f, todo);
    BlocksAppend(g, done, pair);
    assert (done + [pair]) + Pairs(todo[2..]) == done + ([pair] + Pairs(todo[2..]));
  }

  /** One stage: neighbouring blocks are joined, two by two, from left to right. */
  method Stage(v: array<real>, h: nat, ghost f: Tree -> seq<real>, ghost g: Tree -> seq<real>, ghost ts: seq<Tree>)
    requires h > 0 && |ts| % 2 == 0 && Joins(f, g, h) && Sized(f, ts, h)
    requires v[..] == Blocks(f, ts)
    modifies v
    ensures v[..] == Blocks(g, Pairs(ts))
  {
    var i := 0;
    ghost var done: seq<Tree>, todo := [], ts;
    assert [] + Pairs(ts) == Pairs(ts) && Blocks(g, []) == [];
    while i < v.Length
      invariant |todo| % 2 == 0 && Sized(f, todo, h)
      invariant done + Pairs(todo) == Pairs(ts)
      invariant i == |Blocks(g, done)|
      invariant v[..] == Blocks(g, done) + Blocks(f, todo)
      decreases v.Length - i
    {
      MovePair(f, g, h, done, todo);
      JoinAt(v, i, h, Blocks(g, done), f(todo[0]), f(todo[1]), Blocks(f, todo[2..]));
      done, todo := done + [Node(todo[0], todo[1])], todo[2..];
      i := i + 2 * h;
    }
    NothingLeft(f, h, todo);
    assert todo == [];
    assert done + [] == done;
  }

  function Leaves(v: seq<real>): (r: seq<Tree>)
    ensures |r| == |v| && AllPerfect(r, 0)
  {
    if v == [] then [] else [Leaf(v[0])] + Leaves(v[1..])
  }

  lemma {:induction false} LeavesFlatten(v: seq<real>)
    ensures FlattenAll(Leaves(v)) == v && Blocks(Image(0), Leaves(v)) == v
  {
    if v != [] {
      LeavesFlatten(v[1..]);
      var r := Leaves(v);
      assert r[0] == Leaf(v[0]) && r[1..] == Leaves(v[1..]);
      assert v == [v[0]] + v[1..];
    }
  }

  /** The butterfly stages: at the end one block is left, the whole vector. */
  method Stages(v: array<real>, ghost e: nat)
    requires v.Length == Pow2(e)
    modifies v
    ensures v[..] == Flatten(Wht(TreeOf(e, old(v[..])), e))
  {
    var n := v.Length;
    ghost var orig, k, ts := v[..], 0, Leaves(v[..]);
    LeavesFlatten(orig);
    var h := 1;
    while h < n
      invariant h == Pow2(k) && Covering(ts, k, e, orig)
      invariant v[..] == Blocks(Image(k), ts)
      decreases n - h
    {
      PairsHalve(ts, k, e, orig);
      Stage(v, h, Image(k), Image(k + 1), ts);
      ts := Pairs(ts);
      h, k := 2 * h, k + 1;
    }
    LastBlock(ts, k, e, orig);
  }

  /** The in-place transform: the stages, then one scaling pass. */
  method FwhtInPlace(v: array<real>, sqrt: real -> real, ghost e: nat)
    requires v.Length == Pow2(e)
    requires var r := sqrt(v.Length as real); r > 0.0 && Times(r, r) == v.Length as real
    modifies v
    ensures var scale := 1.0 / sqrt(v.Length as real);
      Normalizes(scale, e) && v[..] == TransformVector(e, old(v[..]), scale)
  {
    Stages(v, e);
    var root := sqrt(v.Length as real);
    Inverse(root, e);
    ScaleInPlace(v, 1.0 / root);
    FlattenScales(Wht(TreeOf(e, old(v[..])), e), 1.0 / root);
  }

  /** Perfect trees of height `k` that together hold the 2^e values of `v`. */
  ghost predicate Covering(ts: seq<Tree>, k: nat, e: nat, v: seq<real>) {
    k <= e && |ts| == Pow2(e - k) && AllPerfect(ts, k) && FlattenAll(ts) == v
  }

  lemma PairsHalve(ts: seq<Tree>, k: nat, e: nat, v: seq<real>)
    requires Covering(ts, k, e, v) && Pow2(k) < Pow2(e)
    ensures |ts| % 2 == 0 && Covering(Pairs(ts), k + 1, e, v)
    ensures Joins(Image(k), Image(k + 1), Pow2(k)) && Sized(Image(k), ts, Pow2(k))
  {
    PowersGrow(k, e);
    assert Pow2(e - k) == 2 * Pow2(e - k - 1);
    PairsFlatten(ts);
    ImagesJoin(k);
    ImagesSized(ts, k);
    PairsPerfect(ts, k);
  }

  lemma LastBlock(ts: seq<Tree>, k: nat, e: nat, v: seq<real>)
    requires Covering(ts, k, e, v) && Pow2(k) >= Pow2(e) && |v| == Pow2(e)
    ensures k == e && Blocks(Image(k), ts) == Flatten(Wht(TreeOf(e, v), e))
  {
    PowersIncrease(k, e);
    assert |ts| == 1 && ts[1..] == [];
    assert FlattenAll(ts) == Flatten(ts[0]) + FlattenAll([]);
    assert Flatten(ts[0]) == v;
    TreeOfFlatten(e, ts[0]);
    ImageOf(ts[0], e);
    assert Blocks(Image(k), ts) == Image(k)(ts[0]) + Blocks(Image(k), []);
  }

  lemma {:induction false} PowersIncrease(j: nat, k: nat)
    requires j <= k
    ensures j < k ==> Pow2(j) < Pow2(k)
    ensures j == k ==> Pow2(k - j) == 1
  {
    if j < k - 1 {
      PowersIncrease(j, k - 1);
    }
  }

  lemma Inverse(r: real, e: nat)
    requires r > 0.0 && Times(r, r) == Pow2(e) as real
    ensures Normalizes(1.0 / r, e)
  {
    SizeIsPow2(e);
    UnitProduct(1.0 / r, r);
  }

  lemma UnitProduct(c: real, r: real)
    requires c * r == 1.0
    ensures Times(Times(c, c), Times(r, r)) == 1.0
  {
    assert c * c * (r * r) == (c * r) * (c * r);
  }

  function ScaleAll(v: seq<real>, c: real): (r: seq<real>)
    ensures |r| == |v| && forall i :: 0 <= i < |r| ==> r[i] == Times(v[i], c)
  {
    seq(|v|, i requires 0 <= i < |v| => Times(v[i], c))
  }

  lemma {:induction false} FlattenScales(t: Tree, c: real)
    ensures Flatten(Scale(t, c)) == ScaleAll(Flatten(t), c)
  {
    if t.Node? {
      FlattenScales(t.left, c);
      FlattenScales(t.right, c);
    }
  }

  method ScaleInPlace(v: array<real>, c: real)
    modifies v
    ensures v[..] == ScaleAll(old(v[..]), c)
  {
    for i := 0 to v.Length
      invariant forall j :: 0 <= j < i ==> v[j] == Times(old(v[j]), c)
      invariant forall j :: i <= j < v.Length ==> v[j] == old(v[j])
    {
      v[i] := v[i] * c;
    }
  }

  // ---- the randomised transform ------------------------------------------------------------------

  /** The randomised Hadamard transform of inputs of length `d`: a diagonal of
      signs and the padded length. */
  datatype Incoherence = Incoherence(diag: seq<real>, d: nat, padded: nat) {
    predicate Valid() {
      && d <= padded && |diag| == padded
      && forall i :: 0 <= i < padded ==> diag[i] == 1.0 || diag[i] == -1.0
    }
  }

  function Padding(n: nat): seq<real> { seq(n, _ => 0.0) }

  function Signed(x: seq<real>, diag: seq<real>): (r: seq<real>)
    requires |x| == |diag|
    ensures |r| == |x| && forall i :: 0 <= i < |r| ==> r[i] == Times(x[i], diag[i])
  {
    seq(|x|, i requires 0 <= i < |x| => Times(x[i], diag[i]))
  }

  function Randomised(t: Incoherence, v: seq<real>): (r: seq<real>)
    requires t.Valid() && |v| == t.d
    ensures |r| == t.padded
  {
    Signed(v + Padding(t.padded - t.d), t.diag)
  }

  lemma {:induction false} PaddingDot(v: seq<real>, n: nat)
    requires |v| == n
    ensures Dot(v, Padding(n)) == 0.0
  {
    if n > 0 {
      PaddingDot(v[1..], n - 1);
      assert Padding(n)[1..] == Padding(n - 1);
    }
  }

  lemma SignsCancel(x: real, y: real, s: real)
    requires s == 1.0 || s == -1.0
    ensures Times(Times(x, s), Times(y, s)) == Times(x, y)
  {
  }

  lemma {:induction false} SignedDot(x: seq<real>, y: seq<real>, diag: seq<real>)
    requires |x| == |y| == |diag| && forall i :: 0 <= i < |diag| ==> diag[i] == 1.0 || diag[i] == -1.0
    ensures Dot(Signed(x, diag), Signed(y, diag)) == Dot(x, y)
  {
    if x != [] {
      SignedDot(x[1..], y[1..], diag[1..]);
      assert Signed(x, diag)[1..] == Signed(x[1..], diag[1..]) && Signed(y, diag)[1..] == Signed(y[1..], diag[1..]);
      SignsCancel(x[0], y[0], diag[0]);
    }
  }

  /** Signs, padding and the orthonormal transform keep every dot product, for
      inputs of any length. */
  lemma RandomisedOrthogonal(t: Incoherence, k: nat, x: seq<real>, y: seq<real>, scale: real)
    requires t.Valid() && t.padded == Pow2(k) && |x| == t.d && |y| == t.d && Normalizes(scale, k)
    ensures Dot(TransformVector(k, Randomised(t, x), scale), TransformVector(k, Randomised(t, y), scale)) == Dot(x, y)
  {
    var zeros := Padding(t.padded - t.d);
    VectorOrthogonal(k, Randomised(t, x), Randomised(t, y), scale);
    SignedDot(x + zeros, y + zeros, t.diag);
    DotConcat(x, zeros, y, zeros);
    PaddingDot(zeros, |zeros|);
  }

  /** `transform_into`: copy, pad, apply the signs, transform in place. */
  method TransformInto(t: Incoherence, v: seq<real>, out: array<real>, sqrt: real -> real, ghost k: nat)
    requires t.Valid() && t.padded == Pow2(k) && |v| == t.d && out.Length == t.padded
    requires var r := sqrt(t.padded as real); r > 0.0 && Times(r, r) == t.padded as real
    modifies out
    ensures var scale := 1.0 / sqrt(t.padded as real);
      Normalizes(scale, k) && out[..] == TransformVector(k, Randomised(t, v), scale)
  {
    ghost var padded := v + Padding(t.padded - t.d);
    for i := 0 to out.Length
      invariant forall j :: 0 <= j < i ==> out[j] == padded[j]
    {
      out[i] := if i < t.d then v[i] else 0.0;
    }
    for i := 0 to out.Length
      invariant forall j :: 0 <= j < i ==> out[j] == Times(padded[j], t.diag[j])
      invariant forall j :: i <= j < out.Length ==> out[j] == padded[j]
    {
      out[i] := out[i] * t.diag[i];
    }
    assert out[..] == Randomised(t, v);
    FwhtInPlace(out, sqrt, k);
  }
}
