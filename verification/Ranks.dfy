/** Fractional ranks: equal values share the average of their positions. */
module Ranks {
  import opened Results
  import opened Floats
  import opened SlotOrder

  predicate AllFinite(v: seq<Float>) {
    forall i :: 0 <= i < |v| ==> v[i].Finite?
  }

  function Values(v: seq<Float>): (r: seq<real>)
    requires AllFinite(v)
    ensures |r| == |v| && forall i :: 0 <= i < |v| ==> r[i] == v[i].value
  {
    seq(|v|, i requires 0 <= i < |v| => v[i].value)
  }

  // ---- the counting definition -----------------------------------------------------------

  /** What one value contributes to the rank of `x`: one if it is less, a half if
      it is equal. */
  function Weight(y: real, x: real): real {
    if y < x then 1.0 else if y == x then 0.5 else 0.0
  }

  function Score(values: seq<real>, x: real): real {
    if values == [] then 0.0 else Score(values[..|values| - 1], x) + Weight(values[|values| - 1], x)
  }

  function Below(values: seq<real>, x: real): set<int> {
    set j | 0 <= j < |values| && values[j] < x
  }

  function Level(values: seq<real>, x: real): set<int> {
    set j | 0 <= j < |values| && values[j] == x
  }

  /** The number of smaller values, plus half the number of other equal ones. */
  function CountedRank(values: seq<real>, i: nat): real
    requires i < |values|
  {
    |Below(values, values[i])| as real + (|Level(values, values[i])| as real - 1.0) / 2.0
  }

  lemma {:induction false} ScoreCounts(values: seq<real>, x: real)
    ensures Score(values, x) == |Below(values, x)| as real + |Level(values, x)| as real / 2.0
  {
    if values == [] {
      assert Below(values, x) == {} && Level(values, x) == {};
    } else {
      var n := |values| - 1;
      var front := values[..n];
      ScoreCounts(front, x);
      CountsGrow(values, x);
    }
  }

  lemma CountsGrow(values: seq<real>, x: real)
    requires values != []
    ensures var n := |values| - 1;
      && |Below(values, x)| == |Below(values[..n], x)| + (if values[n] < x then 1 else 0)
      && |Level(values, x)| == |Level(values[..n], x)| + (if values[n] == x then 1 else 0)
  {
    var n := |values| - 1;
    var front := values[..n];
    assert Below(values, x) == if values[n] < x then Below(front, x) + {n} else Below(front, x);
    assert Level(values, x) == if values[n] == x then Level(front, x) + {n} else Level(front, x);
  }

  // ---- the sum of the ranks ----------------------------------------------------------------

  /** The sum of the scores of `xs` among `values`. */
  function ScoreSum(values: seq<real>, xs: seq<real>): real {
    if xs == [] then 0.0 else ScoreSum(values, xs[..|xs| - 1]) + Score(values, xs[|xs| - 1])
  }

  lemma {:induction false} AddedValue(front: seq<real>, z: real, xs: seq<real>)
    ensures ScoreSum(front + [z], xs) + Score(xs, z) == ScoreSum(front, xs) + |xs| as real
  {
    if xs != [] {
      var m := |xs| - 1;
      AddedValue(front, z, xs[..m]);
      assert (front + [z])[..|front|] == front;
      assert Weight(z, xs[m]) + Weight(xs[m], z) == 1.0;
    }
  }

  lemma HalfSquare(n: real)
    ensures n * n / 2.0 + n + 0.5 == (n + 1.0) * (n + 1.0) / 2.0
  {
  }

  lemma {:induction false} ScoreTotal(values: seq<real>)
    ensures ScoreSum(values, values) == |values| as real * |values| as real / 2.0
  {
    if values != [] {
      var n := |values| - 1;
      var front, z := values[..n], values[n];
      assert values == front + [z];
      ScoreTotal(front);
      AddedValue(front, z, front);
      HalfSquare(n as real);
      assert Score(values, z) == Score(front, z) + 0.5;
    }
  }

  function RankSum(values: seq<real>, n: nat): real
    requires n <= |values|
  {
    if n == 0 then 0.0 else RankSum(values, n - 1) + CountedRank(values, n - 1)
  }

  lemma {:induction false} RankSumScores(values: seq<real>, n: nat)
    requires n <= |values|
    ensures RankSum(values, n) == ScoreSum(values, values[..n]) - n as real / 2.0
  {
    if n > 0 {
      RankSumScores(values, n - 1);
      ScoreCounts(values, values[n - 1]);
      assert values[..n][..n - 1] == values[..n - 1];
    }
  }

  /** The ranks of n values sum to n(n-1)/2. */
  lemma RanksSum(values: seq<real>)
    ensures RankSum(values, |values|) == |values| as real * (|values| as real - 1.0) / 2.0
  {
    RankSumScores(values, |values|);
    assert values[..|values|] == values;
    ScoreTotal(values);
    Expand(|values| as real);
  }

  lemma Expand(n: real)
    ensures n * n / 2.0 - n / 2.0 == n * (n - 1.0) / 2.0
  {
  }

  // ---- order-preserving maps ------------------------------------------------------------------

  ghost predicate Increases(f: real -> real) {
    forall x, y :: x < y ==> f(x) < f(y)
  }

  function Mapped(f: real -> real, values: seq<real>): (r: seq<real>)
    ensures |r| == |values| && forall i :: 0 <= i < |values| ==> r[i] == f(values[i])
  {
    seq(|values|, i requires 0 <= i < |values| => f(values[i]))
  }

  lemma Keeps(f: real -> real, x: real, y: real)
    requires Increases(f)
    ensures (f(x) < f(y) <==> x < y) && (f(x) == f(y) <==> x == y)
  {
    if y < x {
      assert f(y) < f(x);
    }
    if x < y {
      assert f(x) < f(y);
    }
  }

  /** Ranks depend only on the order of the values. */
  lemma RanksOfMapped(f: real -> real, values: seq<real>, i: nat)
    requires Increases(f) && i < |values|
    ensures CountedRank(Mapped(f, values), i) == CountedRank(values, i)
  {
    var mapped, x := Mapped(f, values), values[i];
    forall j | 0 <= j < |values|
      ensures (mapped[j] < mapped[i] <==> values[j] < x) && (mapped[j] == mapped[i] <==> values[j] == x)
    {
      Keeps(f, values[j], x);
    }
    assert Below(mapped, mapped[i]) == Below(values, x);
    assert Level(mapped, mapped[i]) == Level(values, x);
  }

  // ---- sorting the indices ---------------------------------------------------------------------

  /** `total_cmp` as a sort key. */
  function KeyOf(f: Float): Key {
    match f
    case Finite(x, positive) => Key(false, x, if positive then 1 else 0)
    case NonFinite => Key(true, 0.0, 0)
  }

  function KeysOf(v: seq<Float>): (r: seq<Key>)
    ensures |r| == |v| && forall i :: 0 <= i < |v| ==> r[i] == KeyOf(v[i])
  {
    seq(|v|, i requires 0 <= i < |v| => KeyOf(v[i]))
  }

  function Range(n: nat): (r: seq<nat>)
    ensures |r| == n && forall i :: 0 <= i < n ==> r[i] == i
  {
    seq(n, i => i)
  }

  /** Indices in increasing order of their values, each exactly once. */
  predicate Sorting(values: seq<real>, indices: seq<nat>) {
    && |indices| == |values|
    && Within(indices, |values|)
    && (forall i, j :: 0 <= i < j < |indices| ==> indices[i] != indices[j])
    && (forall i, j :: 0 <= i < j < |indices| ==> values[indices[i]] <= values[indices[j]])
  }

  function Image(indices: seq<nat>, lo: nat, hi: nat): set<int>
    requires lo <= hi <= |indices|
  {
    set k | lo <= k < hi :: indices[k]
  }

  lemma {:induction false} ImageSize(indices: seq<nat>, lo: nat, hi: nat)
    requires lo <= hi <= |indices|
    requires forall i, j :: 0 <= i < j < |indices| ==> indices[i] != indices[j]
    ensures |Image(indices, lo, hi)| == hi - lo
    decreases hi
  {
    if lo < hi {
      ImageSize(indices, lo, hi - 1);
      assert Image(indices, lo, hi) == Image(indices, lo, hi - 1) + {indices[hi - 1]};
    } else {
      assert Image(indices, lo, hi) == {};
    }
  }

  function UpTo(n: nat): (r: set<int>)
    ensures forall j :: j in r <==> 0 <= j < n
  {
    if n == 0 then {} else UpTo(n - 1) + {n - 1}
  }

  lemma {:induction false} UpToSize(n: nat)
    ensures |UpTo(n)| == n
  {
    if n > 0 {
      UpToSize(n - 1);
    }
  }

  lemma SubsetOfSameSize(a: set<int>, b: set<int>)
    requires a <= b && |a| == |b|
    ensures a == b
  {
    assert b == a + (b - a);
  }

  /** A sorting reaches every index. */
  lemma SortingCovers(values: seq<real>, indices: seq<nat>, j: nat) returns (k: nat)
    requires Sorting(values, indices) && j < |values|
    ensures k < |indices| && indices[k] == j
  {
    var n := |values|;
    ImageSize(indices, 0, n);
    UpToSize(n);
    SubsetOfSameSize(Image(indices, 0, n), UpTo(n));
    assert j in Image(indices, 0, n);
    k :| 0 <= k < n && indices[k] == j;
  }

  /** A maximal run of equal values in a sorting. */
  predicate Run(values: seq<real>, indices: seq<nat>, start: nat, end: nat)
    requires Sorting(values, indices)
  {
    && start < end <= |indices|
    && (forall k :: start <= k < end ==> values[indices[k]] == values[indices[start]])
    && (forall k :: 0 <= k < start ==> values[indices[k]] < values[indices[start]])
    && (forall k :: end <= k < |indices| ==> values[indices[k]] > values[indices[start]])
  }

  lemma RunBelow(values: seq<real>, indices: seq<nat>, start: nat, end: nat)
    requires Sorting(values, indices) && Run(values, indices, start, end)
    ensures Below(values, values[indices[start]]) == Image(indices, 0, start)
    ensures Level(values, values[indices[start]]) == Image(indices, start, end)
  {
    var x := values[indices[start]];
    forall j | 0 <= j < |values|
      ensures j in Below(values, x) <==> j in Image(indices, 0, start)
      ensures j in Level(values, x) <==> j in Image(indices, start, end)
    {
      var k := SortingCovers(values, indices, j);
      assert k < start || start <= k < end || end <= k;
    }
  }

  /** Every index of a run has the run's average position as its rank. */
  lemma RunRank(values: seq<real>, indices: seq<nat>, start: nat, end: nat, k: nat)
    requires Sorting(values, indices) && Run(values, indices, start, end) && start <= k < end
    ensures CountedRank(values, indices[k]) == (start + end - 1) as real / 2.0
  {
    RunBelow(values, indices, start, end);
    ImageSize(indices, 0, start);
    ImageSize(indices, start, end);
  }

  /** The indices as the library sort leaves them. */
  function SortedIndices(v: seq<Float>): seq<nat> {
    Sort(KeysOf(v), Range(|v|))
  }

  lemma SortedIndicesSort(v: seq<Float>)
    requires AllFinite(v)
    ensures Sorting(Values(v), SortedIndices(v))
  {
    var keys, indices := KeysOf(v), SortedIndices(v);
    SortOrders(keys, Range(|v|));
    OrderedDistinct(keys, indices);
    forall i, j | 0 <= i < j < |indices|
      ensures Values(v)[indices[i]] <= Values(v)[indices[j]]
    {
      assert Before(keys, indices[i], indices[j]);
    }
    SortedLength(v);
  }

  lemma SortedLength(v: seq<Float>)
    ensures |SortedIndices(v)| == |v|
  {
    var keys, indices := KeysOf(v), SortedIndices(v);
    SortOrders(keys, Range(|v|));
    OrderedDistinct(keys, indices);
    ImageSize(indices, 0, |indices|);
    UpToSize(|v|);
    forall j
      ensures j in Image(indices, 0, |indices|) <==> j in UpTo(|v|)
    {
      if 0 <= j < |v| {
        assert Range(|v|)[j] == j && j in Range(|v|) && j in indices;
      }
      if j in Image(indices, 0, |indices|) {
        assert j in indices;
      }
    }
    assert Image(indices, 0, |indices|) == UpTo(|v|);
  }

  // ---- the loops --------------------------------------------------------------------------------

  /** The end of the run that starts at `start`. */
  method RunEnd(values: seq<real>, indices: seq<nat>, start: nat) returns (end: nat)
    requires Sorting(values, indices) && start < |indices|
    requires forall k :: 0 <= k < start ==> values[indices[k]] < values[indices[start]]
    ensures Run(values, indices, start, end)
  {
    end := start + 1;
    while end < |indices| && values[indices[end]] == values[indices[start]]
      invariant start < end <= |indices|
      invariant forall k :: start <= k < end ==> values[indices[k]] == values[indices[start]]
    {
      end := end + 1;
    }
  }

  /** Tie-averaged ranks, none of them if some value is not finite. */
  method ComputeRanks(v: seq<Float>) returns (result: Option<array<real>>)
    ensures result.None? <==> !AllFinite(v)
    ensures result.Some? ==> fresh(result.value) && result.value.Length == |v|
    ensures result.Some? ==> forall i :: 0 <= i < |v| ==> result.value[i] == CountedRank(Values(v), i)
  {
    if exists i :: 0 <= i < |v| && v[i].NonFinite? {
      return None;
    }
    var values, indices := Values(v), SortedIndices(v);
    SortedIndicesSort(v);
    var ranks := new real[|v|](_ => 0.0);
    var start := 0;
    while start < |indices|
      invariant 0 <= start <= |indices|
      invariant forall j, k :: 0 <= j < start <= k < |indices| ==> values[indices[j]] < values[indices[k]]
      invariant forall k :: 0 <= k < start ==> ranks[indices[k]] == CountedRank(values, indices[k])
    {
      var end := RunEnd(values, indices, start);
      var average := (start + end - 1) as real / 2.0;
      FillRun(ranks, values, indices, start, end, average);
      start := end;
    }
    forall i | 0 <= i < |v|
      ensures ranks[i] == CountedRank(values, i)
    {
      var k := SortingCovers(values, indices, i);
    }
    result := Some(ranks);
  }

  method FillRun(ranks: array<real>, values: seq<real>, indices: seq<nat>, start: nat, end: nat, average: real)
    requires Sorting(values, indices) && Run(values, indices, start, end) && ranks.Length == |values|
    requires average == (start + end - 1) as real / 2.0
    requires forall k :: 0 <= k < start ==> ranks[indices[k]] == CountedRank(values, indices[k])
    modifies ranks
    ensures forall k :: 0 <= k < end ==> ranks[indices[k]] == CountedRank(values, indices[k])
  {
    var i := start;
    while i < end
      invariant start <= i <= end
      invariant forall k :: 0 <= k < i ==> ranks[indices[k]] == CountedRank(values, indices[k])
    {
      RunRank(values, indices, start, end, i);
      ranks[indices[i]] := average;
      i := i + 1;
    }
  }
}
