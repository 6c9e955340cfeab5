/** Sign hashes packed into 64-bit words: the popcount estimate against the dot
    product of the sign vectors. A set bit stands for a negative projection. */
module Residual {
  import opened Words

  const WORD_BITS := 64

  type Signs = seq<bool>

  // ---- the two ±1 vectors -----------------------------------------------------------------

  /** Minus one for a negative projection. */
  function SignOf(negative: bool): int {
    if negative then -1 else 1
  }

  function SignDot(a: Signs, b: Signs): int
    requires |a| == |b|
  {
    if a == [] then 0 else SignOf(a[0]) * SignOf(b[0]) + SignDot(a[1..], b[1..])
  }

  function Differences(a: Signs, b: Signs): nat
    requires |a| == |b|
  {
    if a == [] then 0 else (if a[0] != b[0] then 1 else 0) + Differences(a[1..], b[1..])
  }

  lemma {:induction false} DotByDifferences(a: Signs, b: Signs)
    requires |a| == |b|
    ensures SignDot(a, b) == |a| - 2 * Differences(a, b)
  {
    if a != [] {
      DotByDifferences(a[1..], b[1..]);
    }
  }

  lemma {:induction false} DifferencesAppend(a: Signs, b: Signs, c: Signs, d: Signs)
    requires |a| == |b| && |c| == |d|
    ensures Differences(a + c, b + d) == Differences(a, b) + Differences(c, d)
  {
    if a == [] {
      assert a + c == c && b + d == d;
    } else {
      DifferencesAppend(a[1..], b[1..], c, d);
      assert (a + c)[1..] == a[1..] + c && (b + d)[1..] == b[1..] + d;
    }
  }

  // ---- one word ------------------------------------------------------------------------------

  /** The word whose lowest bits are the given signs. */
  function WordOf(s: Signs): nat {
    if s == [] then 0 else (if s[0] then 1 else 0) + 2 * WordOf(s[1..])
  }

  function CountOnes(w: nat): nat {
    if w == 0 then 0 else w % 2 + CountOnes(w / 2)
  }

  lemma XorStep(p: nat, q: nat, x: nat, y: nat)
    requires p < 2 && q < 2
    ensures Xor(p + 2 * x, q + 2 * y) == (if p == q then 0 else 1) + 2 * Xor(x, y)
  {
    assert (p + 2 * x) / 2 == x && (q + 2 * y) / 2 == y;
    assert (p + 2 * x) % 2 == p && (q + 2 * y) % 2 == q;
  }

  lemma OnesStep(p: nat, x: nat)
    requires p < 2
    ensures CountOnes(p + 2 * x) == p + CountOnes(x)
  {
    assert (p + 2 * x) / 2 == x && (p + 2 * x) % 2 == p;
  }

  /** The popcount of the exclusive or is the number of differing signs. */
  lemma {:induction false} WordDifferences(a: Signs, b: Signs)
    requires |a| == |b|
    ensures CountOnes(Xor(WordOf(a), WordOf(b))) == Differences(a, b)
  {
    if a != [] {
      var p, q := if a[0] then 1 else 0, if b[0] then 1 else 0;
      var x, y := WordOf(a[1..]), WordOf(b[1..]);
      XorStep(p, q, x, y);
      OnesStep(if p == q then 0 else 1, Xor(x, y));
      WordDifferences(a[1..], b[1..]);
    }
  }

  lemma {:induction false} WordBounded(s: Signs)
    ensures WordOf(s) < Pow2(|s|)
  {
    if s != [] {
      WordBounded(s[1..]);
    }
  }

  lemma {:induction false} WordAppend(s: Signs, last: bool)
    ensures WordOf(s + [last]) == WordOf(s) + if last then Pow2(|s|) else 0
  {
    if s == [] {
      assert s + [last] == [last];
      assert [last][1..] == [];
    } else {
      WordAppend(s[1..], last);
      assert (s + [last])[1..] == s[1..] + [last];
    }
  }

  // ---- packed words ------------------------------------------------------------------------------

  /** The number of words that hold `n` bits. */
  function WordsFor(n: nat): nat {
    (n + 63) / WORD_BITS
  }

  /** The signs that fall into word `w`. */
  function Chunk(s: Signs, w: nat): Signs {
    var lo := WORD_BITS * w;
    if |s| <= lo then [] else if |s| <= lo + WORD_BITS then s[lo..] else s[lo..lo + WORD_BITS]
  }

  /** Packed words hold exactly these signs, unused bits clear. */
  predicate Packs(words: seq<nat>, s: Signs) {
    |words| == WordsFor(|s|) && forall w :: 0 <= w < |words| ==> words[w] == WordOf(Chunk(s, w))
  }

  function WordAtOrZero(words: seq<nat>, w: nat): nat {
    if w < |words| then words[w] else 0
  }

  /** Differing bits in the first `n` words, missing words counting as zero. */
  function Hamming(a: seq<nat>, b: seq<nat>, n: nat): nat {
    if n == 0 then 0 else Hamming(a, b, n - 1) + CountOnes(Xor(WordAtOrZero(a, n - 1), WordAtOrZero(b, n - 1)))
  }

  /** The first `n` chunks together. */
  function Upto(s: Signs, n: nat): Signs {
    if |s| <= WORD_BITS * n then s else s[..WORD_BITS * n]
  }

  lemma UptoGrows(s: Signs, n: nat)
    ensures Upto(s, n + 1) == Upto(s, n) + Chunk(s, n)
  {
  }

  lemma ChunkSizes(a: Signs, b: Signs, n: nat)
    requires |a| == |b|
    ensures |Upto(a, n)| == |Upto(b, n)| && |Chunk(a, n)| == |Chunk(b, n)|
  {
  }

  lemma {:induction false} HammingCounts(x: seq<nat>, y: seq<nat>, a: Signs, b: Signs, n: nat)
    requires |a| == |b| && Packs(x, a) && Packs(y, b) && n <= WordsFor(|a|)
    ensures |Upto(a, n)| == |Upto(b, n)| && Hamming(x, y, n) == Differences(Upto(a, n), Upto(b, n))
  {
    ChunkSizes(a, b, n);
    if n > 0 {
      HammingCounts(x, y, a, b, n - 1);
      UptoGrows(a, n - 1);
      UptoGrows(b, n - 1);
      ChunkSizes(a, b, n - 1);
      DifferencesAppend(Upto(a, n - 1), Upto(b, n - 1), Chunk(a, n - 1), Chunk(b, n - 1));
      WordDifferences(Chunk(a, n - 1), Chunk(b, n - 1));
    }
  }

  lemma WordsCover(n: nat)
    ensures n <= WORD_BITS * WordsFor(n)
  {
  }

  /** `n_bits - 2·Hamming` of two packed hashes is the dot product of the two sign
      vectors, for every number of bits. */
  lemma EstimateIsSignDot(x: seq<nat>, y: seq<nat>, a: Signs, b: Signs)
    requires |a| == |b| && Packs(x, a) && Packs(y, b)
    ensures |a| - 2 * Hamming(x, y, WordsFor(|a|)) == SignDot(a, b)
  {
    HammingCounts(x, y, a, b, WordsFor(|a|));
    WordsCover(|a|);
    DotByDifferences(a, b);
  }

  // ---- the loops -------------------------------------------------------------------------------------

  /** `word |= 1 << k`. */
  function SetBit(word: nat, k: nat): nat {
    if word / Pow2(k) % 2 == 1 then word else word + Pow2(k)
  }

  lemma SetBitAppends(s: Signs)
    ensures SetBit(WordOf(s), |s|) == WordOf(s + [true])
  {
    WordBounded(s);
    WordAppend(s, true);
    SetClearBit(WordOf(s), |s|);
  }

  lemma SmallQuotient(x: nat, p: nat)
    requires x < p
    ensures x / p == 0
  {
  }

  lemma SetClearBit(word: nat, k: nat)
    requires word < Pow2(k)
    ensures SetBit(word, k) == word + Pow2(k)
  {
    SmallQuotient(word, Pow2(k));
  }

  /** One more sign goes into word i / 64 at bit i % 64. */
  lemma ChunkGrows(s: Signs, last: bool, w: nat)
    ensures Chunk(s + [last], w) == if w == |s| / WORD_BITS then Chunk(s, w) + [last] else Chunk(s, w)
    ensures |Chunk(s, |s| / WORD_BITS)| == |s| % WORD_BITS
  {
  }

  function SignsOf(p: seq<real>): (s: Signs)
    ensures |s| == |p| && forall i :: 0 <= i < |p| ==> s[i] == (p[i] < 0.0)
  {
    seq(|p|, i requires 0 <= i < |p| => p[i] < 0.0)
  }

  lemma WordIndex(i: nat, n: nat)
    requires i < n
    ensures i / WORD_BITS < WordsFor(n)
  {
  }

  /** The words hold the signs read so far. */
  predicate Holds(words: seq<nat>, s: Signs) {
    forall w :: 0 <= w < |words| ==> words[w] == WordOf(Chunk(s, w))
  }

  lemma HoldsNothing(words: seq<nat>)
    requires forall w :: 0 <= w < |words| ==> words[w] == 0
    ensures Holds(words, [])
  {
  }

  lemma HoldsOneMore(words: seq<nat>, s: Signs, last: bool)
    requires Holds(words, s) && |s| / WORD_BITS < |words|
    ensures var k := |s| / WORD_BITS;
      Holds(if last then words[k := SetBit(words[k], |s| % WORD_BITS)] else words, s + [last])
  {
    var k := |s| / WORD_BITS;
    forall w | 0 <= w < |words|
      ensures Chunk(s + [last], w) == if w == k then Chunk(s, w) + [last] else Chunk(s, w)
    {
      ChunkGrows(s, last, w);
    }
    ChunkGrows(s, last, k);
    WordAppend(Chunk(s, k), last);
    SetBitAppends(Chunk(s, k));
  }

  /** Sign `i` goes into its bit. */
  function WithSign(words: seq<nat>, i: nat, negative: bool): (r: seq<nat>)
    requires i / WORD_BITS < |words|
    ensures |r| == |words|
  {
    var k := i / WORD_BITS;
    if negative then words[k := SetBit(words[k], i % WORD_BITS)] else words
  }

  lemma HoldsNext(words: seq<nat>, s: Signs, i: nat)
    requires i < |s| && Holds(words, s[..i]) && i / WORD_BITS < |words|
    ensures Holds(WithSign(words, i, s[i]), s[..i + 1])
  {
    HoldsOneMore(words, s[..i], s[i]);
    assert s[..i + 1] == s[..i] + [s[i]];
  }

  /** Packs the signs of the projections. */
  method Encode(p: seq<real>) returns (words: seq<nat>)
    ensures Packs(words, SignsOf(p))
  {
    ghost var s := SignsOf(p);
    words := seq(WordsFor(|p|), _ => 0);
    HoldsNothing(words);
    var i := 0;
    while i < |p|
      invariant 0 <= i <= |p| && |words| == WordsFor(|p|)
      invariant Holds(words, s[..i])
    {
      WordIndex(i, |p|);
      HoldsNext(words, s, i);
      words := WithSign(words, i, p[i] < 0.0);
      i := i + 1;
    }
    assert s[..i] == s;
  }

  method DotEstimate(bits: nat, a: seq<nat>, b: seq<nat>) returns (r: int)
    ensures r == bits - 2 * Hamming(a, b, WordsFor(bits))
  {
    var words, h, w := WordsFor(bits), 0, 0;
    while w < words
      invariant 0 <= w <= words && h == Hamming(a, b, w)
    {
      h := h + CountOnes(Xor(WordAtOrZero(a, w), WordAtOrZero(b, w)));
      w := w + 1;
    }
    r := bits - 2 * h;
  }

  // ---- several rounds ----------------------------------------------------------------------------------

  /** The sum of the estimates of the rounds, `bits` bits each. */
  function RoundSum(bits: nat, a: seq<seq<nat>>, b: seq<seq<nat>>, n: nat): int
    requires n <= |a| && n <= |b|
  {
    if n == 0 then 0 else RoundSum(bits, a, b, n - 1) + (bits - 2 * Hamming(a[n - 1], b[n - 1], WordsFor(bits)))
  }

  method MultiRoundEstimate(bits: nat, a: seq<seq<nat>>, b: seq<seq<nat>>) returns (r: real)
    requires |a| == |b| && a != []
    ensures r == RoundSum(bits, a, b, |a|) as real / |a| as real
  {
    var s, i := 0, 0;
    while i < |a|
      invariant 0 <= i <= |a| && s == RoundSum(bits, a, b, i)
    {
      var e := DotEstimate(bits, a[i], b[i]);
      s := s + e;
      i := i + 1;
    }
    r := s as real / |a| as real;
  }

  function Concat(s: seq<Signs>): Signs {
    if s == [] then [] else Concat(s[..|s| - 1]) + s[|s| - 1]
  }

  /** Every round packs its own signs. */
  predicate PacksAll(bits: nat, words: seq<seq<nat>>, s: seq<Signs>) {
    |words| == |s| && forall i :: 0 <= i < |s| ==> |s[i]| == bits && Packs(words[i], s[i])
  }

  lemma {:induction false} ConcatSize(bits: nat, s: seq<Signs>)
    requires forall i :: 0 <= i < |s| ==> |s[i]| == bits
    ensures |Concat(s)| == |s| * bits
  {
    if s != [] {
      var n := |s| - 1;
      ConcatSize(bits, s[..n]);
      OneMoreRound(n, bits);
    }
  }

  lemma OneMoreRound(n: nat, bits: nat)
    ensures n * bits + bits == (n + 1) * bits
  {
  }

  lemma DotAppend(a: Signs, b: Signs, c: Signs, d: Signs)
    requires |a| == |b| && |c| == |d|
    ensures SignDot(a + c, b + d) == SignDot(a, b) + SignDot(c, d)
  {
    DotByDifferences(a + c, b + d);
    DotByDifferences(a, b);
    DotByDifferences(c, d);
    DifferencesAppend(a, b, c, d);
  }

  /** The rounds add up to the dot product of all their signs side by side, so a
      single round is the single hash. */
  lemma {:induction false} RoundsAreOneDot(bits: nat, x: seq<seq<nat>>, y: seq<seq<nat>>, a: seq<Signs>, b: seq<Signs>,
      n: nat)
    requires |a| == |b| && PacksAll(bits, x, a) && PacksAll(bits, y, b) && n <= |a|
    ensures |Concat(a[..n])| == |Concat(b[..n])| == n * bits
    ensures RoundSum(bits, x, y, n) == SignDot(Concat(a[..n]), Concat(b[..n]))
  {
    ConcatSize(bits, a[..n]);
    ConcatSize(bits, b[..n]);
    if n > 0 {
      RoundsAreOneDot(bits, x, y, a, b, n - 1);
      assert a[..n][..n - 1] == a[..n - 1] && b[..n][..n - 1] == b[..n - 1];
      EstimateIsSignDot(x[n - 1], y[n - 1], a[n - 1], b[n - 1]);
      DotAppend(Concat(a[..n - 1]), Concat(b[..n - 1]), a[n - 1], b[n - 1]);
    }
  }
}
