/** Accumulated attention: the softmax mass observed per slot. */
module CacheAttention {
  import opened Floats
  import opened CacheModel
  import opened CacheInvariants

  datatype Score = Score(slot: nat, logit: Float)

  /** The scores of slots that exist and are not COLD. */
  function LiveScores(state: seq<TileState>, scores: seq<Score>): (r: seq<Score>)
    ensures forall i :: 0 <= i < |r| ==> r[i].slot < |state| && state[r[i].slot] != Cold
  {
    if scores == [] then []
    else
      var s := scores[0];
      (if s.slot < |state| && state[s.slot] != Cold then [s] else []) + LiveScores(state, scores[1..])
  }

  function Greatest(logits: seq<real>): real
    requires logits != []
  {
    if |logits| == 1 then logits[0]
    else
      var m := Greatest(logits[1..]);
      if logits[0] > m then logits[0] else m
  }

  function SumReal(s: seq<real>): real {
    if s == [] then 0.0 else s[0] + SumReal(s[1..])
  }

  /** Add the i-th mass to the importance of the i-th scored slot. */
  function Spread(importance: seq<real>, scores: seq<Score>, masses: seq<real>): (r: seq<real>)
    requires |masses| == |scores|
    requires forall i :: 0 <= i < |scores| ==> scores[i].slot < |importance|
    ensures |r| == |importance|
    decreases |scores|
  {
    if scores == [] then importance
    else
      var s := scores[0].slot;
      Spread(importance[s := importance[s] + masses[0]], scores[1..], masses[1..])
  }

  function Scaled(weights: seq<real>, scale: real): (r: seq<real>)
    ensures |r| == |weights|
    ensures forall i :: 0 <= i < |r| ==> r[i] == weights[i] * scale
  {
    if weights == [] then [] else [weights[0] * scale] + Scaled(weights[1..], scale)
  }

  function Weights(scores: seq<Score>, peak: real, temperature: real, exp: real -> real): (r: seq<real>)
    requires temperature != 0.0
    requires forall i :: 0 <= i < |scores| ==> scores[i].logit.Finite?
    ensures |r| == |scores|
  {
    seq(|scores|, i requires 0 <= i < |scores| => exp((scores[i].logit.value - peak) / temperature))
  }

  /** The scores `observe_scores` uses, or none when it refuses its arguments. */
  function Observed(state: seq<TileState>, scores: seq<Score>, temperature: Float): (r: seq<Score>)
    ensures forall i :: 0 <= i < |r| ==> r[i].slot < |state| && state[r[i].slot] != Cold && r[i].logit.Finite?
    ensures r != [] ==> temperature.Finite? && temperature.value > 0.0
  {
    if temperature.NonFinite? || temperature.value <= 0.0 then []
    else
      var live := LiveScores(state, scores);
      if exists i :: 0 <= i < |live| && live[i].logit.NonFinite? then [] else live
  }

  /** `observe_scores`: add the softmax mass of the live scores. */
  function Observe(c: Cache, scores: seq<Score>, temperature: Float, exp: real -> real): (r: Cache)
    requires Shape(c)
    ensures Shape(r) && r == c.(importance := r.importance)
  {
    var live := Observed(c.state, scores, temperature);
    if live == [] then c
    else
      var peak := Greatest(seq(|live|, i requires 0 <= i < |live| => live[i].logit.value));
      var weights := Weights(live, peak, temperature.value, exp);
      var sum := SumReal(weights);
      if sum <= 0.0 then c else c.(importance := Spread(c.importance, live, Scaled(weights, 1.0 / sum)))
  }

  lemma {:induction false} SumUpdate(s: seq<real>, i: nat, x: real)
    requires i < |s|
    ensures SumReal(s[i := x]) == SumReal(s) - s[i] + x
  {
    if i == 0 {
      assert s[0 := x][1..] == s[1..];
    } else {
      SumUpdate(s[1..], i - 1, x);
      assert s[i := x][1..] == s[1..][i - 1 := x];
    }
  }

  lemma {:induction false} SumAppend(s: seq<real>, x: real)
    ensures SumReal(s + [x]) == SumReal(s) + x
  {
    if s != [] {
      SumAppend(s[1..], x);
      assert (s + [x])[1..] == s[1..] + [x];
    }
  }

  lemma {:induction false} SumScaled(weights: seq<real>, scale: real)
    ensures SumReal(Scaled(weights, scale)) == SumReal(weights) * scale
  {
    if weights != [] {
      SumScaled(weights[1..], scale);
      Distributes(weights[0], SumReal(weights[1..]), scale);
    }
  }

  lemma Distributes(a: real, b: real, x: real)
    ensures (a + b) * x == a * x + b * x
  {
  }

  lemma {:induction false} SpreadMass(importance: seq<real>, scores: seq<Score>, masses: seq<real>)
    requires |masses| == |scores|
    requires forall i :: 0 <= i < |scores| ==> scores[i].slot < |importance|
    ensures SumReal(Spread(importance, scores, masses)) == SumReal(importance) + SumReal(masses)
    decreases |scores|
  {
    if scores != [] {
      var s := scores[0].slot;
      SumUpdate(importance, s, importance[s] + masses[0]);
      SpreadMass(importance[s := importance[s] + masses[0]], scores[1..], masses[1..]);
    }
  }

  lemma {:induction false} PositiveSum(s: seq<real>)
    requires s != [] && forall i :: 0 <= i < |s| ==> s[i] > 0.0
    ensures SumReal(s) > 0.0
  {
    if |s| > 1 {
      PositiveSum(s[1..]);
    }
  }

  /** Softmax mass is conserved: each accepted observation adds exactly one unit
      in total, all of it on live slots; a refused one changes nothing. */
  lemma ObserveAddsUnitMass(c: Cache, scores: seq<Score>, temperature: Float, exp: real -> real)
    requires Inv(c) && forall x: real :: exp(x) > 0.0
    ensures var d := Observe(c, scores, temperature, exp);
      && Inv(d)
      && SumReal(d.importance) == SumReal(c.importance)
          + (if Observed(c.state, scores, temperature) == [] then 0.0 else 1.0)
      && forall i :: 0 <= i < |c.tiles| && c.state[i] == Cold ==> d.importance[i] == c.importance[i]
  {
    var live := Observed(c.state, scores, temperature);
    ImportanceIsFree(c, Observe(c, scores, temperature, exp).importance);
    if live != [] {
      var peak := Greatest(seq(|live|, i requires 0 <= i < |live| => live[i].logit.value));
      var weights := Weights(live, peak, temperature.value, exp);
      PositiveSum(weights);
      NormalizedMass(weights);
      var masses := Scaled(weights, 1.0 / SumReal(weights));
      SpreadMass(c.importance, live, masses);
      forall i | 0 <= i < |c.tiles| && c.state[i] == Cold
        ensures Spread(c.importance, live, masses)[i] == c.importance[i]
      {
        SpreadElsewhere(c.importance, live, masses, i);
      }
    }
  }

  lemma NormalizedMass(weights: seq<real>)
    requires SumReal(weights) > 0.0
    ensures SumReal(Scaled(weights, 1.0 / SumReal(weights))) == 1.0
  {
    SumScaled(weights, 1.0 / SumReal(weights));
  }

  lemma ImportanceIsFree(c: Cache, importance: seq<real>)
    requires Inv(c) && |importance| == |c.tiles|
    ensures Inv(c.(importance := importance))
  {
  }

  lemma {:induction false} SpreadElsewhere(importance: seq<real>, scores: seq<Score>, masses: seq<real>, i: nat)
    requires |masses| == |scores| && i < |importance|
    requires forall j :: 0 <= j < |scores| ==> scores[j].slot < |importance| && scores[j].slot != i
    ensures Spread(importance, scores, masses)[i] == importance[i]
    decreases |scores|
  {
    if scores != [] {
      var s := scores[0].slot;
      SpreadElsewhere(importance[s := importance[s] + masses[0]], scores[1..], masses[1..], i);
    }
  }
}
