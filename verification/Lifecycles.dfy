/** Runs of the server's lifecycle, seen only through its states and the two
    messages that move it. */
module Lifecycles {
  datatype Lifecycle = Uninitialized | AwaitingInitialized | Ready

  function Rank(l: Lifecycle): nat {
    match l
    case Uninitialized => 0
    case AwaitingInitialized => 1
    case Ready => 2
  }

  /** A step of the machine: `starts` says it was a successful initialization,
      `completes` that the message completes a handshake. */
  predicate Move(now: Lifecycle, next: Lifecycle, starts: bool, completes: bool) {
    && (starts ==> now == Uninitialized)
    && next == if starts then AwaitingInitialized else if now == AwaitingInitialized && completes then Ready else now
  }

  datatype Trace = Trace(states: seq<Lifecycle>, starts: seq<bool>, completes: seq<bool>)

  predicate MoveAt(t: Trace, k: nat) {
    k < |t.starts| && k < |t.completes| && k + 1 < |t.states|
    && Move(t.states[k], t.states[k + 1], t.starts[k], t.completes[k])
  }

  predicate Legal(t: Trace) {
    && |t.completes| == |t.starts| && |t.states| == |t.starts| + 1
    && t.states[0] == Uninitialized
    && forall k: nat :: k < |t.starts| ==> MoveAt(t, k)
  }

  lemma {:induction false} NeverBack(t: Trace, i: nat, k: nat)
    requires Legal(t) && i <= k <= |t.starts|
    ensures Rank(t.states[i]) <= Rank(t.states[k])
    decreases k
  {
    if i < k {
      NeverBack(t, i, k - 1);
      assert MoveAt(t, k - 1);
    }
  }

  /** The handshake took place before message `k`. */
  predicate Shaken(t: Trace, k: nat)
    requires Legal(t) && k <= |t.starts|
  {
    exists i, j :: 0 <= i < j < k && t.starts[i] && t.completes[j]
  }

  lemma {:induction false} LeftStart(t: Trace, k: nat) returns (i: nat)
    requires Legal(t) && k <= |t.starts| && t.states[k] != Uninitialized
    ensures i < k && t.starts[i]
    decreases k
  {
    assert MoveAt(t, k - 1);
    if t.states[k - 1] == Uninitialized {
      i := k - 1;
    } else {
      i := LeftStart(t, k - 1);
    }
  }

  lemma {:induction false} BecameReady(t: Trace, k: nat) returns (i: nat, j: nat)
    requires Legal(t) && k <= |t.starts| && t.states[k] == Ready
    ensures i < j < k && t.starts[i] && t.completes[j]
    decreases k
  {
    assert MoveAt(t, k - 1);
    if t.states[k - 1] == Ready {
      i, j := BecameReady(t, k - 1);
    } else {
      i := LeftStart(t, k - 1);
      j := k - 1;
    }
  }

  lemma ReadyIffShaken(t: Trace, k: nat)
    requires Legal(t) && k <= |t.starts|
    ensures t.states[k] == Ready <==> Shaken(t, k)
  {
    if t.states[k] == Ready {
      var i, j := BecameReady(t, k);
    }
    if Shaken(t, k) {
      var i, j :| 0 <= i < j < k && t.starts[i] && t.completes[j];
      assert MoveAt(t, i) && MoveAt(t, j);
      NeverBack(t, i + 1, j);
      NeverBack(t, j + 1, k);
    }
  }

  lemma StartsOnce(t: Trace, i: nat, j: nat)
    requires Legal(t) && i < |t.starts| && j < |t.starts| && t.starts[i] && t.starts[j]
    ensures i == j
  {
    assert MoveAt(t, i) && MoveAt(t, j);
    if i < j {
      NeverBack(t, i + 1, j);
    } else if j < i {
      NeverBack(t, j + 1, i);
    }
  }
}
