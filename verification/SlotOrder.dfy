/** Stable ordering of slots by a three-part key. */
module SlotOrder {

  /** Lexicographic sort key: pinned slots last, then attention mass, then age. */
  datatype Key = Key(sink: bool, mass: real, age: int)

  predicate KeyLess(a: Key, b: Key) {
    if a.sink != b.sink then b.sink
    else if a.mass != b.mass then a.mass < b.mass
    else a.age < b.age
  }

  /** Slot `a` sorts before slot `b`: smaller key, or equal keys in slot order. */
  predicate Before(keys: seq<Key>, a: nat, b: nat)
    requires a < |keys| && b < |keys|
  {
    KeyLess(keys[a], keys[b]) || (keys[a] == keys[b] && a < b)
  }

  predicate Within(slots: seq<nat>, n: nat) {
    forall i :: 0 <= i < |slots| ==> slots[i] < n
  }

  predicate Ordered(keys: seq<Key>, slots: seq<nat>)
    requires Within(slots, |keys|)
  {
    forall i, j :: 0 <= i < j < |slots| ==> Before(keys, slots[i], slots[j])
  }

  /** Place the greatest slot so far after every slot whose key is not larger. */
  function Place(keys: seq<Key>, sorted: seq<nat>, s: nat): (r: seq<nat>)
    requires s < |keys| && Within(sorted, |keys|)
    ensures Within(r, |keys|)
    ensures forall x :: x in r <==> x in sorted || x == s
  {
    if sorted == [] then [s]
    else
      var last := sorted[|sorted| - 1];
      assert sorted == sorted[..|sorted| - 1] + [last];
      if KeyLess(keys[s], keys[last]) then Place(keys, sorted[..|sorted| - 1], s) + [last]
      else sorted + [s]
  }

  /** The library's stable `sort_by`, on slots given in increasing order. */
  function Sort(keys: seq<Key>, slots: seq<nat>): (r: seq<nat>)
    requires Within(slots, |keys|)
    ensures Within(r, |keys|)
    ensures forall x :: x in r <==> x in slots
  {
    if slots == [] then []
    else
      var n := |slots| - 1;
      assert slots == slots[..n] + [slots[n]];
      Place(keys, Sort(keys, slots[..n]), slots[n])
  }

  lemma {:induction false} PlaceOrdered(keys: seq<Key>, sorted: seq<nat>, s: nat)
    requires s < |keys| && Within(sorted, |keys|) && Ordered(keys, sorted)
    requires forall x :: x in sorted ==> x < s
    ensures Ordered(keys, Place(keys, sorted, s))
  {
    if sorted != [] {
      var n := |sorted| - 1;
      var last, front := sorted[n], sorted[..n];
      if KeyLess(keys[s], keys[last]) {
        assert forall x :: x in front ==> x in sorted;
        PlaceOrdered(keys, front, s);
        var r := Place(keys, front, s);
        forall i | 0 <= i < |r|
          ensures Before(keys, r[i], last)
        {
          assert r[i] in r;
          if r[i] != s {
            var j :| 0 <= j < n && front[j] == r[i];
            assert Before(keys, sorted[j], sorted[n]);
          }
        }
      } else {
        forall i | 0 <= i < |sorted|
          ensures Before(keys, sorted[i], s)
        {
          assert sorted[i] in sorted;
          if i < n {
            assert Before(keys, sorted[i], sorted[n]);
          }
        }
      }
    }
  }

  predicate Increasing(slots: seq<nat>) {
    forall i, j :: 0 <= i < j < |slots| ==> slots[i] < slots[j]
  }

  /** The sort orders its slots strictly: by key, then by slot. */
  lemma {:induction false} SortOrders(keys: seq<Key>, slots: seq<nat>)
    requires Within(slots, |keys|) && Increasing(slots)
    ensures Ordered(keys, Sort(keys, slots))
  {
    if slots != [] {
      var n := |slots| - 1;
      SortOrders(keys, slots[..n]);
      forall x | x in Sort(keys, slots[..n])
        ensures x < slots[n]
      {
        var i :| 0 <= i < n && slots[..n][i] == x;
      }
      PlaceOrdered(keys, Sort(keys, slots[..n]), slots[n]);
    }
  }

  /** A strictly ordered list has no repetitions. */
  lemma OrderedDistinct(keys: seq<Key>, slots: seq<nat>)
    requires Within(slots, |keys|) && Ordered(keys, slots)
    ensures forall i, j :: 0 <= i < j < |slots| ==> slots[i] != slots[j]
  {
    forall i, j | 0 <= i < j < |slots|
      ensures slots[i] != slots[j]
    {
      assert Before(keys, slots[i], slots[j]);
    }
  }
}
