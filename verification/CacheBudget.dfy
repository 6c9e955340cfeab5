/** What `enforce_budget` promises: increasing harshness, a truthful result,
    and eviction of a shortest sufficient prefix of the policy order. */
module CacheBudget {
  import opened Words
  import opened Tiles
  import opened SlotOrder
  import opened CacheModel
  import opened CacheInvariants
  import LogOps

  // ---- what the soft actions may change ------------------------------------------

  /** A tile that only lost information: same identity, flags only gained. */
  predicate Degrades(t: Tile, u: Tile) {
    && SeparableBytes(u) == SeparableBytes(t)
    && u.position == t.position && u.sigma == t.sigma && u.tokenId == t.tokenId
    && (NoCorr(t) ==> NoCorr(u))
    && (IsWarm(t) ==> IsWarm(u))
  }

  /** `d` differs from `c` only by dropped planes and slots paged HOT to WARM. */
  predicate Softened(c: Cache, d: Cache) {
    && Shape(c) && Shape(d) && |d.tiles| == |c.tiles|
    && d == c.(tiles := d.tiles, state := d.state, live := d.live)
    && forall i :: 0 <= i < |c.tiles| ==>
         Degrades(c.tiles[i], d.tiles[i])
         && (d.state[i] == c.state[i] || (c.state[i] == Hot && d.state[i] == Warm))
  }

  lemma SoftActSoftens(c: Cache, a: Action, i: nat, io: LogOps.Fault)
    requires Shape(c) && i < |c.tiles| && a != EvictSlot
    ensures Softened(c, Act(c, a, i, io))
  {
  }

  lemma {:induction false} SoftPhaseSoftens(c: Cache, a: Action, slots: seq<nat>, io: nat -> LogOps.Fault)
    requires Shape(c) && Within(slots, |c.tiles|) && a != EvictSlot
    ensures Softened(c, Phase(c, a, slots, io))
    decreases |slots|
  {
    if slots != [] && c.live > c.budget {
      SoftActSoftens(c, a, slots[0], io(slots[0]));
      SoftPhaseSoftens(Act(c, a, slots[0], io(slots[0])), a, slots[1..], io);
    }
  }

  /** What a soft action on a slot achieves there. */
  predicate Acted(c: Cache, a: Action, i: nat)
    requires Shape(c) && i < |c.tiles|
  {
    match a
    case DropPlane => c.state[i] == Cold || !Droppable(c.tiles[i])
    case Page => c.state[i] != Hot
    case EvictSlot => c.state[i] == Cold
  }

  /** A soft pass that ends over budget has acted on every one of its slots. */
  lemma {:induction false} SoftPhaseExhausted(c: Cache, a: Action, slots: seq<nat>, io: nat -> LogOps.Fault)
    requires Shape(c) && Within(slots, |c.tiles|) && a != EvictSlot
    requires Phase(c, a, slots, io).live > c.budget
    ensures forall i :: i in slots ==> i < |c.tiles| && Acted(Phase(c, a, slots, io), a, i)
    decreases |slots|
  {
    if slots != [] {
      var d := Act(c, a, slots[0], io(slots[0]));
      SoftActSoftens(c, a, slots[0], io(slots[0]));
      SoftPhaseExhausted(d, a, slots[1..], io);
      SoftPhaseSoftens(d, a, slots[1..], io);
      assert Acted(d, a, slots[0]);
      assert slots == [slots[0]] + slots[1..];
    }
  }

  lemma SoftenedTransitive(c: Cache, d: Cache, e: Cache)
    requires Softened(c, d) && Softened(d, e)
    ensures Softened(c, e)
  {
  }

  lemma SoftenSoftens(c: Cache, io: nat -> LogOps.Fault)
    requires Shape(c)
    ensures Softened(c, Soften(c, io))
  {
    var c1 := Phase(c, DropPlane, PagingOrder(c, Hot), io);
    var c2 := Phase(c1, Page, PagingOrder(c1, Hot), io);
    SoftPhaseSoftens(c, DropPlane, PagingOrder(c, Hot), io);
    SoftPhaseSoftens(c1, Page, PagingOrder(c1, Hot), io);
    SoftPhaseSoftens(c2, DropPlane, PagingOrder(c2, Warm), io);
    SoftenedTransitive(c, c1, c2);
    SoftenedTransitive(c, c2, Soften(c, io));
  }

  /** Slots outside a soft pass keep their state and tile. */
  lemma {:induction false} SoftPhaseElsewhere(c: Cache, a: Action, slots: seq<nat>, io: nat -> LogOps.Fault, i: nat)
    requires Shape(c) && Within(slots, |c.tiles|) && a != EvictSlot
    requires i < |c.tiles| && i !in slots
    ensures Phase(c, a, slots, io).tiles[i] == c.tiles[i] && Phase(c, a, slots, io).state[i] == c.state[i]
    decreases |slots|
  {
    if slots != [] && c.live > c.budget {
      SoftPhaseElsewhere(Act(c, a, slots[0], io(slots[0])), a, slots[1..], io, i);
    }
  }

  lemma {:induction false} DropPhaseKeepsStates(c: Cache, slots: seq<nat>, io: nat -> LogOps.Fault)
    requires Shape(c) && Within(slots, |c.tiles|)
    ensures Phase(c, DropPlane, slots, io).state == c.state
    decreases |slots|
  {
    if slots != [] && c.live > c.budget {
      DropPhaseKeepsStates(DropCorrection(c, slots[0]).0, slots[1..], io);
    }
  }

  lemma {:induction false} PagePhaseKeepsPlanes(c: Cache, slots: seq<nat>, io: nat -> LogOps.Fault, i: nat)
    requires Shape(c) && Within(slots, |c.tiles|) && i < |c.tiles|
    ensures Droppable(Phase(c, Page, slots, io).tiles[i]) == Droppable(c.tiles[i])
    decreases |slots|
  {
    if slots != [] && c.live > c.budget {
      PagePhaseKeepsPlanes(PageOut(c, slots[0]), slots[1..], io, i);
    }
  }

  // ---- eviction ------------------------------------------------------------------

  /** `d` differs from `c` only by evictions and their bookkeeping. */
  predicate Evicted(c: Cache, d: Cache) {
    && Shape(c) && Shape(d)
    && d.tiles == c.tiles && d.seqNo == c.seqNo && d.importance == c.importance
    && d.budget == c.budget && d.policy == c.policy && d.eviction == c.eviction
    && d.nextSeq == c.nextSeq && d.durability == c.durability && d.blocked >= c.blocked
    && forall i :: 0 <= i < |c.tiles| ==> d.state[i] == c.state[i] || d.state[i] == Cold
  }

  lemma EvictEvicts(c: Cache, i: nat, io: LogOps.Fault)
    requires Shape(c)
    ensures Evicted(c, Evict(c, i, io).0)
  {
  }

  lemma {:induction false} EvictPhaseEvicts(c: Cache, slots: seq<nat>, io: nat -> LogOps.Fault)
    requires Shape(c) && Within(slots, |c.tiles|)
    ensures Evicted(c, Phase(c, EvictSlot, slots, io))
    decreases |slots|
  {
    if slots != [] && c.live > c.budget {
      EvictEvicts(c, slots[0], io(slots[0]));
      EvictPhaseEvicts(Evict(c, slots[0], io(slots[0])).0, slots[1..], io);
    }
  }

  /** Footprint of a list of slots. */
  function Bytes(c: Cache, slots: seq<nat>): (r: nat)
    requires Shape(c) && Within(slots, |c.tiles|)
  {
    if slots == [] then 0 else Footprint(c.tiles[slots[0]], c.state[slots[0]]) + Bytes(c, slots[1..])
  }

  lemma {:induction false} BytesElsewhere(c: Cache, d: Cache, slots: seq<nat>)
    requires Shape(c) && Shape(d) && d.tiles == c.tiles && Within(slots, |c.tiles|)
    requires forall i :: i in slots ==> i < |c.tiles| && d.state[i] == c.state[i]
    ensures Bytes(d, slots) == Bytes(c, slots)
  {
    if slots != [] {
      assert slots[0] in slots;
      BytesElsewhere(c, d, slots[1..]);
    }
  }

  lemma BytesAfterFirst(c: Cache, c1: Cache, slots: seq<nat>, j: nat)
    requires Shape(c) && Shape(c1) && c1.tiles == c.tiles
    requires slots != [] && Within(slots, |c.tiles|) && slots[0] !in slots[1..]
    requires c1.state == c.state[slots[0] := Cold] && j < |slots|
    ensures Bytes(c, slots[..j + 1]) == Footprint(c.tiles[slots[0]], c.state[slots[0]]) + Bytes(c1, slots[1..][..j])
  {
    assert slots[..j + 1][1..] == slots[1..][..j];
    BytesElsewhere(c, c1, slots[1..][..j]);
  }

  lemma EvictSucceeds(c: Cache, i: nat, io: LogOps.Fault)
    requires Shape(c) && i < |c.tiles| && c.state[i] != Cold
    ensures var d := Evict(c, i, io).0;
      d.blocked == c.blocked ==> d.state == c.state[i := Cold] && d.live == c.live - Footprint(c.tiles[i], c.state[i])
  {
  }

  /** How many slots of the list an eviction pass visits. */
  function Visited(c: Cache, slots: seq<nat>, io: nat -> LogOps.Fault): (k: nat)
    requires Shape(c) && Within(slots, |c.tiles|)
    ensures k <= |slots|
    decreases |slots|
  {
    if slots == [] || c.live <= c.budget then 0
    else 1 + Visited(Evict(c, slots[0], io(slots[0])).0, slots[1..], io)
  }

  /** The slots of a list are pairwise different and live. */
  predicate LiveSlots(c: Cache, slots: seq<nat>)
    requires Shape(c)
  {
    Within(slots, |c.tiles|) && Distinct(slots) && forall j :: 0 <= j < |slots| ==> c.state[slots[j]] != Cold
  }

  lemma EvictStep(c: Cache, slots: seq<nat>, io: nat -> LogOps.Fault)
    requires Shape(c) && slots != [] && LiveSlots(c, slots) && c.live > c.budget
    requires Phase(c, EvictSlot, slots, io).blocked == c.blocked
    ensures var c1 := Evict(c, slots[0], io(slots[0])).0;
      && c1.tiles == c.tiles && c1.state == c.state[slots[0] := Cold]
      && c1.live == c.live - Footprint(c.tiles[slots[0]], c.state[slots[0]])
      && c1.budget == c.budget && c1.blocked == c.blocked
      && LiveSlots(c1, slots[1..]) && slots[0] !in slots[1..]
      && Phase(c1, EvictSlot, slots[1..], io) == Phase(c, EvictSlot, slots, io)
  {
    var c1 := Evict(c, slots[0], io(slots[0])).0;
    EvictPhaseEvicts(c1, slots[1..], io);
    EvictSucceeds(c, slots[0], io(slots[0]));
  }

  /** An unblocked pass makes exactly the visited prefix COLD. */
  lemma {:induction false} EvictPhaseStates(c: Cache, slots: seq<nat>, io: nat -> LogOps.Fault)
    requires Shape(c) && LiveSlots(c, slots)
    requires Phase(c, EvictSlot, slots, io).blocked == c.blocked
    ensures forall i :: 0 <= i < |c.tiles| ==>
      (Phase(c, EvictSlot, slots, io).state[i] == Cold <==> c.state[i] == Cold || i in slots[..Visited(c, slots, io)])
    decreases |slots|
  {
    if slots != [] && c.live > c.budget {
      var c1 := Evict(c, slots[0], io(slots[0])).0;
      EvictStep(c, slots, io);
      EvictPhaseStates(c1, slots[1..], io);
      assert slots[..Visited(c, slots, io)] == [slots[0]] + slots[1..][..Visited(c1, slots[1..], io)];
    }
  }

  /** An unblocked pass stops at the shortest prefix that meets the budget. */
  lemma {:induction false} EvictPhaseBytes(c: Cache, slots: seq<nat>, io: nat -> LogOps.Fault)
    requires Shape(c) && LiveSlots(c, slots)
    requires Phase(c, EvictSlot, slots, io).blocked == c.blocked
    ensures var d, k := Phase(c, EvictSlot, slots, io), Visited(c, slots, io);
      && d.live == c.live - Bytes(c, slots[..k])
      && (d.live <= c.budget || k == |slots|)
    ensures forall j :: 0 <= j < Visited(c, slots, io) ==> c.live - Bytes(c, slots[..j]) > c.budget
    decreases |slots|
  {
    if slots != [] && c.live > c.budget {
      var c1 := Evict(c, slots[0], io(slots[0])).0;
      EvictStep(c, slots, io);
      EvictPhaseBytes(c1, slots[1..], io);
      var m := Visited(c1, slots[1..], io);
      BytesAfterFirst(c, c1, slots, m);
      forall j | 0 <= j <= m
        ensures c.live - Bytes(c, slots[..j]) > c.budget
      {
        if j > 0 {
          BytesAfterFirst(c, c1, slots, j - 1);
        }
      }
    }
  }

  lemma {:induction false} AllColdIsEmpty(tiles: seq<Tile>, state: seq<TileState>)
    requires |state| == |tiles| && forall i :: 0 <= i < |state| ==> state[i] == Cold
    ensures Total(tiles, state) == 0
  {
    if tiles != [] {
      AllColdIsEmpty(tiles[..|tiles| - 1], state[..|tiles| - 1]);
    }
  }

  lemma EvictionOrderSorted(c: Cache)
    requires Shape(c)
    ensures Ordered(EvictionKeys(c), EvictionOrder(c)) && Distinct(EvictionOrder(c))
  {
    SortOrders(EvictionKeys(c), Select(c.state, {Hot, Warm}));
    OrderedDistinct(EvictionKeys(c), EvictionOrder(c));
  }

  lemma PagingOrderSorted(c: Cache, s: TileState)
    requires Shape(c)
    ensures Ordered(PagingKeys(c), PagingOrder(c, s)) && Distinct(PagingOrder(c, s))
  {
    SortOrders(PagingKeys(c), Select(c.state, {s}));
    OrderedDistinct(PagingKeys(c), PagingOrder(c, s));
  }

  // ---- the promises of enforce_budget ------------------------------------------------

  /** Over budget after the soft phases means there is nothing soft left to do. */
  lemma SoftenExhausts(c: Cache, io: nat -> LogOps.Fault)
    requires Inv(c) && Soften(c, io).live > c.budget
    ensures forall i :: 0 <= i < |c.tiles| && c.state[i] != Cold ==>
              Soften(c, io).state[i] == Warm && !Droppable(Soften(c, io).tiles[i])
  {
    var c1 := Phase(c, DropPlane, PagingOrder(c, Hot), io);
    var c2 := Phase(c1, Page, PagingOrder(c1, Hot), io);
    var soft := Soften(c, io);
    SoftPhaseSoftens(c, DropPlane, PagingOrder(c, Hot), io);
    SoftPhaseSoftens(c1, Page, PagingOrder(c1, Hot), io);
    SoftPhaseSoftens(c2, DropPlane, PagingOrder(c2, Warm), io);
    SoftPhaseExhausted(c1, Page, PagingOrder(c1, Hot), io);
    SoftPhaseExhausted(c2, DropPlane, PagingOrder(c2, Warm), io);
    forall i | 0 <= i < |c.tiles| && c.state[i] != Cold
      ensures soft.state[i] == Warm && !Droppable(soft.tiles[i])
    {
      assert i in PagingOrder(c1, Hot) <==> c1.state[i] == Hot;
      assert i in PagingOrder(c2, Warm);
    }
  }

  /** Nothing is evicted unless every live slot is already WARM and has no
      droppable correction plane. */
  lemma EvictsOnlyWhenExhausted(c: Cache, io: nat -> LogOps.Fault, victim: nat)
    requires Inv(c) && victim < |c.tiles|
    requires c.state[victim] != Cold && Enforce(c, io).state[victim] == Cold
    ensures forall i :: 0 <= i < |c.tiles| && c.state[i] != Cold ==>
              Soften(c, io).state[i] == Warm && !Droppable(Soften(c, io).tiles[i])
              && Enforce(c, io).state[i] != Hot && Enforce(c, io).tiles[i] == Soften(c, io).tiles[i]
  {
    var soft := Soften(c, io);
    SoftenSoftens(c, io);
    EvictPhaseEvicts(soft, EvictionOrder(soft), io);
    SoftenExhausts(c, io);
  }

  /** A tile leaves HOT only after the first phase left no HOT slot with a droppable
      plane, and none has one afterwards. */
  lemma PagesOnlyWithoutHotPlanes(c: Cache, io: nat -> LogOps.Fault, paged: nat)
    requires Inv(c) && paged < |c.tiles|
    requires c.state[paged] == Hot && Enforce(c, io).state[paged] != Hot
    ensures var c1 := Phase(c, DropPlane, PagingOrder(c, Hot), io);
      forall i :: 0 <= i < |c.tiles| && c1.state[i] == Hot ==> !Droppable(c1.tiles[i])
    ensures forall i :: 0 <= i < |c.tiles| && c.state[i] == Hot ==> !Droppable(Enforce(c, io).tiles[i])
  {
    var c1 := Phase(c, DropPlane, PagingOrder(c, Hot), io);
    var c2 := Phase(c1, Page, PagingOrder(c1, Hot), io);
    var soft := Soften(c, io);
    SoftPhaseSoftens(c, DropPlane, PagingOrder(c, Hot), io);
    SoftPhaseSoftens(c1, Page, PagingOrder(c1, Hot), io);
    SoftPhaseSoftens(c2, DropPlane, PagingOrder(c2, Warm), io);
    EvictPhaseEvicts(soft, EvictionOrder(soft), io);
    DropPhaseKeepsStates(c, PagingOrder(c, Hot), io);
    SoftPhaseExhausted(c, DropPlane, PagingOrder(c, Hot), io);
    forall i | 0 <= i < |c.tiles| && c.state[i] == Hot
      ensures !Droppable(c1.tiles[i]) && !Droppable(Enforce(c, io).tiles[i])
    {
      assert i in PagingOrder(c, Hot);
      assert Acted(c1, DropPlane, i) && Degrades(c1.tiles[i], c2.tiles[i]) && Degrades(c2.tiles[i], soft.tiles[i]);
    }
  }

  /** A WARM plane is dropped only after the second phase left nothing HOT, and
      nothing is HOT afterwards. */
  lemma DropsWarmPlanesOnlyWithoutHot(c: Cache, io: nat -> LogOps.Fault, dropped: nat)
    requires Inv(c) && dropped < |c.tiles|
    requires c.state[dropped] == Warm && Droppable(c.tiles[dropped]) && !Droppable(Enforce(c, io).tiles[dropped])
    ensures var c1 := Phase(c, DropPlane, PagingOrder(c, Hot), io);
      var c2 := Phase(c1, Page, PagingOrder(c1, Hot), io);
      NoHot(c2) && NoHot(Enforce(c, io))
  {
    var c1 := Phase(c, DropPlane, PagingOrder(c, Hot), io);
    var c2 := Phase(c1, Page, PagingOrder(c1, Hot), io);
    SoftPhaseElsewhere(c, DropPlane, PagingOrder(c, Hot), io, dropped);
    PagePhaseKeepsPlanes(c1, PagingOrder(c1, Hot), io, dropped);
    OverAfterPaging(c2, io, dropped);
    AfterPages(c1, io);
    HotOnlyShrinks(c2, io);
  }

  /** A plane that is dropped after the paging phase means that it ended over budget. */
  lemma OverAfterPaging(c2: Cache, io: nat -> LogOps.Fault, dropped: nat)
    requires Shape(c2) && dropped < |c2.tiles| && Droppable(c2.tiles[dropped])
    requires var soft := Phase(c2, DropPlane, PagingOrder(c2, Warm), io);
      !Droppable(Phase(soft, EvictSlot, EvictionOrder(soft), io).tiles[dropped])
    ensures c2.live > c2.budget
  {
  }

  /** Nothing is HOT. */
  predicate NoHot(c: Cache)
    requires Shape(c)
  {
    forall i :: 0 <= i < |c.tiles| ==> c.state[i] != Hot
  }

  /** After the second phase, if still over budget, nothing is HOT. */
  lemma AfterPages(c1: Cache, io: nat -> LogOps.Fault)
    requires Shape(c1)
    ensures var c2 := Phase(c1, Page, PagingOrder(c1, Hot), io);
      c2.live > c2.budget ==> NoHot(c2)
  {
    var c2 := Phase(c1, Page, PagingOrder(c1, Hot), io);
    SoftPhaseSoftens(c1, Page, PagingOrder(c1, Hot), io);
    if c2.live > c2.budget {
      SoftPhaseExhausted(c1, Page, PagingOrder(c1, Hot), io);
      forall i | 0 <= i < |c2.tiles|
        ensures c2.state[i] != Hot
      {
        assert i in PagingOrder(c1, Hot) <==> c1.state[i] == Hot;
      }
    }
  }

  lemma HotOnlyShrinks(c2: Cache, io: nat -> LogOps.Fault)
    requires Shape(c2) && NoHot(c2)
    ensures var soft := Phase(c2, DropPlane, PagingOrder(c2, Warm), io);
      NoHot(Phase(soft, EvictSlot, EvictionOrder(soft), io))
  {
    var soft := Phase(c2, DropPlane, PagingOrder(c2, Warm), io);
    DropPhaseKeepsStates(c2, PagingOrder(c2, Warm), io);
    EvictPhaseEvicts(soft, EvictionOrder(soft), io);
  }

  /** With no blocked eviction the evicted slots are the shortest prefix of the
      policy order that brings the cache under budget, and it always succeeds. */
  lemma EvictsShortestPrefix(c: Cache, io: nat -> LogOps.Fault) returns (k: nat)
    requires Inv(c) && Enforce(c, io).blocked == c.blocked
    ensures k <= |EvictionOrder(Soften(c, io))|
    ensures var soft := Soften(c, io);
      var order := EvictionOrder(soft);
      var e := Enforce(c, io);
      && e.live == soft.live - Bytes(soft, order[..k])
      && e.live <= c.budget
      && (forall i :: 0 <= i < |c.tiles| ==> (e.state[i] == Cold <==> c.state[i] == Cold || i in order[..k]))
      && (forall j :: 0 <= j < k ==> soft.live - Bytes(soft, order[..j]) > c.budget)
  {
    var soft := Soften(c, io);
    var order := EvictionOrder(soft);
    SoftenSoftens(c, io);
    EvictionOrderSorted(soft);
    k := Visited(soft, order, io);
    EvictPhaseStates(soft, order, io);
    EvictPhaseBytes(soft, order, io);
    var e := Enforce(c, io);
    if k == |order| {
      EnforceKeepsInv(c, io);
      assert order[..k] == order;
      forall i | 0 <= i < |e.state|
        ensures e.state[i] == Cold
      {
        assert i in order || soft.state[i] == Cold;
      }
      AllColdIsEmpty(e.tiles, e.state);
    }
  }

  /** The result of `enforce_budget` is whether the live bytes fit; it can be
      false only if an eviction was blocked. */
  lemma OverBudgetOnlyIfBlocked(c: Cache, io: nat -> LogOps.Fault)
    requires Inv(c) && Enforce(c, io).live > c.budget
    ensures Enforce(c, io).blocked > c.blocked
    ensures c.durability == RequireDurable
  {
    var soft := Soften(c, io);
    SoftenSoftens(c, io);
    EvictPhaseEvicts(soft, EvictionOrder(soft), io);
    if Enforce(c, io).blocked == c.blocked {
      var k := EvictsShortestPrefix(c, io);
    }
    if c.durability == BestEffort {
      BestEffortNeverBlocks(soft, EvictionOrder(soft), io);
    }
  }

  lemma {:induction false} BestEffortNeverBlocks(c: Cache, slots: seq<nat>, io: nat -> LogOps.Fault)
    requires Shape(c) && Within(slots, |c.tiles|) && c.durability == BestEffort
    ensures Phase(c, EvictSlot, slots, io).blocked == c.blocked
    decreases |slots|
  {
    if slots != [] && c.live > c.budget {
      BestEffortNeverBlocks(Evict(c, slots[0], io(slots[0])).0, slots[1..], io);
    }
  }

  /** In the prefix: some slot of the order was taken, a later one was not. */
  lemma PrefixBefore(keys: seq<Key>, order: seq<nat>, k: nat, a: nat, b: nat)
    requires Within(order, |keys|) && Ordered(keys, order) && k <= |order|
    requires a in order[..k] && b in order && b !in order[..k]
    ensures a < |keys| && b < |keys| && Before(keys, a, b)
  {
    var p :| 0 <= p < k && order[..k][p] == a;
    var q :| 0 <= q < |order| && order[q] == b;
    assert forall j :: 0 <= j < k ==> order[..k][j] == order[j];
    assert Before(keys, order[p], order[q]);
  }

  /** Causal eviction never takes a newer tile while an older one survives. */
  lemma CausalEvictsOldestFirst(c: Cache, io: nat -> LogOps.Fault, gone: nat, kept: nat)
    requires Inv(c) && Enforce(c, io).blocked == c.blocked && c.eviction == Causal
    requires gone < |c.tiles| && kept < |c.tiles|
    requires c.state[gone] != Cold && Enforce(c, io).state[gone] == Cold
    requires Enforce(c, io).state[kept] != Cold
    ensures c.seqNo[gone] < c.seqNo[kept]
  {
    var k := EvictsShortestPrefix(c, io);
    var soft := Soften(c, io);
    SoftenSoftens(c, io);
    EvictionOrderSorted(soft);
    PrefixBefore(EvictionKeys(soft), EvictionOrder(soft), k, gone, kept);
    assert soft.seqNo[gone] != soft.seqNo[kept];
  }

  /** Importance eviction takes a sink only after all non-sinks are gone, and
      within a class takes the lowest cumulative attention first. */
  lemma ImportanceEvictsSinksLast(c: Cache, io: nat -> LogOps.Fault, gone: nat, kept: nat)
    requires Inv(c) && Enforce(c, io).blocked == c.blocked && c.eviction.Importance?
    requires gone < |c.tiles| && kept < |c.tiles|
    requires c.state[gone] != Cold && Enforce(c, io).state[gone] == Cold
    requires Enforce(c, io).state[kept] != Cold
    ensures var w := c.eviction.sinkWindow;
      var g, s := IsSink(c.tiles[gone].position, w), IsSink(c.tiles[kept].position, w);
      && (g ==> s)
      && (g == s ==> c.importance[gone] <= c.importance[kept])
      && (g == s && c.importance[gone] == c.importance[kept] ==> c.seqNo[gone] < c.seqNo[kept])
  {
    var k := EvictsShortestPrefix(c, io);
    var soft := Soften(c, io);
    SoftenSoftens(c, io);
    EvictionOrderSorted(soft);
    PrefixBefore(EvictionKeys(soft), EvictionOrder(soft), k, gone, kept);
    assert soft.seqNo[gone] != soft.seqNo[kept];
    assert Degrades(c.tiles[gone], soft.tiles[gone]) && Degrades(c.tiles[kept], soft.tiles[kept]);
  }

  /** The sink test is the documented one exactly when the window fits 32 bits. */
  lemma SinkWindowExact(sinkWindow: nat)
    ensures (forall p: U32Word :: IsSink(p, sinkWindow) <==> p < sinkWindow) <==> sinkWindow < U32
  {
    if sinkWindow >= U32 {
      var p: U32Word := U32 - 1;
      assert !IsSink(p, sinkWindow) && p < sinkWindow;
    }
  }

  /** For every window: a tile at one of its positions is evicted only when every
      surviving tile is at one of them too. */
  lemma SinksPinned(c: Cache, io: nat -> LogOps.Fault, gone: nat, kept: nat)
    requires Inv(c) && Enforce(c, io).blocked == c.blocked && c.eviction.Importance?
    requires gone < |c.tiles| && kept < |c.tiles|
    requires c.state[gone] != Cold && Enforce(c, io).state[gone] == Cold
    requires Enforce(c, io).state[kept] != Cold
    ensures c.tiles[gone].position < c.eviction.sinkWindow ==> c.tiles[kept].position < c.eviction.sinkWindow
  {
    if c.eviction.sinkWindow < U32 {
      ImportanceEvictsSinksLast(c, io, gone, kept);
      SinkWindowExact(c.eviction.sinkWindow);
    }
  }

  // ---- footprints -------------------------------------------------------------------

  lemma SoftenedShrinks(c: Cache, d: Cache)
    requires Softened(c, d)
    ensures forall i :: 0 <= i < |c.tiles| ==>
              Footprint(d.tiles[i], d.state[i]) <= Footprint(c.tiles[i], c.state[i])
  {
  }

  /** No slot's footprint grows over `page_out`, `drop_correction` or `evict`. */
  lemma ActShrinks(c: Cache, a: Action, slot: nat, io: LogOps.Fault, i: nat)
    requires Shape(c) && i < |c.tiles| && slot < |c.tiles|
    ensures var d := Act(c, a, slot, io); Footprint(d.tiles[i], d.state[i]) <= Footprint(c.tiles[i], c.state[i])
  {
    if a != EvictSlot {
      SoftActSoftens(c, a, slot, io);
      SoftenedShrinks(c, Act(c, a, slot, io));
    }
  }

  /** No slot's footprint grows over a budget pass. */
  lemma EnforceShrinks(c: Cache, io: nat -> LogOps.Fault, i: nat)
    requires Shape(c) && i < |c.tiles|
    ensures var e := Enforce(c, io); Footprint(e.tiles[i], e.state[i]) <= Footprint(c.tiles[i], c.state[i])
  {
    var soft := Soften(c, io);
    SoftenSoftens(c, io);
    SoftenedShrinks(c, soft);
    EvictPhaseEvicts(soft, EvictionOrder(soft), io);
  }
}
