/** The actions of one budget pass, one after the other: each is justified by the
    state it is taken in, and every phase acts on a shortest prefix of its order. */
module CacheTrace {
  import opened SlotOrder
  import opened CacheModel
  import opened CacheInvariants
  import opened CacheBudget
  import LogOps

  /** An action and the state it is taken in. */
  datatype Event = Event(before: Cache, action: Action, slot: nat)

  /** The actions of one phase. */
  function PhaseTrace(c: Cache, a: Action, slots: seq<nat>, io: nat -> LogOps.Fault): seq<Event>
    requires Shape(c) && Within(slots, |c.tiles|)
    decreases |slots|
  {
    if slots == [] || c.live <= c.budget then []
    else [Event(c, a, slots[0])] + PhaseTrace(Act(c, a, slots[0], io(slots[0])), a, slots[1..], io)
  }

  /** The actions of the three soft phases. */
  function SoftTrace(c: Cache, io: nat -> LogOps.Fault): seq<Event>
    requires Shape(c)
  {
    var c1 := Phase(c, DropPlane, PagingOrder(c, Hot), io);
    var c2 := Phase(c1, Page, PagingOrder(c1, Hot), io);
    PhaseTrace(c, DropPlane, PagingOrder(c, Hot), io)
    + PhaseTrace(c1, Page, PagingOrder(c1, Hot), io)
    + PhaseTrace(c2, DropPlane, PagingOrder(c2, Warm), io)
  }

  /** The actions of a whole pass: the soft phases, then the evictions. */
  function EnforceTrace(c: Cache, io: nat -> LogOps.Fault): seq<Event>
    requires Shape(c)
  {
    SoftTrace(c, io) + PhaseTrace(Soften(c, io), EvictSlot, EvictionOrder(Soften(c, io)), io)
  }

  /** The events lead from `c` to `d`, each from the state the one before left. */
  predicate Leads(c: Cache, events: seq<Event>, io: nat -> LogOps.Fault, d: Cache)
    decreases |events|
  {
    if events == [] then c == d
    else
      var e := events[0];
      e.before == c && Shape(c) && e.slot < |c.tiles| && Leads(Act(c, e.action, e.slot, io(e.slot)), events[1..], io, d)
  }

  lemma {:induction false} PhaseLeads(c: Cache, a: Action, slots: seq<nat>, io: nat -> LogOps.Fault)
    requires Shape(c) && Within(slots, |c.tiles|)
    ensures Leads(c, PhaseTrace(c, a, slots, io), io, Phase(c, a, slots, io))
    decreases |slots|
  {
    if slots != [] && c.live > c.budget {
      PhaseLeads(Act(c, a, slots[0], io(slots[0])), a, slots[1..], io);
      assert PhaseTrace(c, a, slots, io)[1..] == PhaseTrace(Act(c, a, slots[0], io(slots[0])), a, slots[1..], io);
    }
  }

  lemma {:induction false} LeadsOn(c: Cache, s: seq<Event>, d: Cache, t: seq<Event>, e: Cache, io: nat -> LogOps.Fault)
    requires Leads(c, s, io, d) && Leads(d, t, io, e)
    ensures Leads(c, s + t, io, e)
    decreases |s|
  {
    if s == [] {
      assert s + t == t;
    } else {
      LeadsOn(Act(c, s[0].action, s[0].slot, io(s[0].slot)), s[1..], d, t, e, io);
      assert (s + t)[1..] == s[1..] + t;
    }
  }

  /** The trace is the pass: its actions, taken in turn, lead to the final state. */
  lemma EnforceLeads(c: Cache, io: nat -> LogOps.Fault)
    requires Shape(c)
    ensures Leads(c, EnforceTrace(c, io), io, Enforce(c, io))
  {
    var c1 := Phase(c, DropPlane, PagingOrder(c, Hot), io);
    var c2 := Phase(c1, Page, PagingOrder(c1, Hot), io);
    var soft := Phase(c2, DropPlane, PagingOrder(c2, Warm), io);
    var s0, s1 := PhaseTrace(c, DropPlane, PagingOrder(c, Hot), io), PhaseTrace(c1, Page, PagingOrder(c1, Hot), io);
    var s2, s3 := PhaseTrace(c2, DropPlane, PagingOrder(c2, Warm), io),
        PhaseTrace(soft, EvictSlot, EvictionOrder(soft), io);
    PhaseLeads(c, DropPlane, PagingOrder(c, Hot), io);
    PhaseLeads(c1, Page, PagingOrder(c1, Hot), io);
    PhaseLeads(c2, DropPlane, PagingOrder(c2, Warm), io);
    PhaseLeads(soft, EvictSlot, EvictionOrder(soft), io);
    LeadsOn(c, s0, c1, s1, c2, io);
    LeadsOn(c, s0 + s1, c2, s2, soft, io);
    LeadsOn(c, s0 + s1 + s2, soft, s3, Enforce(c, io), io);
  }

  // ---- every action is justified when it is taken ----------------------------------------

  /** No HOT slot has a plane left to drop. */
  predicate NoHotPlane(c: Cache)
    requires Shape(c)
  {
    forall i :: 0 <= i < |c.tiles| && c.state[i] == Hot ==> !Droppable(c.tiles[i])
  }

  /** Every live slot is WARM and has no plane left to drop. */
  predicate Exhausted(c: Cache)
    requires Shape(c)
  {
    forall i :: 0 <= i < |c.tiles| && c.state[i] != Cold ==> c.state[i] == Warm && !Droppable(c.tiles[i])
  }

  /** The harshness order, at the moment of an action: it is taken over budget, and
      only when nothing less harsh is left to do. */
  predicate Justified(e: Event) {
    && Shape(e.before) && e.slot < |e.before.tiles| && e.before.live > e.before.budget
    && match e.action
       case DropPlane => e.before.state[e.slot] == Hot || NoHot(e.before)
       case Page => NoHotPlane(e.before)
       case EvictSlot => Exhausted(e.before)
  }

  predicate AllJustified(events: seq<Event>) {
    forall k :: 0 <= k < |events| ==> Justified(events[k])
  }

  lemma OneMoreJustified(e: Event, events: seq<Event>)
    requires Justified(e) && AllJustified(events)
    ensures AllJustified([e] + events)
  {
  }

  lemma JustifiedTogether(s: seq<Event>, t: seq<Event>)
    requires AllJustified(s) && AllJustified(t)
    ensures AllJustified(s + t)
  {
  }

  lemma {:induction false} HotDropsJustified(c: Cache, slots: seq<nat>, io: nat -> LogOps.Fault)
    requires Shape(c) && Within(slots, |c.tiles|) && forall k :: 0 <= k < |slots| ==> c.state[slots[k]] == Hot
    ensures AllJustified(PhaseTrace(c, DropPlane, slots, io))
    decreases |slots|
  {
    if slots != [] && c.live > c.budget {
      var d := DropCorrection(c, slots[0]).0;
      assert d.state == c.state;
      HotDropsJustified(d, slots[1..], io);
      OneMoreJustified(Event(c, DropPlane, slots[0]), PhaseTrace(d, DropPlane, slots[1..], io));
    }
  }

  lemma {:induction false} PagesJustified(c: Cache, slots: seq<nat>, io: nat -> LogOps.Fault)
    requires Shape(c) && Within(slots, |c.tiles|) && NoHotPlane(c)
    ensures AllJustified(PhaseTrace(c, Page, slots, io))
    decreases |slots|
  {
    if slots != [] && c.live > c.budget {
      var d := PageOut(c, slots[0]);
      PagesJustified(d, slots[1..], io);
      OneMoreJustified(Event(c, Page, slots[0]), PhaseTrace(d, Page, slots[1..], io));
    }
  }

  lemma {:induction false} WarmDropsJustified(c: Cache, slots: seq<nat>, io: nat -> LogOps.Fault)
    requires Shape(c) && Within(slots, |c.tiles|) && NoHot(c)
    ensures AllJustified(PhaseTrace(c, DropPlane, slots, io))
    decreases |slots|
  {
    if slots != [] && c.live > c.budget {
      var d := DropCorrection(c, slots[0]).0;
      WarmDropsJustified(d, slots[1..], io);
      OneMoreJustified(Event(c, DropPlane, slots[0]), PhaseTrace(d, DropPlane, slots[1..], io));
    }
  }

  lemma {:induction false} EvictsJustified(c: Cache, slots: seq<nat>, io: nat -> LogOps.Fault)
    requires Shape(c) && Within(slots, |c.tiles|) && Exhausted(c)
    ensures AllJustified(PhaseTrace(c, EvictSlot, slots, io))
    decreases |slots|
  {
    if slots != [] && c.live > c.budget {
      var d := Evict(c, slots[0], io(slots[0])).0;
      EvictEvicts(c, slots[0], io(slots[0]));
      EvictsJustified(d, slots[1..], io);
      OneMoreJustified(Event(c, EvictSlot, slots[0]), PhaseTrace(d, EvictSlot, slots[1..], io));
    }
  }

  /** After the first phase, if still over budget, no HOT plane is left. */
  lemma AfterHotDrops(c: Cache, io: nat -> LogOps.Fault)
    requires Shape(c)
    ensures var c1 := Phase(c, DropPlane, PagingOrder(c, Hot), io);
      c1.live > c1.budget ==> NoHotPlane(c1)
  {
    var c1 := Phase(c, DropPlane, PagingOrder(c, Hot), io);
    SoftPhaseSoftens(c, DropPlane, PagingOrder(c, Hot), io);
    DropPhaseKeepsStates(c, PagingOrder(c, Hot), io);
    if c1.live > c1.budget {
      SoftPhaseExhausted(c, DropPlane, PagingOrder(c, Hot), io);
      forall i | 0 <= i < |c1.tiles| && c1.state[i] == Hot
        ensures !Droppable(c1.tiles[i])
      {
        assert i in PagingOrder(c, Hot);
      }
    }
  }

  /** After the third phase, if still over budget, nothing soft is left to do. */
  lemma AfterWarmDrops(c2: Cache, io: nat -> LogOps.Fault)
    requires Shape(c2) && NoHot(c2)
    ensures var soft := Phase(c2, DropPlane, PagingOrder(c2, Warm), io);
      soft.live > soft.budget ==> Exhausted(soft)
  {
    var soft := Phase(c2, DropPlane, PagingOrder(c2, Warm), io);
    SoftPhaseSoftens(c2, DropPlane, PagingOrder(c2, Warm), io);
    DropPhaseKeepsStates(c2, PagingOrder(c2, Warm), io);
    if soft.live > soft.budget {
      SoftPhaseExhausted(c2, DropPlane, PagingOrder(c2, Warm), io);
      forall i | 0 <= i < |soft.tiles| && soft.state[i] != Cold
        ensures soft.state[i] == Warm && !Droppable(soft.tiles[i])
      {
        assert i in PagingOrder(c2, Warm);
      }
    }
  }

  lemma {:induction false} PhaseStaysUnder(c: Cache, a: Action, slots: seq<nat>, io: nat -> LogOps.Fault)
    requires Shape(c) && Within(slots, |c.tiles|) && c.live <= c.budget
    ensures PhaseTrace(c, a, slots, io) == [] && Phase(c, a, slots, io) == c
  {
  }

  lemma PagePhaseJustified(c1: Cache, io: nat -> LogOps.Fault)
    requires Shape(c1) && (c1.live > c1.budget ==> NoHotPlane(c1))
    ensures AllJustified(PhaseTrace(c1, Page, PagingOrder(c1, Hot), io))
  {
    if c1.live > c1.budget {
      PagesJustified(c1, PagingOrder(c1, Hot), io);
    } else {
      PhaseStaysUnder(c1, Page, PagingOrder(c1, Hot), io);
    }
  }

  lemma WarmPhaseJustified(c2: Cache, io: nat -> LogOps.Fault)
    requires Shape(c2) && (c2.live > c2.budget ==> NoHot(c2))
    ensures var soft := Phase(c2, DropPlane, PagingOrder(c2, Warm), io);
      && AllJustified(PhaseTrace(c2, DropPlane, PagingOrder(c2, Warm), io))
      && AllJustified(PhaseTrace(soft, EvictSlot, EvictionOrder(soft), io))
  {
    var soft := Phase(c2, DropPlane, PagingOrder(c2, Warm), io);
    if c2.live > c2.budget {
      WarmDropsJustified(c2, PagingOrder(c2, Warm), io);
      AfterWarmDrops(c2, io);
    } else {
      PhaseStaysUnder(c2, DropPlane, PagingOrder(c2, Warm), io);
    }
    if soft.live > soft.budget {
      EvictsJustified(soft, EvictionOrder(soft), io);
    } else {
      PhaseStaysUnder(soft, EvictSlot, EvictionOrder(soft), io);
    }
  }

  /** Increasing harshness: in a budget pass every action, at the moment it is
      taken, is taken over budget; a tile is paged only while no HOT slot has a
      droppable plane, a WARM plane is dropped only while nothing is HOT, and a slot
      is evicted only while every live slot is WARM without a droppable plane. */
  lemma EnforceJustified(c: Cache, io: nat -> LogOps.Fault)
    requires Shape(c)
    ensures AllJustified(EnforceTrace(c, io))
  {
    var c1 := Phase(c, DropPlane, PagingOrder(c, Hot), io);
    var c2 := Phase(c1, Page, PagingOrder(c1, Hot), io);
    var soft := Phase(c2, DropPlane, PagingOrder(c2, Warm), io);
    forall k | 0 <= k < |PagingOrder(c, Hot)|
      ensures c.state[PagingOrder(c, Hot)[k]] == Hot
    {
      assert PagingOrder(c, Hot)[k] in PagingOrder(c, Hot);
    }
    HotDropsJustified(c, PagingOrder(c, Hot), io);
    AfterHotDrops(c, io);
    PagePhaseJustified(c1, io);
    AfterPages(c1, io);
    WarmPhaseJustified(c2, io);
    var s0, s1 := PhaseTrace(c, DropPlane, PagingOrder(c, Hot), io), PhaseTrace(c1, Page, PagingOrder(c1, Hot), io);
    var s2, s3 := PhaseTrace(c2, DropPlane, PagingOrder(c2, Warm), io),
        PhaseTrace(soft, EvictSlot, EvictionOrder(soft), io);
    JustifiedTogether(s0, s1);
    JustifiedTogether(s0 + s1, s2);
    JustifiedTogether(s0 + s1 + s2, s3);
  }

  // ---- shortest prefixes --------------------------------------------------------------------

  /** Every phase acts on a prefix of its order, over budget before each action, and
      stops as soon as the budget is met or the order is exhausted. */
  lemma {:induction false} PhaseIsShortestPrefix(c: Cache, a: Action, slots: seq<nat>, io: nat -> LogOps.Fault)
    requires Shape(c) && Within(slots, |c.tiles|)
    ensures var t, d := PhaseTrace(c, a, slots, io), Phase(c, a, slots, io);
      && |t| <= |slots| && (d.live <= d.budget || |t| == |slots|)
      && forall k :: 0 <= k < |t| ==> t[k].action == a && t[k].slot == slots[k] && t[k].before.live > t[k].before.budget
    decreases |slots|
  {
    if slots != [] && c.live > c.budget {
      PhaseIsShortestPrefix(Act(c, a, slots[0], io(slots[0])), a, slots[1..], io);
    }
  }

  const PAGED_BYTES := 32

  /** How many slots the paging phase pages. */
  function Paged(c: Cache, slots: seq<nat>): (k: nat)
    requires Shape(c) && Within(slots, |c.tiles|)
    ensures k <= |slots|
    decreases |slots|
  {
    if slots == [] || c.live <= c.budget then 0 else 1 + Paged(PageOut(c, slots[0]), slots[1..])
  }

  /** A list of different HOT slots. */
  predicate HotSlots(c: Cache, slots: seq<nat>)
    requires Shape(c)
  {
    Within(slots, |c.tiles|) && Distinct(slots) && forall k :: 0 <= k < |slots| ==> c.state[slots[k]] == Hot
  }

  lemma HotSlotsRest(c: Cache, slots: seq<nat>)
    requires Shape(c) && HotSlots(c, slots) && slots != []
    ensures HotSlots(PageOut(c, slots[0]), slots[1..]) && slots[0] !in slots[1..]
    ensures PageOut(c, slots[0]).live == c.live - PAGED_BYTES && PageOut(c, slots[0]).state == c.state[slots[0] := Warm]
  {
  }

  /** Each paged slot frees exactly 32 bytes, so the phase pages the fewest slots, in
      order, that bring the cache under budget, or all of them. */
  lemma {:induction false} PagedExactly(c: Cache, slots: seq<nat>, io: nat -> LogOps.Fault)
    requires Shape(c) && HotSlots(c, slots)
    ensures var d, k := Phase(c, Page, slots, io), Paged(c, slots);
      && d.live == c.live - PAGED_BYTES * k && (d.live <= c.budget || k == |slots|)
      && (k > 0 ==> c.live - PAGED_BYTES * (k - 1) > c.budget)
      && forall i :: 0 <= i < |c.tiles| ==> d.state[i] == if i in slots[..k] then Warm else c.state[i]
    decreases |slots|
  {
    if slots != [] && c.live > c.budget {
      var d := PageOut(c, slots[0]);
      HotSlotsRest(c, slots);
      PagedExactly(d, slots[1..], io);
      assert slots[..Paged(c, slots)] == [slots[0]] + slots[1..][..Paged(d, slots[1..])];
    }
  }

  lemma PagingOrderHot(c: Cache)
    requires Shape(c)
    ensures HotSlots(c, PagingOrder(c, Hot)) && Ordered(PagingKeys(c), PagingOrder(c, Hot))
  {
    PagingOrderSorted(c, Hot);
    var order := PagingOrder(c, Hot);
    forall k | 0 <= k < |order|
      ensures c.state[order[k]] == Hot
    {
      assert order[k] in order;
    }
  }

  /** The paging phase takes HOT slots in the policy's order: no slot is paged while
      one that comes before it stays HOT. */
  lemma PagesInOrder(c1: Cache, io: nat -> LogOps.Fault, paged: nat, kept: nat)
    requires Shape(c1) && paged < |c1.tiles| && kept < |c1.tiles| && c1.state[paged] == Hot
    requires var c2 := Phase(c1, Page, PagingOrder(c1, Hot), io); c2.state[paged] != Hot && c2.state[kept] == Hot
    ensures Before(PagingKeys(c1), paged, kept)
  {
    var order := PagingOrder(c1, Hot);
    PagingOrderHot(c1);
    PagedExactly(c1, order, io);
    assert paged in order && kept in order;
    PrefixBefore(PagingKeys(c1), order, Paged(c1, order), paged, kept);
  }

  /** The order in which paging prefers one slot to another. */
  predicate PagedFirst(c: Cache, a: nat, b: nat)
    requires Shape(c) && a < |c.tiles| && b < |c.tiles|
  {
    match c.policy
    case LowestImpactFirst =>
      var x, y := TotalOrderKey(c.tiles[a].sigma), TotalOrderKey(c.tiles[b].sigma);
      x < y || (x == y && a < b)
    case OldestFirst => c.seqNo[a] < c.seqNo[b] || (c.seqNo[a] == c.seqNo[b] && a < b)
  }

  /** Over a whole pass: a slot that left HOT comes before every slot that is still
      HOT, so lowest impact first never pages a tile of higher sigma while one of
      lower sigma stays HOT, and oldest first never a newer one. */
  lemma EnforcePagesInOrder(c: Cache, io: nat -> LogOps.Fault, gone: nat, kept: nat)
    requires Shape(c) && gone < |c.tiles| && kept < |c.tiles|
    requires c.state[gone] == Hot && Enforce(c, io).state[gone] != Hot && Enforce(c, io).state[kept] == Hot
    ensures PagedFirst(c, gone, kept)
  {
    var c1 := Phase(c, DropPlane, PagingOrder(c, Hot), io);
    var c2 := Phase(c1, Page, PagingOrder(c1, Hot), io);
    SoftPhaseSoftens(c, DropPlane, PagingOrder(c, Hot), io);
    DropPhaseKeepsStates(c, PagingOrder(c, Hot), io);
    AfterPages(c1, io);
    HotAtEnd(c2, io, gone, kept);
    PagesInOrder(c1, io, gone, kept);
    SameOrder(c, c1, gone, kept);
  }

  lemma SameOrder(c: Cache, c1: Cache, a: nat, b: nat)
    requires Softened(c, c1) && a < |c.tiles| && b < |c.tiles| && Before(PagingKeys(c1), a, b)
    ensures PagedFirst(c, a, b)
  {
    assert Degrades(c.tiles[a], c1.tiles[a]) && Degrades(c.tiles[b], c1.tiles[b]);
  }

  /** If a slot is still HOT at the end, nothing stopped being HOT after paging. */
  lemma HotAtEnd(c2: Cache, io: nat -> LogOps.Fault, gone: nat, kept: nat)
    requires Shape(c2) && gone < |c2.tiles| && kept < |c2.tiles| && (c2.live > c2.budget ==> NoHot(c2))
    requires var soft := Phase(c2, DropPlane, PagingOrder(c2, Warm), io);
      var e := Phase(soft, EvictSlot, EvictionOrder(soft), io);
      e.state[gone] != Hot && e.state[kept] == Hot
    ensures c2.state[gone] != Hot && c2.state[kept] == Hot
  {
    var soft := Phase(c2, DropPlane, PagingOrder(c2, Warm), io);
    DropPhaseKeepsStates(c2, PagingOrder(c2, Warm), io);
    EvictPhaseEvicts(soft, EvictionOrder(soft), io);
    if c2.live <= c2.budget {
      PhaseStaysUnder(c2, DropPlane, PagingOrder(c2, Warm), io);
      PhaseStaysUnder(soft, EvictSlot, EvictionOrder(soft), io);
    }
  }

  // ---- evictions under faults -----------------------------------------------------------------

  /** The event is an eviction that was attempted and refused. */
  predicate Refused(e: Event, slot: nat, io: nat -> LogOps.Fault) {
    e.action == EvictSlot && e.slot == slot && Shape(e.before) && !Evict(e.before, slot, io(slot)).1
  }

  predicate RefusedIn(events: seq<Event>, slot: nat, io: nat -> LogOps.Fault) {
    exists k :: 0 <= k < |events| && Refused(events[k], slot, io)
  }

  /** In an eviction pass a slot that survives one later in the order was attempted
      and refused. */
  lemma {:induction false} EarlierRefused(c: Cache, slots: seq<nat>, io: nat -> LogOps.Fault, p: nat, q: nat)
    requires Shape(c) && LiveSlots(c, slots) && p < q < |slots|
    requires Phase(c, EvictSlot, slots, io).state[slots[p]] != Cold
    requires Phase(c, EvictSlot, slots, io).state[slots[q]] == Cold
    ensures p < |PhaseTrace(c, EvictSlot, slots, io)| && Refused(PhaseTrace(c, EvictSlot, slots, io)[p], slots[p], io)
    decreases |slots|
  {
    assert c.live > c.budget;
    var d, went := Evict(c, slots[0], io(slots[0])).0, Evict(c, slots[0], io(slots[0])).1;
    EvictEvicts(c, slots[0], io(slots[0]));
    if p == 0 {
      EvictPhaseEvicts(d, slots[1..], io);
    } else {
      EvictKeepsRest(c, slots, io(slots[0]));
      EarlierRefused(d, slots[1..], io, p - 1, q - 1);
    }
  }

  lemma EvictKeepsRest(c: Cache, slots: seq<nat>, io: LogOps.Fault)
    requires Shape(c) && slots != [] && LiveSlots(c, slots)
    ensures LiveSlots(Evict(c, slots[0], io).0, slots[1..])
  {
  }

  /** Over a whole pass, under any faults: a slot can survive one that comes later in
      the eviction order and went COLD only if its own eviction was refused. */
  lemma SurvivesOnlyIfRefused(c: Cache, io: nat -> LogOps.Fault, kept: nat, gone: nat)
    requires Shape(c) && kept < |c.tiles| && gone < |c.tiles|
    requires c.state[gone] != Cold && Enforce(c, io).state[gone] == Cold && Enforce(c, io).state[kept] != Cold
    requires Before(EvictionKeys(Soften(c, io)), kept, gone)
    ensures RefusedIn(EnforceTrace(c, io), kept, io)
  {
    var soft := Soften(c, io);
    var order := EvictionOrder(soft);
    SoftenSoftens(c, io);
    EvictPhaseEvicts(soft, order, io);
    EvictionOrderLive(soft);
    assert kept in order && gone in order;
    var p :| 0 <= p < |order| && order[p] == kept;
    var q :| 0 <= q < |order| && order[q] == gone;
    InOrder(EvictionKeys(soft), order, p, q);
    EarlierRefused(soft, order, io, p, q);
    var first, last := EvictionsLast(c, io);
    RefusedAtEnd(first, last, p, kept, io);
  }

  lemma EvictionOrderLive(c: Cache)
    requires Shape(c)
    ensures LiveSlots(c, EvictionOrder(c)) && Ordered(EvictionKeys(c), EvictionOrder(c))
  {
    EvictionOrderSorted(c);
    var order := EvictionOrder(c);
    forall k | 0 <= k < |order|
      ensures c.state[order[k]] != Cold
    {
      assert order[k] in order;
    }
  }

  /** In a strict order positions follow the keys. */
  lemma InOrder(keys: seq<Key>, order: seq<nat>, p: nat, q: nat)
    requires Within(order, |keys|) && Ordered(keys, order) && p < |order| && q < |order|
    ensures p < q <==> Before(keys, order[p], order[q])
  {
    if q < p {
      assert Before(keys, order[q], order[p]);
    }
  }

  /** The eviction events come last in the trace of a pass. */
  lemma EvictionsLast(c: Cache, io: nat -> LogOps.Fault) returns (first: seq<Event>, last: seq<Event>)
    requires Shape(c)
    ensures last == PhaseTrace(Soften(c, io), EvictSlot, EvictionOrder(Soften(c, io)), io)
    ensures EnforceTrace(c, io) == first + last
  {
    first, last := SoftTrace(c, io), PhaseTrace(Soften(c, io), EvictSlot, EvictionOrder(Soften(c, io)), io);
  }

  lemma RefusedAtEnd(first: seq<Event>, last: seq<Event>, p: nat, slot: nat, io: nat -> LogOps.Fault)
    requires p < |last| && Refused(last[p], slot, io)
    ensures RefusedIn(first + last, slot, io)
  {
    assert (first + last)[|first| + p] == last[p];
  }

  /** Causal eviction under faults: an older tile outlives a newer one only if its
      own eviction was attempted and refused. */
  lemma CausalUnderFaults(c: Cache, io: nat -> LogOps.Fault, kept: nat, gone: nat)
    requires Shape(c) && c.eviction == Causal && kept < |c.tiles| && gone < |c.tiles|
    requires c.state[gone] != Cold && Enforce(c, io).state[gone] == Cold && Enforce(c, io).state[kept] != Cold
    requires c.seqNo[kept] < c.seqNo[gone]
    ensures RefusedIn(EnforceTrace(c, io), kept, io)
  {
    SoftenSoftens(c, io);
    SurvivesOnlyIfRefused(c, io, kept, gone);
  }
}
