/** The elastic KV cache object: parallel slot vectors updated in place. Every
    method is proved equal to its counterpart in `CacheModel`. */
module ElasticCache {
  import opened Results
  import opened Floats
  import opened Words
  import opened Tiles
  import opened SlotOrder
  import opened LogFormat
  import opened CacheModel
  import opened CacheInvariants
  import opened CacheAttention
  import opened EventLogs
  import LogOps

  class ElasticKvCache {
    var tiles: seq<Tile>
    var state: seq<TileState>
    var seqNo: seq<U64Word>
    var importance: seq<real>
    var free: seq<nat>
    var budget: nat
    var live: nat
    var policy: PageOutPolicy
    var eviction: EvictionPolicy
    var nextSeq: U64Word
    var log: EventLog?
    var durability: Durability
    var logErrors: nat
    var blocked: nat

    ghost function View(): Cache
      reads this, log
    {
      Cache(tiles, state, seqNo, importance, free, budget, live, policy, eviction, nextSeq,
            if log == null then None else Some(log.View()), durability, logErrors, blocked)
    }

    constructor (budget: nat, policy: PageOutPolicy, eviction: EvictionPolicy)
      ensures View() == NewCache(budget, policy, eviction) && Inv(View())
    {
      tiles, state, seqNo, importance, free := [], [], [], [], [];
      this.budget, live, this.policy, this.eviction, nextSeq := budget, 0, policy, eviction, 0;
      log, durability, logErrors, blocked := null, BestEffort, 0, 0;
    }

    /** Attach a log; `durable` asks for synchronized records before eviction. */
    method Attach(l: EventLog, durable: bool)
      modifies this`log, this`durability
      ensures log == l
      ensures View() == old(View()).(log := Some(l.View()), durability := if durable then RequireDurable
          else BestEffort)
      ensures old(Inv(View())) ==> Inv(View())
    {
      log := l;
      durability := if durable then RequireDurable else BestEffort;
    }

    /** The O(1) footprint is the sum over all slots. */
    method LiveBytes() returns (bytes: nat)
      requires Inv(View())
      ensures bytes == Total(tiles, state)
    {
      bytes := live;
    }

    /** Overwrite the most recently freed slot. */
    method Recycle(tile: Tile, s: TileState) returns (slot: nat)
      requires Shape(View()) && Within(free, |tiles|) && free != []
      modifies this`tiles, this`state, this`seqNo, this`importance, this`free
      ensures slot == old(free[|free| - 1])
      ensures View() == old(View()).(free := old(free[..|free| - 1]), tiles := old(tiles)[slot := tile],
        state := old(state)[slot := s], seqNo := old(seqNo)[slot := nextSeq],
            importance := old(importance)[slot := 0.0])
    {
      slot := free[|free| - 1];
      free := free[..|free| - 1];
      tiles := tiles[slot := tile];
      state := state[slot := s];
      seqNo := seqNo[slot := nextSeq];
      importance := importance[slot := 0.0];
    }

    /** Add a slot at the end. */
    method Grow(tile: Tile, s: TileState) returns (slot: nat)
      requires Shape(View())
      modifies this`tiles, this`state, this`seqNo, this`importance
      ensures slot == old(|tiles|)
      ensures View() == old(View()).(tiles := old(tiles) + [tile], state := old(state) + [s],
        seqNo := old(seqNo) + [nextSeq], importance := old(importance) + [0.0])
    {
      slot := |tiles|;
      tiles := tiles + [tile];
      state := state + [s];
      seqNo := seqNo + [nextSeq];
      importance := importance + [0.0];
    }

    method Insert(tile: Tile) returns (slot: nat)
      requires Shape(View()) && Within(free, |tiles|) && nextSeq + 1 < U64
      modifies this`tiles, this`state, this`seqNo, this`importance, this`free, this`nextSeq, this`live
      ensures (View(), slot) == CacheModel.Insert(old(View()), tile)
    {
      var s := EncodedState(tile);
      if |free| > 0 {
        slot := Recycle(tile, s);
      } else {
        slot := Grow(tile, s);
      }
      live := live + Footprint(tiles[slot], state[slot]);
      nextSeq := nextSeq + 1;
    }

    /** HOT to WARM; the byte counter never underflows. */
    method PageOut(slot: nat)
      requires Inv(View()) && slot < |tiles|
      modifies this`tiles, this`state, this`live
      ensures View() == CacheModel.PageOut(old(View()), slot) && Inv(View())
    {
      PageOutKeepsInv(View(), slot);
      TotalCovers(tiles, state, slot);
      if state[slot] == Hot {
        live := live - Footprint(tiles[slot], state[slot]);
        tiles := tiles[slot := PagedTile(tiles[slot])];
        state := state[slot := Warm];
        live := live + Footprint(tiles[slot], state[slot]);
      }
    }

    method DropCorrection(slot: nat) returns (reclaimed: bool)
      requires Inv(View()) && slot < |tiles|
      modifies this`tiles, this`live
      ensures (View(), reclaimed) == CacheModel.DropCorrection(old(View()), slot) && Inv(View())
    {
      DropCorrectionKeepsInv(View(), slot);
      TotalCovers(tiles, state, slot);
      var n := SeparableBytes(tiles[slot]);
      if state[slot] == Cold || n == 0 || NoCorr(tiles[slot]) {
        return false;
      }
      tiles := tiles[slot := DroppedTile(tiles[slot])];
      live := live - n;
      return true;
    }

    /** Write a slot's record as the durability mode demands. */
    method Persist(slot: nat, io: LogOps.Fault) returns (persisted: bool)
      requires Shape(View()) && slot < |tiles|
      modifies log
      ensures (View().log, persisted) == CacheModel.Persist(old(View()), slot, io)
    {
      if log == null {
        return durability == BestEffort;
      }
      match durability {
        case BestEffort => persisted := log.Append(seqNo[slot], slot % U32, tiles[slot], io);
        case RequireDurable => persisted := log.AppendDurable(seqNo[slot], slot % U32, tiles[slot], io);
      }
    }

    /** Write a slot's record and count a failure; true if the slot may go COLD. */
    method Archive(slot: nat, io: LogOps.Fault) returns (archived: bool)
      requires Shape(View()) && slot < |tiles|
      modifies this`logErrors, this`blocked, log
      ensures var (l, ok) := CacheModel.Persist(old(View()), slot, io);
        && archived == (ok || durability != RequireDurable)
        && View() == old(View()).(log := l,
             logErrors := old(logErrors) + if !ok && l.Some? then 1 else 0,
             blocked := old(blocked) + if archived then 0 else 1)
    {
      var persisted := Persist(slot, io);
      if !persisted && log != null {
        logErrors := logErrors + 1;
      }
      if !persisted && durability == RequireDurable {
        blocked := blocked + 1;
        return false;
      }
      return true;
    }

    /** COLD only after the log, if one is required, has the record. */
    method Evict(slot: nat, io: LogOps.Fault) returns (went: bool)
      requires Shape(View()) && live == Total(tiles, state)
      modifies this`logErrors, this`blocked, this`live, this`state, this`free, log
      ensures (View(), went) == CacheModel.Evict(old(View()), slot, io)
    {
      if slot >= |tiles| || state[slot] == Cold {
        return false;
      }
      TotalCovers(tiles, state, slot);
      var archived := Archive(slot, io);
      EvictsAfter(old(View()), slot, io, View(), archived);
      if archived {
        GoCold(slot);
      }
      return archived;
    }

    /** Eviction is archiving followed by going COLD. */
    static lemma EvictsAfter(c: Cache, i: nat, io: LogOps.Fault, d: Cache, archived: bool)
      requires Shape(c) && i < |c.tiles| && c.state[i] != Cold && Footprint(c.tiles[i], c.state[i]) <= c.live
      requires var (l, ok) := CacheModel.Persist(c, i, io);
        && archived == (ok || c.durability != RequireDurable)
        && d == c.(log := l, logErrors := c.logErrors + if !ok && l.Some? then 1 else 0,
                   blocked := c.blocked + if archived then 0 else 1)
      ensures CacheModel.Evict(c, i, io) ==
        if archived then
          (d.(live := c.live - Footprint(c.tiles[i], c.state[i]), state := c.state[i := Cold], free := c.free + [i]),
           true)
        else (d, false)
    {
    }

    /** Release a slot's bytes and put it on the free list. */
    method GoCold(slot: nat)
      requires Shape(View()) && slot < |tiles| && Footprint(tiles[slot], state[slot]) <= live
      modifies this`live, this`state, this`free
      ensures View() == old(View()).(live := old(live) - Footprint(tiles[slot], old(state[slot])),
        state := old(state)[slot := Cold], free := old(free) + [slot])
    {
      live := live - Footprint(tiles[slot], state[slot]);
      state := state[slot := Cold];
      free := free + [slot];
    }

    method Rehydrate(q: nat) returns (r: Result<Option<nat>, LogError>)
      requires Inv(View()) && nextSeq + 1 < U64
      modifies this
      ensures log == old(log) && (View(), r) == CacheModel.Rehydrate(old(View()), q) && Inv(View())
    {
      RehydrateKeepsInv(View(), q);
      if log == null {
        return Ok(None);
      }
      var found := log.FetchBySeq(q);
      if found.Err? {
        return Err(found.error);
      }
      if found.value.None? {
        return Ok(None);
      }
      var slot := Insert(found.value.value.tile);
      return Ok(Some(slot));
    }

    /** Add the softmax mass of the live scores to their slots' importance. */
    method ObserveScores(scores: seq<Score>, temperature: Float, exp: real -> real)
      requires Shape(View())
      modifies this`importance
      ensures View() == Observe(old(View()), scores, temperature, exp)
    {
      var observed := Observed(state, scores, temperature);
      if observed == [] {
        return;
      }
      var peak := Greatest(seq(|observed|, i requires 0 <= i < |observed| => observed[i].logit.value));
      var weights, sum := SoftmaxWeights(observed, peak, temperature.value, exp);
      if sum <= 0.0 {
        return;
      }
      importance := SpreadMasses(importance, observed, weights, 1.0 / sum);
    }

    /** The slots in a state, in paging order. */
    method SlotsInPagingOrder(s: TileState) returns (slots: seq<nat>)
      requires Inv(View())
      ensures slots == PagingOrder(View(), s)
    {
      var keys: seq<Key> := [];
      while |keys| < |tiles|
        invariant |keys| <= |tiles| && keys == PagingKeys(View())[..|keys|]
      {
        var i := |keys|;
        var key := match policy
          case LowestImpactFirst => Key(false, 0.0, TotalOrderKey(tiles[i].sigma))
          case OldestFirst => Key(false, 0.0, seqNo[i]);
        keys := keys + [key];
      }
      assert keys == PagingKeys(View());
      slots := Sort(keys, Select(state, {s}));
    }

    /** The live slots, in eviction order. */
    method SlotsInEvictionOrder() returns (slots: seq<nat>)
      requires Inv(View())
      ensures slots == EvictionOrder(View())
    {
      var keys: seq<Key> := [];
      while |keys| < |tiles|
        invariant |keys| <= |tiles| && keys == EvictionKeys(View())[..|keys|]
      {
        var i := |keys|;
        var key := match eviction
          case Causal => Key(false, 0.0, seqNo[i])
          case Importance(w) => Key(IsSink(tiles[i].position, w), importance[i], seqNo[i]);
        keys := keys + [key];
      }
      assert keys == EvictionKeys(View());
      slots := Sort(keys, Select(state, {Hot, Warm}));
    }

    /** Drop correction planes in order until the budget is met. */
    method DropPlanes(order: seq<nat>, io: nat -> LogOps.Fault)
      requires Inv(View()) && Within(order, |tiles|)
      modifies this`tiles, this`live
      ensures View() == Phase(old(View()), DropPlane, order, io) && Inv(View())
    {
      var n := 0;
      while n < |order|
        invariant 0 <= n <= |order| && Inv(View()) && |tiles| == old(|tiles|)
        invariant Phase(old(View()), DropPlane, order, io) == Phase(View(), DropPlane, order[n..], io)
      {
        if live <= budget {
          return;
        }
        assert order[n..][1..] == order[n + 1..];
        var _ := DropCorrection(order[n]);
        n := n + 1;
      }
    }

    /** Page slots out in order until the budget is met. */
    method PageOutAll(order: seq<nat>, io: nat -> LogOps.Fault)
      requires Inv(View()) && Within(order, |tiles|)
      modifies this`tiles, this`state, this`live
      ensures View() == Phase(old(View()), Page, order, io) && Inv(View())
    {
      var n := 0;
      while n < |order|
        invariant 0 <= n <= |order| && Inv(View()) && |tiles| == old(|tiles|)
        invariant Phase(old(View()), Page, order, io) == Phase(View(), Page, order[n..], io)
      {
        if live <= budget {
          return;
        }
        assert order[n..][1..] == order[n + 1..];
        PageOut(order[n]);
        n := n + 1;
      }
    }

    /** One eviction of a budget pass. */
    method EvictNext(slot: nat, io: LogOps.Fault)
      requires Inv(View()) && slot < |tiles|
      modifies this`logErrors, this`blocked, this`live, this`state, this`free, log
      ensures View() == Act(old(View()), EvictSlot, slot, io) && Inv(View())
    {
      EvictKeepsInv(View(), slot, io);
      var _ := Evict(slot, io);
    }

    /** Evict slots in order until the budget is met. */
    method EvictAll(order: seq<nat>, io: nat -> LogOps.Fault)
      requires Inv(View()) && Within(order, |tiles|)
      modifies this`logErrors, this`blocked, this`live, this`state, this`free, log
      ensures View() == Phase(old(View()), EvictSlot, order, io) && Inv(View())
    {
      var n := 0;
      while n < |order|
        invariant 0 <= n <= |order| && Inv(View()) && |tiles| == old(|tiles|)
        invariant Phase(old(View()), EvictSlot, order, io) == Phase(View(), EvictSlot, order[n..], io)
      {
        if live <= budget {
          return;
        }
        ghost var before := View();
        EvictNext(order[n], io(order[n]));
        PhaseTurn(before, View(), EvictSlot, order, n, io);
        n := n + 1;
      }
    }

    /** Bring the footprint under budget, in increasing harshness. */
    method EnforceBudget(io: nat -> LogOps.Fault) returns (fits: bool)
      requires Inv(View())
      modifies this`tiles, this`live, this`state, this`logErrors, this`blocked, this`free, log
      ensures View() == Enforce(old(View()), io)
      ensures Inv(View()) && (fits <==> Total(tiles, state) <= budget)
    {
      if live <= budget {
        return true;
      }
      var order := SlotsInPagingOrder(Hot);
      DropPlanes(order, io);
      order := SlotsInPagingOrder(Hot);
      PageOutAll(order, io);
      order := SlotsInPagingOrder(Warm);
      DropPlanes(order, io);
      order := SlotsInEvictionOrder();
      EvictAll(order, io);
      return live <= budget;
    }
  }

  /** The exponentials and their running sum. */
  method SoftmaxWeights(observed: seq<Score>, peak: real, temperature: real, exp: real -> real)
    returns (weights: seq<real>, sum: real)
    requires temperature != 0.0 && forall i :: 0 <= i < |observed| ==> observed[i].logit.Finite?
    ensures weights == Weights(observed, peak, temperature, exp) && sum == SumReal(weights)
  {
    ghost var expected := Weights(observed, peak, temperature, exp);
    weights, sum := [], 0.0;
    while |weights| < |observed|
      invariant |weights| <= |observed| && weights == expected[..|weights|]
      invariant sum == SumReal(weights)
    {
      var w := exp((observed[|weights|].logit.value - peak) / temperature);
      SumAppend(weights, w);
      weights, sum := weights + [w], sum + w;
    }
  }

  method SpreadMasses(importance: seq<real>, observed: seq<Score>, weights: seq<real>, scale: real)
    returns (r: seq<real>)
    requires |weights| == |observed|
    requires forall i :: 0 <= i < |observed| ==> observed[i].slot < |importance|
    ensures r == Spread(importance, observed, Scaled(weights, scale))
  {
    ghost var masses := Scaled(weights, scale);
    r := importance;
    var i := 0;
    assert observed[0..] == observed && masses[0..] == masses;
    while i < |observed|
      invariant 0 <= i <= |observed| && |r| == |importance|
      invariant Spread(importance, observed, masses) == Spread(r, observed[i..], masses[i..])
    {
      var s := observed[i].slot;
      assert observed[i..][1..] == observed[i + 1..] && masses[i..][1..] == masses[i + 1..];
      r := r[s := r[s] + weights[i] * scale];
      i := i + 1;
    }
  }

  /** One turn of a budget pass that is not yet under budget. */
  lemma PhaseTurn(c: Cache, d: Cache, a: Action, order: seq<nat>, n: nat, io: nat -> LogOps.Fault)
    requires Shape(c) && Within(order, |c.tiles|) && n < |order| && c.live > c.budget
    requires d == Act(c, a, order[n], io(order[n]))
    ensures Shape(d) && |d.tiles| == |c.tiles|
    ensures Phase(c, a, order[n..], io) == Phase(d, a, order[n + 1..], io)
  {
    assert order[n..][1..] == order[n + 1..];
  }
}
