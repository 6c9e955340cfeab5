/** What every cache operation keeps: the O(1) byte counter is the sum of the
    footprints, the free list is exactly the COLD slots, sequence numbers never
    repeat, and the logical state agrees with the tile's own flag. */
module CacheInvariants {
  import opened Words
  import opened Tiles
  import opened SlotOrder
  import opened CacheModel
  import LogFormat
  import LogOps

  // ---- the slow sum --------------------------------------------------------------

  /** The footprint of the whole arena, slot by slot. */
  function Total(tiles: seq<Tile>, state: seq<TileState>): (r: nat)
    requires |state| == |tiles|
  {
    if tiles == [] then 0
    else
      var n := |tiles| - 1;
      Total(tiles[..n], state[..n]) + Footprint(tiles[n], state[n])
  }

  lemma {:induction false} TotalUpdate(tiles: seq<Tile>, state: seq<TileState>, i: nat, t: Tile, s: TileState)
    requires |state| == |tiles| && i < |tiles|
    ensures Total(tiles[i := t], state[i := s])
         == Total(tiles, state) - Footprint(tiles[i], state[i]) + Footprint(t, s)
  {
    var n := |tiles| - 1;
    if i == n {
      assert tiles[i := t][..n] == tiles[..n] && state[i := s][..n] == state[..n];
    } else {
      TotalUpdate(tiles[..n], state[..n], i, t, s);
      assert tiles[i := t][..n] == tiles[..n][i := t] && state[i := s][..n] == state[..n][i := s];
    }
  }

  lemma TotalAppend(tiles: seq<Tile>, state: seq<TileState>, t: Tile, s: TileState)
    requires |state| == |tiles|
    ensures Total(tiles + [t], state + [s]) == Total(tiles, state) + Footprint(t, s)
  {
    assert (tiles + [t])[..|tiles|] == tiles && (state + [s])[..|tiles|] == state;
  }

  lemma {:induction false} TotalCovers(tiles: seq<Tile>, state: seq<TileState>, i: nat)
    requires |state| == |tiles| && i < |tiles|
    ensures Total(tiles, state) >= Footprint(tiles[i], state[i])
  {
    var n := |tiles| - 1;
    if i < n {
      TotalCovers(tiles[..n], state[..n], i);
    }
  }

  // ---- the invariant ---------------------------------------------------------------

  predicate Distinct<T(==)>(s: seq<T>) {
    forall i, j :: 0 <= i < j < |s| ==> s[i] != s[j]
  }

  predicate CounterExact(c: Cache)
    requires Shape(c)
  {
    c.live == Total(c.tiles, c.state)
  }

  predicate FreeIsCold(c: Cache)
    requires Shape(c)
  {
    && Within(c.free, |c.tiles|)
    && Distinct(c.free)
    && forall i: nat :: i < |c.tiles| ==> (i in c.free <==> c.state[i] == Cold)
  }

  predicate SeqsFresh(c: Cache)
    requires Shape(c)
  {
    && Distinct(c.seqNo)
    && forall i :: 0 <= i < |c.seqNo| ==> c.seqNo[i] < c.nextSeq
  }

  predicate FlagsAgree(c: Cache)
    requires Shape(c)
  {
    forall i :: 0 <= i < |c.tiles| && c.state[i] != Cold ==> c.state[i] == EncodedState(c.tiles[i])
  }

  predicate Inv(c: Cache) {
    Shape(c) && CounterExact(c) && FreeIsCold(c) && SeqsFresh(c) && FlagsAgree(c)
  }

  lemma NewCacheInv(budget: nat, policy: PageOutPolicy, eviction: EvictionPolicy)
    ensures Inv(NewCache(budget, policy, eviction))
  {
  }

  lemma GrowKeepsInv(c: Cache, t: Tile)
    requires Inv(c) && c.nextSeq + 1 < U64 && c.free == []
    ensures Inv(Insert(c, t).0)
  {
    TotalAppend(c.tiles, c.state, t, EncodedState(t));
  }

  lemma ReuseKeepsInv(c: Cache, t: Tile)
    requires Inv(c) && c.nextSeq + 1 < U64 && c.free != []
    ensures Inv(Insert(c, t).0)
  {
    var m := |c.free| - 1;
    var i := c.free[m];
    assert i in c.free;
    TotalUpdate(c.tiles, c.state, i, t, EncodedState(t));
    FreeAfterReuse(c.free, c.state, EncodedState(t));
  }

  lemma FreeAfterReuse(free: seq<nat>, state: seq<TileState>, s: TileState)
    requires free != [] && Within(free, |state|) && Distinct(free) && s != Cold
    requires forall j: nat :: j < |state| ==> (j in free <==> state[j] == Cold)
    ensures var m := |free| - 1;
      forall j: nat :: j < |state| ==> (j in free[..m] <==> state[free[m] := s][j] == Cold)
  {
    var m := |free| - 1;
    var i := free[m];
    assert free == free[..m] + [i];
    assert i !in free[..m];
  }

  /** Insertion keeps the invariant, takes a COLD or a new slot, and leaves every
      other slot as it was. */
  lemma InsertKeepsInv(c: Cache, t: Tile)
    requires Inv(c) && c.nextSeq + 1 < U64
    ensures var (c1, i) := Insert(c, t);
      && Inv(c1)
      && c1.tiles[i] == t && c1.state[i] == EncodedState(t) && c1.seqNo[i] == c.nextSeq
      && (i < |c.tiles| ==> c.state[i] == Cold)
      && forall j :: 0 <= j < |c.tiles| && j != i ==>
           c1.tiles[j] == c.tiles[j] && c1.state[j] == c.state[j] && c1.seqNo[j] == c.seqNo[j]
  {
    if c.free == [] {
      GrowKeepsInv(c, t);
    } else {
      assert c.free[|c.free| - 1] in c.free;
      ReuseKeepsInv(c, t);
    }
  }

  lemma PageOutKeepsInv(c: Cache, i: nat)
    requires Inv(c) && i < |c.tiles|
    ensures Inv(PageOut(c, i))
  {
    if c.state[i] == Hot {
      TotalUpdate(c.tiles, c.state, i, PagedTile(c.tiles[i]), Warm);
    }
  }

  lemma DropCorrectionKeepsInv(c: Cache, i: nat)
    requires Inv(c) && i < |c.tiles|
    ensures Inv(DropCorrection(c, i).0)
    ensures DropCorrection(c, i).1 <==> DropCorrection(c, i).0.live < c.live
  {
    if c.state[i] != Cold && Droppable(c.tiles[i]) {
      var t := DroppedTile(c.tiles[i]);
      TotalUpdate(c.tiles, c.state, i, t, c.state[i]);
      assert c.state[i := c.state[i]] == c.state;
    }
  }

  lemma EvictKeepsInv(c: Cache, i: nat, io: LogOps.Fault)
    requires Inv(c)
    ensures Inv(Evict(c, i, io).0)
  {
    var (c1, went) := Evict(c, i, io);
    if went {
      TotalUpdate(c.tiles, c.state, i, c.tiles[i], Cold);
      assert c.tiles[i := c.tiles[i]] == c.tiles;
      assert i !in c.free;
    }
  }

  lemma RehydrateKeepsInv(c: Cache, q: nat)
    requires Inv(c) && c.nextSeq + 1 < U64
    ensures Inv(Rehydrate(c, q).0)
  {
    if c.log.Some? && LogFormat.ReadAll(c.log.value).Ok? {
      var found := LogFormat.Latest(LogFormat.ReadAll(c.log.value).value, q);
      if found.Some? {
        InsertKeepsInv(c, found.value.tile);
      }
    }
  }

  lemma ActKeepsInv(c: Cache, a: Action, i: nat, io: LogOps.Fault)
    requires Inv(c) && i < |c.tiles|
    ensures Inv(Act(c, a, i, io))
  {
    match a
    case DropPlane => DropCorrectionKeepsInv(c, i);
    case Page => PageOutKeepsInv(c, i);
    case EvictSlot => EvictKeepsInv(c, i, io);
  }

  lemma {:induction false} PhaseKeepsInv(c: Cache, a: Action, slots: seq<nat>, io: nat -> LogOps.Fault)
    requires Inv(c) && Within(slots, |c.tiles|)
    ensures Inv(Phase(c, a, slots, io))
    decreases |slots|
  {
    if slots != [] && c.live > c.budget {
      ActKeepsInv(c, a, slots[0], io(slots[0]));
      PhaseKeepsInv(Act(c, a, slots[0], io(slots[0])), a, slots[1..], io);
    }
  }

  lemma SoftenKeepsInv(c: Cache, io: nat -> LogOps.Fault)
    requires Inv(c)
    ensures Inv(Soften(c, io))
  {
    PhaseKeepsInv(c, DropPlane, PagingOrder(c, Hot), io);
    var c1 := Phase(c, DropPlane, PagingOrder(c, Hot), io);
    PhaseKeepsInv(c1, Page, PagingOrder(c1, Hot), io);
    var c2 := Phase(c1, Page, PagingOrder(c1, Hot), io);
    PhaseKeepsInv(c2, DropPlane, PagingOrder(c2, Warm), io);
  }

  lemma EnforceKeepsInv(c: Cache, io: nat -> LogOps.Fault)
    requires Inv(c)
    ensures Inv(Enforce(c, io))
  {
    SoftenKeepsInv(c, io);
    var soft := Soften(c, io);
    PhaseKeepsInv(soft, EvictSlot, EvictionOrder(soft), io);
  }
}
