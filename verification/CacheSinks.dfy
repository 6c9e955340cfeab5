/** The attention sinks of importance eviction: when the order the documentation
    gives is the order of the code. */
module CacheSinks {
  import opened Results
  import opened Words
  import opened Tiles
  import opened SlotOrder
  import opened CacheModel
  import opened CacheInvariants
  import opened CacheBudget
  import LogOps

  /** In a pass without refused evictions `gone` is evicted and `kept` survives. */
  ghost predicate Chosen(c: Cache, io: nat -> LogOps.Fault, w: nat, gone: nat, kept: nat) {
    && Inv(c) && c.eviction == Importance(w) && Enforce(c, io).blocked == c.blocked
    && gone < |c.tiles| && kept < |c.tiles|
    && c.state[gone] != Cold && Enforce(c, io).state[gone] == Cold && Enforce(c, io).state[kept] != Cold
  }

  /** The documented order: the first `w` positions last, then the lowest cumulative
      attention, then the oldest. */
  predicate Documented(c: Cache, w: nat, gone: nat, kept: nat)
    requires Shape(c) && gone < |c.tiles| && kept < |c.tiles|
  {
    var g, s := c.tiles[gone].position < w, c.tiles[kept].position < w;
    && (g ==> s)
    && (g == s ==> c.importance[gone] <= c.importance[kept])
    && (g == s && c.importance[gone] == c.importance[kept] ==> c.seqNo[gone] < c.seqNo[kept])
  }

  ghost predicate DocumentedAlways(w: nat) {
    forall c: Cache, io: nat -> LogOps.Fault, gone: nat, kept: nat ::
      Chosen(c, io, w, gone, kept) ==> Documented(c, w, gone, kept)
  }

  /** The truncated window tells positions apart as the documented one does, or tells
      none apart while every position is documented as a sink. */
  lemma DocumentedOrder(c: Cache, io: nat -> LogOps.Fault, w: nat, gone: nat, kept: nat)
    requires Chosen(c, io, w, gone, kept) && (w < U32 || w % U32 == 0)
    ensures Documented(c, w, gone, kept)
  {
    ImportanceEvictsSinksLast(c, io, gone, kept);
    if w < U32 {
      SinkWindowExact(w);
      assert IsSink(c.tiles[gone].position, w) <==> c.tiles[gone].position < w;
      assert IsSink(c.tiles[kept].position, w) <==> c.tiles[kept].position < w;
    }
  }

  // ---- a larger window -------------------------------------------------------------------

  function WarmTile(position: U32Word): (t: Tile)
    ensures t.position == position && IsWarm(t) && SeparableBytes(t) == 0
  {
    Tile(Zeros(LATENT_BYTES), [0, 0, 0, 0], 0, 0, 0, 0, position, 0, FLAG_WARM, Zeros(N_GROUPS))
  }

  /** Two WARM tiles, the first of no importance, with room for one. */
  function TwoTiles(w: nat): Cache {
    Cache([WarmTile(0), WarmTile(w % U32)], [Warm, Warm], [0, 1], [0.0, 1.0], [], WARM_BYTES, 2 * WARM_BYTES,
          LowestImpactFirst, Importance(w), 2, None, BestEffort, 0, 0)
  }

  lemma TwoTotal(a: Tile, b: Tile, s: TileState, r: TileState)
    ensures Total([a, b], [s, r]) == Footprint(a, s) + Footprint(b, r)
  {
    assert [a, b][..1] == [a] && [s, r][..1] == [s];
    assert [a][..0] == [] && [s][..0] == [];
    assert Total([a], [s]) == Footprint(a, s);
  }

  lemma TwoTilesInv(w: nat)
    ensures Inv(TwoTiles(w))
  {
    TwoTotal(WarmTile(0), WarmTile(w % U32), Warm, Warm);
  }

  /** Two WARM tiles without a plane, over budget. */
  predicate TwoWarm(c: Cache) {
    && Shape(c) && |c.tiles| == 2 && c.state == [Warm, Warm]
    && SeparableBytes(c.tiles[0]) == 0 && SeparableBytes(c.tiles[1]) == 0
    && c.live == 2 * WARM_BYTES && c.budget == WARM_BYTES
  }

  /** Nothing soft can be done about them. */
  lemma SoftenKeepsTwo(c: Cache, io: nat -> LogOps.Fault)
    requires Inv(c) && TwoWarm(c)
    ensures TwoWarm(Soften(c, io))
  {
    var soft := Soften(c, io);
    SoftenSoftens(c, io);
    SoftenKeepsInv(c, io);
    assert Degrades(c.tiles[0], soft.tiles[0]) && Degrades(c.tiles[1], soft.tiles[1]);
    assert soft.state == [Warm, Warm] && soft.tiles == [soft.tiles[0], soft.tiles[1]];
    TwoTotal(soft.tiles[0], soft.tiles[1], Warm, Warm);
  }

  /** A pass over two WARM tiles with room for one evicts exactly one of them. */
  lemma OneOfTwo(c: Cache, io: nat -> LogOps.Fault)
    requires Inv(c) && TwoWarm(c) && c.durability == BestEffort
    ensures Enforce(c, io).blocked == c.blocked
    ensures Enforce(c, io).state[0] == Cold <==> Enforce(c, io).state[1] != Cold
  {
    SoftenKeepsTwo(c, io);
    NeverRefused(c, io);
    var k := EvictsShortestPrefix(c, io);
    PrefixOfOne(Soften(c, io), k);
  }

  lemma NeverRefused(c: Cache, io: nat -> LogOps.Fault)
    requires Shape(c) && c.durability == BestEffort
    ensures Enforce(c, io).blocked == c.blocked
  {
    SoftenSoftens(c, io);
    BestEffortNeverBlocks(Soften(c, io), EvictionOrder(Soften(c, io)), io);
  }

  /** Each holds 96 bytes, so the shortest sufficient prefix is one slot. */
  lemma PrefixOfOne(soft: Cache, k: nat)
    requires TwoWarm(soft) && k <= |EvictionOrder(soft)|
    requires var order := EvictionOrder(soft);
      && soft.live - CacheBudget.Bytes(soft, order[..k]) <= soft.budget
      && forall j :: 0 <= j < k ==> soft.live - CacheBudget.Bytes(soft, order[..j]) > soft.budget
    ensures 0 in EvictionOrder(soft)[..k] <==> 1 !in EvictionOrder(soft)[..k]
  {
    var order := EvictionOrder(soft);
    assert 0 in order && order[..0] == [];
    OneBytes(soft, order[0]);
    assert order[..1] == [order[0]];
    assert k == 1;
  }

  lemma OneBytes(c: Cache, i: nat)
    requires Shape(c) && i < |c.tiles|
    ensures CacheBudget.Bytes(c, [i]) == Footprint(c.tiles[i], c.state[i])
  {
    assert [i][1..] == [];
  }

  /** For a window of at least 2^32 that is not a multiple of it, the tile that was
      attended to is evicted and the other survives, although both are documented as
      sinks. */
  lemma LargeWindowMisorders(w: nat, io: nat -> LogOps.Fault)
    requires w >= U32 && w % U32 > 0
    ensures var c := TwoTiles(w); Chosen(c, io, w, 1, 0) && !Documented(c, w, 1, 0)
  {
    var c := TwoTiles(w);
    TwoTilesInv(w);
    OneOfTwo(c, io);
    if Enforce(c, io).state[0] == Cold {
      ImportanceEvictsSinksLast(c, io, 0, 1);
    }
  }

  /** The exact condition: the documented order holds for all caches, faults, evicted
      and surviving slots if and only if the window fits 32 bits or is a multiple of
      2^32. */
  lemma DocumentedIff(w: nat)
    ensures DocumentedAlways(w) <==> w < U32 || w % U32 == 0
  {
    if w < U32 || w % U32 == 0 {
      forall c: Cache, io: nat -> LogOps.Fault, gone: nat, kept: nat | Chosen(c, io, w, gone, kept)
        ensures Documented(c, w, gone, kept)
      {
        DocumentedOrder(c, io, w, gone, kept);
      }
    } else {
      LargeWindowMisorders(w, (i: nat) => LogOps.NoFault());
    }
  }
}
