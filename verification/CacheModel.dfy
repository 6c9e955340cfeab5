/** The elastic KV cache as a value, with one function for each operation. */
module CacheModel {
  import opened Results
  import opened Words
  import opened Tiles
  import opened SlotOrder
  import opened LogFormat
  import LogOps

  const HOT_BYTES := 128
  const WARM_BYTES := 96

  datatype TileState = Hot | Warm | Cold
  datatype PageOutPolicy = LowestImpactFirst | OldestFirst
  datatype EvictionPolicy = Causal | Importance(sinkWindow: nat)
  datatype Durability = BestEffort | RequireDurable

  datatype Cache = Cache(
    tiles: seq<Tile>, state: seq<TileState>, seqNo: seq<U64Word>, importance: seq<real>,
    free: seq<nat>, budget: nat, live: int,
    policy: PageOutPolicy, eviction: EvictionPolicy, nextSeq: U64Word,
    log: Option<Log>, durability: Durability, logErrors: nat, blocked: nat)

  predicate Shape(c: Cache) {
    |c.state| == |c.tiles| && |c.seqNo| == |c.tiles| && |c.importance| == |c.tiles|
  }

  // ---- tiles -----------------------------------------------------------------

  /** A correction plane that is still present. */
  predicate Droppable(t: Tile) {
    SeparableBytes(t) > 0 && !NoCorr(t)
  }

  /** HOT to WARM: zero the residual and lambda, set the flag. */
  function PagedTile(t: Tile): (r: Tile)
    ensures IsWarm(r) && NoCorr(r) == NoCorr(t) && SeparableBytes(r) == SeparableBytes(t)
  {
    t.(residual := [0, 0, 0, 0], lambda := 0, flags := SetFlag(t.flags, FLAG_WARM))
  }

  /** Zero the correction plane at the end of the latent and set the flag. */
  function DroppedTile(t: Tile): (r: Tile)
    ensures NoCorr(r) && IsWarm(r) == IsWarm(t) && SeparableBytes(r) == SeparableBytes(t)
  {
    var n := SeparableBytes(t);
    t.(latent := t.latent[..LATENT_BYTES - n] + Zeros(n), flags := SetFlag(t.flags, FLAG_TQ3_NOCORR))
  }

  /** Logical bytes of a slot: HOT 128, WARM 96, COLD 0, less a dropped plane. */
  function Footprint(t: Tile, s: TileState): nat {
    if s == Cold then 0
    else (if s == Hot then HOT_BYTES else WARM_BYTES) - (if NoCorr(t) then SeparableBytes(t) else 0)
  }

  // ---- operations ----------------------------------------------------------------

  function NewCache(budget: nat, policy: PageOutPolicy, eviction: EvictionPolicy): Cache {
    Cache([], [], [], [], [], budget, 0, policy, eviction, 0, None, BestEffort, 0, 0)
  }

  /** `insert_with_state`: reuse the most recently freed slot, else grow. */
  function InsertAs(c: Cache, t: Tile, s: TileState): (r: (Cache, nat))
    requires Shape(c) && Within(c.free, |c.tiles|) && c.nextSeq + 1 < U64
    ensures Shape(r.0) && r.1 < |r.0.tiles|
  {
    var grown := c.(live := c.live + Footprint(t, s), nextSeq := c.nextSeq + 1);
    if c.free != [] then
      var i := c.free[|c.free| - 1];
      (grown.(free := c.free[..|c.free| - 1], tiles := c.tiles[i := t], state := c.state[i := s],
              seqNo := c.seqNo[i := c.nextSeq], importance := c.importance[i := 0.0]), i)
    else
      (grown.(tiles := c.tiles + [t], state := c.state + [s],
              seqNo := c.seqNo + [c.nextSeq], importance := c.importance + [0.0]), |c.tiles|)
  }

  /** The state a tile's own WARM flag asks for. */
  function EncodedState(t: Tile): TileState {
    if IsWarm(t) then Warm else Hot
  }

  function Insert(c: Cache, t: Tile): (r: (Cache, nat))
    requires Shape(c) && Within(c.free, |c.tiles|) && c.nextSeq + 1 < U64
    ensures Shape(r.0) && r.1 < |r.0.tiles|
  {
    InsertAs(c, t, EncodedState(t))
  }

  function PageOut(c: Cache, i: nat): (r: Cache)
    requires Shape(c) && i < |c.tiles|
    ensures Shape(r) && |r.tiles| == |c.tiles|
  {
    if c.state[i] != Hot then c
    else
      var t := PagedTile(c.tiles[i]);
      c.(tiles := c.tiles[i := t], state := c.state[i := Warm],
         live := c.live - Footprint(c.tiles[i], Hot) + Footprint(t, Warm))
  }

  /** `drop_correction`: the new cache and whether bytes were reclaimed. */
  function DropCorrection(c: Cache, i: nat): (r: (Cache, bool))
    requires Shape(c) && i < |c.tiles|
    ensures Shape(r.0) && |r.0.tiles| == |c.tiles|
  {
    if c.state[i] == Cold || !Droppable(c.tiles[i]) then (c, false)
    else (c.(tiles := c.tiles[i := DroppedTile(c.tiles[i])], live := c.live - SeparableBytes(c.tiles[i])), true)
  }

  function SlotRecord(c: Cache, i: nat): Record
    requires Shape(c) && i < |c.tiles|
  {
    Record(c.seqNo[i], i % U32, c.tiles[i])
  }

  /** Hand a slot's tile to the log as the durability mode demands: the log
      afterwards and whether the record was persisted. */
  function Persist(c: Cache, i: nat, io: LogOps.Fault): (Option<Log>, bool)
    requires Shape(c) && i < |c.tiles|
  {
    match c.log
    case None => (None, c.durability == BestEffort)
    case Some(l) =>
      var (l1, ok) := if c.durability == BestEffort then LogOps.Append(l, SlotRecord(c, i), io)
                      else LogOps.AppendDurable(l, SlotRecord(c, i), io);
      (Some(l1), ok)
  }

  /** `evict`: the new cache and whether the slot became COLD. */
  function Evict(c: Cache, i: nat, io: LogOps.Fault): (r: (Cache, bool))
    requires Shape(c)
    ensures Shape(r.0) && |r.0.tiles| == |c.tiles|
  {
    if i >= |c.tiles| || c.state[i] == Cold then (c, false)
    else
      var (log, persisted) := Persist(c, i, io);
      var c1 := c.(log := log, logErrors := c.logErrors + if !persisted && c.log.Some? then 1 else 0);
      if !persisted && c.durability == RequireDurable then (c1.(blocked := c.blocked + 1), false)
      else
        (c1.(live := c.live - Footprint(c.tiles[i], c.state[i]),
             state := c.state[i := Cold], free := c.free + [i]), true)
  }

  /** `rehydrate`: an unreadable log is an error, an unknown sequence number is `None`. */
  function Rehydrate(c: Cache, q: nat): (r: (Cache, Result<Option<nat>, LogError>))
    requires Shape(c) && Within(c.free, |c.tiles|) && c.nextSeq + 1 < U64
    ensures Shape(r.0)
  {
    if c.log.None? then (c, Ok(None))
    else
      match ReadAll(c.log.value)
      case Err(e) => (c, Err(e))
      case Ok(recs) =>
        match Latest(recs, q)
        case None => (c, Ok(None))
        case Some(rec) => var (c1, i) := Insert(c, rec.tile); (c1, Ok(Some(i)))
  }

  // ---- orders --------------------------------------------------------------------

  /** `total_cmp` on 32-bit float patterns, as an integer key. */
  function TotalOrderKey(bits: U32Word): int {
    if bits < 0x8000_0000 then bits else 0x7FFF_FFFF - bits
  }

  function PagingKey(c: Cache, i: nat): Key
    requires Shape(c) && i < |c.tiles|
  {
    match c.policy
    case LowestImpactFirst => Key(false, 0.0, TotalOrderKey(c.tiles[i].sigma))
    case OldestFirst => Key(false, 0.0, c.seqNo[i])
  }

  /** Pinned by the attention-sink window; the window is truncated to 32 bits. */
  predicate IsSink(position: U32Word, sinkWindow: nat) {
    position < sinkWindow % U32
  }

  function EvictionKey(c: Cache, i: nat): Key
    requires Shape(c) && i < |c.tiles|
  {
    match c.eviction
    case Causal => Key(false, 0.0, c.seqNo[i])
    case Importance(w) => Key(IsSink(c.tiles[i].position, w), c.importance[i], c.seqNo[i])
  }

  /** The slots below |state| whose state is wanted, in increasing order. */
  function Select(state: seq<TileState>, want: set<TileState>): (r: seq<nat>)
    ensures Within(r, |state|)
    ensures Increasing(r)
    ensures forall i: nat :: i in r <==> i < |state| && state[i] in want
  {
    if state == [] then []
    else
      var n := |state| - 1;
      var front := Select(state[..n], want);
      assert forall i :: 0 <= i < |front| ==> front[i] < n;
      if state[n] in want then front + [n] else front
  }

  function PagingKeys(c: Cache): seq<Key>
    requires Shape(c)
  {
    seq(|c.tiles|, i requires 0 <= i < |c.tiles| => PagingKey(c, i))
  }

  function EvictionKeys(c: Cache): seq<Key>
    requires Shape(c)
  {
    seq(|c.tiles|, i requires 0 <= i < |c.tiles| => EvictionKey(c, i))
  }

  /** `slots_in_paging_order`. */
  function PagingOrder(c: Cache, s: TileState): (r: seq<nat>)
    requires Shape(c)
    ensures Within(r, |c.tiles|)
    ensures forall i: nat :: i in r <==> i < |c.tiles| && c.state[i] == s
  {
    Sort(PagingKeys(c), Select(c.state, {s}))
  }

  function EvictionOrder(c: Cache): (r: seq<nat>)
    requires Shape(c)
    ensures Within(r, |c.tiles|)
    ensures forall i: nat :: i in r <==> i < |c.tiles| && c.state[i] != Cold
  {
    assert forall i :: 0 <= i < |c.state| ==> (c.state[i] in {Hot, Warm} <==> c.state[i] != Cold);
    Sort(EvictionKeys(c), Select(c.state, {Hot, Warm}))
  }

  // ---- budget enforcement ------------------------------------------------------------

  datatype Action = DropPlane | Page | EvictSlot

  function Act(c: Cache, a: Action, i: nat, io: LogOps.Fault): (r: Cache)
    requires Shape(c) && i < |c.tiles|
    ensures Shape(r) && |r.tiles| == |c.tiles|
  {
    match a
    case DropPlane => DropCorrection(c, i).0
    case Page => PageOut(c, i)
    case EvictSlot => Evict(c, i, io).0
  }

  /** One pass of `enforce_budget`: act on the slots in turn until the budget is
      met. `io(i)` is the outcome of the I/O if slot `i` is evicted. */
  function Phase(c: Cache, a: Action, slots: seq<nat>, io: nat -> LogOps.Fault): (r: Cache)
    requires Shape(c) && Within(slots, |c.tiles|)
    ensures Shape(r) && |r.tiles| == |c.tiles|
    decreases |slots|
  {
    if slots == [] || c.live <= c.budget then c
    else Phase(Act(c, a, slots[0], io(slots[0])), a, slots[1..], io)
  }

  /** The three soft phases: drop HOT planes, page HOT to WARM, drop WARM planes. */
  function Soften(c: Cache, io: nat -> LogOps.Fault): (r: Cache)
    requires Shape(c)
    ensures Shape(r) && |r.tiles| == |c.tiles|
  {
    var c1 := Phase(c, DropPlane, PagingOrder(c, Hot), io);
    var c2 := Phase(c1, Page, PagingOrder(c1, Hot), io);
    Phase(c2, DropPlane, PagingOrder(c2, Warm), io)
  }

  function Enforce(c: Cache, io: nat -> LogOps.Fault): (r: Cache)
    requires Shape(c)
    ensures Shape(r) && |r.tiles| == |c.tiles|
  {
    var soft := Soften(c, io);
    Phase(soft, EvictSlot, EvictionOrder(soft), io)
  }
}
