/** No loss in durable mode, over every run and every pattern of I/O failures. */
module CacheRuns {
  import opened Results
  import opened Floats
  import opened Words
  import opened Tiles
  import opened SlotOrder
  import opened LogFormat
  import opened CacheModel
  import opened CacheInvariants
  import opened CacheAttention
  import CacheBudget
  import LogIntegrity
  import LogOps
  import RecordStreams

  datatype Op =
    | DoAttach(log: Log, durable: bool)
    | DoInsert(tile: Tile)
    | DoPageOut(slot: nat)
    | DoDropCorrection(slot: nat)
    | DoEvict(slot: nat, fault: LogOps.Fault)
    | DoEnforce(faults: nat -> LogOps.Fault)
    | DoRehydrate(seqNo: nat)
    | DoObserve(scores: seq<Score>, temperature: Float, exp: real -> real)

  /** Calls that do not panic: slot indices in range, no counter overflow. */
  predicate Enabled(c: Cache, op: Op) {
    && Shape(c) && Within(c.free, |c.tiles|)
    && match op
       case DoInsert(_) => c.nextSeq + 1 < U64
       case DoPageOut(i) => i < |c.tiles|
       case DoDropCorrection(i) => i < |c.tiles|
       case DoRehydrate(_) => c.nextSeq + 1 < U64
       case _ => true
  }

  function Step(c: Cache, op: Op): Cache
    requires Enabled(c, op)
  {
    match op
    case DoAttach(l, durable) => c.(log := Some(l), durability := if durable then RequireDurable else BestEffort)
    case DoInsert(t) => Insert(c, t).0
    case DoPageOut(i) => PageOut(c, i)
    case DoDropCorrection(i) => DropCorrection(c, i).0
    case DoEvict(i, io) => Evict(c, i, io).0
    case DoEnforce(io) => Enforce(c, io)
    case DoRehydrate(q) => Rehydrate(c, q).0
    case DoObserve(scores, temperature, exp) => Observe(c, scores, temperature, exp)
  }

  lemma StepKeepsInv(c: Cache, op: Op)
    requires Inv(c) && Enabled(c, op)
    ensures Inv(Step(c, op))
  {
    match op
    case DoAttach(_, _) =>
    case DoInsert(t) => InsertKeepsInv(c, t);
    case DoPageOut(i) => PageOutKeepsInv(c, i);
    case DoDropCorrection(i) => DropCorrectionKeepsInv(c, i);
    case DoEvict(i, io) => EvictKeepsInv(c, i, io);
    case DoEnforce(io) => EnforceKeepsInv(c, io);
    case DoRehydrate(q) => RehydrateKeepsInv(c, q);
    case DoObserve(_, _, _) =>
  }

  /** One call: it does not panic and leads from `c` to `d`. */
  ghost predicate Next(c: Cache, op: Op, d: Cache) {
    Enabled(c, op) && d == Step(c, op)
  }

  /** The states of a run: `states[j + 1]` results from `ops[j]`. */
  ghost predicate Run(states: seq<Cache>, ops: seq<Op>) {
    |states| == |ops| + 1 && forall j :: 0 <= j < |ops| ==> Next(states[j], ops[j], states[j + 1])
  }

  /** The invariant holds in every state of a run if it holds in the first. */
  lemma {:induction false} RunKeepsInv(states: seq<Cache>, ops: seq<Op>, k: nat)
    requires Run(states, ops) && Inv(states[0]) && k <= |ops|
    ensures Inv(states[k])
    decreases k
  {
    if k > 0 {
      RunKeepsInv(states, ops, k - 1);
      assert Next(states[k - 1], ops[k - 1], states[k]);
      StepKeepsInv(states[k - 1], ops[k - 1]);
    }
  }

  /** The states reachable from a new cache, whatever is called. */
  ghost predicate Reachable(c: Cache) {
    exists states: seq<Cache>, ops: seq<Op>, budget: nat, policy: PageOutPolicy, eviction: EvictionPolicy ::
      Run(states, ops) && states[0] == NewCache(budget, policy, eviction) && states[|ops|] == c
  }

  /** The invariant holds in every reachable state, so every call on a reachable
      state whose arguments are in range goes through. */
  lemma ReachableInv(c: Cache)
    requires Reachable(c)
    ensures Inv(c) && Shape(c) && Within(c.free, |c.tiles|)
  {
    var states: seq<Cache>, ops: seq<Op>, budget: nat, policy: PageOutPolicy, eviction: EvictionPolicy :|
      Run(states, ops) && states[0] == NewCache(budget, policy, eviction) && states[|ops|] == c;
    NewCacheInv(budget, policy, eviction);
    RunKeepsInv(states, ops, |ops|);
  }

  // ---- footprints over runs ----------------------------------------------------------

  /** The call puts a new tile into slot `i`. */
  predicate Fills(c: Cache, op: Op, i: nat) {
    Enabled(c, op)
    && match op
       case DoInsert(t) => Insert(c, t).1 == i
       case DoRehydrate(q) => Rehydrate(c, q).1 == Ok(Some(i))
       case _ => false
  }

  /** The footprint of a slot. */
  function SlotBytes(c: Cache, i: nat): nat
    requires Shape(c) && i < |c.tiles|
  {
    Footprint(c.tiles[i], c.state[i])
  }

  /** A call that does not fill a slot does not make its footprint grow. */
  lemma StepShrinks(c: Cache, op: Op, i: nat)
    requires Inv(c) && Enabled(c, op) && i < |c.tiles| && !Fills(c, op, i)
    ensures var d := Step(c, op);
      Shape(d) && |d.tiles| >= |c.tiles| && Footprint(d.tiles[i], d.state[i]) <= Footprint(c.tiles[i], c.state[i])
  {
    match op
    case DoInsert(t) => InsertKeepsInv(c, t);
    case DoPageOut(s) => CacheBudget.ActShrinks(c, Page, s, LogOps.NoFault(), i);
    case DoDropCorrection(s) => CacheBudget.ActShrinks(c, DropPlane, s, LogOps.NoFault(), i);
    case DoEvict(s, io) =>
      if s < |c.tiles| {
        CacheBudget.ActShrinks(c, EvictSlot, s, io, i);
      }
    case DoEnforce(io) => CacheBudget.EnforceShrinks(c, io, i);
    case DoRehydrate(q) => RehydrateElsewhere(c, q, i);
    case _ =>
  }

  lemma RehydrateElsewhere(c: Cache, q: nat, i: nat)
    requires Inv(c) && c.nextSeq + 1 < U64 && i < |c.tiles| && Rehydrate(c, q).1 != Ok(Some(i))
    ensures var d := Rehydrate(c, q).0; |d.tiles| >= |c.tiles| && d.tiles[i] == c.tiles[i] && d.state[i] == c.state[i]
  {
    if Rehydrate(c, q).0 != c {
      InsertKeepsInv(c, Latest(ReadAll(c.log.value).value, q).value.tile);
    }
  }

  /** Slot `i` is present in both states and did not grow. */
  ghost predicate NotGrown(c: Cache, d: Cache, i: nat) {
    Inv(c) && Inv(d) && i < |c.tiles| && i < |d.tiles| && SlotBytes(d, i) <= SlotBytes(c, i)
  }

  lemma NextShrinks(c: Cache, op: Op, d: Cache, i: nat)
    requires Inv(c) && Next(c, op, d) && i < |c.tiles| && !Fills(c, op, i)
    ensures NotGrown(c, d, i)
  {
    StepKeepsInv(c, op);
    StepShrinks(c, op, i);
  }

  lemma NotGrownTransitive(c: Cache, d: Cache, e: Cache, i: nat)
    requires NotGrown(c, d, i) && NotGrown(d, e, i)
    ensures NotGrown(c, e, i)
  {
  }

  /** Call `m` of the run fills slot `i`. */
  ghost predicate FillsAt(states: seq<Cache>, ops: seq<Op>, m: nat, i: nat) {
    m < |states| && m < |ops| && Fills(states[m], ops[m], i)
  }

  /** Between (re)insertions a slot's footprint never grows: over any stretch of a
      run in which no call fills the slot. */
  lemma {:induction false} FootprintsNeverGrow(states: seq<Cache>, ops: seq<Op>, j: nat, k: nat, i: nat)
    requires Run(states, ops) && Inv(states[0]) && j <= k <= |ops| && i < |states[j].tiles|
    requires forall m: nat :: j <= m < k ==> !FillsAt(states, ops, m, i)
    ensures NotGrown(states[j], states[k], i)
    decreases k
  {
    if j < k {
      FootprintsNeverGrow(states, ops, j, k - 1, i);
      StretchStep(states, ops, k - 1, i);
      NotGrownTransitive(states[j], states[k - 1], states[k], i);
    } else {
      RunKeepsInv(states, ops, j);
    }
  }

  lemma StretchStep(states: seq<Cache>, ops: seq<Op>, m: nat, i: nat)
    requires Run(states, ops) && m < |ops| && Inv(states[m]) && i < |states[m].tiles| && !FillsAt(states, ops, m, i)
    ensures NotGrown(states[m], states[m + 1], i)
  {
    assert Next(states[m], ops[m], states[m + 1]);
    NextShrinks(states[m], ops[m], states[m + 1], i);
  }

  // ---- durability -----------------------------------------------------------------

  /** A failed write that leaves bytes behind is rolled back. */
  predicate RollsBack(io: LogOps.Fault) {
    io.torn.Some? && io.torn.value > 0 ==> io.truncates
  }

  /** A call that leaves the attached log in place and rolls failed writes back. */
  ghost predicate KeepsLog(op: Op) {
    match op
    case DoAttach(_, _) => false
    case DoEvict(_, io) => RollsBack(io)
    case DoEnforce(io) => forall i :: RollsBack(io(i))
    case _ => true
  }

  predicate LiveAt(c: Cache, i: nat, q: nat)
    requires Shape(c)
  {
    i < |c.tiles| && c.seqNo[i] == q && c.state[i] != Cold
  }

  ghost predicate Live(c: Cache, q: nat)
    requires Shape(c)
  {
    exists i :: LiveAt(c, i, q)
  }

  /** A durable log is attached. */
  ghost predicate Durable(c: Cache) {
    c.durability == RequireDurable && c.log.Some? && Intact(c.log.value)
  }

  /** The latest record of `q` holds `t` and lies within the synchronized prefix. */
  ghost predicate Persisted(l: Log, q: nat, t: Tile)
    requires Intact(l)
  {
    exists j :: PersistedAt(l, q, t, j)
  }

  ghost predicate PersistedAt(l: Log, q: nat, t: Tile, j: int)
    requires Intact(l)
  {
    && 0 <= j < l.records
    && Contents(l)[j].seqNo == q && Contents(l)[j].tile == t
    && (forall m :: j < m < l.records ==> Contents(l)[m].seqNo != q)
    && HEADER_BYTES + RecordStreams.RECORD_BYTES * (j + 1) <= l.synced
  }

  /** `archive` holds, for every issued sequence number that is not live, the
      tile as it went COLD, and the log has it durably. */
  ghost predicate Safe(c: Cache, archive: map<nat, Tile>) {
    && Inv(c) && Durable(c)
    && (forall q: nat :: q in archive <==> q < c.nextSeq && !Live(c, q))
    && (forall q :: q in archive ==> Persisted(c.log.value, q, archive[q]))
  }

  lemma PersistedSurvives(l: Log, l1: Log, rec: Record, q: nat, t: Tile)
    requires Intact(l) && Intact(l1) && Persisted(l, q, t) && rec.seqNo != q
    requires Contents(l1) == Contents(l) || Contents(l1) == Contents(l) + [rec]
    requires l1.synced >= l.synced
    ensures Persisted(l1, q, t)
  {
    var j :| PersistedAt(l, q, t, j);
    assert PersistedAt(l1, q, t, j);
  }

  lemma FreshlyPersisted(l: Log, l1: Log, rec: Record)
    requires Intact(l) && Intact(l1)
    requires Contents(l1) == Contents(l) + [rec] && l1.synced == |l1.file|
    ensures Persisted(l1, rec.seqNo, rec.tile)
  {
    assert PersistedAt(l1, rec.seqNo, rec.tile, l.records);
  }

  /** Archived tiles stay archived over one durable append of a live slot. */
  lemma AppendKeepsArchive(c: Cache, i: nat, io: LogOps.Fault, archive: map<nat, Tile>)
    requires Safe(c, archive) && RollsBack(io) && i < |c.tiles| && c.state[i] != Cold
    ensures var (l1, ok) := LogOps.AppendDurable(c.log.value, SlotRecord(c, i), io);
      && Intact(l1)
      && (forall q :: q in archive ==> Persisted(l1, q, archive[q]))
      && (ok ==> Persisted(l1, c.seqNo[i], c.tiles[i]))
  {
    var l, rec := c.log.value, SlotRecord(c, i);
    LogOps.AppendDurableExact(l, rec, io);
    var (l1, ok) := LogOps.AppendDurable(l, rec, io);
    assert LiveAt(c, i, rec.seqNo);
    LongerFile(l, l1, rec);
    forall q | q in archive
      ensures Persisted(l1, q, archive[q])
    {
      PersistedSurvives(l, l1, rec, q, archive[q]);
    }
    if ok {
      FreshlyPersisted(l, l1, rec);
    }
  }

  lemma LongerFile(l: Log, l1: Log, rec: Record)
    requires Intact(l) && Intact(l1) && (l1.synced == l.synced || l1.synced == |l1.file|)
    requires Contents(l1) == Contents(l) || Contents(l1) == Contents(l) + [rec]
    ensures l1.synced >= l.synced
  {
    assert |Contents(l1)| >= |Contents(l)|;
  }

  /** A durable eviction either makes the slot COLD with its record synced, or
      leaves it live; archived tiles stay archived. */
  lemma EvictSafe(c: Cache, i: nat, io: LogOps.Fault, archive: map<nat, Tile>) returns (d: Cache, after: map<nat, Tile>)
    requires Safe(c, archive) && RollsBack(io)
    ensures d == Evict(c, i, io).0 && Safe(d, after)
    ensures after == if Evict(c, i, io).1 then archive[c.seqNo[i] := c.tiles[i]] else archive
  {
    var went := Evict(c, i, io).1;
    d := Evict(c, i, io).0;
    after := if went then archive[c.seqNo[i] := c.tiles[i]] else archive;
    EvictKeepsInv(c, i, io);
    if i < |c.tiles| && c.state[i] != Cold {
      AppendKeepsArchive(c, i, io, archive);
      assert LiveAt(c, i, c.seqNo[i]);
      forall q: nat
        ensures Live(d, q) <==> Live(c, q) && !(went && q == c.seqNo[i])
      {
        EvictLiveness(c, i, io, q);
      }
      SafeAfter(c, d, c.seqNo[i], c.tiles[i], went, archive, after);
    }
  }

  /** Safety of a state in which at most the tile of `q0` left, archived. */
  lemma SafeAfter(c: Cache, d: Cache, q0: nat, t: Tile, went: bool, archive: map<nat, Tile>, after: map<nat, Tile>)
    requires Safe(c, archive) && Inv(d) && Durable(d) && d.nextSeq == c.nextSeq && Live(c, q0) && q0 < c.nextSeq
    requires forall q: nat :: Live(d, q) <==> Live(c, q) && !(went && q == q0)
    requires forall q :: q in archive ==> Persisted(d.log.value, q, archive[q])
    requires went ==> Persisted(d.log.value, q0, t)
    requires after == if went then archive[q0 := t] else archive
    ensures Safe(d, after)
  {
  }

  lemma EvictLiveness(c: Cache, i: nat, io: LogOps.Fault, q: nat)
    requires Inv(c) && i < |c.tiles| && c.state[i] != Cold
    ensures Live(Evict(c, i, io).0, q) <==> Live(c, q) && !(Evict(c, i, io).1 && q == c.seqNo[i])
  {
    var (c1, went) := Evict(c, i, io);
    if Live(c, q) {
      var j :| LiveAt(c, j, q);
      assert j != i || !went ==> LiveAt(c1, j, q);
    }
    if Live(c1, q) {
      var j :| LiveAt(c1, j, q);
      assert LiveAt(c, j, q);
    }
  }

  // ---- one step -------------------------------------------------------------------

  predicate GoesCold(c: Cache, d: Cache, i: nat)
    requires Shape(c) && Shape(d)
  {
    i < |c.tiles| && i < |d.tiles| && c.state[i] != Cold && d.state[i] == Cold
  }

  /** From `c` to `d` the archive gains exactly the tiles that went COLD. */
  ghost predicate Gains(c: Cache, d: Cache, archive: map<nat, Tile>, after: map<nat, Tile>)
    requires Shape(c) && Shape(d)
  {
    && (forall q :: q in archive ==> q in after && after[q] == archive[q])
    && (forall i: nat :: GoesCold(c, d, i) ==> c.seqNo[i] in after && after[c.seqNo[i]] == d.tiles[i])
    && (forall q :: q in after && q !in archive ==> exists i: nat :: GoesCold(c, d, i) && c.seqNo[i] == q)
  }

  lemma EvictGains(c: Cache, i: nat, io: LogOps.Fault, archive: map<nat, Tile>)
      returns (d: Cache, after: map<nat, Tile>)
    requires Safe(c, archive) && RollsBack(io)
    ensures d == Evict(c, i, io).0 && Safe(d, after) && Gains(c, d, archive, after)
  {
    var went := Evict(c, i, io).1;
    d, after := EvictSafe(c, i, io, archive);
    if went {
      assert LiveAt(c, i, c.seqNo[i]);
    }
    ColdOnly(c, i, io);
    OneGains(c, d, i, went, archive, after);
  }

  lemma ColdOnly(c: Cache, i: nat, io: LogOps.Fault)
    requires Inv(c)
    ensures var (d, went) := Evict(c, i, io);
      && (went ==> i < |c.tiles| && i < |d.tiles| && d.tiles[i] == c.tiles[i])
      && Shape(d) && forall j: nat :: GoesCold(c, d, j) <==> went && j == i
  {
  }

  lemma OneGains(c: Cache, d: Cache, i: nat, went: bool, archive: map<nat, Tile>, after: map<nat, Tile>)
    requires Shape(c) && Shape(d) && (went ==> i < |c.tiles| && i < |d.tiles| && d.tiles[i] == c.tiles[i])
    requires forall j: nat :: GoesCold(c, d, j) <==> went && j == i
    requires after == if went then archive[c.seqNo[i] := c.tiles[i]] else archive
    requires went ==> c.seqNo[i] !in archive
    ensures Gains(c, d, archive, after)
  {
  }

  lemma GainsTransitive(c: Cache, d: Cache, e: Cache, a0: map<nat, Tile>, a1: map<nat, Tile>, a2: map<nat, Tile>)
    requires CacheBudget.Evicted(c, d) && CacheBudget.Evicted(d, e)
    requires Gains(c, d, a0, a1) && Gains(d, e, a1, a2)
    ensures Gains(c, e, a0, a2)
  {
    forall q | q in a2 && q !in a0
      ensures exists i: nat :: GoesCold(c, e, i) && c.seqNo[i] == q
    {
      if q in a1 {
        var i: nat :| GoesCold(c, d, i) && c.seqNo[i] == q;
        assert GoesCold(c, e, i);
      } else {
        var i: nat :| GoesCold(d, e, i) && d.seqNo[i] == q;
        assert GoesCold(c, e, i);
      }
    }
    forall i: nat | GoesCold(c, e, i)
      ensures c.seqNo[i] in a2 && a2[c.seqNo[i]] == e.tiles[i]
    {
      assert GoesCold(c, d, i) || GoesCold(d, e, i);
    }
  }

  lemma EvictTurn(c: Cache, slots: seq<nat>, io: nat -> LogOps.Fault, archive: map<nat, Tile>)
    returns (d: Cache, after: map<nat, Tile>)
    requires Safe(c, archive) && Within(slots, |c.tiles|) && slots != [] && c.live > c.budget && RollsBack(io(slots[0]))
    ensures Safe(d, after) && Gains(c, d, archive, after) && CacheBudget.Evicted(c, d)
    ensures Within(slots[1..], |d.tiles|) && Phase(c, EvictSlot, slots, io) == Phase(d, EvictSlot, slots[1..], io)
  {
    d, after := EvictGains(c, slots[0], io(slots[0]), archive);
    CacheBudget.EvictEvicts(c, slots[0], io(slots[0]));
  }

  lemma {:induction false} EvictPhaseGains(c: Cache, slots: seq<nat>, io: nat -> LogOps.Fault, archive: map<nat, Tile>)
    returns (e: Cache, after: map<nat, Tile>)
    requires Safe(c, archive) && Within(slots, |c.tiles|) && forall i :: RollsBack(io(i))
    ensures e == Phase(c, EvictSlot, slots, io) && Safe(e, after) && Gains(c, e, archive, after)
    decreases |slots|
  {
    if slots == [] || c.live <= c.budget {
      e, after := c, archive;
    } else {
      var d, middle := EvictTurn(c, slots, io, archive);
      e, after := EvictPhaseGains(d, slots[1..], io, middle);
      CacheBudget.EvictPhaseEvicts(d, slots[1..], io);
      GainsTransitive(c, d, e, archive, middle, after);
    }
  }

  /** The liveness of sequence numbers depends only on which slots are COLD. */
  lemma SameLiveness(c: Cache, d: Cache, q: nat)
    requires Shape(c) && Shape(d) && d.seqNo == c.seqNo
    requires forall i :: 0 <= i < |c.tiles| ==> (c.state[i] == Cold <==> d.state[i] == Cold)
    ensures Live(c, q) <==> Live(d, q)
  {
    if Live(c, q) {
      var i :| LiveAt(c, i, q);
      assert LiveAt(d, i, q);
    }
    if Live(d, q) {
      var i :| LiveAt(d, i, q);
      assert LiveAt(c, i, q);
    }
  }

  lemma QuietSafe(c: Cache, d: Cache, archive: map<nat, Tile>)
    requires Safe(c, archive) && Inv(d)
    requires d.seqNo == c.seqNo && d.log == c.log && d.durability == c.durability && d.nextSeq == c.nextSeq
    requires forall i :: 0 <= i < |c.tiles| ==> (c.state[i] == Cold <==> d.state[i] == Cold)
    ensures Safe(d, archive) && Gains(c, d, archive, archive)
  {
    forall q: nat
      ensures Live(c, q) <==> Live(d, q)
    {
      SameLiveness(c, d, q);
    }
  }

  lemma EnforceGains(c: Cache, io: nat -> LogOps.Fault, archive: map<nat, Tile>)
      returns (e: Cache, after: map<nat, Tile>)
    requires Safe(c, archive) && forall i :: RollsBack(io(i))
    ensures e == Enforce(c, io) && Safe(e, after) && Gains(c, e, archive, after)
  {
    var soft := Soften(c, io);
    CacheBudget.SoftenSoftens(c, io);
    SoftenKeepsInv(c, io);
    QuietSafe(c, soft, archive);
    e, after := EvictPhaseGains(soft, EvictionOrder(soft), io, archive);
    SameGains(c, soft, e, archive, after);
  }

  lemma SameGains(c: Cache, soft: Cache, e: Cache, archive: map<nat, Tile>, after: map<nat, Tile>)
    requires Shape(c) && Shape(soft) && Shape(e) && |soft.tiles| == |c.tiles| && soft.seqNo == c.seqNo
    requires forall i :: 0 <= i < |c.tiles| ==> (c.state[i] == Cold <==> soft.state[i] == Cold)
    requires Gains(soft, e, archive, after)
    ensures Gains(c, e, archive, after)
  {
    assert forall i: nat :: GoesCold(c, e, i) <==> GoesCold(soft, e, i);
  }

  lemma InsertGains(c: Cache, t: Tile, archive: map<nat, Tile>)
    requires Safe(c, archive) && c.nextSeq + 1 < U64
    ensures Safe(Insert(c, t).0, archive) && Gains(c, Insert(c, t).0, archive, archive)
  {
    var (d, s) := Insert(c, t);
    InsertKeepsInv(c, t);
    forall q: nat
      ensures Live(d, q) <==> Live(c, q) || q == c.nextSeq
    {
      InsertLiveness(c, t, q);
    }
  }

  lemma InsertLiveness(c: Cache, t: Tile, q: nat)
    requires Inv(c) && c.nextSeq + 1 < U64
    ensures Live(Insert(c, t).0, q) <==> Live(c, q) || q == c.nextSeq
  {
    var (d, s) := Insert(c, t);
    InsertKeepsInv(c, t);
    assert LiveAt(d, s, c.nextSeq);
    if Live(c, q) {
      var i :| LiveAt(c, i, q);
      assert LiveAt(d, i, q);
    }
    if Live(d, q) {
      var i :| LiveAt(d, i, q);
      assert i == s || LiveAt(c, i, q);
    }
  }

  lemma StepGains(c: Cache, op: Op, archive: map<nat, Tile>) returns (after: map<nat, Tile>)
    requires Safe(c, archive) && Enabled(c, op) && KeepsLog(op)
    ensures Safe(Step(c, op), after) && Gains(c, Step(c, op), archive, after)
  {
    StepKeepsInv(c, op);
    after := archive;
    match op
    case DoInsert(t) => InsertGains(c, t, archive);
    case DoPageOut(i) => QuietSafe(c, PageOut(c, i), archive);
    case DoDropCorrection(i) => QuietSafe(c, DropCorrection(c, i).0, archive);
    case DoEvict(i, io) =>
      var d;
      d, after := EvictGains(c, i, io, archive);
    case DoEnforce(io) =>
      var d;
      d, after := EnforceGains(c, io, archive);
    case DoRehydrate(q) =>
      if Rehydrate(c, q).0 != c {
        InsertGains(c, Latest(ReadAll(c.log.value).value, q).value.tile, archive);
      }
    case DoObserve(scores, temperature, exp) => QuietSafe(c, Observe(c, scores, temperature, exp), archive);
  }

  // ---- whole runs -----------------------------------------------------------------

  /** Every sequence number issued so far is live and a durable log is attached:
      the state of any cache that has not evicted yet. */
  ghost predicate StartsDurable(c: Cache) {
    Inv(c) && Durable(c) && forall q: nat :: q < c.nextSeq ==> Live(c, q)
  }

  /** At step `j` of the run, slot `i` holding sequence number `q` went COLD. */
  ghost predicate WentCold(states: seq<Cache>, j: nat, i: nat, q: nat)
  {
    j + 1 < |states| && Shape(states[j]) && Shape(states[j + 1]) && GoesCold(states[j], states[j + 1], i)
        && states[j].seqNo[i] == q
  }

  ghost predicate ArchiveOf(states: seq<Cache>, archive: map<nat, Tile>) {
    && (forall j: nat, i: nat, q: nat :: WentCold(states, j, i, q) ==>
          q in archive && archive[q] == states[j + 1].tiles[i])
    && (forall q :: q in archive ==> exists j: nat, i: nat :: WentCold(states, j, i, q))
  }

  lemma {:induction false} RunArchive(states: seq<Cache>, ops: seq<Op>) returns (archive: map<nat, Tile>)
    requires Run(states, ops) && StartsDurable(states[0])
    requires forall op :: op in ops ==> KeepsLog(op)
    ensures Safe(states[|ops|], archive) && ArchiveOf(states, archive)
    decreases |ops|
  {
    var n := |ops|;
    if n == 0 {
      archive := map[];
    } else {
      var earlier := states[..n];
      ShorterRun(states, ops, n - 1);
      assert Next(states[n - 1], ops[n - 1], states[n]);
      var before := RunArchive(earlier, ops[..n - 1]);
      assert ops[n - 1] in ops;
      archive := StepGains(states[n - 1], ops[n - 1], before);
      ExtendArchive(states, before, archive);
    }
  }

  /** The first calls of a run are a run. */
  lemma ShorterRun(states: seq<Cache>, ops: seq<Op>, m: nat)
    requires Run(states, ops) && m <= |ops|
    ensures Run(states[..m + 1], ops[..m])
  {
    forall j | 0 <= j < m
      ensures Next(states[..m + 1][j], ops[..m][j], states[..m + 1][j + 1])
    {
      assert Next(states[j], ops[j], states[j + 1]);
    }
  }

  lemma ExtendArchive(states: seq<Cache>, before: map<nat, Tile>, archive: map<nat, Tile>)
    requires |states| >= 2 && Shape(states[|states| - 2]) && Shape(states[|states| - 1])
    requires ArchiveOf(states[..|states| - 1], before)
    requires Gains(states[|states| - 2], states[|states| - 1], before, archive)
    ensures ArchiveOf(states, archive)
  {
    var n := |states| - 1;
    var earlier := states[..n];
    forall j: nat, i: nat, q: nat | WentCold(states, j, i, q)
      ensures q in archive && archive[q] == states[j + 1].tiles[i]
    {
      if j + 1 < n {
        assert WentCold(earlier, j, i, q);
      }
    }
    forall q | q in archive
      ensures exists j: nat, i: nat :: WentCold(states, j, i, q)
    {
      if q in before {
        var j: nat, i: nat :| WentCold(earlier, j, i, q);
        assert WentCold(states, j, i, q);
      } else {
        var i: nat :| GoesCold(states[n - 1], states[n], i) && states[n - 1].seqNo[i] == q;
        assert WentCold(states, n - 1, i, q);
      }
    }
  }

  /** At the end of the run the sequence number is live in exactly one slot, or it
      went COLD and its latest log record, already synchronized, holds the tile as it
      was then. */
  ghost predicate Kept(states: seq<Cache>, q: nat)
    requires states != []
  {
    var c := states[|states| - 1];
    && Inv(c) && Durable(c)
    && (forall i, j :: LiveAt(c, i, q) && LiveAt(c, j, q) ==> i == j)
    && (Live(c, q) <==> !exists j: nat, i: nat :: WentCold(states, j, i, q))
    && (forall j: nat, i: nat :: WentCold(states, j, i, q) ==> Persisted(c.log.value, q, states[j + 1].tiles[i]))
  }

  /** No loss. In every run that starts with a durable log and no eviction so far,
      under every pattern of rolled-back I/O failures, each issued sequence number
      is kept. */
  lemma NoLoss(states: seq<Cache>, ops: seq<Op>, q: nat)
    requires Run(states, ops) && StartsDurable(states[0])
    requires forall op :: op in ops ==> KeepsLog(op)
    requires q < states[|ops|].nextSeq
    ensures Kept(states, q)
  {
    var archive := RunArchive(states, ops);
  }

  // ---- from a new cache --------------------------------------------------------------

  ghost predicate AllLive(c: Cache) {
    Shape(c) && forall q: nat :: q < c.nextSeq ==> Live(c, q)
  }

  ghost predicate NoneGoesCold(c: Cache, d: Cache) {
    Shape(c) && Shape(d) && forall i: nat :: !GoesCold(c, d, i)
  }

  /** A call that inserts nothing keeps sequence numbers and COLD slots. */
  lemma QuietStep(c: Cache, op: Op)
    requires Inv(c) && Enabled(c, op) && !op.DoInsert? && !op.DoRehydrate?
    ensures var d := Step(c, op);
      && Shape(d) && |d.tiles| == |c.tiles| && d.seqNo == c.seqNo && d.nextSeq == c.nextSeq
      && forall i :: 0 <= i < |c.tiles| && c.state[i] == Cold ==> d.state[i] == Cold
  {
    match op
    case DoEvict(i, io) => CacheBudget.EvictEvicts(c, i, io);
    case DoEnforce(io) =>
      var soft := Soften(c, io);
      CacheBudget.SoftenSoftens(c, io);
      CacheBudget.EvictPhaseEvicts(soft, EvictionOrder(soft), io);
    case _ =>
  }

  lemma InsertAllLive(c: Cache, t: Tile)
    requires Inv(c) && AllLive(c) && c.nextSeq + 1 < U64
    ensures AllLive(Insert(c, t).0)
  {
    forall q: nat | q < c.nextSeq + 1
      ensures Live(Insert(c, t).0, q)
    {
      InsertLiveness(c, t, q);
    }
  }

  lemma QuietAllLive(c: Cache, d: Cache)
    requires AllLive(c) && NoneGoesCold(c, d) && |d.tiles| == |c.tiles| && d.seqNo == c.seqNo && d.nextSeq == c.nextSeq
    requires forall i :: 0 <= i < |c.tiles| && c.state[i] == Cold ==> d.state[i] == Cold
    ensures AllLive(d)
  {
    forall i | 0 <= i < |c.tiles|
      ensures c.state[i] == Cold <==> d.state[i] == Cold
    {
      assert !GoesCold(c, d, i);
    }
    forall q: nat | q < d.nextSeq
      ensures Live(d, q)
    {
      SameLiveness(c, d, q);
    }
  }

  lemma StepAllLive(c: Cache, op: Op, d: Cache)
    requires Inv(c) && Next(c, op, d) && AllLive(c) && NoneGoesCold(c, d)
    ensures AllLive(d)
  {
    match op
    case DoInsert(t) => InsertAllLive(c, t);
    case DoRehydrate(q) =>
      if d != c {
        InsertAllLive(c, Latest(ReadAll(c.log.value).value, q).value.tile);
      }
    case _ =>
      QuietStep(c, op);
      QuietAllLive(c, d);
  }

  /** As long as nothing went COLD, every issued sequence number is live. */
  lemma {:induction false} LiveUntilEvicted(states: seq<Cache>, ops: seq<Op>, k: nat)
    requires Run(states, ops) && Inv(states[0]) && states[0].nextSeq == 0 && k <= |ops|
    requires forall j: nat, i: nat, q: nat :: j < k ==> !WentCold(states, j, i, q)
    ensures AllLive(states[k])
    decreases k
  {
    RunKeepsInv(states, ops, k);
    if k > 0 {
      LiveUntilEvicted(states, ops, k - 1);
      RunKeepsInv(states, ops, k - 1);
      NoneColdAt(states, k - 1);
      assert Next(states[k - 1], ops[k - 1], states[k]);
      StepAllLive(states[k - 1], ops[k - 1], states[k]);
    }
  }

  lemma NoneColdAt(states: seq<Cache>, j: nat)
    requires j + 1 < |states| && Shape(states[j]) && Shape(states[j + 1])
    requires forall i: nat, q: nat :: !WentCold(states, j, i, q)
    ensures NoneGoesCold(states[j], states[j + 1])
  {
    var c, d := states[j], states[j + 1];
    forall i: nat
      ensures !GoesCold(c, d, i)
    {
      if i < |c.tiles| {
        assert !WentCold(states, j, i, c.seqNo[i]);
      }
    }
  }

  /** The calls from a state of a run on are a run. */
  lemma LaterRun(states: seq<Cache>, ops: seq<Op>, m: nat)
    requires Run(states, ops) && m <= |ops|
    ensures Run(states[m..], ops[m..])
  {
    forall j | 0 <= j < |ops| - m
      ensures Next(states[m..][j], ops[m..][j], states[m..][j + 1])
    {
      assert Next(states[m + j], ops[m + j], states[m + j + 1]);
    }
  }

  /** A durable log is attached by call `m`, before anything went COLD; from then
      on it stays attached and failed writes are rolled back. */
  ghost predicate AttachedBeforeEviction(states: seq<Cache>, ops: seq<Op>, m: nat) {
    && m < |ops|
    && ops[m].DoAttach? && ops[m].durable && Intact(ops[m].log)
    && (forall j: nat, i: nat, q: nat :: j < m ==> !WentCold(states, j, i, q))
    && (forall j :: m < j < |ops| ==> KeepsLog(ops[j]))
  }

  lemma AttachStarts(states: seq<Cache>, ops: seq<Op>, m: nat) returns (later: seq<Cache>, rest: seq<Op>)
    requires Run(states, ops) && Inv(states[0]) && states[0].nextSeq == 0 && AttachedBeforeEviction(states, ops, m)
    ensures later == states[m + 1..] && |rest| == |ops| - m - 1 && later != []
    ensures Run(later, rest) && StartsDurable(later[0]) && forall op :: op in rest ==> KeepsLog(op)
    ensures forall j: nat, i: nat, q: nat :: j < m + 1 ==> !WentCold(states, j, i, q)
  {
    later, rest := states[m + 1..], ops[m + 1..];
    LaterRun(states, ops, m + 1);
    LiveUntilEvicted(states, ops, m);
    RunKeepsInv(states, ops, m);
    RunKeepsInv(states, ops, m + 1);
    assert Next(states[m], ops[m], states[m + 1]);
    AttachKeepsLive(states[m], states[m + 1]);
    forall i: nat, q: nat
      ensures !WentCold(states, m, i, q)
    {
      assert !GoesCold(states[m], states[m + 1], i);
    }
  }

  lemma AttachKeepsLive(c: Cache, d: Cache)
    requires AllLive(c) && Shape(d) && d.tiles == c.tiles && d.state == c.state
    requires d.seqNo == c.seqNo && d.nextSeq == c.nextSeq
    ensures AllLive(d) && NoneGoesCold(c, d)
  {
    forall q: nat | q < d.nextSeq
      ensures Live(d, q)
    {
      SameLiveness(c, d, q);
    }
  }

  lemma LaterWentCold(states: seq<Cache>, n: nat, j: nat, i: nat, q: nat)
    requires n <= |states|
    ensures WentCold(states[n..], j, i, q) <==> WentCold(states, n + j, i, q)
  {
    if n + j + 1 < |states| {
      assert states[n..][j] == states[n + j] && states[n..][j + 1] == states[n + j + 1];
    }
  }

  /** What is kept at the end of the later part of a run is kept in the whole run,
      if the number did not go COLD earlier. */
  lemma KeptLater(states: seq<Cache>, n: nat, q: nat)
    requires n < |states| && Kept(states[n..], q)
    requires forall j: nat, i: nat :: j < n ==> !WentCold(states, j, i, q)
    ensures Kept(states, q)
  {
    var later := states[n..];
    forall j: nat, i: nat
      ensures WentCold(later, j, i, q) ==> WentCold(states, n + j, i, q)
    {
      LaterWentCold(states, n, j, i, q);
    }
    forall j: nat, i: nat | WentCold(states, j, i, q)
      ensures j >= n && WentCold(later, j - n, i, q) && states[j + 1] == later[j - n + 1]
    {
      LaterWentCold(states, n, j - n, i, q);
    }
  }

  /** No loss, from a new cache: whatever is called before a durable log is attached
      and nothing has gone COLD, and whatever is called afterwards, each issued
      sequence number is kept. */
  lemma NoLossFromNew(states: seq<Cache>, ops: seq<Op>, m: nat, q: nat,
                      budget: nat, policy: PageOutPolicy, eviction: EvictionPolicy)
    requires Run(states, ops) && states[0] == NewCache(budget, policy, eviction)
    requires AttachedBeforeEviction(states, ops, m) && q < states[|ops|].nextSeq
    ensures Kept(states, q)
  {
    NewCacheInv(budget, policy, eviction);
    var later, rest := AttachStarts(states, ops, m);
    NoLossLater(states, later, rest, m + 1, q);
  }

  lemma NoLossLater(states: seq<Cache>, later: seq<Cache>, ops: seq<Op>, n: nat, q: nat)
    requires n < |states| && later == states[n..] && Run(later, ops) && StartsDurable(later[0])
    requires forall op :: op in ops ==> KeepsLog(op)
    requires q < later[|ops|].nextSeq
    requires forall j: nat, i: nat :: j < n ==> !WentCold(states, j, i, q)
    ensures Kept(states, q)
  {
    NoLoss(later, ops, q);
    KeptLater(states, n, q);
  }

  /** Rehydrating `q` succeeds and brings back exactly `t`, under the next sequence number. */
  ghost predicate ComesBack(c: Cache, q: nat, t: Tile)
    requires Shape(c) && Within(c.free, |c.tiles|) && c.nextSeq + 1 < U64
  {
    var (d, r) := Rehydrate(c, q);
    && r.Ok? && r.value.Some? && r.value.value < |d.tiles|
    && d.tiles[r.value.value] == t && d.seqNo[r.value.value] == c.nextSeq
  }

  /** A tile evicted in a durable run comes back exactly when it is rehydrated. */
  lemma RehydratesExactly(states: seq<Cache>, ops: seq<Op>, j: nat, i: nat, q: nat)
    requires Run(states, ops) && StartsDurable(states[0])
    requires forall op :: op in ops ==> KeepsLog(op)
    requires WentCold(states, j, i, q) && states[|ops|].nextSeq + 1 < U64
    ensures Inv(states[|ops|])
    ensures ComesBack(states[|ops|], q, states[j + 1].tiles[i])
  {
    var archive := RunArchive(states, ops);
    RehydratesArchived(states[|ops|], archive, q);
  }

  lemma RehydratesArchived(c: Cache, archive: map<nat, Tile>, q: nat)
    requires Safe(c, archive) && q in archive && c.nextSeq + 1 < U64
    ensures ComesBack(c, q, archive[q])
  {
    var l := c.log.value;
    LogIntegrity.ReadsIntact(l);
    PersistedIsLatest(Contents(l), l, q, archive[q]);
    InsertKeepsInv(c, archive[q]);
  }

  lemma PersistedIsLatest(recs: seq<Record>, l: Log, q: nat, t: Tile)
    requires Intact(l) && Persisted(l, q, t)
    requires recs <= Contents(l)
    requires l.synced <= HEADER_BYTES + RecordStreams.RECORD_BYTES * (|recs| + 1) - 1
    ensures Latest(recs, q).Some? && Latest(recs, q).value.tile == t
  {
    var j :| PersistedAt(l, q, t, j);
    LogOps.LatestIsLast(recs, q);
    assert recs[j] == Contents(l)[j];
    var i :| 0 <= i < |recs| && recs[i] == Latest(recs, q).value && recs[i].seqNo == q
      && forall m :: i < m < |recs| ==> recs[m].seqNo != q;
    assert i == j;
  }

  /** If the file is cut at `cut`, past its synchronized prefix, recovery succeeds
      and the latest record of `q` holds exactly `t`. */
  ghost predicate Recovers(l: Log, cut: nat, q: nat, t: Tile) {
    l.synced <= cut <= |l.file| ==>
      var log := OpenFile(l.file[..cut], true, true);
      && log.Ok? && Intact(log.value)
      && Latest(Contents(log.value), q).Some?
      && Latest(Contents(log.value), q).value.tile == t
  }

  /** Crash safety. After any such run the file may be cut at any byte beyond
      the synchronized prefix: recovery succeeds, and looking up any sequence
      number that went COLD returns its tile exactly. */
  lemma CrashLosesNothing(states: seq<Cache>, ops: seq<Op>, j: nat, i: nat, q: nat, cut: nat)
    requires Run(states, ops) && StartsDurable(states[0])
    requires forall op :: op in ops ==> KeepsLog(op)
    requires WentCold(states, j, i, q)
    ensures Durable(states[|ops|])
    ensures Recovers(states[|ops|].log.value, cut, q, states[j + 1].tiles[i])
  {
    var archive := RunArchive(states, ops);
    var l := states[|ops|].log.value;
    if l.synced <= cut <= |l.file| {
      CutKeepsArchived(l, archive, q, cut);
    }
  }

  lemma CutKeepsArchived(l: Log, archive: map<nat, Tile>, q: nat, cut: nat)
    requires Intact(l) && q in archive && Persisted(l, q, archive[q]) && l.synced <= cut <= |l.file|
    ensures Recovers(l, cut, q, archive[q])
  {
    var at :| PersistedAt(l, q, archive[q], at);
    LogIntegrity.CrashRecovery(l, cut, true);
    var k := LogIntegrity.Complete(cut);
    PersistedIsLatest(Contents(l)[..k], l, q, archive[q]);
  }

  /** The part of a run from a new cache after the log was attached: a tile that went
      COLD in the run went COLD there. */
  lemma AfterAttach(states: seq<Cache>, ops: seq<Op>, m: nat, j: nat, i: nat, q: nat)
      returns (later: seq<Cache>, rest: seq<Op>, at: nat)
    requires Run(states, ops) && Inv(states[0]) && states[0].nextSeq == 0 && AttachedBeforeEviction(states, ops, m)
    requires WentCold(states, j, i, q)
    ensures Run(later, rest) && StartsDurable(later[0]) && forall op :: op in rest ==> KeepsLog(op)
    ensures WentCold(later, at, i, q)
    ensures later[at + 1] == states[j + 1] && later[|rest|] == states[|ops|]
  {
    later, rest := AttachStarts(states, ops, m);
    at := WentLater(states, later, m + 1, |rest|, j, i, q);
  }

  lemma WentLater(states: seq<Cache>, later: seq<Cache>, n: nat, last: nat, j: nat, i: nat, q: nat)
      returns (at: nat)
    requires n < |states| && later == states[n..] && n + last + 1 == |states| && WentCold(states, j, i, q)
    requires forall k: nat :: k < n ==> !WentCold(states, k, i, q)
    ensures WentCold(later, at, i, q) && later[at + 1] == states[j + 1] && later[last] == states[|states| - 1]
  {
    assert j >= n;
    at := j - n;
    LaterWentCold(states, n, at, i, q);
  }

  /** The same from a new cache: a tile that went COLD is rehydrated exactly. */
  lemma RehydratesFromNew(states: seq<Cache>, ops: seq<Op>, m: nat, j: nat, i: nat, q: nat,
                          budget: nat, policy: PageOutPolicy, eviction: EvictionPolicy)
    requires Run(states, ops) && states[0] == NewCache(budget, policy, eviction)
        && AttachedBeforeEviction(states, ops, m)
    requires WentCold(states, j, i, q) && states[|ops|].nextSeq + 1 < U64
    ensures Inv(states[|ops|])
    ensures ComesBack(states[|ops|], q, states[j + 1].tiles[i])
  {
    NewCacheInv(budget, policy, eviction);
    var later, rest, at := AfterAttach(states, ops, m, j, i, q);
    RehydratesExactly(later, rest, at, i, q);
  }

  /** The same from a new cache: a crash loses no tile that went COLD. */
  lemma CrashFromNew(states: seq<Cache>, ops: seq<Op>, m: nat, j: nat, i: nat, q: nat, cut: nat,
                     budget: nat, policy: PageOutPolicy, eviction: EvictionPolicy)
    requires Run(states, ops) && states[0] == NewCache(budget, policy, eviction)
        && AttachedBeforeEviction(states, ops, m)
    requires WentCold(states, j, i, q)
    ensures Durable(states[|ops|])
    ensures Recovers(states[|ops|].log.value, cut, q, states[j + 1].tiles[i])
  {
    NewCacheInv(budget, policy, eviction);
    var later, rest, at := AfterAttach(states, ops, m, j, i, q);
    CrashLosesNothing(later, rest, at, i, q, cut);
  }
}
