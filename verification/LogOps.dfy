/** Appending to the event log, with every I/O step allowed to fail. */
module LogOps {
  import opened Results
  import opened Words
  import opened RecordStreams
  import opened LogFormat
  import opened LogIntegrity

  /** The outcome of the I/O calls of one append. `torn` is the number of bytes
      a failing write left behind; `truncates` says whether `set_len` back to
      the previous length succeeds when it is tried. */
  datatype Fault = Fault(seeks: bool, appendSeeks: bool, torn: Option<nat>, syncs: bool, truncates: bool)

  /** Every call succeeds. */
  function NoFault(): Fault { Fault(true, true, None, true, true) }

  function Min(a: nat, b: nat): nat { if a <= b then a else b }

  /** `append`: the new log and whether the call returned `Ok`. */
  function Append(l: Log, rec: Record, io: Fault): (Log, bool) {
    if !l.writable || !io.appendSeeks then (l, false)
    else
      var bytes := EncodeRecord(l.version, rec);
      match io.torn
      case None => (l.(file := l.file + bytes, records := l.records + 1), true)
      case Some(k) =>
        if io.truncates then (l, false)
        else (l.(file := l.file + bytes[..Min(k, RECORD_BYTES - 1)]), false)
  }

  /** `append_durable`. */
  function AppendDurable(l: Log, rec: Record, io: Fault): (Log, bool) {
    if !io.seeks then (l, false)
    else
      var (l1, ok) := Append(l, rec, io);
      if !ok then (l1, false)
      else if io.syncs then (l1.(synced := |l1.file|), true)
      else if io.truncates then (l, false)
      else (l1, false)
  }

  /** The one unrecoverable fault: a write that left bytes behind and could not
      be rolled back. */
  predicate Tears(l: Log, io: Fault) {
    l.writable && io.appendSeeks && io.torn.Some? && io.torn.value > 0 && !io.truncates
  }

  lemma AppendedRecord(l: Log, rec: Record)
    requires Intact(l)
    ensures Intact(Appended(l, rec)) && Contents(Appended(l, rec)) == Contents(l) + [rec]
  {
    var f := l.file + EncodeRecord(l.version, rec);
    HeaderIsPrefix(f, l.file);
    BodyAppend(l.version, l.file[HEADER_BYTES..], rec);
    AfterHeader(l.file, EncodeRecord(l.version, rec));
    IntactBy(Appended(l, rec), Contents(l) + [rec]);
  }

  lemma AfterHeader(file: Bytes, more: Bytes)
    requires |file| >= HEADER_BYTES
    ensures (file + more)[HEADER_BYTES..] == file[HEADER_BYTES..] + more
    ensures (file + more)[..HEADER_BYTES] == file[..HEADER_BYTES]
  {
  }

  lemma BodyAppend(version: nat, body: Bytes, rec: Record)
    requires Framed(body) && DecodeBody(version, body).Ok?
    ensures Framed(body + EncodeRecord(version, rec))
    ensures DecodeBody(version, body + EncodeRecord(version, rec)) == Ok(DecodeBody(version, body).value + [rec])
  {
    var bytes, dec := EncodeRecord(version, rec), Decoder(version);
    RecordRoundTrip(version, rec);
    Single(dec, bytes);
    Concat(dec, body, bytes);
  }

  function Appended(l: Log, rec: Record): Log {
    l.(file := l.file + EncodeRecord(l.version, rec), records := l.records + 1)
  }

  lemma AppendCases(l: Log, rec: Record, io: Fault)
    ensures var (l1, ok) := Append(l, rec, io);
      && (ok ==> l1 == Appended(l, rec))
      && (!ok && !Tears(l, io) ==> l1 == l)
  {
    if l.writable && io.appendSeeks && io.torn.Some? && !io.truncates && io.torn.value == 0 {
      assert l.file + EncodeRecord(l.version, rec)[..0] == l.file;
    }
  }

  /** An append adds exactly its record or, when it fails, nothing. */
  lemma AppendExact(l: Log, rec: Record, io: Fault)
    requires Intact(l) && !Tears(l, io)
    ensures var (l1, ok) := Append(l, rec, io);
      && Intact(l1)
      && l1.synced == l.synced && l1.version == l.version && l1.writable == l.writable
      && Contents(l1) == (if ok then Contents(l) + [rec] else Contents(l))
  {
    AppendCases(l, rec, io);
    AppendedRecord(l, rec);
  }

  lemma AppendDurableCases(l: Log, rec: Record, io: Fault)
    requires !(io.seeks && Tears(l, io))
    ensures var (l1, ok) := AppendDurable(l, rec, io);
      && (ok ==> l1 == Appended(l, rec).(synced := |l1.file|))
      && (!ok ==> l1 == l || l1 == Appended(l, rec))
  {
    AppendCases(l, rec, io);
  }

  lemma SyncedIntact(l: Log)
    requires Intact(l)
    ensures Intact(l.(synced := |l.file|)) && Contents(l.(synced := |l.file|)) == Contents(l)
  {
  }

  /** A durable append that returns `Ok` has its record on durable storage; one
      that fails leaves the old contents, possibly followed by the record. */
  lemma AppendDurableExact(l: Log, rec: Record, io: Fault)
    requires Intact(l) && !(io.seeks && Tears(l, io))
    ensures var (l1, ok) := AppendDurable(l, rec, io);
      && Intact(l1)
      && l1.version == l.version && l1.writable == l.writable
      && (ok ==> Contents(l1) == Contents(l) + [rec] && l1.synced == |l1.file|)
      && (!ok ==> l1.synced == l.synced && (Contents(l1) == Contents(l) || Contents(l1) == Contents(l) + [rec]))
  {
    AppendDurableCases(l, rec, io);
    AppendedRecord(l, rec);
    SyncedIntact(Appended(l, rec));
  }

  /** A log stays intact over an append if and only if the fault does not tear
      it; a torn file is refused by the next strict open. */
  lemma IntactUnlessTorn(l: Log, rec: Record, io: Fault)
    requires Intact(l)
    ensures Intact(Append(l, rec, io).0) <==> !Tears(l, io)
    ensures Tears(l, io) ==> OpenFile(Append(l, rec, io).0.file, false, true) == Err(TruncatedRecord)
  {
    if Tears(l, io) {
      var k := Min(io.torn.value, RECORD_BYTES - 1);
      var f := l.file + EncodeRecord(l.version, rec)[..k];
      assert Append(l, rec, io).0 == l.(file := f);
      TornRefused(l, f, k);
    } else {
      AppendExact(l, rec, io);
    }
  }

  lemma TornRefused(l: Log, f: Bytes, k: nat)
    requires Intact(l) && 0 < k < RECORD_BYTES && |f| == |l.file| + k && f[..HEADER_BYTES] == l.file[..HEADER_BYTES]
    ensures !Intact(l.(file := f)) && OpenFile(f, false, true) == Err(TruncatedRecord)
  {
    HeaderIsPrefix(f, l.file);
    TornRemainder(l.records, k);
    PartialRefused(f, l.version);
    assert |f| != HEADER_BYTES + RECORD_BYTES * l.records;
  }

  lemma PartialRefused(f: Bytes, version: nat)
    requires CheckHeader(f) == Ok(version) && (|f| - HEADER_BYTES) % RECORD_BYTES != 0
    ensures OpenFile(f, false, true) == Err(TruncatedRecord)
  {
  }

  lemma TornRemainder(n: nat, k: nat)
    requires 0 < k < RECORD_BYTES
    ensures (RECORD_BYTES * n + k) % RECORD_BYTES == k
  {
  }

  // ---- many appends -------------------------------------------------------------

  /** No partial write is left behind by an append with this outcome. */
  predicate NeverTears(io: Fault) {
    io.appendSeeks && io.torn.Some? && io.torn.value > 0 ==> io.truncates
  }

  predicate Succeeds(io: Fault) {
    io.appendSeeks && io.torn.None?
  }

  predicate NoneTears(ios: seq<Fault>) {
    forall k :: 0 <= k < |ios| ==> NeverTears(ios[k])
  }

  predicate AllSucceed(ios: seq<Fault>) {
    forall k :: 0 <= k < |ios| ==> Succeeds(ios[k])
  }

  /** One append for each record: the log at the end and the records accepted. */
  function AppendAll(l: Log, recs: seq<Record>, ios: seq<Fault>): (Log, seq<Record>)
    requires |ios| == |recs|
    decreases |recs|
  {
    if recs == [] then (l, [])
    else
      var (l1, ok) := Append(l, recs[0], ios[0]);
      var (l2, rest) := AppendAll(l1, recs[1..], ios[1..]);
      (l2, if ok then [recs[0]] + rest else rest)
  }

  /** From `l` to `m` the log gained exactly these records, in its contents and in its
      bytes. */
  ghost predicate Gained(l: Log, m: Log, recs: seq<Record>) {
    && Intact(l) && Intact(m) && m.version == l.version && m.writable == l.writable
    && Contents(m) == Contents(l) + recs
    && m.file == l.file + EncodeBody(l.version, recs)
  }

  lemma AppendOne(l: Log, rec: Record, io: Fault)
    requires Intact(l) && NeverTears(io)
    ensures var (l1, ok) := Append(l, rec, io);
      Gained(l, l1, if ok then [rec] else []) && (Succeeds(io) && l.writable ==> ok)
  {
    AppendExact(l, rec, io);
    AppendCases(l, rec, io);
    assert EncodeBody(l.version, [rec]) == EncodeRecord(l.version, rec) + EncodeBody(l.version, []);
  }

  lemma GainedThrough(l: Log, l1: Log, m: Log, first: seq<Record>, rest: seq<Record>)
    requires Gained(l, l1, first) && Gained(l1, m, rest)
    ensures Gained(l, m, first + rest)
  {
    BodyConcat(l.version, first, rest);
    Associates(l.file, EncodeBody(l.version, first), EncodeBody(l.version, rest));
    Associates(Contents(l), first, rest);
  }

  lemma {:induction false} BodyConcat(version: nat, a: seq<Record>, b: seq<Record>)
    ensures EncodeBody(version, a + b) == EncodeBody(version, a) + EncodeBody(version, b)
  {
    if a == [] {
      assert a + b == b;
    } else {
      BodyConcat(version, a[1..], b);
      BodyFirst(version, a, b);
      Associates(EncodeRecord(version, a[0]), EncodeBody(version, a[1..]), EncodeBody(version, b));
    }
  }

  lemma BodyFirst(version: nat, a: seq<Record>, b: seq<Record>)
    requires a != []
    ensures EncodeBody(version, a + b) == EncodeRecord(version, a[0]) + EncodeBody(version, a[1..] + b)
  {
    assert (a + b)[0] == a[0] && (a + b)[1..] == a[1..] + b;
  }

  lemma Associates<T>(a: seq<T>, b: seq<T>, c: seq<T>)
    ensures a + (b + c) == a + b + c
  {
  }

  /** Any number of appends: the log gains exactly the accepted records, in order;
      all of them when every write succeeds. */
  lemma {:induction false} AppendAllExact(l: Log, recs: seq<Record>, ios: seq<Fault>)
    requires Intact(l) && |ios| == |recs| && NoneTears(ios)
    ensures var (m, accepted) := AppendAll(l, recs, ios);
      && Gained(l, m, accepted)
      && (l.writable && AllSucceed(ios) ==> accepted == recs)
    decreases |recs|
  {
    if recs == [] {
      assert Contents(l) + [] == Contents(l) && l.file + EncodeBody(l.version, []) == l.file;
    } else {
      var (l1, ok) := Append(l, recs[0], ios[0]);
      var (m, rest) := AppendAll(l1, recs[1..], ios[1..]);
      AppendOne(l, recs[0], ios[0]);
      AppendAllExact(l1, recs[1..], ios[1..]);
      GainedThrough(l, l1, m, if ok then [recs[0]] else [], rest);
      FirstAccepted(recs, ok, rest);
    }
  }

  lemma FirstAccepted(recs: seq<Record>, ok: bool, rest: seq<Record>)
    requires recs != []
    ensures (if ok then [recs[0]] else []) + rest == if ok then [recs[0]] + rest else rest
    ensures ok && rest == recs[1..] ==> [recs[0]] + rest == recs
  {
  }

  /** A log built by any appends on a created one is the encoding of the accepted
      records, and reads back exactly those. */
  lemma CreatedAndAppended(recs: seq<Record>, ios: seq<Fault>)
    requires |ios| == |recs| && NoneTears(ios)
    ensures var (m, accepted) := AppendAll(Log(Header(VERSION), 0, VERSION, true, 0), recs, ios);
      && m.file == EncodeLog(VERSION, accepted) && Intact(m) && ReadAll(m) == Ok(accepted)
      && (AllSucceed(ios) ==> accepted == recs)
  {
    var l := Log(Header(VERSION), 0, VERSION, true, 0);
    BuiltLogIntact(VERSION, [], 0);
    assert EncodeLog(VERSION, []) == Header(VERSION);
    AppendAllExact(l, recs, ios);
    var (m, accepted) := AppendAll(l, recs, ios);
    assert [] + accepted == accepted;
    ReadsIntact(m);
  }

  /** Any appends after a recovery read back as the surviving prefix followed by the
      accepted records. */
  lemma AppendsAfterRecovery(l: Log, cut: nat, recs: seq<Record>, ios: seq<Fault>)
    requires Intact(l) && HEADER_BYTES <= cut <= |l.file|
    requires |ios| == |recs| && NoneTears(ios)
    ensures var log := OpenFile(l.file[..cut], true, true);
      Complete(cut) <= l.records && log.Ok? &&
      var (m, accepted) := AppendAll(log.value, recs, ios);
      && Intact(m) && ReadAll(m) == Ok(Contents(l)[..Complete(cut)] + accepted)
      && (AllSucceed(ios) ==> accepted == recs)
  {
    CrashRecovery(l, cut, true);
    var log := OpenFile(l.file[..cut], true, true).value;
    AppendAllExact(log, recs, ios);
    ReadsIntact(AppendAll(log, recs, ios).0);
  }

  // ---- lookup ------------------------------------------------------------------

  /** `Latest` finds a record exactly when one exists, and the last one. */
  lemma {:induction false} LatestIsLast(recs: seq<Record>, q: nat)
    ensures Latest(recs, q).None? <==> forall i :: 0 <= i < |recs| ==> recs[i].seqNo != q
    ensures Latest(recs, q).Some? ==>
              exists i :: 0 <= i < |recs| && recs[i] == Latest(recs, q).value && recs[i].seqNo == q
                && forall j :: i < j < |recs| ==> recs[j].seqNo != q
  {
    if recs != [] {
      var n := |recs| - 1;
      if recs[n].seqNo != q {
        LatestIsLast(recs[..n], q);
        assert forall i :: 0 <= i < n ==> recs[..n][i] == recs[i];
        if Latest(recs[..n], q).Some? {
          var i :| 0 <= i < n && recs[..n][i] == Latest(recs[..n], q).value && recs[..n][i].seqNo == q
            && forall j :: i < j < n ==> recs[..n][j].seqNo != q;
          assert recs[i].seqNo == q;
        }
      }
    }
  }
}
