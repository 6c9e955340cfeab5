/** The event log object: a file, a record count and a format version. */
module EventLogs {
  import opened Results
  import opened Words
  import opened Tiles
  import opened RecordStreams
  import opened LogFormat
  import opened LogIntegrity
  import opened LogOps
  import Fnv

  class EventLog {
    var file: Bytes
    var records: nat
    var version: nat
    var writable: bool
    ghost var synced: nat

    ghost function View(): Log
      reads this
    {
      Log(file, records, version, writable, synced)
    }

    /** `create`: a fresh version-2 log; nothing is synchronized yet. */
    constructor Create()
      ensures View() == Log(Header(VERSION), 0, VERSION, true, 0)
      ensures Intact(View()) && Contents(View()) == []
    {
      file := Header(VERSION);
      records, version, writable, synced := 0, VERSION, true, 0;
      new;
      BuiltLogIntact(VERSION, [], 0);
      assert EncodeLog(VERSION, []) == Header(VERSION);
    }

    constructor FromLog(l: Log)
      ensures View() == l
    {
      file, records, version, writable, synced := l.file, l.records, l.version, l.writable, l.synced;
    }

    /** Write one record at the end, rolling back a failed write when possible. */
    method Append(seqNo: U64Word, slot: U32Word, tile: Tile, io: Fault) returns (ok: bool)
      modifies this
      ensures (View(), ok) == LogOps.Append(old(View()), Record(seqNo, slot, tile), io)
    {
      if !writable || !io.appendSeeks {
        return false;
      }
      var start := |file|;
      var tileBytes := TileToBytes(tile);
      var check := 0;
      if version == VERSION {
        check := ComputeChecksum(seqNo, slot, tileBytes);
      }
      var rec := ToLE(seqNo, 8) + ToLE(slot, 4) + ToLE(check, 4) + tileBytes;
      if io.torn.Some? {
        file := file + rec[..Min(io.torn.value, RECORD_BYTES - 1)];
        if io.truncates {
          file := file[..start];
        }
        return false;
      }
      file := file + rec;
      records := records + 1;
      return true;
    }

    /** Append and synchronize; on a failed sync try to take the record back. */
    method AppendDurable(seqNo: U64Word, slot: U32Word, tile: Tile, io: Fault) returns (ok: bool)
      modifies this
      ensures (View(), ok) == LogOps.AppendDurable(old(View()), Record(seqNo, slot, tile), io)
    {
      if !io.seeks {
        return false;
      }
      var start, previous := |file|, records;
      ok := Append(seqNo, slot, tile, io);
      if !ok {
        return false;
      }
      if io.syncs {
        synced := |file|;
        return true;
      }
      if io.truncates {
        file := file[..start];
        records := previous;
      }
      return false;
    }

    /** Read every record, in append order. */
    method ReadAll() returns (r: Result<seq<Record>, LogError>)
      ensures r == LogFormat.ReadAll(View())
    {
      var available := if |file| < HEADER_BYTES then 0 else (|file| - HEADER_BYTES) / RECORD_BYTES;
      var whole := if available < records then available else records;
      var body := if whole == 0 then [] else file[HEADER_BYTES..HEADER_BYTES + RECORD_BYTES * whole];
      assert body == WholeBody(View());
      r := ReadRecords(Decoder(version), body);
      if r.Ok? && whole < records {
        return Err(UnexpectedEof);
      }
    }

    /** The most recent record with this sequence number, scanning from the end. */
    method FetchBySeq(seqNo: nat) returns (r: Result<Option<Record>, LogError>)
      ensures var all := LogFormat.ReadAll(View());
        r == if all.Err? then Err(all.error) else Ok(Latest(all.value, seqNo))
    {
      var all := ReadAll();
      if all.Err? {
        return Err(all.error);
      }
      var recs := all.value;
      var i := |recs|;
      assert recs[..i] == recs;
      while i > 0
        invariant 0 <= i <= |recs|
        invariant Latest(recs, seqNo) == Latest(recs[..i], seqNo)
      {
        i := i - 1;
        LatestBack(recs, i, seqNo);
        if recs[i].seqNo == seqNo {
          return Ok(Some(recs[i]));
        }
      }
      return Ok(None);
    }
  }

  lemma LatestBack(recs: seq<Record>, i: nat, q: nat)
    requires i < |recs|
    ensures Latest(recs[..i + 1], q) == if recs[i].seqNo == q then Some(recs[i]) else Latest(recs[..i], q)
  {
    assert recs[..i + 1][..i] == recs[..i];
  }

  /** `record_checksum`: three passes over the running hash. */
  method ComputeChecksum(seqNo: U64Word, slot: U32Word, tileBytes: Bytes) returns (hash: Fnv.Hash)
    ensures hash == RecordChecksum(seqNo, slot, tileBytes)
  {
    var a, b := ToLE(seqNo, 8), ToLE(slot, 4);
    hash := Fnv.Extend(Fnv.OFFSET, a);
    hash := Fnv.Extend(hash, b);
    hash := Fnv.Extend(hash, tileBytes);
    Fnv.FoldConcat(Fnv.OFFSET, a, b);
    Fnv.FoldConcat(Fnv.OFFSET, a + b, tileBytes);
  }

  /** The reading loop, for any record decoder: stop at the first error. */
  method ReadRecords<R, E>(dec: Bytes -> Result<R, E>, body: Bytes) returns (r: Result<seq<R>, E>)
    requires Framed(body)
    ensures r == DecodeAll(dec, body)
  {
    var out: seq<R> := [];
    var pos := 0;
    BothUnit(DecodeAll(dec, body));
    assert body[0..] == body;
    while pos < |body|
      invariant 0 <= pos <= |body| && Framed(body[pos..])
      invariant DecodeAll(dec, body) == Both(Ok(out), DecodeAll(dec, body[pos..]))
    {
      FramesAdd(|body[pos..]|, 0);
      var rec, next := body[pos..pos + RECORD_BYTES], pos + RECORD_BYTES;
      assert body[pos..] == rec + body[next..];
      FirstRecord(dec, rec, body[next..]);
      var d := dec(rec);
      BothAssociates(Ok(out), One(d), DecodeAll(dec, body[next..]));
      if d.Err? {
        return Err(d.error);
      }
      out := out + [d.value];
      pos := next;
    }
    assert body[pos..] == [];
    BothUnit<R, E>(Ok(out));
    return Ok(out);
  }

  /** The log that opening leaves: whole records, a partial tail cut off. */
  function KeptLog(bytes: Bytes, version: nat, writable: bool): Log
    requires |bytes| >= HEADER_BYTES
  {
    var r := Tail(|bytes|);
    var kept := bytes[..|bytes| - r];
    Log(kept, (|kept| - HEADER_BYTES) / RECORD_BYTES, version, writable, if r != 0 then |kept| else 0)
  }

  /** Once the header is accepted, opening amounts to reading every record. */
  lemma OpenByReading(bytes: Bytes, version: nat, recover: bool, writable: bool, l: Log)
    requires CheckHeader(bytes) == Ok(version) && l == KeptLog(bytes, version, writable)
    requires Tail(|bytes|) == 0 || recover
    ensures var all := LogFormat.ReadAll(l);
      && OpenFile(bytes, recover, writable) == (if all.Err? then Err(all.error) else Ok(l))
      && (all.Ok? ==> Intact(l))
  {
    var kept, rem := CutTail(bytes, version, writable);
    OpenAs(bytes, version, kept, rem, recover, writable);
    KeptByReading(kept, version, rem != 0, writable);
  }

  lemma CutTail(bytes: Bytes, version: nat, writable: bool) returns (kept: Bytes, rem: nat)
    requires CheckHeader(bytes) == Ok(version)
    ensures rem == Tail(|bytes|) && kept == bytes[..|bytes| - rem]
    ensures CheckHeader(kept) == Ok(version) && |kept| >= HEADER_BYTES && Framed(kept[HEADER_BYTES..])
    ensures KeptLog(bytes, version, writable)
         == Log(kept, (|kept| - HEADER_BYTES) / RECORD_BYTES, version, writable, if rem != 0 then |kept| else 0)
  {
    rem := Tail(|bytes|);
    kept := bytes[..|bytes| - rem];
    HeaderIsPrefix(kept, bytes);
  }

  lemma KeptByReading(kept: Bytes, version: nat, torn: bool, writable: bool)
    requires |kept| >= HEADER_BYTES && Framed(kept[HEADER_BYTES..]) && CheckHeader(kept) == Ok(version)
    ensures var l := Log(kept, (|kept| - HEADER_BYTES) / RECORD_BYTES, version, writable, if torn then |kept| else 0);
      var all := LogFormat.ReadAll(l);
      && OpenKept(version, kept, torn, writable) == (if all.Err? then Err(all.error) else Ok(l))
      && (all.Ok? ==> Intact(l))
  {
    var n := (|kept| - HEADER_BYTES) / RECORD_BYTES;
    assert |kept| == HEADER_BYTES + RECORD_BYTES * n;
    ToEnd(kept, HEADER_BYTES, HEADER_BYTES + RECORD_BYTES * n);
    ReadsCounted(Log(kept, n, version, writable, if torn then |kept| else 0), kept[HEADER_BYTES..]);
  }

  method ReadHeader(bytes: Bytes) returns (r: Result<nat, LogError>)
    ensures r == CheckHeader(bytes)
  {
    if |bytes| < HEADER_BYTES {
      return Err(ShorterThanHeader);
    }
    var h := bytes[..HEADER_BYTES];
    if U32At(h, 0) != MAGIC {
      return Err(BadMagic);
    }
    var version := U32At(h, 4);
    if version != VERSION_V1 && version != VERSION {
      return Err(UnsupportedVersion);
    }
    if U32At(h, 8) != TILE_BYTES {
      return Err(TileSizeMismatch);
    }
    return Ok(version);
  }

  /** Read the records of a file whose header was accepted. */
  method OpenBody(bytes: Bytes, version: nat, recover: bool, writable: bool)
    returns (r: Result<EventLog, LogError>, after: Bytes)
    requires CheckHeader(bytes) == Ok(version)
    ensures Opens(r, OpenFile(bytes, recover, writable)) && after == FileAfterOpen(bytes, recover)
    ensures r.Ok? ==> fresh(r.value) && r.value.file == after
  {
    var remainder := Tail(|bytes|);
    if remainder != 0 && !recover {
      return Err(TruncatedRecord), bytes;
    }
    after := bytes[..|bytes| - remainder];
    assert remainder == 0 ==> after == bytes;
    var l := KeptLog(bytes, version, writable);
    OpenByReading(bytes, version, recover, writable, l);
    r := Load(l);
  }

  /** Validate every record of a log that is being opened. */
  method Load(l: Log) returns (r: Result<EventLog, LogError>)
    requires LogFormat.ReadAll(l).Ok? ==> Intact(l)
    ensures var all := LogFormat.ReadAll(l); Opens(r, if all.Err? then Err(all.error) else Ok(l))
    ensures r.Ok? ==> fresh(r.value)
  {
    var log := new EventLog.FromLog(l);
    var all := log.ReadAll();
    if all.Err? {
      return Err(all.error);
    }
    return Ok(log);
  }

  /** The log object returned by opening is the one the format prescribes. */
  ghost predicate Opens(r: Result<EventLog, LogError>, spec: Result<Log, LogError>)
    reads if r.Ok? then {r.value} else {}
  {
    match spec
    case Err(e) => r == Err(e)
    case Ok(l) => r.Ok? && r.value.View() == l && Intact(l)
  }

  /** Open an existing file, strictly or cutting a partial record off its tail, and
      say what the file holds afterwards. */
  method Open(bytes: Bytes, recover: bool, writable: bool) returns (r: Result<EventLog, LogError>, after: Bytes)
    ensures Opens(r, OpenFile(bytes, recover, writable)) && after == FileAfterOpen(bytes, recover)
    ensures r.Ok? ==> fresh(r.value) && r.value.file == after
  {
    var header := ReadHeader(bytes);
    if header.Err? {
      return Err(header.error), bytes;
    }
    r, after := OpenBody(bytes, header.value, recover, writable);
  }
}
