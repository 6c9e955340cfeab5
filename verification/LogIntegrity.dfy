/** What the log format guarantees: recovery after a crash at any byte, and
    detection of any one-byte change to a version-2 record. */
module LogIntegrity {
  import opened Results
  import opened Words
  import opened Tiles
  import opened RecordStreams
  import opened LogFormat
  import Fnv

  // ---- built logs ------------------------------------------------------------

  lemma HeaderChecks(version: nat, tail: Bytes)
    requires version == VERSION_V1 || version == VERSION
    ensures CheckHeader(Header(version) + tail) == Ok(version)
  {
    CapacityValues();
    var h := Header(version);
    assert (h + tail)[..HEADER_BYTES] == h;
    assert h[0..4] == ToLE(MAGIC, 4);
    assert h[4..8] == ToLE(version, 4);
    assert h[8..12] == ToLE(TILE_BYTES, 4);
    DecodeEncode(MAGIC, 4);
    DecodeEncode(version, 4);
    DecodeEncode(TILE_BYTES, 4);
  }

  /** The header fields depend on the first sixteen bytes only. */
  lemma HeaderIsPrefix(f: Bytes, g: Bytes)
    requires |f| >= HEADER_BYTES && |g| >= HEADER_BYTES && f[..HEADER_BYTES] == g[..HEADER_BYTES]
    ensures CheckHeader(f) == CheckHeader(g)
  {
  }

  /** A log built by `create` and any number of appends reads back exactly. */
  lemma BuiltLogIntact(version: nat, recs: seq<Record>, synced: nat)
    requires version == VERSION_V1 || version == VERSION
    requires synced <= |EncodeLog(version, recs)|
    ensures var l := Log(EncodeLog(version, recs), |recs|, version, true, synced);
      Intact(l) && Contents(l) == recs
  {
    HeaderChecks(version, EncodeBody(version, recs));
    BodyRoundTrip(version, recs);
    WholeFrames(|recs|);
    assert EncodeLog(version, recs)[HEADER_BYTES..] == EncodeBody(version, recs);
  }

  lemma ReadsIntact(l: Log)
    requires Intact(l)
    ensures ReadAll(l) == Ok(Contents(l))
  {
    ToEnd(l.file, HEADER_BYTES, HEADER_BYTES + RECORD_BYTES * l.records);
    ReadsCounted(l, l.file[HEADER_BYTES..]);
  }

  lemma ToEnd<T>(s: seq<T>, from: nat, to: nat)
    requires from <= to == |s|
    ensures s[from..to] == s[from..]
  {
  }

  /** A file with a good header and whole, valid records opens as those records. */
  lemma OpensWhole(l: Log, recover: bool, writable: bool)
    requires Intact(l)
    ensures OpenFile(l.file, recover, writable) == Ok(Log(l.file, l.records, l.version, writable, 0))
  {
    WholeFrames(l.records);
    assert l.file[..|l.file|] == l.file;
    OpenAs(l.file, l.version, l.file, 0, recover, writable);
  }

  // ---- crash recovery ----------------------------------------------------------

  /** The number of complete records in a file of this length. */
  function Complete(length: nat): nat
    requires length >= HEADER_BYTES
  {
    (length - HEADER_BYTES) / RECORD_BYTES
  }

  lemma CutArithmetic(cut: nat)
    requires cut >= HEADER_BYTES
    ensures var n := RECORD_BYTES * Complete(cut);
      && HEADER_BYTES + n <= cut
      && n % RECORD_BYTES == 0 && n / RECORD_BYTES == Complete(cut)
      && cut - (cut - HEADER_BYTES) % RECORD_BYTES == HEADER_BYTES + n
  {
  }

  /** The first `k` records of a log, as a log. */
  function FirstRecords(l: Log, k: nat, writable: bool, synced: nat): Log
    requires HEADER_BYTES + RECORD_BYTES * k <= |l.file|
  {
    Log(l.file[..HEADER_BYTES + RECORD_BYTES * k], k, l.version, writable, synced)
  }

  lemma FirstRecordsIntact(l: Log, k: nat, writable: bool, synced: nat)
    requires Intact(l) && HEADER_BYTES + RECORD_BYTES * k <= |l.file|
    requires synced <= HEADER_BYTES + RECORD_BYTES * k
    ensures k <= l.records
    ensures Intact(FirstRecords(l, k, writable, synced))
    ensures Contents(FirstRecords(l, k, writable, synced)) == Contents(l)[..k]
  {
    CutBody(l, k);
    HeaderIsPrefix(l.file[..HEADER_BYTES + RECORD_BYTES * k], l.file);
    IntactBy(FirstRecords(l, k, writable, synced), Contents(l)[..k]);
  }

  lemma IntactBy(m: Log, recs: seq<Record>)
    requires CheckHeader(m.file) == Ok(m.version) && |m.file| == HEADER_BYTES + RECORD_BYTES * m.records
    requires Framed(m.file[HEADER_BYTES..]) && DecodeBody(m.version, m.file[HEADER_BYTES..]) == Ok(recs)
    requires m.synced <= |m.file|
    ensures Intact(m) && Contents(m) == recs
  {
  }

  lemma CutBody(l: Log, k: nat)
    requires Intact(l) && HEADER_BYTES + RECORD_BYTES * k <= |l.file|
    ensures k <= l.records
    ensures Framed(l.file[..HEADER_BYTES + RECORD_BYTES * k][HEADER_BYTES..])
    ensures DecodeBody(l.version, l.file[..HEADER_BYTES + RECORD_BYTES * k][HEADER_BYTES..]) == Ok(Contents(l)[..k])
  {
    var body, n := l.file[HEADER_BYTES..], RECORD_BYTES * k;
    WholeFrames(k);
    Prefix(Decoder(l.version), body, n);
    assert l.file[..HEADER_BYTES + n][HEADER_BYTES..] == body[..n];
  }

  /** Opening a cut file keeps the complete records and, in recovery, drops the
      rest. */
  lemma OpensCut(l: Log, cut: nat, writable: bool)
    requires Intact(l) && HEADER_BYTES <= cut <= |l.file|
    ensures var k, torn := Complete(cut), (cut - HEADER_BYTES) % RECORD_BYTES != 0;
      && HEADER_BYTES + RECORD_BYTES * k <= cut
      && var log := FirstRecords(l, k, writable, if torn then HEADER_BYTES + RECORD_BYTES * k else 0);
      && OpenFile(l.file[..cut], true, writable) == Ok(log)
      && OpenFile(l.file[..cut], false, writable) == if torn then Err(TruncatedRecord) else Ok(log)
  {
    var k := Complete(cut);
    CutArithmetic(cut);
    OpensFirst(l, l.file[..cut], k, (cut - HEADER_BYTES) % RECORD_BYTES, writable);
  }

  /** Opening a file that starts with the first `k` records and goes on for `rem`
      bytes. */
  lemma OpensFirst(l: Log, f: Bytes, k: nat, rem: nat, writable: bool)
    requires Intact(l) && f <= l.file && rem < RECORD_BYTES && |f| == HEADER_BYTES + RECORD_BYTES * k + rem
    ensures var log := FirstRecords(l, k, writable, if rem != 0 then HEADER_BYTES + RECORD_BYTES * k else 0);
      && OpenFile(f, true, writable) == Ok(log)
      && OpenFile(f, false, writable) == if rem != 0 then Err(TruncatedRecord) else Ok(log)
  {
    var kept, recs := FirstRecords(l, k, writable, 0).file, Contents(l)[..k];
    HeaderIsPrefix(f, l.file);
    CutBody(l, k);
    SharedPrefix(f, l.file, |kept|);
    OpensKept(f, l.version, kept, k, rem, recs, writable);
  }

  lemma OpensKept(f: Bytes, version: nat, kept: Bytes, k: nat, rem: nat, recs: seq<Record>, writable: bool)
    requires CheckHeader(f) == Ok(version) && kept <= f && rem < RECORD_BYTES && |recs| == k
    requires |kept| == HEADER_BYTES + RECORD_BYTES * k && |f| == |kept| + rem
    requires Framed(kept[HEADER_BYTES..]) && DecodeBody(version, kept[HEADER_BYTES..]) == Ok(recs)
    ensures var log := Log(kept, k, version, writable, if rem != 0 then |kept| else 0);
      && OpenFile(f, true, writable) == Ok(log)
      && OpenFile(f, false, writable) == if rem != 0 then Err(TruncatedRecord) else Ok(log)
  {
    RemainderOf(|f|, k, rem);
    OpensRecords(f, version, kept, rem, recs, writable);
  }

  lemma RemainderOf(length: nat, k: nat, rem: nat)
    requires rem < RECORD_BYTES && length == HEADER_BYTES + RECORD_BYTES * k + rem
    ensures (length - HEADER_BYTES) % RECORD_BYTES == rem && length - rem == HEADER_BYTES + RECORD_BYTES * k
  {
  }

  lemma SharedPrefix<T>(s: seq<T>, t: seq<T>, size: nat)
    requires s <= t && size <= |s|
    ensures t[..size] <= s && |t[..size]| == size
  {
  }

  /** Whatever byte at or after the header the file is cut at, recovery yields
      exactly the records that are complete, and strict opening succeeds if and
      only if no partial record is left. */
  lemma CrashRecovery(l: Log, cut: nat, writable: bool)
    requires Intact(l) && HEADER_BYTES <= cut <= |l.file|
    ensures Complete(cut) <= l.records
    ensures var log := OpenFile(l.file[..cut], true, writable);
      && log.Ok? && log.value.writable == writable
      && Intact(log.value)
      && Contents(log.value) == Contents(l)[..Complete(cut)]
    ensures OpenFile(l.file[..cut], false, writable) ==
              if (cut - HEADER_BYTES) % RECORD_BYTES == 0 then OpenFile(l.file[..cut], true, writable)
              else Err(TruncatedRecord)
  {
    var k, torn := Complete(cut), (cut - HEADER_BYTES) % RECORD_BYTES != 0;
    OpensCut(l, cut, writable);
    FirstRecordsIntact(l, k, writable, if torn then HEADER_BYTES + RECORD_BYTES * k else 0);
  }

  lemma OpensRecords(f: Bytes, version: nat, kept: Bytes, rem: nat, recs: seq<Record>, writable: bool)
    requires CheckHeader(f) == Ok(version) && kept <= f && |f| == |kept| + rem && |kept| >= HEADER_BYTES
    requires rem == (|f| - HEADER_BYTES) % RECORD_BYTES && Framed(kept[HEADER_BYTES..])
    requires DecodeBody(version, kept[HEADER_BYTES..]) == Ok(recs)
    ensures var log := Log(kept, |recs|, version, writable, if rem != 0 then |kept| else 0);
      && OpenFile(f, true, writable) == Ok(log)
      && OpenFile(f, false, writable) == if rem == 0 then Ok(log) else Err(TruncatedRecord)
  {
    assert kept == f[..|f| - rem];
    OpenAs(f, version, kept, rem, true, writable);
    OpenAs(f, version, kept, rem, false, writable);
  }

  lemma OpenFailsOnBody(f: Bytes, version: nat, e: LogError, recover: bool, writable: bool)
    requires CheckHeader(f) == Ok(version)
    requires Framed(f[HEADER_BYTES..]) && DecodeBody(version, f[HEADER_BYTES..]) == Err(e)
    ensures OpenFile(f, recover, writable) == Err(e)
  {
    assert f[..|f|] == f;
  }

  /** A cut inside the header is refused in both modes. */
  lemma CutHeaderRefused(l: Log, cut: nat, recover: bool, writable: bool)
    requires Intact(l) && cut < HEADER_BYTES
    ensures OpenFile(l.file[..cut], recover, writable) == Err(ShorterThanHeader)
  {
  }

  /** Wherever a log is cut, opening succeeds exactly when the header survived and,
      unless recovering, no partial record is left. */
  lemma CutOutcome(l: Log, cut: nat, recover: bool, writable: bool)
    requires Intact(l) && cut <= |l.file|
    ensures OpenFile(l.file[..cut], recover, writable).Ok?
      <==> HEADER_BYTES <= cut && (recover || (cut - HEADER_BYTES) % RECORD_BYTES == 0)
  {
    if cut < HEADER_BYTES {
      CutHeaderRefused(l, cut, recover, writable);
    } else {
      CrashRecovery(l, cut, writable);
    }
  }

  // ---- corruption --------------------------------------------------------------

  /** The bytes covered by a record's checksum. */
  function Covered(b: Bytes): Bytes
    requires |b| == RECORD_BYTES
  {
    b[0..12] + b[16..144]
  }

  lemma ChecksumOfCovered(b: Bytes)
    requires |b| == RECORD_BYTES
    ensures RecordChecksum(U64At(b, 0), U32At(b, 8), b[16..144]) == Fnv.Checksum(Covered(b))
  {
    WritesBack(b, 0, 8);
    WritesBack(b, 8, 4);
    Joined(b, 0, 8, 12);
  }

  predicate StoredMatches(b: Bytes)
    requires |b| == RECORD_BYTES
  {
    FromLE(b[12..16]) == Fnv.Checksum(Covered(b))
  }

  lemma DecodesIffStoredMatches(b: Bytes)
    requires |b| == RECORD_BYTES
    ensures DecodeRecord(VERSION, b).Ok? <==> StoredMatches(b)
    ensures !StoredMatches(b) ==> DecodeRecord(VERSION, b) == Err(ChecksumMismatch)
  {
    ChecksumOfCovered(b);
  }

  lemma StoredChangeCaught(b: Bytes, i: nat, x: Byte)
    requires |b| == RECORD_BYTES && StoredMatches(b) && 12 <= i < 16 && b[i] != x
    ensures !StoredMatches(b[i := x])
  {
    var s, t := b[12..16], b[i := x][12..16];
    assert Covered(b[i := x]) == Covered(b);
    assert s[i - 12] != t[i - 12];
    EncodeDecode(s);
    EncodeDecode(t);
  }

  lemma CoveredChangeCaught(b: Bytes, i: nat, x: Byte)
    requires |b| == RECORD_BYTES && StoredMatches(b) && (i < 12 || 16 <= i < RECORD_BYTES) && b[i] != x
    ensures !StoredMatches(b[i := x])
  {
    var j := if i < 12 then i else i - 4;
    assert Covered(b)[j] == b[i];
    assert Covered(b[i := x]) == Covered(b)[j := x];
    assert b[i := x][12..16] == b[12..16];
    Fnv.SingleByteChangeDetected(Fnv.OFFSET, Covered(b), j, x);
  }

  /** Any change of one byte of a valid version-2 record, checksum field
      included, is caught when the record is decoded. */
  lemma RecordChangeCaught(b: Bytes, i: nat, x: Byte)
    requires |b| == RECORD_BYTES && DecodeRecord(VERSION, b).Ok?
    requires i < RECORD_BYTES && b[i] != x
    ensures DecodeRecord(VERSION, b[i := x]) == Err(ChecksumMismatch)
  {
    DecodesIffStoredMatches(b);
    DecodesIffStoredMatches(b[i := x]);
    if 12 <= i < 16 {
      StoredChangeCaught(b, i, x);
    } else {
      CoveredChangeCaught(b, i, x);
    }
  }

  lemma BadRecordFailsBody(version: nat, a: Bytes, bad: Bytes, c: Bytes)
    requires Framed(a) && Framed(c) && |bad| == RECORD_BYTES
    requires DecodeBody(version, a).Ok? && DecodeRecord(version, bad) == Err(ChecksumMismatch)
    ensures Framed(a + (bad + c))
    ensures DecodeBody(version, a + (bad + c)) == Err(ChecksumMismatch)
  {
    FirstRecord(Decoder(version), bad, c);
    Concat(Decoder(version), a, bad + c);
  }

  lemma GoodBodyHasGoodRecord(version: nat, a: Bytes, rec: Bytes, c: Bytes)
    requires Framed(a) && Framed(c) && |rec| == RECORD_BYTES
    requires Framed(a + (rec + c)) && DecodeBody(version, a + (rec + c)).Ok?
    ensures DecodeBody(version, a).Ok? && DecodeRecord(version, rec).Ok?
  {
    FirstRecord(Decoder(version), rec, c);
    Concat(Decoder(version), a, rec + c);
  }

  /** Changing any one byte of the record area of a version-2 log makes opening
      fail, with or without tail recovery. */
  lemma AnyByteChangeCaught(l: Log, i: nat, x: Byte, recover: bool, writable: bool)
    requires Intact(l) && l.version == VERSION
    requires HEADER_BYTES <= i < |l.file| && l.file[i] != x
    ensures OpenFile(l.file[i := x], recover, writable) == Err(ChecksumMismatch)
  {
    var body := l.file[HEADER_BYTES..];
    BodyChangeCaught(body, i - HEADER_BYTES, x);
    var f := l.file[i := x];
    assert f[HEADER_BYTES..] == body[i - HEADER_BYTES := x];
    HeaderIsPrefix(f, l.file);
    OpenFailsOnBody(f, VERSION, ChecksumMismatch, recover, writable);
  }

  lemma PartChangeCaught(a: Bytes, rec: Bytes, c: Bytes, i: nat, x: Byte)
    requires Framed(a) && Framed(c) && |rec| == RECORD_BYTES
    requires Framed(a + (rec + c)) && DecodeBody(VERSION, a + (rec + c)).Ok?
    requires i < RECORD_BYTES && rec[i] != x
    ensures Framed(a + (rec[i := x] + c))
    ensures DecodeBody(VERSION, a + (rec[i := x] + c)) == Err(ChecksumMismatch)
  {
    GoodBodyHasGoodRecord(VERSION, a, rec, c);
    RecordChangeCaught(rec, i, x);
    BadRecordFailsBody(VERSION, a, rec[i := x], c);
  }

  lemma Splice(body: Bytes, n: nat, m: nat, o: nat, x: Byte)
    requires n <= o < m <= |body|
    ensures body == body[..n] + (body[n..m] + body[m..])
    ensures body[o := x] == body[..n] + (body[n..m][o - n := x] + body[m..])
  {
  }

  /** The record a byte belongs to, and what is before and behind it. */
  lemma RecordOf(body: Bytes, o: nat, x: Byte) returns (a: Bytes, rec: Bytes, c: Bytes, i: nat)
    requires Framed(body) && o < |body|
    ensures Framed(a) && Framed(c) && |rec| == RECORD_BYTES && i < RECORD_BYTES && rec[i] == body[o]
    ensures body == a + (rec + c) && body[o := x] == a + (rec[i := x] + c)
  {
    var n := RecordAround(|body|, o);
    var m := n + RECORD_BYTES;
    Splice(body, n, m, o, x);
    a, rec, c, i := body[..n], body[n..m], body[m..], o - n;
  }

  lemma BodyChangeCaught(body: Bytes, o: nat, x: Byte)
    requires Framed(body) && DecodeBody(VERSION, body).Ok?
    requires o < |body| && body[o] != x
    ensures DecodeBody(VERSION, body[o := x]) == Err(ChecksumMismatch)
  {
    var a, rec, c, i := RecordOf(body, o, x);
    PartChangeCaught(a, rec, c, i, x);
  }

  lemma RecordAround(length: nat, o: nat) returns (n: nat)
    requires length % RECORD_BYTES == 0 && o < length
    ensures n <= o < n + RECORD_BYTES <= length
    ensures n % RECORD_BYTES == 0 && (length - n - RECORD_BYTES) % RECORD_BYTES == 0
  {
    n := RECORD_BYTES * (o / RECORD_BYTES);
    var q := length / RECORD_BYTES;
    assert length == RECORD_BYTES * q;
    assert o / RECORD_BYTES < q;
  }
}
