/** The on-disk format of the event log: header, 144-byte records, opening,
    torn-tail recovery and lookup, as functions of the file's bytes. */
module LogFormat {
  import opened Results
  import opened Words
  import opened Tiles
  import opened RecordStreams
  import Fnv

  const MAGIC := 0x534C_4C47
  const VERSION_V1 := 1
  const VERSION := 2
  const HEADER_BYTES := 16

  datatype Record = Record(seqNo: U64Word, slot: U32Word, tile: Tile)

  datatype LogError =
    | ShorterThanHeader
    | BadMagic
    | UnsupportedVersion
    | TileSizeMismatch
    | TruncatedRecord
    | ChecksumMismatch
    | UnexpectedEof

  /** The state of an open log. `synced` is the length of the prefix of `file`
      that is known to be on durable storage. */
  datatype Log = Log(file: Bytes, records: nat, version: nat, writable: bool, synced: nat)

  // ---- encoding ------------------------------------------------------------

  function Header(version: nat): (r: Bytes)
    ensures |r| == HEADER_BYTES
  {
    ToLE(MAGIC, 4) + ToLE(version, 4) + ToLE(TILE_BYTES, 4) + ToLE(0, 4)
  }

  function RecordChecksum(seqNo: U64Word, slot: U32Word, tileBytes: Bytes): Fnv.Hash {
    Fnv.Checksum(ToLE(seqNo, 8) + ToLE(slot, 4) + tileBytes)
  }

  function EncodeRecord(version: nat, rec: Record): (b: Bytes)
    ensures |b| == RECORD_BYTES
  {
    var tileBytes := TileToBytes(rec.tile);
    var check := if version == VERSION then RecordChecksum(rec.seqNo, rec.slot, tileBytes) else 0;
    ToLE(rec.seqNo, 8) + ToLE(rec.slot, 4) + ToLE(check, 4) + tileBytes
  }

  function EncodeBody(version: nat, recs: seq<Record>): (b: Bytes)
    ensures |b| == RECORD_BYTES * |recs|
  {
    if recs == [] then [] else EncodeRecord(version, recs[0]) + EncodeBody(version, recs[1..])
  }

  /** The file produced by `create` followed by appending `recs` in order. */
  function EncodeLog(version: nat, recs: seq<Record>): Bytes {
    Header(version) + EncodeBody(version, recs)
  }

  // ---- decoding ------------------------------------------------------------

  function DecodeRecord(version: nat, b: Bytes): Result<Record, LogError>
    requires |b| == RECORD_BYTES
  {
    var seqNo, slot, tileBytes := U64At(b, 0), U32At(b, 8), b[16..144];
    if version == VERSION && U32At(b, 12) != RecordChecksum(seqNo, slot, tileBytes) then
      Err(ChecksumMismatch)
    else
      Ok(Record(seqNo, slot, TileFromBytes(tileBytes)))
  }

  /** Reading one record: a short read is an end-of-file error. */
  function Decoder(version: nat): Bytes -> Result<Record, LogError> {
    (b: Bytes) => if |b| == RECORD_BYTES then DecodeRecord(version, b) else Err(UnexpectedEof)
  }

  function DecodeBody(version: nat, body: Bytes): (r: Result<seq<Record>, LogError>)
    requires Framed(body)
    ensures r.Ok? ==> |body| == RECORD_BYTES * |r.value|
  {
    DecodeAll(Decoder(version), body)
  }

  /** How many of the counted records the file holds in full. */
  function WholeRecords(l: Log): (n: nat)
    ensures n <= l.records && (n > 0 ==> HEADER_BYTES + RECORD_BYTES * n <= |l.file|)
    ensures n < l.records <==> |l.file| < HEADER_BYTES + RECORD_BYTES * l.records && l.records > 0
  {
    var n := if |l.file| < HEADER_BYTES then 0 else (|l.file| - HEADER_BYTES) / RECORD_BYTES;
    if n < l.records then n else l.records
  }

  /** The bytes of those records. */
  function WholeBody(l: Log): (b: Bytes)
    ensures Framed(b) && |b| == RECORD_BYTES * WholeRecords(l)
  {
    var n := WholeRecords(l);
    WholeFrames(n);
    if n == 0 then [] else l.file[HEADER_BYTES..HEADER_BYTES + RECORD_BYTES * n]
  }

  /** `read_all`: decode record after record; the first bad or short one is the error. */
  function ReadAll(l: Log): Result<seq<Record>, LogError> {
    match DecodeBody(l.version, WholeBody(l))
    case Err(e) => Err(e)
    case Ok(recs) => if WholeRecords(l) < l.records then Err(UnexpectedEof) else Ok(recs)
  }

  /** A file that is long enough is decoded as it is. */
  lemma ReadsCounted(l: Log, body: Bytes)
    requires |l.file| >= HEADER_BYTES + RECORD_BYTES * l.records
    requires body == l.file[HEADER_BYTES..HEADER_BYTES + RECORD_BYTES * l.records]
    ensures Framed(body) && ReadAll(l) == DecodeBody(l.version, body)
  {
    WholeFrames(l.records);
    assert WholeBody(l) == body;
  }

  /** The most recently appended record with this sequence number. */
  function Latest(recs: seq<Record>, seqNo: nat): Option<Record> {
    if recs == [] then None
    else if recs[|recs| - 1].seqNo == seqNo then Some(recs[|recs| - 1])
    else Latest(recs[..|recs| - 1], seqNo)
  }

  /** The header fields, from the first sixteen bytes. */
  function CheckFields(h: Bytes): Result<nat, LogError>
    requires |h| == HEADER_BYTES
  {
    if U32At(h, 0) != MAGIC then Err(BadMagic)
    else if U32At(h, 4) != VERSION_V1 && U32At(h, 4) != VERSION then Err(UnsupportedVersion)
    else if U32At(h, 8) != TILE_BYTES then Err(TileSizeMismatch)
    else Ok(U32At(h, 4))
  }

  function CheckHeader(file: Bytes): Result<nat, LogError> {
    if |file| < HEADER_BYTES then Err(ShorterThanHeader) else CheckFields(file[..HEADER_BYTES])
  }

  /** Length of the partial record at the end of a file. */
  function Tail(length: nat): (rem: nat)
    requires length >= HEADER_BYTES
    ensures rem < RECORD_BYTES && rem <= length - HEADER_BYTES
    ensures (length - rem - HEADER_BYTES) % RECORD_BYTES == 0
  {
    (length - HEADER_BYTES) % RECORD_BYTES
  }

  /** `open_impl`: strict when `recover` is false, else the partial tail is cut off. */
  function OpenFile(file: Bytes, recover: bool, writable: bool): Result<Log, LogError> {
    match CheckHeader(file)
    case Err(e) => Err(e)
    case Ok(version) =>
      var rem := Tail(|file|);
      if rem != 0 && !recover then Err(TruncatedRecord)
      else OpenKept(version, file[..|file| - rem], rem != 0, writable)
  }

  /** The file as opening leaves it: a recovery cuts a partial tail off before it
      looks at the records, so also when a record is then found bad. */
  function FileAfterOpen(file: Bytes, recover: bool): (after: Bytes)
    ensures after <= file && |file| - |after| < RECORD_BYTES
  {
    if CheckHeader(file).Err? || !recover then file
    else file[..|file| - Tail(|file|)]
  }

  /** The log in a file of whole records; a cut-off tail has just been synced away. */
  function OpenKept(version: nat, kept: Bytes, torn: bool, writable: bool): Result<Log, LogError>
    requires |kept| >= HEADER_BYTES && Framed(kept[HEADER_BYTES..])
  {
    match DecodeBody(version, kept[HEADER_BYTES..])
    case Err(e) => Err(e)
    case Ok(recs) => Ok(Log(kept, |recs|, version, writable, if torn then |kept| else 0))
  }

  lemma OpenAs(file: Bytes, version: nat, kept: Bytes, rem: nat, recover: bool, writable: bool)
    requires CheckHeader(file) == Ok(version) && rem == Tail(|file|)
    requires kept == file[..|file| - rem] && |kept| >= HEADER_BYTES && Framed(kept[HEADER_BYTES..])
    ensures OpenFile(file, recover, writable)
         == if rem != 0 && !recover then Err(TruncatedRecord) else OpenKept(version, kept, rem != 0, writable)
  {
  }

  /** A log whose file is exactly its header and `records` valid records. */
  ghost predicate Intact(l: Log) {
    && CheckHeader(l.file) == Ok(l.version)
    && |l.file| == HEADER_BYTES + RECORD_BYTES * l.records
    && Framed(l.file[HEADER_BYTES..])
    && DecodeBody(l.version, l.file[HEADER_BYTES..]).Ok?
    && l.synced <= |l.file|
  }

  function Contents(l: Log): (recs: seq<Record>)
    requires Intact(l)
    ensures |recs| == l.records
  {
    DecodeBody(l.version, l.file[HEADER_BYTES..]).value
  }

  // ---- one record ----------------------------------------------------------

  lemma RecordFields(version: nat, rec: Record)
    ensures var b := EncodeRecord(version, rec);
      && U64At(b, 0) == rec.seqNo
      && U32At(b, 8) == rec.slot
      && b[16..144] == TileToBytes(rec.tile)
      && U32At(b, 12) == if version == VERSION then RecordChecksum(rec.seqNo, rec.slot, TileToBytes(rec.tile)) else 0
  {
    CapacityValues();
    var b := EncodeRecord(version, rec);
    var check := if version == VERSION then RecordChecksum(rec.seqNo, rec.slot, TileToBytes(rec.tile)) else 0;
    assert b[0..8] == ToLE(rec.seqNo, 8);
    assert b[8..12] == ToLE(rec.slot, 4);
    assert b[12..16] == ToLE(check, 4);
    DecodeEncode(rec.seqNo, 8);
    DecodeEncode(rec.slot, 4);
    DecodeEncode(check, 4);
  }

  /** A record written in either version decodes to itself. */
  lemma RecordRoundTrip(version: nat, rec: Record)
    ensures DecodeRecord(version, EncodeRecord(version, rec)) == Ok(rec)
  {
    RecordFields(version, rec);
    TileDecodesEncoded(rec.tile);
  }

  /** Every accepted version-2 record is the encoding of its contents. */
  lemma RecordCanonical(b: Bytes)
    requires |b| == RECORD_BYTES && DecodeRecord(VERSION, b).Ok?
    ensures EncodeRecord(VERSION, DecodeRecord(VERSION, b).value) == b
  {
    TileEncodesDecoded(b[16..144]);
    var rec := Checked(b);
    WritesBack(b, 0, 8);
    WritesBack(b, 8, 4);
    WritesBack(b, 12, 4);
    RecordCut(b);
    EncodedAs(rec, b[0..8], b[8..12], b[12..16], b[16..144]);
  }

  /** What the decoder demands of an accepted record and takes from it. */
  lemma Checked(b: Bytes) returns (rec: Record)
    requires |b| == RECORD_BYTES && DecodeRecord(VERSION, b).Ok?
    ensures DecodeRecord(VERSION, b) == Ok(rec)
    ensures rec == Record(U64At(b, 0), U32At(b, 8), TileFromBytes(b[16..144]))
    ensures U32At(b, 12) == RecordChecksum(rec.seqNo, rec.slot, b[16..144])
  {
    rec := DecodeRecord(VERSION, b).value;
  }

  lemma EncodedAs(rec: Record, s: Bytes, t: Bytes, u: Bytes, v: Bytes)
    requires TileToBytes(rec.tile) == v && ToLE(rec.seqNo, 8) == s && ToLE(rec.slot, 4) == t
    requires ToLE(RecordChecksum(rec.seqNo, rec.slot, v), 4) == u
    ensures EncodeRecord(VERSION, rec) == s + t + u + v
  {
  }

  lemma RecordCut(b: Bytes)
    requires |b| == RECORD_BYTES
    ensures b == b[0..8] + b[8..12] + b[12..16] + b[16..144]
  {
    Joined(b, 0, 8, 12);
    Joined(b, 0, 12, 16);
    Joined(b, 0, 16, 144);
  }

  // ---- bodies --------------------------------------------------------------

  lemma RecordThenBody(version: nat, rec: Record, body: Bytes, recs: seq<Record>)
    requires Framed(body) && DecodeBody(version, body) == Ok(recs)
    ensures Framed(EncodeRecord(version, rec) + body)
    ensures DecodeBody(version, EncodeRecord(version, rec) + body) == Ok([rec] + recs)
  {
    var head := EncodeRecord(version, rec);
    RecordRoundTrip(version, rec);
    OneMore(Decoder(version), head, body, rec, recs);
  }

  lemma {:induction false} BodyRoundTrip(version: nat, recs: seq<Record>)
    ensures Framed(EncodeBody(version, recs))
    ensures DecodeBody(version, EncodeBody(version, recs)) == Ok(recs)
  {
    if recs != [] {
      BodyRoundTrip(version, recs[1..]);
      RecordThenBody(version, recs[0], EncodeBody(version, recs[1..]), recs[1..]);
      assert [recs[0]] + recs[1..] == recs;
    }
  }

}
