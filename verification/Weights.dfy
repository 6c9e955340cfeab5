/** The portable weights file of a learned projection. Coefficients are kept as
    32-bit patterns. `top` is the number of values of the machine word `usize`. */
module Weights {
  import opened Results
  import opened Words
  import opened Tiles
  import Fnv

  const D_C := 128
  const MAGIC := 0x534C_4857
  const VERSION_V1 := 1
  const VERSION := 2
  const COMMON_HEADER := 24
  const HEADER := 28

  datatype Weights = Weights(d: nat, seed: U64Word, rht: bool, projection: seq<U32Word>)

  datatype WeightsError =
    | InvalidDimension
    | DimensionTooLarge
    | Overflow
    | LengthMismatch
    | NonFinite(index: nat)
    | TruncatedHeader
    | BadMagic
    | UnsupportedVersion
    | InvalidFlag
    | NonZeroPadding
    | SizeMismatch
    | ChecksumMismatch

  // ---- sizes -----------------------------------------------------------------------------

  function Checked(top: nat, n: nat): Option<nat> {
    if n < top then Some(n) else None
  }

  function ProjectionLen(top: nat, d: nat): Option<nat> {
    Checked(top, D_C * d)
  }

  function PayloadSize(top: nat, d: nat): Option<nat> {
    match ProjectionLen(top, d)
    case None => None
    case Some(n) => Checked(top, 4 * n)
  }

  function FileSize(top: nat, header: nat, d: nat): (r: Option<nat>)
    ensures r.Some? <==> header + 4 * (D_C * d) < top
    ensures r.Some? ==> r.value == header + 4 * (D_C * d) && ProjectionLen(top, d) == Some(D_C * d)
  {
    match PayloadSize(top, d)
    case None => None
    case Some(n) => Checked(top, header + n)
  }

  // ---- serializing -------------------------------------------------------------------------

  /** An `f32` bit pattern whose exponent is not all ones. */
  predicate IsFinite(w: U32Word) {
    w / 0x80_0000 % 256 != 255
  }

  /** Index of the first non-finite value, or the length. */
  function FirstNonFinite(s: seq<U32Word>): (n: nat)
    ensures n <= |s| && forall i :: 0 <= i < n ==> IsFinite(s[i])
    ensures n < |s| ==> !IsFinite(s[n])
  {
    if s == [] || !IsFinite(s[0]) then 0 else 1 + FirstNonFinite(s[1..])
  }

  function FlagByte(rht: bool): Byte {
    if rht then 1 else 0
  }

  function CommonHeader(version: nat, w: Weights): (h: Bytes)
    ensures |h| == COMMON_HEADER
  {
    HeaderOf(ToLE(MAGIC, 4), ToLE(version, 4), ToLE(w.d, 4), ToLE(w.seed, 8), FlagByte(w.rht))
  }

  function HeaderOf(magic: Bytes, version: Bytes, d: Bytes, seed: Bytes, flag: Byte): Bytes {
    magic + version + d + seed + [flag] + [0, 0, 0]
  }

  function Payload(values: seq<U32Word>): (p: Bytes)
    ensures |p| == 4 * |values|
  {
    if values == [] then [] else ToLE(values[0], 4) + Payload(values[1..])
  }

  function Sealed(header: Bytes, payload: Bytes): Bytes {
    header + ToLE(Fnv.Checksum(header + payload), 4) + payload
  }

  function TryToBytes(top: nat, w: Weights): Result<Bytes, WeightsError> {
    if w.d <= D_C then Err(InvalidDimension)
    else if w.d >= U32 then Err(DimensionTooLarge)
    else if ProjectionLen(top, w.d) == None then Err(Overflow)
    else if |w.projection| != D_C * w.d then Err(LengthMismatch)
    else
      var n := FirstNonFinite(w.projection);
      if n < |w.projection| then Err(NonFinite(n))
      else if FileSize(top, HEADER, w.d) == None then Err(Overflow)
      else Ok(Sealed(CommonHeader(VERSION, w), Payload(w.projection)))
  }

  // ---- parsing -------------------------------------------------------------------------------

  function HeaderSize(version: nat): nat {
    if version == VERSION_V1 then COMMON_HEADER else HEADER
  }

  function PayloadWords(p: Bytes, n: nat): (r: seq<U32Word>)
    requires |p| == 4 * n
    ensures |r| == n
  {
    if n == 0 then [] else [U32At(p, 0)] + PayloadWords(p[4..], n - 1)
  }

  /** What is wrong with the fields of the common header, if anything. */
  function HeaderFault(h: Bytes): Option<WeightsError>
    requires |h| == COMMON_HEADER
  {
    if U32At(h, 8) <= D_C then Some(InvalidDimension)
    else if h[20] > 1 then Some(InvalidFlag)
    else if h[21] != 0 || h[22] != 0 || h[23] != 0 then Some(NonZeroPadding)
    else None
  }

  function FromBytes(top: nat, b: Bytes): Result<Weights, WeightsError> {
    if |b| < COMMON_HEADER then Err(TruncatedHeader)
    else
      var h := b[..COMMON_HEADER];
      var version := U32At(h, 4);
      if U32At(h, 0) != MAGIC then Err(BadMagic)
      else if version != VERSION_V1 && version != VERSION then Err(UnsupportedVersion)
      else if |b| < HeaderSize(version) then Err(TruncatedHeader)
      else if HeaderFault(h).Some? then Err(HeaderFault(h).value)
      else if FileSize(top, HeaderSize(version), U32At(h, 8)) == None then Err(Overflow)
      else if |b| != HeaderSize(version) + 4 * (D_C * U32At(h, 8)) then Err(SizeMismatch)
      else
        var p := b[HeaderSize(version)..];
        if version == VERSION && U32At(b, COMMON_HEADER) != Fnv.Checksum(h + p) then Err(ChecksumMismatch)
        else
          var values := PayloadWords(p, D_C * U32At(h, 8));
          var n := FirstNonFinite(values);
          if n < |values| then Err(NonFinite(n))
          else Ok(Weights(U32At(h, 8), U64At(h, 12), h[20] == 1, values))
  }

  // ---- the parts of a file ---------------------------------------------------------------------

  lemma HeaderReads(version: nat, w: Weights)
    requires version < U32 && w.d < U32
    ensures var h := CommonHeader(version, w);
      && U32At(h, 0) == MAGIC && U32At(h, 4) == version && U32At(h, 8) == w.d && U64At(h, 12) == w.seed
      && h[20] == FlagByte(w.rht) && h[21] == 0 && h[22] == 0 && h[23] == 0
  {
    CapacityValues();
    var h := CommonHeader(version, w);
    assert h[0..4] == ToLE(MAGIC, 4) && h[4..8] == ToLE(version, 4);
    assert h[8..12] == ToLE(w.d, 4) && h[12..20] == ToLE(w.seed, 8);
    DecodeEncode(MAGIC, 4);
    DecodeEncode(version, 4);
    DecodeEncode(w.d, 4);
    DecodeEncode(w.seed, 8);
  }

  lemma HeaderWrites(h: Bytes, values: seq<U32Word>)
    requires |h| == COMMON_HEADER && U32At(h, 0) == MAGIC && HeaderFault(h) == None
    ensures CommonHeader(U32At(h, 4), Weights(U32At(h, 8), U64At(h, 12), h[20] == 1, values)) == h
  {
    WritesBack(h, 0, 4);
    WritesBack(h, 4, 4);
    WritesBack(h, 8, 4);
    WritesBack(h, 12, 8);
    HeaderCut(h);
    assert FlagByte(h[20] == 1) == h[20];
  }

  lemma HeaderCut(h: Bytes)
    requires |h| == COMMON_HEADER
    requires h[21] == 0 && h[22] == 0 && h[23] == 0
    ensures h == HeaderOf(h[0..4], h[4..8], h[8..12], h[12..20], h[20])
  {
    Joined(h, 0, 4, 8);
    Joined(h, 0, 8, 12);
    Joined(h, 0, 12, 20);
    assert h[20..24] == [h[20]] + [0, 0, 0];
    Joined(h, 0, 20, 24);
  }

  lemma {:induction false} PayloadReads(values: seq<U32Word>)
    ensures PayloadWords(Payload(values), |values|) == values
  {
    if values != [] {
      CapacityValues();
      var p, first := Payload(values), ToLE(values[0], 4);
      assert p[0..4] == first && p[4..] == Payload(values[1..]);
      DecodeEncode(values[0], 4);
      PayloadReads(values[1..]);
    }
  }

  lemma {:induction false} PayloadWrites(p: Bytes, n: nat)
    requires |p| == 4 * n
    ensures Payload(PayloadWords(p, n)) == p
  {
    if n > 0 {
      var values := PayloadWords(p, n);
      PayloadWrites(p[4..], n - 1);
      WritesBack(p, 0, 4);
      assert values[0] == U32At(p, 0) && values[1..] == PayloadWords(p[4..], n - 1);
      assert p == p[0..4] + p[4..];
    }
  }

  lemma SealedParts(h: Bytes, p: Bytes)
    requires |h| == COMMON_HEADER
    ensures var b := Sealed(h, p);
      |b| == HEADER + |p| && b[..COMMON_HEADER] == h && b[HEADER..] == p
        && U32At(b, COMMON_HEADER) == Fnv.Checksum(h + p)
  {
    CapacityValues();
    var b, c := Sealed(h, p), Fnv.Checksum(h + p);
    assert b[COMMON_HEADER..HEADER] == ToLE(c, 4);
    DecodeEncode(c, 4);
  }

  lemma SealedFrom(b: Bytes)
    requires |b| >= HEADER && U32At(b, COMMON_HEADER) == Fnv.Checksum(b[..COMMON_HEADER] + b[HEADER..])
    ensures Sealed(b[..COMMON_HEADER], b[HEADER..]) == b
  {
    WritesBack(b, COMMON_HEADER, 4);
    assert b == b[..COMMON_HEADER] + b[COMMON_HEADER..HEADER] + b[HEADER..];
  }

  // ---- canonical both ways -------------------------------------------------------------------------

  /** Parsing a serialized projection returns it bit for bit. */
  lemma WeightsRoundTrip(top: nat, w: Weights)
    requires TryToBytes(top, w).Ok?
    ensures FromBytes(top, TryToBytes(top, w).value) == Ok(w)
  {
    var h, p := CommonHeader(VERSION, w), Payload(w.projection);
    HeaderReads(VERSION, w);
    SealedParts(h, p);
    PayloadReads(w.projection);
    ParsesParts(top, Sealed(h, p), h, p, w);
  }

  lemma ParsesParts(top: nat, b: Bytes, h: Bytes, p: Bytes, w: Weights)
    requires |h| == COMMON_HEADER && |b| == HEADER + |p| && b[..COMMON_HEADER] == h && b[HEADER..] == p
    requires U32At(h, 0) == MAGIC && U32At(h, 4) == VERSION && HeaderFault(h) == None
    requires U32At(b, COMMON_HEADER) == Fnv.Checksum(h + p)
    requires w.d == U32At(h, 8) && w.seed == U64At(h, 12) && w.rht == (h[20] == 1)
    requires |p| == 4 * (D_C * w.d) && FileSize(top, HEADER, w.d).Some?
    requires w.projection == PayloadWords(p, D_C * w.d) && FirstNonFinite(w.projection) == |w.projection|
    ensures FromBytes(top, b) == Ok(w)
  {
  }

  /** The version stored in a file. */
  function VersionOf(b: Bytes): nat {
    if |b| < 8 then 0 else U32At(b, 4)
  }

  lemma FieldsOf(b: Bytes, i: nat)
    requires |b| >= COMMON_HEADER && i + 4 <= COMMON_HEADER
    ensures U32At(b[..COMMON_HEADER], i) == U32At(b, i)
  {
    assert b[..COMMON_HEADER][i..i + 4] == b[i..i + 4];
  }

  /** Every accepted version-2 file is what the serializer emits for its contents. */
  lemma WeightsCanonical(top: nat, b: Bytes)
    requires FromBytes(top, b).Ok? && VersionOf(b) == VERSION
    ensures TryToBytes(top, FromBytes(top, b).value) == Ok(b)
  {
    var h, p, w := b[..COMMON_HEADER], b[HEADER..], FromBytes(top, b).value;
    FieldsOf(b, 4);
    HeaderWrites(h, w.projection);
    PayloadWrites(p, D_C * w.d);
    SealedFrom(b);
  }

  // ---- single-byte changes ---------------------------------------------------------------------------

  lemma ChecksumOfChange(s: Bytes, i: nat, x: Byte)
    requires i < |s| && s[i] != x
    ensures Fnv.Checksum(s[i := x]) != Fnv.Checksum(s)
  {
    Fnv.SingleByteChangeDetected(Fnv.OFFSET, s, i, x);
  }

  /** An accepted version-2 file carries the checksum of its header and payload. */
  lemma AcceptedV2(top: nat, b: Bytes)
    requires FromBytes(top, b).Ok? && VersionOf(b) == VERSION
    ensures |b| == HEADER + 4 * (D_C * U32At(b, 8))
    ensures U32At(b, COMMON_HEADER) == Fnv.Checksum(b[..COMMON_HEADER] + b[HEADER..])
  {
    FieldsOf(b, 4);
    FieldsOf(b, 8);
  }

  lemma AcceptedV1(top: nat, b: Bytes)
    requires FromBytes(top, b).Ok? && VersionOf(b) != VERSION
    ensures |b| == COMMON_HEADER + 4 * (D_C * U32At(b, 8))
  {
    FieldsOf(b, 4);
    FieldsOf(b, 8);
  }

  lemma WordUnchanged(b: Bytes, i: nat, x: Byte, at: nat)
    requires i < |b| && at + 4 <= |b| && !(at <= i < at + 4)
    ensures U32At(b[i := x], at) == U32At(b, at)
  {
    assert b[i := x][at..at + 4] == b[at..at + 4];
  }

  lemma WordChanged(b: Bytes, i: nat, x: Byte, at: nat)
    requires i < |b| && at <= i && i < at + 4 <= |b| && b[i] != x
    ensures U32At(b[i := x], at) != U32At(b, at)
  {
    var c := b[i := x];
    WritesBack(b, at, 4);
    WritesBack(c, at, 4);
    assert b[at..at + 4][i - at] != c[at..at + 4][i - at];
  }

  /** What the checksum covers. */
  function Covered(b: Bytes): Bytes
    requires |b| >= HEADER
  {
    b[..COMMON_HEADER] + b[HEADER..]
  }

  lemma CoveredChange(b: Bytes, i: nat, x: Byte)
    requires |b| >= HEADER && i < |b|
    ensures COMMON_HEADER <= i < HEADER ==> Covered(b[i := x]) == Covered(b)
    ensures i < COMMON_HEADER ==> Covered(b)[i] == b[i] && Covered(b[i := x]) == Covered(b)[i := x]
    ensures i >= HEADER ==> Covered(b)[i - 4] == b[i] && Covered(b[i := x]) == Covered(b)[i - 4 := x]
  {
  }

  /** Every change of one byte of a version-2 file, header included, is refused. */
  lemma WeightsChangeCaught(top: nat, b: Bytes, i: nat, x: Byte)
    requires FromBytes(top, b).Ok? && VersionOf(b) == VERSION
    requires i < |b| && b[i] != x
    ensures FromBytes(top, b[i := x]).Err?
  {
    var c := b[i := x];
    AcceptedV2(top, b);
    SealBroken(b, i, x);
    if FromBytes(top, c).Ok? {
      if VersionOf(c) == VERSION {
        AcceptedV2(top, c);
      } else {
        OnlyVersionMoved(b, i, x);
        AcceptedV1(top, c);
      }
    }
  }

  /** After a change of one byte the stored checksum no longer matches. */
  lemma SealBroken(b: Bytes, i: nat, x: Byte)
    requires |b| >= HEADER && i < |b| && b[i] != x && U32At(b, COMMON_HEADER) == Fnv.Checksum(Covered(b))
    ensures U32At(b[i := x], COMMON_HEADER) != Fnv.Checksum(Covered(b[i := x]))
  {
    CoveredChange(b, i, x);
    if i < COMMON_HEADER {
      ChecksumOfChange(Covered(b), i, x);
      WordUnchanged(b, i, x, COMMON_HEADER);
    } else if i < HEADER {
      WordChanged(b, i, x, COMMON_HEADER);
    } else {
      ChecksumOfChange(Covered(b), i - 4, x);
      WordUnchanged(b, i, x, COMMON_HEADER);
    }
  }

  lemma OnlyVersionMoved(b: Bytes, i: nat, x: Byte)
    requires |b| >= HEADER && i < |b| && VersionOf(b[i := x]) != VersionOf(b)
    ensures U32At(b[i := x], 8) == U32At(b, 8)
  {
    if !(4 <= i < 8) {
      WordUnchanged(b, i, x, 4);
    } else {
      WordUnchanged(b, i, x, 8);
    }
  }

  // ---- the loops ----------------------------------------------------------------------------------------

  method FindNonFinite(s: seq<U32Word>) returns (n: nat)
    ensures n == FirstNonFinite(s)
  {
    n := 0;
    while n < |s| && IsFinite(s[n])
      invariant n <= |s| && forall i :: 0 <= i < n ==> IsFinite(s[i])
    {
      n := n + 1;
    }
    FirstNonFiniteIs(s, n);
  }

  lemma FirstNonFiniteIs(s: seq<U32Word>, n: nat)
    requires n <= |s| && (forall i :: 0 <= i < n ==> IsFinite(s[i])) && (n < |s| ==> !IsFinite(s[n]))
    ensures FirstNonFinite(s) == n
  {
  }

  method WeightsChecksum(header: Bytes, payload: Bytes) returns (hash: Fnv.Hash)
    ensures hash == Fnv.Checksum(header + payload)
  {
    hash := Fnv.Extend(Fnv.OFFSET, header);
    hash := Fnv.Extend(hash, payload);
    Fnv.FoldConcat(Fnv.OFFSET, header, payload);
  }

  /** Appends the coefficients one after the other. */
  method AppendPayload(out: Bytes, values: seq<U32Word>) returns (r: Bytes)
    ensures r == out + Payload(values)
  {
    r := out;
    var i := 0;
    while i < |values|
      invariant 0 <= i <= |values|
      invariant r + Payload(values[i..]) == out + Payload(values)
    {
      AppendsOne(r, values[i..]);
      r := r + ToLE(values[i], 4);
      assert values[i..][1..] == values[i + 1..];
      i := i + 1;
    }
    assert r + [] == r;
  }

  lemma AppendsOne(out: Bytes, values: seq<U32Word>)
    requires values != []
    ensures out + Payload(values) == (out + ToLE(values[0], 4)) + Payload(values[1..])
  {
  }

  method WriteWeights(top: nat, w: Weights) returns (r: Result<Bytes, WeightsError>)
    ensures r == TryToBytes(top, w)
  {
    if w.d <= D_C {
      return Err(InvalidDimension);
    }
    if w.d >= U32 {
      return Err(DimensionTooLarge);
    }
    if ProjectionLen(top, w.d) == None {
      return Err(Overflow);
    }
    if |w.projection| != D_C * w.d {
      return Err(LengthMismatch);
    }
    var n := FindNonFinite(w.projection);
    if n < |w.projection| {
      return Err(NonFinite(n));
    }
    if FileSize(top, HEADER, w.d) == None {
      return Err(Overflow);
    }
    var header := CommonHeader(VERSION, w);
    var out := AppendPayload(header + ToLE(0, 4), w.projection);
    Placeholder(header, ToLE(0, 4), Payload(w.projection));
    var checksum := WeightsChecksum(out[..COMMON_HEADER], out[HEADER..]);
    out := out[..COMMON_HEADER] + ToLE(checksum, 4) + out[HEADER..];
    r := Ok(out);
  }

  lemma Placeholder(h: Bytes, zero: Bytes, p: Bytes)
    requires |h| == COMMON_HEADER && |zero| == 4
    ensures var out := h + zero + p; |out| >= HEADER && out[..COMMON_HEADER] == h && out[HEADER..] == p
  {
  }

  lemma {:induction false} PayloadWordAt(p: Bytes, n: nat, i: nat)
    requires |p| == 4 * n && i < n
    ensures PayloadWords(p, n)[i] == U32At(p, 4 * i)
  {
    if i > 0 {
      PayloadWordAt(p[4..], n - 1, i - 1);
      assert p[4..][4 * (i - 1)..4 * (i - 1) + 4] == p[4 * i..4 * i + 4];
    }
  }

  lemma WordAfter(b: Bytes, header: nat, at: nat)
    requires header + at + 4 <= |b|
    ensures U32At(b[header..], at) == U32At(b, header + at)
  {
    assert b[header..][at..at + 4] == b[header + at..header + at + 4];
  }

  /** Reads the coefficients, stopping at the first that is not finite. */
  method ReadPayload(b: Bytes, header: nat, elements: nat) returns (r: Result<seq<U32Word>, WeightsError>)
    requires |b| == header + 4 * elements
    ensures var values := PayloadWords(b[header..], elements);
      r == if FirstNonFinite(values) < |values| then Err(NonFinite(FirstNonFinite(values))) else Ok(values)
  {
    ghost var values := PayloadWords(b[header..], elements);
    var projection: seq<U32Word> := [];
    var index := 0;
    while index < elements
      invariant 0 <= index <= elements && projection == values[..index]
      invariant forall i :: 0 <= i < index ==> IsFinite(values[i])
    {
      PayloadWordAt(b[header..], elements, index);
      WordAfter(b, header, 4 * index);
      var value := U32At(b, header + 4 * index);
      if !IsFinite(value) {
        FirstNonFiniteIs(values, index);
        return Err(NonFinite(index));
      }
      projection := projection + [value];
      index := index + 1;
    }
    FirstNonFiniteIs(values, elements);
    assert values[..elements] == values;
    r := Ok(projection);
  }

  method ReadWeights(top: nat, b: Bytes) returns (r: Result<Weights, WeightsError>)
    ensures r == FromBytes(top, b)
  {
    if |b| < COMMON_HEADER {
      return Err(TruncatedHeader);
    }
    var h := b[..COMMON_HEADER];
    if U32At(h, 0) != MAGIC {
      return Err(BadMagic);
    }
    var version := U32At(h, 4);
    if version != VERSION_V1 && version != VERSION {
      return Err(UnsupportedVersion);
    }
    var header := HeaderSize(version);
    if |b| < header {
      return Err(TruncatedHeader);
    }
    var fault := HeaderFault(h);
    if fault.Some? {
      return Err(fault.value);
    }
    var expected := FileSize(top, header, U32At(h, 8));
    if expected == None {
      return Err(Overflow);
    }
    if |b| != expected.value {
      return Err(SizeMismatch);
    }
    if version == VERSION {
      var calculated := WeightsChecksum(h, b[HEADER..]);
      if U32At(b, COMMON_HEADER) != calculated {
        return Err(ChecksumMismatch);
      }
    }
    var projection := ReadPayload(b, header, D_C * U32At(h, 8));
    if projection.Err? {
      return Err(projection.error);
    }
    r := Ok(Weights(U32At(h, 8), U64At(h, 12), h[20] == 1, projection.value));
  }
}
