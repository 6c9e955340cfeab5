/** The 128-byte SLHA tile: its fields, state flags and byte image. */
module Tiles {
  import opened Words

  type U16Word = n: nat | n < U16
  type U32Word = n: nat | n < U32
  type U64Word = n: nat | n < U64

  const LATENT_BYTES := 64
  const RESIDUAL_WORDS := 4
  const N_GROUPS := 8
  const TILE_BYTES := 128

  const FLAG_WARM := 1
  const FLAG_TQ3 := 8
  const FLAG_TQ3_NOCORR := 16
  const FLAG_MIX3 := 32

  const TQ3_CORR_BYTES := 16
  const MIX3_CORR_BYTES := 14

  /** The `f32` fields are kept as their 32-bit patterns. */
  datatype TileData = Tile(
    latent: Bytes, residual: seq<U64Word>,
    scale: U32Word, lambda: U32Word, sigma: U32Word,
    tokenId: U32Word, position: U32Word,
    headId: U16Word, flags: U16Word, groupScales: Bytes)

  predicate Shaped(t: TileData) {
    |t.latent| == LATENT_BYTES && |t.residual| == RESIDUAL_WORDS && |t.groupScales| == N_GROUPS
  }

  function Zeros(n: nat): (r: Bytes)
    ensures |r| == n
    ensures forall i :: 0 <= i < n ==> r[i] == 0
  {
    seq(n, _ => 0)
  }

  type Tile = t: TileData | Shaped(t)
    witness Tile(Zeros(64), [0, 0, 0, 0], 0, 0, 0, 0, 0, 0, 0, Zeros(8))

  // ---- flags -------------------------------------------------------------

  predicate IsFlag(mask: nat) {
    mask == FLAG_WARM || mask == FLAG_TQ3 || mask == FLAG_TQ3_NOCORR || mask == FLAG_MIX3
  }

  /** `flags & mask != 0` for a single-bit mask. */
  predicate HasFlag(flags: U16Word, mask: nat)
    requires IsFlag(mask)
  {
    if mask == FLAG_WARM then flags % 2 == 1
    else if mask == FLAG_TQ3 then flags / 8 % 2 == 1
    else if mask == FLAG_TQ3_NOCORR then flags / 16 % 2 == 1
    else flags / 32 % 2 == 1
  }

  /** `flags | mask` for a single-bit mask: that bit is set, the others are kept. */
  function SetFlag(flags: U16Word, mask: nat): (r: U16Word)
    requires IsFlag(mask)
    ensures HasFlag(r, mask)
    ensures forall other :: IsFlag(other) && other != mask ==> (HasFlag(r, other) <==> HasFlag(flags, other))
  {
    if HasFlag(flags, mask) then flags else SetFlagFits(flags, mask); flags + mask
  }

  lemma SetFlagFits(flags: U16Word, mask: nat)
    requires IsFlag(mask) && !HasFlag(flags, mask)
    ensures flags + mask < U16
    ensures HasFlag(flags + mask, mask)
    ensures forall other :: IsFlag(other) && other != mask ==> (HasFlag(flags + mask, other) <==> HasFlag(flags, other))
  {
    var w, low, c, n, m, high := Split(flags);
    if mask == FLAG_WARM {
      Digits(1, low, c, n, m, high);
    } else if mask == FLAG_TQ3 {
      Digits(w, low, 1, n, m, high);
    } else if mask == FLAG_TQ3_NOCORR {
      Digits(w, low, c, 1, m, high);
    } else {
      Digits(w, low, c, n, 1, high);
    }
  }

  lemma Split(f: U16Word) returns (w: nat, low: nat, c: nat, n: nat, m: nat, high: nat)
    ensures w == f % 2 && c == f / 8 % 2 && n == f / 16 % 2 && m == f / 32 % 2
    ensures w < 2 && low < 4 && c < 2 && n < 2 && m < 2 && high < 1024
    ensures f == w + 2 * low + 8 * c + 16 * n + 32 * m + 64 * high
  {
    var f8, r8 := f / 8, f % 8;
    w, low, c := r8 % 2, r8 / 2, f8 % 2;
    var f16 := f8 / 2;
    var f32 := f16 / 2;
    n, m, high := f16 % 2, f32 % 2, f32 / 2;
    QuotientsChain(f);
    assert f == 8 * f8 + r8 && f8 == 2 * f16 + c && f16 == 2 * f32 + n && f32 == 2 * high + m;
  }

  lemma QuotientsChain(f: nat)
    ensures f / 8 / 2 == f / 16 && f / 16 / 2 == f / 32 && f % 8 % 2 == f % 2
  {
  }

  lemma Digits(w: nat, low: nat, c: nat, n: nat, m: nat, high: nat)
    requires w < 2 && low < 4 && c < 2 && n < 2 && m < 2 && high < 1024
    ensures var f := w + 2 * low + 8 * c + 16 * n + 32 * m + 64 * high;
      f < U16 && f % 2 == w && f / 8 % 2 == c && f / 16 % 2 == n && f / 32 % 2 == m
  {
    var f5 := m + 2 * high;
    var f4 := n + 2 * f5;
    var f3 := c + 2 * f4;
    var f := w + 2 * low + 8 * f3;
    QuotientsChain(f);
    Halves(m, high);
    Halves(n, f5);
    Halves(c, f4);
    Halves(w, low + 4 * f3);
    assert f / 8 == f3 by {
      Eighths(w + 2 * low, f3);
    }
  }

  lemma Halves(bit: nat, rest: nat)
    requires bit < 2
    ensures (bit + 2 * rest) / 2 == rest && (bit + 2 * rest) % 2 == bit
  {
  }

  lemma Eighths(low: nat, rest: nat)
    requires low < 8
    ensures (low + 8 * rest) / 8 == rest
  {
  }

  function IsWarm(t: Tile): bool { HasFlag(t.flags, FLAG_WARM) }
  function NoCorr(t: Tile): bool { HasFlag(t.flags, FLAG_TQ3_NOCORR) }

  /** Bytes of the separable correction plane: 16 for TQ3, 14 for MIX3, else 0. */
  function SeparableBytes(t: Tile): nat {
    if HasFlag(t.flags, FLAG_TQ3) then TQ3_CORR_BYTES
    else if HasFlag(t.flags, FLAG_MIX3) then MIX3_CORR_BYTES
    else 0
  }

  // ---- byte image ----------------------------------------------------------

  function WordsToBytes(ws: seq<U64Word>): (r: Bytes)
    ensures |r| == 8 * |ws|
  {
    if ws == [] then [] else ToLE(ws[0], 8) + WordsToBytes(ws[1..])
  }

  function WordAt(b: Bytes, offset: nat, width: nat): (r: nat)
    requires offset + width <= |b|
    ensures r < Capacity(width)
  {
    FromLEBounded(b[offset..offset + width]);
    FromLE(b[offset..offset + width])
  }

  function U16At(b: Bytes, offset: nat): U16Word
    requires offset + 2 <= |b|
  {
    CapacityValues(); WordAt(b, offset, 2)
  }

  function U32At(b: Bytes, offset: nat): U32Word
    requires offset + 4 <= |b|
  {
    CapacityValues(); WordAt(b, offset, 4)
  }

  function U64At(b: Bytes, offset: nat): U64Word
    requires offset + 8 <= |b|
  {
    CapacityValues(); WordAt(b, offset, 8)
  }

  /** The scalar fields between the residual bitmap and the group scales. */
  function ScalarBytes(t: Tile): (r: Bytes)
    ensures |r| == 24
  {
    ToLE(t.scale, 4) + ToLE(t.lambda, 4) + ToLE(t.sigma, 4)
    + ToLE(t.tokenId, 4) + ToLE(t.position, 4) + ToLE(t.headId, 2) + ToLE(t.flags, 2)
  }

  function TileToBytes(t: Tile): (r: Bytes)
    ensures |r| == TILE_BYTES
  {
    t.latent + WordsToBytes(t.residual) + ScalarBytes(t) + t.groupScales
  }

  function TileFromBytes(b: Bytes): (t: Tile)
    requires |b| == TILE_BYTES
  {
    Tile(b[0..64], [U64At(b, 64), U64At(b, 72), U64At(b, 80), U64At(b, 88)],
         U32At(b, 96), U32At(b, 100), U32At(b, 104), U32At(b, 108), U32At(b, 112),
         U16At(b, 116), U16At(b, 118), b[120..128])
  }

  /** The bytes of a word that was read are the bytes it is written as. */
  lemma WritesBack(b: Bytes, offset: nat, width: nat)
    requires offset + width <= |b|
    ensures ToLE(WordAt(b, offset, width), width) == b[offset..offset + width]
  {
    EncodeDecode(b[offset..offset + width]);
  }

  lemma ScalarsReadBack(t: Tile, b: Bytes)
    requires |b| == TILE_BYTES && b[96..120] == ScalarBytes(t)
    ensures U32At(b, 96) == t.scale && U32At(b, 100) == t.lambda && U32At(b, 104) == t.sigma
    ensures U32At(b, 108) == t.tokenId && U32At(b, 112) == t.position
    ensures U16At(b, 116) == t.headId && U16At(b, 118) == t.flags
  {
    CapacityValues();
    Nested(b, 96, 120, 0, 4);
    assert b[96..120][0..4] == ToLE(t.scale, 4);
    Nested(b, 96, 120, 4, 8);
    assert b[96..120][4..8] == ToLE(t.lambda, 4);
    Nested(b, 96, 120, 8, 12);
    assert b[96..120][8..12] == ToLE(t.sigma, 4);
    Nested(b, 96, 120, 12, 16);
    assert b[96..120][12..16] == ToLE(t.tokenId, 4);
    Nested(b, 96, 120, 16, 20);
    assert b[96..120][16..20] == ToLE(t.position, 4);
    Nested(b, 96, 120, 20, 22);
    assert b[96..120][20..22] == ToLE(t.headId, 2);
    Nested(b, 96, 120, 22, 24);
    assert b[96..120][22..24] == ToLE(t.flags, 2);
    DecodeEncode(t.scale, 4);
    DecodeEncode(t.lambda, 4);
    DecodeEncode(t.sigma, 4);
    DecodeEncode(t.tokenId, 4);
    DecodeEncode(t.position, 4);
    DecodeEncode(t.headId, 2);
    DecodeEncode(t.flags, 2);
  }

  lemma ResidualReadsBack(ws: seq<U64Word>, b: Bytes)
    requires |ws| == RESIDUAL_WORDS && |b| == TILE_BYTES && b[64..96] == WordsToBytes(ws)
    ensures [U64At(b, 64), U64At(b, 72), U64At(b, 80), U64At(b, 88)] == ws
  {
    FourWords(ws);
    FourParts(ToLE(ws[0], 8), ToLE(ws[1], 8), ToLE(ws[2], 8), ToLE(ws[3], 8));
    WordReadsBack(b, 64, 0, ws[0]);
    WordReadsBack(b, 64, 8, ws[1]);
    WordReadsBack(b, 64, 16, ws[2]);
    WordReadsBack(b, 64, 24, ws[3]);
  }

  /** A word stored at an offset of the residual plane. */
  lemma WordReadsBack(b: Bytes, base: nat, offset: nat, w: U64Word)
    requires base + 32 <= |b| && offset + 8 <= 32 && b[base..base + 32][offset..offset + 8] == ToLE(w, 8)
    ensures U64At(b, base + offset) == w
  {
    CapacityValues();
    Nested(b, base, base + 32, offset, offset + 8);
    DecodeEncode(w, 8);
  }

  /** The slices of four parts written one after the other. */
  lemma FourParts<T>(a: seq<T>, b: seq<T>, c: seq<T>, d: seq<T>)
    ensures var s := a + b + c + d;
      && s[0..|a|] == a
      && s[|a|..|a| + |b|] == b
      && s[|a| + |b|..|a| + |b| + |c|] == c
      && s[|a| + |b| + |c|..|a| + |b| + |c| + |d|] == d
  {
  }

  lemma FourWords(ws: seq<U64Word>)
    requires |ws| == RESIDUAL_WORDS
    ensures WordsToBytes(ws) == ToLE(ws[0], 8) + ToLE(ws[1], 8) + ToLE(ws[2], 8) + ToLE(ws[3], 8)
  {
    var r1, r2, r3 := ws[1..], ws[2..], ws[3..];
    assert r1[1..] == r2 && r2[1..] == r3 && r3[1..] == [];
    assert WordsToBytes(r3) == ToLE(ws[3], 8);
    assert WordsToBytes(r2) == ToLE(ws[2], 8) + ToLE(ws[3], 8);
  }

  lemma TileDecodesEncoded(t: Tile)
    ensures TileFromBytes(TileToBytes(t)) == t
  {
    var b := TileToBytes(t);
    FourParts(t.latent, WordsToBytes(t.residual), ScalarBytes(t), t.groupScales);
    ResidualReadsBack(t.residual, b);
    ScalarsReadBack(t, b);
  }

  lemma TileEncodesDecoded(b: Bytes)
    requires |b| == TILE_BYTES
    ensures TileToBytes(TileFromBytes(b)) == b
  {
    var t := TileFromBytes(b);
    ResidualWritesBack(b);
    ScalarsWriteBack(b);
    assert b == b[0..64] + b[64..96] + b[96..120] + b[120..128];
  }

  lemma ResidualWritesBack(b: Bytes)
    requires |b| == TILE_BYTES
    ensures WordsToBytes(TileFromBytes(b).residual) == b[64..96]
  {
    FourWords(TileFromBytes(b).residual);
    WritesBack(b, 64, 8);
    WritesBack(b, 72, 8);
    WritesBack(b, 80, 8);
    WritesBack(b, 88, 8);
    Joined(b, 64, 72, 80);
    Joined(b, 64, 80, 88);
    Joined(b, 64, 88, 96);
  }

  lemma ScalarsWriteBack(b: Bytes)
    requires |b| == TILE_BYTES
    ensures ScalarBytes(TileFromBytes(b)) == b[96..120]
  {
    WritesBack(b, 96, 4);
    WritesBack(b, 100, 4);
    WritesBack(b, 104, 4);
    WritesBack(b, 108, 4);
    WritesBack(b, 112, 4);
    WritesBack(b, 116, 2);
    WritesBack(b, 118, 2);
    Joined(b, 96, 100, 104);
    Joined(b, 96, 104, 108);
    Joined(b, 96, 108, 112);
    Joined(b, 96, 112, 116);
    Joined(b, 96, 116, 118);
    Joined(b, 96, 118, 120);
  }
}
