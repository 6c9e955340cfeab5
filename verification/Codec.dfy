/** The latent codecs of a tile, over the reals: how a dimension is decoded, and
    what dropping the separable correction plane does to it and to the score.
    `scale` is the number the tile's scale pattern stands for. */
module Codec {
  import opened Words
  import opened Tiles
  import opened CacheModel
  import Sums

  const D_C := 128
  const GROUP_DIM := 16
  const TQ3_CODE_BYTES := 48
  const MIXED_HI_DIMS := 8
  const MIXED_DIMS := 120
  const MIX3_CODES_OFF := 8
  const MIX3_CORR_OFF := 50

  // ---- bits --------------------------------------------------------------------------------

  /** `x >> k`: halving `k` times. */
  function ShiftRight(x: nat, k: nat): nat {
    if k == 0 then x else ShiftRight(x / 2, k - 1)
  }

  /** Bit `k` of a string of bytes. */
  function PlaneBit(plane: Bytes, k: nat): nat
    requires k < 8 * |plane|
  {
    ShiftRight(plane[k / 8], k % 8) % 2
  }

  /** The three bits of a two-byte window at a shift. */
  function Window(lo: Byte, hi: Byte, shift: nat): nat {
    ShiftRight(lo + 256 * hi, shift) % 8
  }

  /** The 3-bit code of dimension `d` in the plane from `base` up to `limit`. */
  function CodeAt(latent: Bytes, base: nat, limit: nat, d: nat): nat
    requires base + 3 * d / 8 < limit <= |latent|
  {
    var byte := base + 3 * d / 8;
    Window(latent[byte], if byte + 1 < limit then latent[byte + 1] else 0, 3 * d % 8)
  }

  lemma LowBits(y: nat)
    ensures y % 8 == y % 2 + 2 * (y / 2 % 2) + 4 * (y / 2 / 2 % 2)
  {
    var z := y / 2;
    var w := z / 2;
    assert y == 2 * z + y % 2 && z == 2 * w + z % 2 && w == 2 * (w / 2) + w % 2;
    assert y == 8 * (w / 2) + (y % 2 + 2 * (z % 2) + 4 * (w % 2));
  }

  lemma {:induction false} ShiftOneMore(x: nat, k: nat)
    ensures ShiftRight(x, k + 1) == ShiftRight(x, k) / 2
  {
    if k > 0 {
      ShiftOneMore(x / 2, k - 1);
    }
  }

  /** Shifting a sum whose second part ends in `n` zero bits. */
  lemma {:induction false} ShiftHigh(x: nat, h: nat, n: nat, k: nat)
    requires k <= n
    ensures ShiftRight(x + Raised(h, n), k) == ShiftRight(x, k) + Raised(h, n - k)
    decreases k
  {
    if k > 0 {
      assert Raised(h, n) == 2 * Raised(h, n - 1);
      assert (x + 2 * Raised(h, n - 1)) / 2 == x / 2 + Raised(h, n - 1);
      ShiftHigh(x / 2, h, n - 1, k - 1);
    }
  }

  /** `h << n`. */
  function Raised(h: nat, n: nat): nat {
    if n == 0 then h else 2 * Raised(h, n - 1)
  }

  lemma {:induction false} ShiftedOut(x: nat, k: nat)
    requires x < Pow2(k)
    ensures ShiftRight(x, k) == 0
  {
    if k > 0 {
      ShiftedOut(x / 2, k - 1);
    }
  }

  lemma RaisedTwice(h: nat, n: nat)
    ensures Raised(h, n + 2) == 4 * Raised(h, n)
  {
    assert Raised(h, n + 2) == 2 * Raised(h, n + 1);
  }

  lemma RaisedByte(h: nat)
    ensures Raised(h, 8) == 256 * h
  {
    RaisedTwice(h, 0);
    RaisedTwice(h, 2);
    RaisedTwice(h, 4);
    RaisedTwice(h, 6);
  }

  lemma LowerBit(x: nat, h: nat, n: nat, k: nat)
    requires k < n
    ensures ShiftRight(x + Raised(h, n), k) % 2 == ShiftRight(x, k) % 2
  {
    ShiftHigh(x, h, n, k);
    EvenAdds(ShiftRight(x, k), Raised(h, n - k - 1));
  }

  lemma EvenAdds(a: nat, r: nat)
    ensures (a + 2 * r) % 2 == a % 2
  {
  }

  lemma UpperPart(x: nat, h: nat, n: nat)
    requires x < Pow2(n)
    ensures ShiftRight(x + Raised(h, n), n) == h
  {
    ShiftHigh(x, h, n, n);
    ShiftedOut(x, n);
  }

  /** Bit `k` of a two-byte window. */
  function WindowBit(lo: Byte, hi: Byte, k: nat): nat
    requires k < 16
  {
    if k < 8 then ShiftRight(lo, k) % 2 else ShiftRight(hi, k - 8) % 2
  }

  lemma WindowBits(lo: Byte, hi: Byte, k: nat)
    requires k < 10
    ensures ShiftRight(lo + 256 * hi, k) % 2 == WindowBit(lo, hi, k)
  {
    RaisedByte(hi);
    if k < 8 {
      LowerBit(lo, hi, 8, k);
    } else {
      Pow2Values();
      UpperPart(lo, hi, 8);
      ShiftOneMore(lo + 256 * hi, 8);
      ShiftOneMore(hi, 0);
    }
  }

  lemma WindowIsBits(lo: Byte, hi: Byte, shift: nat)
    requires shift < 8
    ensures Window(lo, hi, shift)
         == WindowBit(lo, hi, shift) + 2 * WindowBit(lo, hi, shift + 1) + 4 * WindowBit(lo, hi, shift + 2)
  {
    var x := lo + 256 * hi;
    LowBits(ShiftRight(x, shift));
    ShiftOneMore(x, shift);
    ShiftOneMore(x, shift + 1);
    WindowBits(lo, hi, shift);
    WindowBits(lo, hi, shift + 1);
    WindowBits(lo, hi, shift + 2);
  }

  /** A bit of the window is a bit of the plane. */
  lemma WindowBitOfPlane(plane: Bytes, k: nat, j: nat)
    requires k + j < 8 * |plane| && j < 3
    ensures var byte := k / 8;
      WindowBit(plane[byte], if byte + 1 < |plane| then plane[byte + 1] else 0, k % 8 + j) == PlaneBit(plane, k + j)
  {
    if k % 8 + j < 8 {
      assert (k + j) / 8 == k / 8 && (k + j) % 8 == k % 8 + j;
    } else {
      assert (k + j) / 8 == k / 8 + 1 && (k + j) % 8 == k % 8 + j - 8;
    }
  }

  /** The window read yields bits [3d, 3d+3) of the code plane and nothing else. */
  lemma CodeIsPlaneBits(latent: Bytes, base: nat, limit: nat, d: nat)
    requires base <= limit <= |latent| && 3 * d + 3 <= 8 * (limit - base)
    ensures var plane := latent[base..limit];
      CodeAt(latent, base, limit, d)
      == PlaneBit(plane, 3 * d) + 2 * PlaneBit(plane, 3 * d + 1) + 4 * PlaneBit(plane, 3 * d + 2)
  {
    var plane, k := latent[base..limit], 3 * d;
    var lo, hi := plane[k / 8], if k / 8 + 1 < |plane| then plane[k / 8 + 1] else 0;
    assert CodeAt(latent, base, limit, d) == Window(lo, hi, k % 8);
    WindowIsBits(lo, hi, k % 8);
    WindowBitOfPlane(plane, k, 0);
    WindowBitOfPlane(plane, k, 1);
    WindowBitOfPlane(plane, k, 2);
  }

  // ---- decoding ---------------------------------------------------------------------------------

  datatype Kind = Mixed | Tq3 | Mix3 | Nf4 | Int4

  /** The codec selected by a tile's flags: the first that applies. */
  function KindOf(flags: U16Word): Kind {
    if flags / 4 % 2 == 1 then Mixed
    else if HasFlag(flags, FLAG_TQ3) then Tq3
    else if HasFlag(flags, FLAG_MIX3) then Mix3
    else if flags / 2 % 2 == 1 then Nf4
    else Int4
  }

  function GroupScale(t: Tile, scale: real, g: nat): real
    requires g < N_GROUPS
  {
    Sums.Times(scale, t.groupScales[g] as real / 255.0)
  }

  function Nibble(b: Byte, high: bool): nat {
    if high then b / 16 else b % 16
  }

  function Nf4Level(n: nat): real {
    var codebook := [-1.0, -0.7075, -0.5421, -0.4165, -0.3108, -0.2158, -0.1272, -0.0421,
                     0.0421, 0.1272, 0.2158, 0.3108, 0.4165, 0.5421, 0.7075, 1.0];
    if n < 16 then codebook[n] else 0.0
  }

  /** The correction step of a dimension: up for a set bit, down for a clear one. */
  function Step(latent: Bytes, offset: nat, d: nat): real
    requires offset <= |latent| && d < 8 * (|latent| - offset)
  {
    if ShiftRight(latent[offset + d / 8], d % 8) % 2 == 1 then 0.25 else -0.25
  }

  function HeadValue(t: Tile, scale: real, d: nat): real
    requires d < MIXED_HI_DIMS
  {
    Sums.Times((t.latent[d] as int - 128) as real, GroupScale(t, scale, 0))
  }

  function MixedValue(t: Tile, scale: real, d: nat): real
    requires d < D_C
  {
    if d < MIXED_HI_DIMS then HeadValue(t, scale, d)
    else if d < MIXED_DIMS then
      var ld := d - MIXED_HI_DIMS;
      Sums.Times((Nibble(t.latent[MIXED_HI_DIMS + ld / 2], ld % 2 == 1) - 8) as real,
          GroupScale(t, scale, 1 + ld / GROUP_DIM))
    else 0.0
  }

  /** A 3-bit code with its correction step, if any, at a scale. */
  function Decoded(code: nat, step: real, s: real): real {
    Sums.Times(code as real - 3.5 + step, s)
  }

  /** Dimension `d` of a body with its codes in `base..limit` and its correction
      plane from `limit` on. */
  function BodyValue(t: Tile, base: nat, limit: nat, d: nat, s: real): real
    requires base + 3 * d / 8 < limit <= LATENT_BYTES && d < 8 * (LATENT_BYTES - limit)
  {
    Decoded(CodeAt(t.latent, base, limit, d), if NoCorr(t) then 0.0 else Step(t.latent, limit, d), s)
  }

  function Tq3Value(t: Tile, scale: real, d: nat): real
    requires d < D_C
  {
    BodyValue(t, 0, TQ3_CODE_BYTES, d, GroupScale(t, scale, d / GROUP_DIM))
  }

  function Mix3Value(t: Tile, scale: real, d: nat): real
    requires d < D_C
  {
    if d < MIXED_HI_DIMS then HeadValue(t, scale, d)
    else if d >= MIXED_DIMS then 0.0
    else
      var ld := d - MIXED_HI_DIMS;
      BodyValue(t, MIX3_CODES_OFF, MIX3_CORR_OFF, ld, GroupScale(t, scale, 1 + ld / GROUP_DIM))
  }

  function NibbleValue(t: Tile, scale: real, d: nat, nf4: bool): real
    requires d < D_C
  {
    var n := Nibble(t.latent[d / 2], d % 2 == 1);
    Sums.Times(if nf4 then Nf4Level(n) else (n - 8) as real, GroupScale(t, scale, d / GROUP_DIM))
  }

  /** The decoded value of dimension `d`. */
  function Value(t: Tile, scale: real, d: nat): real
    requires d < D_C
  {
    match KindOf(t.flags)
    case Mixed => MixedValue(t, scale, d)
    case Tq3 => Tq3Value(t, scale, d)
    case Mix3 => Mix3Value(t, scale, d)
    case Nf4 => NibbleValue(t, scale, d, true)
    case Int4 => NibbleValue(t, scale, d, false)
  }

  // ---- dropping the correction plane ---------------------------------------------------------------

  /** The dimensions a codec's correction plane covers. */
  predicate Covered(kind: Kind, d: nat) {
    match kind
    case Tq3 => d < D_C
    case Mix3 => MIXED_HI_DIMS <= d < MIXED_DIMS
    case _ => false
  }

  /** The scale of a covered dimension. */
  function CoveredScale(t: Tile, scale: real, kind: Kind, d: nat): real
    requires d < D_C && Covered(kind, d)
  {
    if kind == Tq3 then GroupScale(t, scale, d / GROUP_DIM)
    else GroupScale(t, scale, 1 + (d - MIXED_HI_DIMS) / GROUP_DIM)
  }

  /** The correction bit of a covered dimension, as a step. */
  function CoveredStep(t: Tile, kind: Kind, d: nat): (r: real)
    requires d < D_C && Covered(kind, d)
    ensures r == 0.25 || r == -0.25
  {
    if kind == Tq3 then Step(t.latent, TQ3_CODE_BYTES, d) else Step(t.latent, MIX3_CORR_OFF, d - MIXED_HI_DIMS)
  }

  /** Dropping the plane does not change the codec. */
  lemma KindKept(flags: U16Word)
    ensures KindOf(SetFlag(flags, FLAG_TQ3_NOCORR)) == KindOf(flags)
  {
    AddSixteen(flags);
    var g := SetFlag(flags, FLAG_TQ3_NOCORR);
    assert g == flags || g == flags + 16;
    SameKind(flags, g);
  }

  lemma AddSixteen(f: nat)
    ensures (f + 16) / 4 % 2 == f / 4 % 2 && (f + 16) / 2 % 2 == f / 2 % 2
  {
    assert (f + 16) / 4 == f / 4 + 4 && (f + 16) / 2 == f / 2 + 8;
  }

  lemma SameKind(f: U16Word, g: U16Word)
    requires f / 4 % 2 == g / 4 % 2 && f / 2 % 2 == g / 2 % 2
    requires (HasFlag(f, FLAG_TQ3) <==> HasFlag(g, FLAG_TQ3)) && (HasFlag(f, FLAG_MIX3) <==> HasFlag(g, FLAG_MIX3))
    ensures KindOf(f) == KindOf(g)
  {
  }

  lemma PlaneOfKind(t: Tile)
    requires Droppable(t) && KindOf(t.flags) != Mixed
    ensures (KindOf(t.flags) == Tq3 && SeparableBytes(t) == TQ3_CORR_BYTES)
         || (KindOf(t.flags) == Mix3 && SeparableBytes(t) == MIX3_CORR_BYTES)
  {
  }

  /** `validate_codec`: at most one codec flag, and the flag of a dropped plane only
      on a codec that has one. */
  predicate ValidCodec(flags: U16Word) {
    AtMostOne(flags / 4 % 2 == 1, HasFlag(flags, FLAG_TQ3), HasFlag(flags, FLAG_MIX3), flags / 2 % 2 == 1)
    && (HasFlag(flags, FLAG_TQ3_NOCORR) ==> HasFlag(flags, FLAG_TQ3) || HasFlag(flags, FLAG_MIX3))
  }

  predicate AtMostOne(a: bool, b: bool, c: bool, d: bool) {
    !(a && b) && !(a && c) && !(a && d) && !(b && c) && !(b && d) && !(c && d)
  }

  /** A tile that passes validation and has a plane to drop is not a mixed one. */
  lemma ValidDrops(t: Tile)
    requires ValidCodec(t.flags) && Droppable(t)
    ensures KindOf(t.flags) != Mixed
  {
  }

  /** The code plane ends before the correction plane, so codes are not touched. */
  lemma CodesKept(latent: Bytes, base: nat, limit: nat, n: nat, d: nat)
    requires |latent| == LATENT_BYTES && n <= LATENT_BYTES && base + 3 * d / 8 < limit <= LATENT_BYTES - n
    ensures CodeAt(latent[..LATENT_BYTES - n] + Zeros(n), base, limit, d) == CodeAt(latent, base, limit, d)
  {
  }

  lemma SplitTimes(a: real, b: real, s: real)
    ensures Sums.Times(a + b, s) == Sums.Times(a, s) + Sums.Times(b, s)
  {
  }

  /** A dimension with and without its correction step. */
  lemma StepRemoved(code: nat, step: real, s: real)
    ensures Decoded(code, 0.0, s) == Decoded(code, step, s) - Sums.Times(step, s)
  {
    SplitTimes(code as real - 3.5, step, s);
    assert code as real - 3.5 + 0.0 == code as real - 3.5;
  }

  /** Codes and group scales are those of the original tile. */
  lemma DroppedCodes(t: Tile, base: nat, limit: nat, d: nat)
    requires Droppable(t) && base + 3 * d / 8 < limit <= LATENT_BYTES - SeparableBytes(t)
    ensures CodeAt(DroppedTile(t).latent, base, limit, d) == CodeAt(t.latent, base, limit, d)
    ensures NoCorr(DroppedTile(t)) && !NoCorr(t) && DroppedTile(t).groupScales == t.groupScales
  {
    CodesKept(t.latent, base, limit, SeparableBytes(t), d);
  }

  lemma BodyDrop(t: Tile, base: nat, limit: nat, d: nat, s: real)
    requires Droppable(t) && base + 3 * d / 8 < limit <= LATENT_BYTES - SeparableBytes(t)
        && d < 8 * (LATENT_BYTES - limit)
    ensures BodyValue(DroppedTile(t), base, limit, d, s)
        == BodyValue(t, base, limit, d, s) - Sums.Times(Step(t.latent, limit, d), s)
  {
    DroppedCodes(t, base, limit, d);
    StepRemoved(CodeAt(t.latent, base, limit, d), Step(t.latent, limit, d), s);
  }

  /** The head of a MIX3 tile lies before the correction plane. */
  lemma HeadKept(t: Tile, scale: real, d: nat)
    requires SeparableBytes(t) <= TQ3_CORR_BYTES && d < MIXED_HI_DIMS
    ensures HeadValue(DroppedTile(t), scale, d) == HeadValue(t, scale, d)
  {
  }

  lemma Tq3Drop(t: Tile, scale: real, d: nat)
    requires Droppable(t) && SeparableBytes(t) == TQ3_CORR_BYTES && d < D_C
    ensures Tq3Value(DroppedTile(t), scale, d)
         == Tq3Value(t, scale, d) - Sums.Times(CoveredStep(t, Tq3, d), CoveredScale(t, scale, Tq3, d))
  {
    BodyDrop(t, 0, TQ3_CODE_BYTES, d, CoveredScale(t, scale, Tq3, d));
  }

  lemma Mix3Drop(t: Tile, scale: real, d: nat)
    requires Droppable(t) && SeparableBytes(t) == MIX3_CORR_BYTES && d < D_C
    ensures Mix3Value(DroppedTile(t), scale, d)
         == if Covered(Mix3, d) then Mix3Value(t, scale, d) - Sums.Times(CoveredStep(t, Mix3, d),
             CoveredScale(t, scale, Mix3, d))
            else Mix3Value(t, scale, d)
  {
    if d < MIXED_HI_DIMS {
      HeadKept(t, scale, d);
    } else if d < MIXED_DIMS {
      BodyDrop(t, MIX3_CODES_OFF, MIX3_CORR_OFF, d - MIXED_HI_DIMS, CoveredScale(t, scale, Mix3, d));
    }
  }

  /** The codec whose plane `drop_correction` takes from a tile. */
  function PlaneOf(flags: U16Word): Kind {
    if HasFlag(flags, FLAG_TQ3) then Tq3 else Mix3
  }

  /** Dropping the plane moves dimension `d` by exactly its correction step times its
      group scale if the plane covers it, and leaves it as it was otherwise. */
  predicate MovesExactly(t: Tile, scale: real, d: nat)
    requires d < D_C
  {
    var plane := PlaneOf(t.flags);
    Value(DroppedTile(t), scale, d)
    == if Covered(plane, d) then Value(t, scale, d) - Sums.Times(CoveredStep(t, plane, d),
        CoveredScale(t, scale, plane, d))
       else Value(t, scale, d)
  }

  lemma DropMoves(t: Tile, scale: real, d: nat)
    requires Droppable(t) && KindOf(t.flags) != Mixed && d < D_C
    ensures MovesExactly(t, scale, d)
  {
    KindKept(t.flags);
    PlaneOfKind(t);
    if KindOf(t.flags) == Tq3 {
      Tq3Drop(t, scale, d);
    } else {
      Mix3Drop(t, scale, d);
    }
  }

  /** Flags of a tile with a plane to drop. */
  predicate PlanePresent(flags: U16Word) {
    (HasFlag(flags, FLAG_TQ3) || HasFlag(flags, FLAG_MIX3)) && !HasFlag(flags, FLAG_TQ3_NOCORR)
  }

  /** A tile of these flags whose nibbles are all 9 and whose group scales are full. */
  function Nines(flags: U16Word): (t: Tile)
    ensures t.flags == flags && forall i :: 0 <= i < LATENT_BYTES ==> t.latent[i] == 0x99
    ensures forall g :: 0 <= g < N_GROUPS ==> t.groupScales[g] == 255
  {
    Tile(seq(LATENT_BYTES, _ => 0x99), [0, 0, 0, 0], 0, 0, 0, 0, 0, 0, flags, seq(N_GROUPS, _ => 255))
  }

  const SPILLED := 119

  lemma FullScale(t: Tile, g: nat)
    requires g < N_GROUPS && t.groupScales[g] == 255
    ensures GroupScale(t, 1.0, g) == 1.0
  {
  }

  /** With the mixed flag the dropped bytes hold nibbles: dimension 119 of this tile
      goes from 1 to -8, while the correction step there is a quarter. */
  lemma MixedSpills(flags: U16Word)
    requires PlanePresent(flags) && KindOf(flags) == Mixed
    ensures var t := Nines(flags);
      && Droppable(t) && Value(t, 1.0, SPILLED) == 1.0 && Value(DroppedTile(t), 1.0, SPILLED) == -8.0
      && Covered(PlaneOf(flags), SPILLED) && CoveredScale(t, 1.0, PlaneOf(flags), SPILLED) == 1.0
  {
    var t := Nines(flags);
    var u := DroppedTile(t);
    KindKept(flags);
    FullScale(t, 7);
    FullScale(u, 7);
    assert u.latent[63] == 0 && t.latent[63] == 0x99;
    assert MixedValue(t, 1.0, SPILLED) == Sums.Times(1.0, 1.0) && MixedValue(u, 1.0, SPILLED) == Sums.Times(-8.0, 1.0);
  }

  lemma MixedMovesOtherwise(flags: U16Word)
    requires PlanePresent(flags) && KindOf(flags) == Mixed
    ensures !MovesExactly(Nines(flags), 1.0, SPILLED)
  {
    var t, plane := Nines(flags), PlaneOf(flags);
    MixedSpills(flags);
    assert Sums.Times(CoveredStep(t, plane, SPILLED), 1.0) == CoveredStep(t, plane, SPILLED);
  }

  /** The exact condition: for flags with a plane to drop, every tile and every
      dimension moves as promised if and only if the mixed flag is clear. */
  lemma DropMovesIffNotMixed(flags: U16Word)
    requires PlanePresent(flags)
    ensures (forall t: Tile, scale: real, d: nat :: t.flags == flags && d < D_C ==> MovesExactly(t, scale, d))
            <==> KindOf(flags) != Mixed
  {
    if KindOf(flags) == Mixed {
      MixedMovesOtherwise(flags);
    } else {
      forall t: Tile, scale: real, d: nat | t.flags == flags && d < D_C
        ensures MovesExactly(t, scale, d)
      {
        DropMoves(t, scale, d);
      }
    }
  }

  // ---- scores ---------------------------------------------------------------------------------------

  function Abs(x: real): (r: real)
    ensures r >= 0.0
  {
    if x < 0.0 then -x else x
  }

  function Query(q: seq<real>): int -> real {
    (d: int) => if 0 <= d < |q| then q[d] else 0.0
  }

  function Values(t: Tile, scale: real): int -> real {
    (d: int) => if 0 <= d < D_C then Value(t, scale, d) else 0.0
  }

  /** The largest move of each dimension when the plane is dropped. */
  function Moves(t: Tile, scale: real): int -> real {
    (d: int) => if 0 <= d < D_C
        && Covered(PlaneOf(t.flags), d) then 0.25 * Abs(CoveredScale(t, scale, PlaneOf(t.flags), d)) else 0.0
  }

  function Magnitudes(q: seq<real>): int -> real {
    (d: int) => if 0 <= d < |q| then Abs(q[d]) else 0.0
  }

  /** The coarse score: the dot product of the query with the decoded latent. */
  function CoarseScore(q: seq<real>, t: Tile, scale: real): real {
    Sums.Dot(|q|, Query(q), Values(t, scale))
  }

  method DotCoarse(q: seq<real>, t: Tile, scale: real) returns (sum: real)
    requires |q| == D_C
    ensures sum == CoarseScore(q, t, scale)
  {
    sum := 0.0;
    var d := 0;
    while d < |q|
      invariant 0 <= d <= |q|
      invariant sum == Sums.Dot(d, Query(q), Values(t, scale))
    {
      sum := sum + Sums.Times(q[d], Value(t, scale, d));
      d := d + 1;
    }
  }

  lemma ProductDrift(x: real, y: real, z: real, m: real)
    requires Abs(y - z) <= m
    ensures Abs(Sums.Times(x, y) - Sums.Times(x, z)) <= Sums.Times(Abs(x), m)
  {
    var e := y - z;
    assert Sums.Times(x, y) - Sums.Times(x, z) == x * e;
    if x >= 0.0 {
      MonotoneTimes(x, e, m);
      MonotoneTimes(x, -m, e);
    } else {
      MonotoneTimes(-x, e, m);
      MonotoneTimes(-x, -m, e);
    }
  }

  lemma MonotoneTimes(x: real, a: real, b: real)
    requires x >= 0.0 && a <= b
    ensures x * a <= x * b
  {
  }

  /** Two numbers at most `m` apart. */
  predicate Near(a: real, b: real, m: real) {
    Abs(a - b) <= m
  }

  /** Between `y` and `z` dimension `d` moves by at most `m`. */
  predicate MovesAt(y: int -> real, z: int -> real, m: int -> real, d: int) {
    Abs(y(d) - z(d)) <= m(d)
  }

  predicate AllMove(n: nat, y: int -> real, z: int -> real, m: int -> real) {
    forall d :: 0 <= d < n ==> MovesAt(y, z, m, d)
  }

  lemma {:induction false} DotDrift(n: nat, q: seq<real>, y: int -> real, z: int -> real, m: int -> real)
    requires n <= |q| && AllMove(n, y, z, m)
    ensures Near(Sums.Dot(n, Query(q), y), Sums.Dot(n, Query(q), z), Sums.Dot(n, Magnitudes(q), m))
  {
    if n > 0 {
      DotDrift(n - 1, q, y, z, m);
      assert MovesAt(y, z, m, n - 1);
      ProductDrift(q[n - 1], y(n - 1), z(n - 1), m(n - 1));
    }
  }

  lemma StepSize(step: real, s: real)
    requires step == 0.25 || step == -0.25
    ensures Abs(Sums.Times(step, s)) == 0.25 * Abs(s)
  {
  }

  lemma DimensionDrift(t: Tile, scale: real, d: nat)
    requires Droppable(t) && KindOf(t.flags) != Mixed && d < D_C
    ensures Abs(Value(t, scale, d) - Value(DroppedTile(t), scale, d)) == Moves(t, scale)(d)
  {
    DropMoves(t, scale, d);
    var plane := PlaneOf(t.flags);
    if Covered(plane, d) {
      StepSize(CoveredStep(t, plane, d), CoveredScale(t, scale, plane, d));
    }
  }

  /** The score drifts by at most a correction step per covered dimension, weighted
      by the query and the group scales. */
  predicate DriftBounded(q: seq<real>, t: Tile, scale: real) {
    Near(CoarseScore(q, t, scale), CoarseScore(q, DroppedTile(t), scale), Sums.Dot(|q|, Magnitudes(q), Moves(t, scale)))
  }

  lemma ScoreDrift(q: seq<real>, t: Tile, scale: real)
    requires |q| == D_C && Droppable(t) && KindOf(t.flags) != Mixed
    ensures DriftBounded(q, t, scale)
  {
    DropMovesAll(t, scale);
    DotDrift(|q|, q, Values(t, scale), Values(DroppedTile(t), scale), Moves(t, scale));
  }

  /** The query that looks at one dimension only. */
  function Unit(p: nat): (q: seq<real>)
    ensures |q| == D_C && forall i :: 0 <= i < D_C ==> q[i] == if i == p then 1.0 else 0.0
  {
    seq(D_C, i => if i == p then 1.0 else 0.0)
  }

  lemma {:induction false} UnitDot(n: nat, p: nat, x: int -> real, f: int -> real)
    requires forall i :: 0 <= i < n ==> x(i) == if i == p then 1.0 else 0.0
    ensures Sums.Dot(n, x, f) == if p < n then f(p) else 0.0
  {
    if n > 0 {
      UnitDot(n - 1, p, x, f);
      assert Sums.Times(1.0, f(n - 1)) == f(n - 1) && Sums.Times(0.0, f(n - 1)) == 0.0;
    }
  }

  lemma UnitScore(p: nat, t: Tile, scale: real)
    requires p < D_C
    ensures CoarseScore(Unit(p), t, scale) == Value(t, scale, p)
    ensures Sums.Dot(|Unit(p)|, Magnitudes(Unit(p)), Moves(t, scale)) == Moves(t, scale)(p)
  {
    UnitDot(|Unit(p)|, p, Query(Unit(p)), Values(t, scale));
    UnitDot(|Unit(p)|, p, Magnitudes(Unit(p)), Moves(t, scale));
  }

  lemma MixedDrifts(flags: U16Word)
    requires PlanePresent(flags) && KindOf(flags) == Mixed
    ensures !DriftBounded(Unit(SPILLED), Nines(flags), 1.0)
  {
    var t := Nines(flags);
    MixedSpills(flags);
    UnitScore(SPILLED, t, 1.0);
    UnitScore(SPILLED, DroppedTile(t), 1.0);
    assert Moves(t, 1.0)(SPILLED) == 0.25 * Abs(1.0);
  }

  /** The exact condition for the bound, too. */
  lemma ScoreDriftIffNotMixed(flags: U16Word)
    requires PlanePresent(flags)
    ensures (forall q: seq<real>, t: Tile, scale: real :: |q| == D_C && t.flags == flags ==> DriftBounded(q, t, scale))
            <==> KindOf(flags) != Mixed
  {
    if KindOf(flags) == Mixed {
      MixedDrifts(flags);
    } else {
      forall q: seq<real>, t: Tile, scale: real | |q| == D_C && t.flags == flags
        ensures DriftBounded(q, t, scale)
      {
        ScoreDrift(q, t, scale);
      }
    }
  }

  lemma DropMovesAll(t: Tile, scale: real)
    requires Droppable(t) && KindOf(t.flags) != Mixed
    ensures AllMove(D_C, Values(t, scale), Values(DroppedTile(t), scale), Moves(t, scale))
  {
    forall d | 0 <= d < D_C
      ensures MovesAt(Values(t, scale), Values(DroppedTile(t), scale), Moves(t, scale), d)
    {
      DimensionDrift(t, scale, d);
    }
  }

  // ---- the packed WARM form -----------------------------------------------------------------------------

  const WARM_PACKED_BYTES := 96

  /** A tile's bytes without its residual plane. */
  function PackWarm(b: Bytes): (r: Bytes)
    requires |b| == TILE_BYTES
    ensures |r| == WARM_PACKED_BYTES
  {
    b[..64] + b[96..]
  }

  function UnpackWarm(p: Bytes): (r: Bytes)
    requires |p| == WARM_PACKED_BYTES
    ensures |r| == TILE_BYTES
  {
    p[..64] + Zeros(32) + p[64..]
  }

  /** Packing is undone exactly when the residual plane was zero, as paging out
      leaves it; unpacking is always undone. */
  lemma WarmRoundTrip(b: Bytes, p: Bytes)
    requires |b| == TILE_BYTES && |p| == WARM_PACKED_BYTES
    ensures PackWarm(UnpackWarm(p)) == p
    ensures UnpackWarm(PackWarm(b)) == b <==> b[64..96] == Zeros(32)
  {
    var r := UnpackWarm(PackWarm(b));
    assert r[64..96] == Zeros(32);
    assert b == b[..64] + b[64..96] + b[96..];
  }

  lemma SecondPart(a: Bytes, b: Bytes, c: Bytes, d: Bytes)
    requires |a| == 64 && |b| == 32
    ensures (a + b + c + d)[64..96] == b
  {
  }

  /** A paged-out tile survives the packed form. */
  lemma PagedTilePacks(t: Tile)
    ensures UnpackWarm(PackWarm(TileToBytes(PagedTile(t)))) == TileToBytes(PagedTile(t))
  {
    var b := TileToBytes(PagedTile(t));
    SecondPart(PagedTile(t).latent, WordsToBytes([0, 0, 0, 0]), ScalarBytes(PagedTile(t)), PagedTile(t).groupScales);
    ZeroWords();
    WarmRoundTrip(b, PackWarm(b));
  }

  lemma {:induction false} ZeroBytes(width: nat)
    ensures ToLE(0, width) == Zeros(width)
  {
    if width > 0 {
      ZeroBytes(width - 1);
    }
  }

  lemma ZeroWords()
    ensures WordsToBytes([0, 0, 0, 0]) == Zeros(32)
  {
    var zero := Zeros(8);
    ZeroBytes(8);
    assert [0, 0, 0, 0][1..] == [0, 0, 0] && [0, 0, 0][1..] == [0, 0] && [0, 0][1..] == [0] && [0][1..] == [];
    assert WordsToBytes([0]) == zero + [];
    assert WordsToBytes([0, 0]) == zero + WordsToBytes([0]);
    assert WordsToBytes([0, 0, 0]) == zero + WordsToBytes([0, 0]);
    assert WordsToBytes([0, 0, 0, 0]) == zero + WordsToBytes([0, 0, 0]);
  }
}
