/** Fixed-width machine words as integers: powers of two, little-endian byte
    strings and bitwise exclusive or. */
module Words {

  type Byte = x: int | 0 <= x < 256
  type Bytes = seq<Byte>

  const NEWLINE: Byte := 10

  const U16: nat := 0x1_0000
  const U32: nat := 0x1_0000_0000
  const U64: nat := 0x1_0000_0000_0000_0000

  function Pow2(k: nat): (r: nat)
    ensures r > 0
  {
    if k == 0 then 1 else 2 * Pow2(k - 1)
  }

  /** The number of values that fit in `width` bytes. */
  function Capacity(width: nat): (r: nat)
    ensures r > 0
  {
    if width == 0 then 1 else 256 * Capacity(width - 1)
  }

  lemma CapacityValues()
    ensures Capacity(1) == 256
    ensures Capacity(2) == U16
    ensures Capacity(4) == U32
    ensures Capacity(8) == U64
  {
    assert Capacity(3) == 0x100_0000;
    assert Capacity(5) == 0x100_0000_0000;
    assert Capacity(6) == 0x1_0000_0000_0000;
    assert Capacity(7) == 0x100_0000_0000_0000;
  }

  /** `to_le_bytes` of an unsigned word of `width` bytes. */
  function ToLE(n: nat, width: nat): (r: Bytes)
    ensures |r| == width
  {
    if width == 0 then [] else [n % 256] + ToLE(n / 256, width - 1)
  }

  /** `from_le_bytes`. */
  function FromLE(b: Bytes): (r: nat)
  {
    if b == [] then 0 else b[0] + 256 * FromLE(b[1..])
  }

  lemma {:induction false} FromLEBounded(b: Bytes)
    ensures FromLE(b) < Capacity(|b|)
  {
    if b != [] {
      FromLEBounded(b[1..]);
    }
  }

  lemma {:induction false} DecodeEncode(n: nat, width: nat)
    requires n < Capacity(width)
    ensures FromLE(ToLE(n, width)) == n
  {
    if width != 0 {
      DecodeEncode(n / 256, width - 1);
      assert ToLE(n, width)[1..] == ToLE(n / 256, width - 1);
    }
  }

  lemma {:induction false} EncodeDecode(b: Bytes)
    ensures ToLE(FromLE(b), |b|) == b
  {
    if b != [] {
      EncodeDecode(b[1..]);
      assert FromLE(b) / 256 == FromLE(b[1..]);
      assert b == [b[0]] + b[1..];
    }
  }

  lemma Nested<T>(b: seq<T>, lo: nat, hi: nat, i: nat, j: nat)
    requires i <= j && lo + j <= hi <= |b|
    ensures b[lo..hi][i..j] == b[lo + i..lo + j]
  {
    var s, t := b[lo..hi][i..j], b[lo + i..lo + j];
    assert |s| == |t|;
    assert forall k :: 0 <= k < |s| ==> s[k] == t[k];
  }

  lemma Joined<T>(b: seq<T>, i: nat, j: nat, k: nat)
    requires i <= j <= k <= |b|
    ensures b[i..j] + b[j..k] == b[i..k]
  {
  }

  /** Bitwise exclusive or of two words of any width. */
  function Xor(a: nat, b: nat): (r: nat)
    decreases a + b
  {
    if a == 0 && b == 0 then 0
    else (if a % 2 == b % 2 then 0 else 1) + 2 * Xor(a / 2, b / 2)
  }

  lemma {:induction false} XorCancels(a: nat, b: nat)
    ensures Xor(a, Xor(a, b)) == b
    decreases a + b
  {
    if a != 0 || b != 0 {
      XorCancels(a / 2, b / 2);
      var x := Xor(a, b);
      assert x / 2 == Xor(a / 2, b / 2);
      assert x % 2 == if a % 2 == b % 2 then 0 else 1;
    }
  }

  lemma {:induction false} XorCommutes(a: nat, b: nat)
    ensures Xor(a, b) == Xor(b, a)
    decreases a + b
  {
    if a != 0 || b != 0 {
      XorCommutes(a / 2, b / 2);
    }
  }

  lemma {:induction false} XorBounded(a: nat, b: nat, k: nat)
    requires a < Pow2(k) && b < Pow2(k)
    ensures Xor(a, b) < Pow2(k)
  {
    if k != 0 {
      XorBounded(a / 2, b / 2, k - 1);
    }
  }

  lemma Pow2Values()
    ensures Pow2(8) == 256 && Pow2(16) == U16 && Pow2(32) == U32
  {
    assert Pow2(4) == 16;
    assert Pow2(12) == 4096;
    assert Pow2(20) == 0x10_0000;
    assert Pow2(24) == 0x100_0000;
    assert Pow2(28) == 0x1000_0000;
  }
}
