/** The 32-bit FNV-1a checksum shared by the event log and the weights file. */
module Fnv {
  import opened Words

  const OFFSET: nat := 0x811C_9DC5
  const PRIME: nat := 0x0100_0193
  /** Inverse of PRIME modulo 2^32. */
  const PRIME_INVERSE: nat := 0x359C_449B

  type Hash = h: nat | h < U32

  /** `hash ^= byte; hash = hash.wrapping_mul(PRIME)`. */
  function Mix(h: Hash, b: Byte): (r: Hash)
  {
    Xor(h, b) * PRIME % U32
  }

  function Fold(h: Hash, s: Bytes): (r: Hash)
    decreases |s|
  {
    if s == [] then h else Fold(Mix(h, s[0]), s[1..])
  }

  function Checksum(s: Bytes): (r: Hash)
  {
    Fold(OFFSET, s)
  }

  lemma Residue(x: int, k: int)
    requires 0 <= x < U32
    ensures (x + U32 * k) % U32 == x
  {
  }

  /** PRIME * PRIME_INVERSE is one more than this many times 2^32. */
  const INVERSE_QUOTIENT: nat := 0x359c99

  /** Multiplication by the odd FNV prime is undone by its inverse. */
  lemma MulCancels(x: nat)
    requires x < U32
    ensures x * PRIME % U32 * PRIME_INVERSE % U32 == x
  {
    var q := x * PRIME / U32;
    var r := x * PRIME % U32;
    assert r == x * PRIME - U32 * q;
    assert PRIME * PRIME_INVERSE == 1 + INVERSE_QUOTIENT * U32;
    assert r * PRIME_INVERSE == x + U32 * (x * INVERSE_QUOTIENT - q * PRIME_INVERSE);
    Residue(x, x * INVERSE_QUOTIENT - q * PRIME_INVERSE);
  }

  lemma XorFits(h: Hash, b: Byte)
    ensures Xor(h, b) < U32
  {
    Pow2Values();
    XorBounded(h, b, 32);
  }

  /** For a fixed byte the step is injective in the hash. */
  lemma MixInjectiveInHash(g: Hash, h: Hash, b: Byte)
    requires Mix(g, b) == Mix(h, b)
    ensures g == h
  {
    XorFits(g, b);
    XorFits(h, b);
    MulCancels(Xor(g, b));
    MulCancels(Xor(h, b));
    XorCommutes(g, b);
    XorCommutes(h, b);
    XorCancels(b, g);
    XorCancels(b, h);
  }

  /** For a fixed hash the step is injective in the byte. */
  lemma MixInjectiveInByte(h: Hash, a: Byte, b: Byte)
    requires Mix(h, a) == Mix(h, b)
    ensures a == b
  {
    XorFits(h, a);
    XorFits(h, b);
    MulCancels(Xor(h, a));
    MulCancels(Xor(h, b));
    XorCancels(h, a);
    XorCancels(h, b);
  }

  lemma {:induction false} FoldInjectiveInHash(g: Hash, h: Hash, s: Bytes)
    requires Fold(g, s) == Fold(h, s)
    ensures g == h
    decreases |s|
  {
    if s != [] {
      FoldInjectiveInHash(Mix(g, s[0]), Mix(h, s[0]), s[1..]);
      MixInjectiveInHash(g, h, s[0]);
    }
  }

  lemma {:induction false} FoldConcat(h: Hash, s: Bytes, t: Bytes)
    ensures Fold(h, s + t) == Fold(Fold(h, s), t)
    decreases |s|
  {
    if s == [] {
      assert s + t == t;
    } else {
      FoldConcat(Mix(h, s[0]), s[1..], t);
      assert (s + t)[1..] == s[1..] + t;
    }
  }

  /** Changing exactly one byte always changes the checksum. */
  lemma {:induction false} SingleByteChangeDetected(h: Hash, s: Bytes, i: nat, b: Byte)
    requires i < |s| && s[i] != b
    ensures Fold(h, s[i := b]) != Fold(h, s)
    decreases |s|
  {
    var t := s[i := b];
    if i == 0 {
      assert t[1..] == s[1..];
      if Fold(h, t) == Fold(h, s) {
        FoldInjectiveInHash(Mix(h, b), Mix(h, s[0]), s[1..]);
        MixInjectiveInByte(h, b, s[0]);
      }
    } else {
      assert t[1..] == s[1..][i - 1 := b];
      SingleByteChangeDetected(Mix(h, s[0]), s[1..], i - 1, b);
    }
  }

  /** Continue a running hash over `s`. */
  method Extend(h: Hash, s: Bytes) returns (r: Hash)
    ensures r == Fold(h, s)
  {
    r := h;
    var i := 0;
    while i < |s|
      invariant 0 <= i <= |s|
      invariant Fold(h, s) == Fold(r, s[i..])
    {
      assert s[i..][1..] == s[i + 1..];
      r := Mix(r, s[i]);
      i := i + 1;
    }
  }
}
