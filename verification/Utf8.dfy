/** UTF-8 as the standard library reads and writes it: strict decoding refuses
    overlong forms, surrogates and values above U+10FFFF. */
module Utf8 {
  import opened Results
  import opened Words

  /** A continuation byte carrying six bits. */
  function Cont(x: nat): Byte
    requires x < 64
  {
    0x80 + x
  }

  predicate IsCont(b: Byte) {
    0x80 <= b < 0xC0
  }

  function EncodeCode(n: nat): (r: Bytes)
    requires n < 0x11_0000
    ensures 1 <= |r| <= 4
  {
    if n < 0x80 then [n]
    else if n < 0x800 then [0xC0 + n / 64, Cont(n % 64)]
    else if n < 0x1_0000 then [0xE0 + n / 64 / 64, Cont(n / 64 % 64), Cont(n % 64)]
    else [0xF0 + n / 64 / 64 / 64, Cont(n / 64 / 64 % 64), Cont(n / 64 % 64), Cont(n % 64)]
  }

  function EncodeChar(c: char): (r: Bytes)
    ensures 1 <= |r| <= 4
  {
    EncodeCode(c as int)
  }

  function Encode(s: string): Bytes {
    if s == [] then [] else EncodeChar(s[0]) + Encode(s[1..])
  }

  /** Six more bits from a continuation byte. */
  function More(high: int, b: Byte): int {
    high * 64 + (b as int - 0x80)
  }

  lemma MoreSplits(high: nat, b: Byte)
    requires IsCont(b)
    ensures More(high, b) / 64 == high && More(high, b) % 64 == b - 0x80
  {
  }

  /** The first code point of a byte string and the number of bytes it takes. */
  datatype First = First(code: nat, size: nat)

  predicate IsScalar(n: int) {
    0 <= n < 0xD800 || 0xE000 <= n < 0x11_0000
  }

  function DecodeFirst(b: Bytes): (r: Option<First>)
    requires b != []
    ensures r.Some? ==> IsScalar(r.value.code) && 1 <= r.value.size <= |b|
  {
    if b[0] < 0x80 then Some(First(b[0], 1))
    else if 0xC2 <= b[0] < 0xE0 then
      if |b| < 2 || !IsCont(b[1]) then None
      else Some(First(More(b[0] - 0xC0, b[1]), 2))
    else if 0xE0 <= b[0] < 0xF0 then
      if |b| < 3 || !IsCont(b[1]) || !IsCont(b[2]) then None
      else
        var n := More(More(b[0] - 0xE0, b[1]), b[2]);
        if n < 0x800 || !IsScalar(n) then None else Some(First(n, 3))
    else if 0xF0 <= b[0] < 0xF5 then
      if |b| < 4 || !IsCont(b[1]) || !IsCont(b[2]) || !IsCont(b[3]) then None
      else
        var n := More(More(More(b[0] - 0xF0, b[1]), b[2]), b[3]);
        if n < 0x1_0000 || !IsScalar(n) then None else Some(First(n, 4))
    else None
  }

  function Decode(b: Bytes): Option<string>
    decreases |b|
  {
    if b == [] then Some([])
    else
      match DecodeFirst(b)
      case None => None
      case Some(First(n, size)) =>
        match Decode(b[size..])
        case None => None
        case Some(s) => Some([n as char] + s)
  }

  lemma ScalarOfChar(c: char)
    ensures IsScalar(c as int)
  {
  }

  lemma FirstOfEncoded(n: nat, rest: Bytes)
    requires IsScalar(n)
    ensures DecodeFirst(EncodeCode(n) + rest) == Some(First(n, |EncodeCode(n)|))
  {
    var e := EncodeCode(n);
    var b := e + rest;
    assert forall i :: 0 <= i < |e| ==> b[i] == e[i];
  }

  lemma EncodedTwo(a: Byte, b: Byte)
    requires 0xC2 <= a < 0xE0 && IsCont(b)
    ensures EncodeCode(More(a - 0xC0, b)) == [a, b]
  {
    MoreSplits(a - 0xC0, b);
  }

  lemma EncodedThree(a: Byte, b: Byte, c: Byte)
    requires 0xE0 <= a < 0xF0 && IsCont(b) && IsCont(c) && More(More(a - 0xE0, b), c) >= 0x800
    ensures EncodeCode(More(More(a - 0xE0, b), c)) == [a, b, c]
  {
    MoreSplits(a - 0xE0, b);
    MoreSplits(More(a - 0xE0, b), c);
  }

  lemma EncodedFour(a: Byte, b: Byte, c: Byte, d: Byte)
    requires 0xF0 <= a && IsCont(b) && IsCont(c) && IsCont(d)
    requires 0x1_0000 <= More(More(More(a - 0xF0, b), c), d) < 0x11_0000
    ensures EncodeCode(More(More(More(a - 0xF0, b), c), d)) == [a, b, c, d]
  {
    MoreSplits(a - 0xF0, b);
    MoreSplits(More(a - 0xF0, b), c);
    MoreSplits(More(More(a - 0xF0, b), c), d);
  }

  lemma EncodedFirst(b: Bytes)
    requires b != [] && DecodeFirst(b).Some?
    ensures var f := DecodeFirst(b).value; EncodeCode(f.code) == b[..f.size]
  {
    match DecodeFirst(b).value.size
    case 1 =>
    case 2 => EncodedTwo(b[0], b[1]);
    case 3 => EncodedThree(b[0], b[1], b[2]);
    case _ => EncodedFour(b[0], b[1], b[2], b[3]);
  }

  /** Decoding returns the encoded text. */
  lemma {:induction false} DecodeEncoded(s: string)
    ensures Decode(Encode(s)) == Some(s)
  {
    if s != [] {
      var e, rest := EncodeChar(s[0]), Encode(s[1..]);
      ScalarOfChar(s[0]);
      FirstOfEncoded(s[0] as int, rest);
      assert (e + rest)[|e|..] == rest;
      DecodeEncoded(s[1..]);
      assert s == [s[0]] + s[1..];
    }
  }

  /** Accepted bytes are exactly the encoding of the text they decode to. */
  lemma {:induction false} EncodeDecoded(b: Bytes)
    requires Decode(b).Some?
    ensures Encode(Decode(b).value) == b
    decreases |b|
  {
    if b != [] {
      var f := DecodeFirst(b).value;
      EncodedFirst(b);
      EncodeDecoded(b[f.size..]);
      var s := Decode(b).value;
      assert s[0] == f.code as char && s[1..] == Decode(b[f.size..]).value;
      assert b == b[..f.size] + b[f.size..];
    }
  }

  /** The newline byte appears in encoded text only where the text has a newline. */
  lemma {:induction false} NewlineEncoded(s: string)
    ensures NEWLINE in Encode(s) <==> '\n' in s
  {
    if s != [] {
      NewlineEncoded(s[1..]);
      assert NEWLINE in EncodeChar(s[0]) <==> s[0] == '\n';
      assert s == [s[0]] + s[1..];
    }
  }
}
