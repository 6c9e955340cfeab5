/** Byte strings made of consecutive sections of little-endian words. */
module Sections {
  import opened Results
  import opened Words

  datatype Section = Section(width: nat, count: nat)

  /** The value read and the bytes that remain, or a short read. */
  datatype Read<+T> = Stop | Got(value: T, rest: Bytes)

  // ---- one section ---------------------------------------------------------------------------

  function EncodeWords(ws: seq<nat>, width: nat): (b: Bytes)
    ensures |b| == |ws| * width
  {
    if ws == [] then [] else ToLE(ws[0], width) + EncodeWords(ws[1..], width)
  }

  function TakeWords(b: Bytes, width: nat, n: nat): Read<seq<nat>>
    decreases n
  {
    if n == 0 then Got([], b)
    else if |b| < width then Stop
    else
      match TakeWords(b[width..], width, n - 1)
      case Stop => Stop
      case Got(ws, rest) => Got([FromLE(b[..width])] + ws, rest)
  }

  predicate AllBelow(ws: seq<nat>, bound: nat) {
    forall i :: 0 <= i < |ws| ==> ws[i] < bound
  }

  lemma {:induction false} TakeEncodedWords(ws: seq<nat>, width: nat, rest: Bytes)
    requires AllBelow(ws, Capacity(width))
    ensures TakeWords(EncodeWords(ws, width) + rest, width, |ws|) == Got(ws, rest)
  {
    if ws == [] {
      assert EncodeWords(ws, width) + rest == rest;
    } else {
      TakeEncodedWords(ws[1..], width, rest);
      DecodeEncode(ws[0], width);
      FirstWord(ToLE(ws[0], width), EncodeWords(ws[1..], width), rest, width);
      assert ws == [ws[0]] + ws[1..];
    }
  }

  lemma FirstWord(head: Bytes, more: Bytes, rest: Bytes, width: nat)
    requires |head| == width
    ensures var b := head + more + rest; |b| >= width && b[..width] == head && b[width..] == more + rest
  {
  }

  lemma {:induction false} TakenWordsEncode(b: Bytes, width: nat, n: nat)
    requires TakeWords(b, width, n).Got?
    ensures var r := TakeWords(b, width, n);
      |r.value| == n && AllBelow(r.value, Capacity(width)) && b == EncodeWords(r.value, width) + r.rest
    decreases n
  {
    if n > 0 {
      var more := TakeWords(b[width..], width, n - 1);
      TakenWordsEncode(b[width..], width, n - 1);
      FromLEBounded(b[..width]);
      EncodeDecode(b[..width]);
      var ws := [FromLE(b[..width])] + more.value;
      assert ws[1..] == more.value;
      Regroup(b, width, EncodeWords(more.value, width), more.rest);
    }
  }

  lemma Regroup(b: Bytes, width: nat, more: Bytes, rest: Bytes)
    requires width <= |b| && b[width..] == more + rest
    ensures b == b[..width] + more + rest
  {
    assert b == b[..width] + b[width..];
  }

  // ---- several sections --------------------------------------------------------------------------

  /** The values have the shape of the sections. */
  predicate Matches(specs: seq<Section>, vals: seq<seq<nat>>) {
    |vals| == |specs|
    && forall i :: 0 <= i < |specs| ==> |vals[i]| == specs[i].count && AllBelow(vals[i], Capacity(specs[i].width))
  }

  function EncodeSections(specs: seq<Section>, vals: seq<seq<nat>>): Bytes
    requires |vals| == |specs|
  {
    if specs == [] then [] else EncodeWords(vals[0], specs[0].width) + EncodeSections(specs[1..], vals[1..])
  }

  function TakeSections(b: Bytes, specs: seq<Section>): Read<seq<seq<nat>>>
    decreases |specs|
  {
    if specs == [] then Got([], b)
    else
      match TakeWords(b, specs[0].width, specs[0].count)
      case Stop => Stop
      case Got(ws, rest) =>
        match TakeSections(rest, specs[1..])
        case Stop => Stop
        case Got(more, after) => Got([ws] + more, after)
  }

  lemma {:induction false} TakeEncodedSections(specs: seq<Section>, vals: seq<seq<nat>>, rest: Bytes)
    requires Matches(specs, vals)
    ensures TakeSections(EncodeSections(specs, vals) + rest, specs) == Got(vals, rest)
    decreases |specs|
  {
    if specs == [] {
      assert EncodeSections(specs, vals) + rest == rest;
    } else {
      var head, more := EncodeWords(vals[0], specs[0].width), EncodeSections(specs[1..], vals[1..]);
      assert head + more + rest == head + (more + rest);
      TakeEncodedWords(vals[0], specs[0].width, more + rest);
      TakeEncodedSections(specs[1..], vals[1..], rest);
      assert vals == [vals[0]] + vals[1..];
    }
  }

  lemma {:induction false} TakenSectionsEncode(b: Bytes, specs: seq<Section>)
    requires TakeSections(b, specs).Got?
    ensures var r := TakeSections(b, specs);
      Matches(specs, r.value) && b == EncodeSections(specs, r.value) + r.rest
    decreases |specs|
  {
    if specs != [] {
      var first := TakeWords(b, specs[0].width, specs[0].count);
      TakenWordsEncode(b, specs[0].width, specs[0].count);
      var more := TakeSections(first.rest, specs[1..]);
      TakenSectionsEncode(first.rest, specs[1..]);
      var vals := [first.value] + more.value;
      assert vals[1..] == more.value;
      MatchesStep(specs, first.value, more.value);
      Associates(EncodeWords(first.value, specs[0].width), EncodeSections(specs[1..], more.value), more.rest);
    }
  }

  lemma Associates(a: Bytes, b: Bytes, c: Bytes)
    ensures a + (b + c) == a + b + c
  {
  }

  lemma MatchesStep(specs: seq<Section>, first: seq<nat>, more: seq<seq<nat>>)
    requires specs != [] && Matches(specs[1..], more)
    requires |first| == specs[0].count && AllBelow(first, Capacity(specs[0].width))
    ensures Matches(specs, [first] + more)
  {
    var vals := [first] + more;
    forall i | 0 <= i < |specs|
      ensures |vals[i]| == specs[i].count && AllBelow(vals[i], Capacity(specs[i].width))
    {
      if i > 0 {
        assert vals[i] == more[i - 1] && specs[i] == specs[1..][i - 1];
      }
    }
  }

  /** The number of bytes of a list of sections. */
  function SizeOf(specs: seq<Section>): nat {
    if specs == [] then 0 else specs[0].count * specs[0].width + SizeOf(specs[1..])
  }

  lemma {:induction false} EncodedSize(specs: seq<Section>, vals: seq<seq<nat>>)
    requires Matches(specs, vals)
    ensures |EncodeSections(specs, vals)| == SizeOf(specs)
    decreases |specs|
  {
    if specs != [] {
      EncodedSize(specs[1..], vals[1..]);
    }
  }

  // ---- the cursor -----------------------------------------------------------------------------------

  class Cursor {
    const bytes: Bytes
    var offset: nat

    constructor (b: Bytes, start: nat)
      requires start <= |b|
      ensures Valid() && Rest() == b[start..] && bytes == b && offset == start
    {
      bytes := b;
      offset := start;
    }

    ghost predicate Valid()
      reads this
    {
      offset <= |bytes|
    }

    ghost function Rest(): Bytes
      requires Valid()
      reads this
    {
      bytes[offset..]
    }

    /** The next `n` bytes, or nothing if there are fewer. */
    method Take(n: nat) returns (r: Option<Bytes>)
      requires Valid()
      modifies this`offset
      ensures Valid() && (r.Some? <==> n <= |old(Rest())|)
      ensures r.Some? ==> r.value == old(Rest())[..n] && Rest() == old(Rest())[n..]
      ensures r == None ==> Rest() == old(Rest())
    {
      if offset + n > |bytes| {
        return None;
      }
      assert bytes[offset..][..n] == bytes[offset..offset + n];
      assert bytes[offset..][n..] == bytes[offset + n..];
      r := Some(bytes[offset..offset + n]);
      offset := offset + n;
    }

    /** A column of words, read one after the other. */
    method ReadWords(width: nat, n: nat) returns (r: Option<seq<nat>>)
      requires Valid()
      modifies this`offset
      ensures Valid() && Agrees(TakeWords(old(Rest()), width, n), r, Rest())
    {
      ghost var whole := TakeWords(Rest(), width, n);
      PrependNothing(whole);
      var out: seq<nat> := [];
      var k := 0;
      while k < n
        invariant 0 <= k <= n && Valid()
        invariant whole == Prepend(out, TakeWords(Rest(), width, n - k))
      {
        ghost var before := Rest();
        var w := Take(width);
        if w == None {
          return None;
        }
        WordTurn(out, before, width, n - k, w.value, Rest());
        out := out + [FromLE(w.value)];
        k := k + 1;
      }
      assert out + [] == out;
      r := Some(out);
    }

    method ReadSections(specs: seq<Section>) returns (r: Option<seq<seq<nat>>>)
      requires Valid()
      modifies this`offset
      ensures Valid() && Agrees(TakeSections(old(Rest()), specs), r, Rest())
    {
      ghost var whole := TakeSections(Rest(), specs);
      PrependNothing(whole);
      assert specs[0..] == specs;
      var out: seq<seq<nat>> := [];
      var k := 0;
      while k < |specs|
        invariant 0 <= k <= |specs| && Valid()
        invariant whole == Prepend(out, TakeSections(Rest(), specs[k..]))
      {
        ghost var before := Rest();
        var ws := ReadWords(specs[k].width, specs[k].count);
        SectionTurn(out, before, specs, k, ws, Rest());
        if ws == None {
          return None;
        }
        out := out + [ws.value];
        k := k + 1;
      }
      assert out + [] == out;
      r := Some(out);
    }
  }

  /** A cursor's outcome and the bytes it leaves agree with the function's result. */
  predicate Agrees<T(==)>(p: Read<T>, r: Option<T>, rest: Bytes) {
    match p
    case Stop => r == None
    case Got(v, after) => r == Some(v) && rest == after
  }

  function Prepend<T>(out: seq<T>, p: Read<seq<T>>): Read<seq<T>> {
    match p
    case Stop => Stop
    case Got(more, rest) => Got(out + more, rest)
  }

  lemma PrependNothing<T>(p: Read<seq<T>>)
    ensures Prepend([], p) == p
  {
    if p.Got? {
      assert [] + p.value == p.value;
    }
  }

  lemma PrependStep<T>(out: seq<T>, x: T, p: Read<seq<T>>)
    ensures Prepend(out, Prepend([x], p)) == Prepend(out + [x], p)
  {
    if p.Got? {
      assert out + ([x] + p.value) == out + [x] + p.value;
    }
  }

  lemma WordTurn(out: seq<nat>, b: Bytes, width: nat, n: nat, w: Bytes, rest: Bytes)
    requires n > 0 && |b| >= width && w == b[..width] && rest == b[width..]
    ensures Prepend(out, TakeWords(b, width, n)) == Prepend(out + [FromLE(w)], TakeWords(rest, width, n - 1))
  {
    PrependStep(out, FromLE(w), TakeWords(rest, width, n - 1));
  }

  lemma SectionTurn(out: seq<seq<nat>>, b: Bytes, specs: seq<Section>, k: nat, ws: Option<seq<nat>>, rest: Bytes)
    requires k < |specs| && Agrees(TakeWords(b, specs[k].width, specs[k].count), ws, rest)
    ensures Prepend(out, TakeSections(b, specs[k..]))
         == if ws == None then Stop else Prepend(out + [ws.value], TakeSections(rest, specs[k + 1..]))
  {
    assert specs[k..][1..] == specs[k + 1..];
    if ws.Some? {
      PrependStep(out, ws.value, TakeSections(rest, specs[k + 1..]));
    }
  }
}
