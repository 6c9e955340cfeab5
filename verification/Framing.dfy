/** Newline-delimited frames over a reader that delivers its bytes in arbitrary
    pieces, with a bound on the size of a frame. */
module Framing {
  import opened Words

  predicate Plain(b: Bytes) {
    forall i :: 0 <= i < |b| ==> b[i] != NEWLINE
  }

  /** Index of the first newline, or the length if there is none. */
  function Position(b: Bytes): (n: nat)
    ensures n <= |b| && Plain(b[..n])
    ensures n < |b| ==> b[n] == NEWLINE
  {
    if b == [] || b[0] == NEWLINE then 0
    else 1 + Position(b[1..])
  }

  lemma {:induction false} PositionAfter(line: Bytes, rest: Bytes)
    requires Plain(line)
    ensures Position(line + ([NEWLINE] + rest)) == |line|
  {
    var s := line + ([NEWLINE] + rest);
    if line != [] {
      PositionAfter(line[1..], rest);
      assert s[1..] == line[1..] + ([NEWLINE] + rest);
    }
  }

  lemma {:induction false} PositionNone(line: Bytes)
    requires Plain(line)
    ensures Position(line) == |line|
  {
    if line != [] {
      PositionNone(line[1..]);
    }
  }

  /** A stream that starts with a line. */
  lemma Starts(stream: Bytes, line: Bytes, rest: Bytes)
    requires Plain(line) && stream == line + [NEWLINE] + rest
    ensures Position(stream) == |line| < |stream|
    ensures stream[..|line|] == line && stream[|line| + 1..] == rest
  {
    assert stream == line + ([NEWLINE] + rest);
    PositionAfter(line, rest);
  }

  // ---- one frame -------------------------------------------------------------------

  datatype Frame = End | Line(bytes: Bytes) | Oversized | Broken

  datatype Taken = Taken(frame: Frame, rest: Bytes)

  /** A line within the limit is delivered, a longer one only reported. */
  function Verdict(line: Bytes, limit: nat): Frame {
    if |line| <= limit then Line(line) else Oversized
  }

  /** The next frame of a stream that ends, or breaks with a read error. */
  function Take(stream: Bytes, broken: bool, limit: nat): Taken {
    var n := Position(stream);
    if n < |stream| then Taken(Verdict(stream[..n], limit), stream[n + 1..])
    else if broken then Taken(Broken, [])
    else if stream == [] then Taken(End, [])
    else Taken(Verdict(stream, limit), [])
  }

  // ---- the reader --------------------------------------------------------------------

  function Flatten(chunks: seq<Bytes>): Bytes {
    if chunks == [] then [] else chunks[0] + Flatten(chunks[1..])
  }

  /** A buffered reader: the pieces it will deliver, then the end or an error. */
  class Reader {
    var chunks: seq<Bytes>
    const broken: bool

    ghost predicate Valid()
      reads this
    {
      forall i :: 0 <= i < |chunks| ==> chunks[i] != []
    }

    ghost function Stream(): Bytes
      reads this
    {
      Flatten(chunks)
    }

    constructor (pieces: seq<Bytes>, fails: bool)
      requires forall i :: 0 <= i < |pieces| ==> pieces[i] != []
      ensures Valid() && Stream() == Flatten(pieces) && broken == fails
    {
      chunks := pieces;
      broken := fails;
    }

    /** The bytes at hand, none at the end; an error only when nothing is left. */
    method FillBuf() returns (ok: bool, available: Bytes)
      requires Valid()
      ensures ok == !(Stream() == [] && broken)
      ensures available <= Stream() && (available == [] <==> Stream() == [])
      ensures chunks != [] ==> available == chunks[0]
      ensures chunks == [] ==> available == []
    {
      if chunks == [] {
        ok, available := !broken, [];
      } else {
        ok, available := true, chunks[0];
        assert chunks[0] <= Flatten(chunks);
      }
    }

    method Consume(n: nat)
      requires Valid() && chunks != [] && n <= |chunks[0]|
      modifies this`chunks
      ensures Valid() && old(Stream()) == old(chunks[0][..n]) + Stream()
    {
      var first, more := chunks[0], chunks[1..];
      assert first == first[..n] + first[n..];
      if n == |first| {
        chunks := more;
      } else {
        chunks := [first[n..]] + more;
        assert chunks[1..] == more;
      }
    }
  }

  /** What a call reports; the payload stays in the caller's buffer. */
  datatype FrameRead = Eof | Ready | TooLarge | ReadError

  /** Report and buffer contents as one frame. */
  function AsFrame(kind: FrameRead, buffer: Bytes): Frame {
    match kind
    case Eof => End
    case Ready => Line(buffer)
    case TooLarge => Oversized
    case ReadError => Broken
  }

  /** One frame is read: whatever the pieces, the result is that of `Take` on the
      whole stream, and the buffer never outgrows the limit. */
  method ReadFrame(reader: Reader, limit: nat) returns (kind: FrameRead, buffer: Bytes)
    requires reader.Valid()
    modifies reader`chunks
    ensures reader.Valid() && |buffer| <= limit
    ensures kind == TooLarge || kind == Eof ==> buffer == []
    ensures Taken(AsFrame(kind, buffer), reader.Stream()) == Take(old(reader.Stream()), reader.broken, limit)
  {
    ghost var whole := reader.Stream();
    ghost var seen: Bytes := [];
    buffer := [];
    var sawInput, tooLarge := false, false;
    while true
      invariant reader.Valid() && whole == seen + reader.Stream()
      invariant Plain(seen) && sawInput == (seen != []) && tooLarge == (|seen| > limit)
      invariant buffer == if tooLarge then [] else seen
      decreases |reader.Stream()|
    {
      var ok, available := reader.FillBuf();
      if !ok {
        EndsWithout(seen, reader.Stream(), whole);
        return ReadError, buffer;
      }
      if available == [] {
        EndsWithout(seen, reader.Stream(), whole);
        if !sawInput {
          return Eof, buffer;
        }
        break;
      }
      sawInput := true;
      var n := Position(available);
      var newline := n < |available|;
      if !tooLarge {
        if n > limit - |buffer| {
          tooLarge, buffer := true, [];
        } else {
          buffer := buffer + available[..n];
        }
      }
      ghost var line := seen + available[..n];
      reader.Consume(if newline then n + 1 else n);
      if newline {
        Delimited(whole, seen, available, n, reader.Stream(), reader.broken, limit);
        return if tooLarge then TooLarge else Ready, buffer;
      }
      Undelimited(whole, seen, available[..n], reader.Stream());
      seen := line;
    }
    return if tooLarge then TooLarge else Ready, buffer;
  }

  lemma EndsWithout(seen: Bytes, rest: Bytes, whole: Bytes)
    requires rest == [] && Plain(seen) && whole == seen + rest
    ensures whole == seen && Position(whole) == |whole|
  {
    PositionNone(seen);
  }

  lemma Delimited(whole: Bytes, seen: Bytes, available: Bytes, n: nat, rest: Bytes, broken: bool, limit: nat)
    requires Plain(seen) && n < |available| && Plain(available[..n]) && available[n] == NEWLINE
    requires whole == seen + (available[..n + 1] + rest)
    ensures Take(whole, broken, limit) == Taken(Verdict(seen + available[..n], limit), rest)
  {
    var line := seen + available[..n];
    assert available[..n + 1] == available[..n] + [NEWLINE];
    Regroup(seen, available[..n], rest);
    Starts(whole, line, rest);
  }

  lemma Regroup(a: Bytes, b: Bytes, rest: Bytes)
    ensures a + ((b + [NEWLINE]) + rest) == (a + b) + [NEWLINE] + rest
  {
  }

  lemma Undelimited(whole: Bytes, seen: Bytes, piece: Bytes, rest: Bytes)
    requires Plain(seen) && Plain(piece) && whole == seen + (piece + rest)
    ensures Plain(seen + piece) && whole == (seen + piece) + rest
  {
  }

  // ---- the whole stream ----------------------------------------------------------------

  /** Every frame of a stream, up to its end or the read error. */
  function Frames(stream: Bytes, broken: bool, limit: nat): seq<Frame>
    decreases |stream|
  {
    var t := Take(stream, broken, limit);
    if t.frame.End? || t.frame.Broken? then []
    else if stream == [] then []
    else [t.frame] + Frames(t.rest, broken, limit)
  }

  predicate PlainLines(lines: seq<Bytes>) {
    forall i :: 0 <= i < |lines| ==> Plain(lines[i])
  }

  /** Lines, each followed by its newline. */
  function Joined(lines: seq<Bytes>): Bytes {
    if lines == [] then [] else lines[0] + [NEWLINE] + Joined(lines[1..])
  }

  function Verdicts(lines: seq<Bytes>, limit: nat): (r: seq<Frame>)
    ensures |r| == |lines| && forall i :: 0 <= i < |lines| ==> r[i] == Verdict(lines[i], limit)
  {
    if lines == [] then [] else [Verdict(lines[0], limit)] + Verdicts(lines[1..], limit)
  }

  /** A last line without newline is delivered too, unless the reader breaks. */
  function LastFrame(tail: Bytes, broken: bool, limit: nat): seq<Frame> {
    if tail == [] || broken then [] else [Verdict(tail, limit)]
  }

  /** One step of `Frames` on a stream that starts with a line. */
  lemma FirstFrame(stream: Bytes, line: Bytes, rest: Bytes, broken: bool, limit: nat)
    requires Plain(line) && stream == line + [NEWLINE] + rest
    ensures Frames(stream, broken, limit) == [Verdict(line, limit)] + Frames(rest, broken, limit)
  {
    Starts(stream, line, rest);
  }

  lemma JoinedStarts(lines: seq<Bytes>, tail: Bytes)
    requires lines != []
    ensures Joined(lines) + tail == lines[0] + [NEWLINE] + (Joined(lines[1..]) + tail)
  {
  }

  /** The frames of a stream are its lines, in order, each judged by its length. */
  lemma {:induction false} FramesAreLines(lines: seq<Bytes>, tail: Bytes, broken: bool, limit: nat)
    requires PlainLines(lines) && Plain(tail)
    ensures Frames(Joined(lines) + tail, broken, limit) == Verdicts(lines, limit) + LastFrame(tail, broken, limit)
    decreases |lines|
  {
    var s := Joined(lines) + tail;
    if lines == [] {
      assert s == tail;
      LastOnly(tail, broken, limit);
    } else {
      JoinedStarts(lines, tail);
      FirstFrame(s, lines[0], Joined(lines[1..]) + tail, broken, limit);
      FramesAreLines(lines[1..], tail, broken, limit);
      Prepend(Verdict(lines[0], limit), Verdicts(lines[1..], limit), LastFrame(tail, broken, limit));
    }
  }

  lemma Prepend<T>(x: T, s: seq<T>, t: seq<T>)
    ensures [x] + (s + t) == [x] + s + t
  {
  }

  lemma LastOnly(tail: Bytes, broken: bool, limit: nat)
    requires Plain(tail)
    ensures Frames(tail, broken, limit) == LastFrame(tail, broken, limit)
  {
    PositionNone(tail);
    assert Frames([], broken, limit) == [];
  }

  /** Every stream is lines followed by a tail, in exactly one way. */
  datatype Split = Split(lines: seq<Bytes>, tail: Bytes)

  function SplitLines(stream: Bytes): Split
    decreases |stream|
  {
    var n := Position(stream);
    if n == |stream| then Split([], stream)
    else
      var more := SplitLines(stream[n + 1..]);
      Split([stream[..n]] + more.lines, more.tail)
  }

  lemma {:induction false} SplitJoins(stream: Bytes)
    ensures var r := SplitLines(stream);
      PlainLines(r.lines) && Plain(r.tail) && Joined(r.lines) + r.tail == stream
    decreases |stream|
  {
    if Position(stream) == |stream| {
      WholeTail(stream);
    } else {
      var line, rest := CutLine(stream);
      SplitStep(stream, line, rest);
      SplitJoins(rest);
      JoinsStep(line, SplitLines(rest).lines, SplitLines(rest).tail);
    }
  }

  lemma WholeTail(stream: Bytes)
    requires Position(stream) == |stream|
    ensures Plain(stream) && Joined([]) + stream == stream
  {
    assert stream[..Position(stream)] == stream;
  }

  lemma CutLine(stream: Bytes) returns (line: Bytes, rest: Bytes)
    requires Position(stream) < |stream|
    ensures Plain(line) && stream == line + [NEWLINE] + rest && |rest| < |stream|
  {
    var n := Position(stream);
    line, rest := stream[..n], stream[n + 1..];
    Around(stream, n);
  }

  lemma Around<T>(s: seq<T>, n: nat)
    requires n < |s|
    ensures s == s[..n] + [s[n]] + s[n + 1..]
  {
  }

  lemma JoinsStep(line: Bytes, lines: seq<Bytes>, tail: Bytes)
    requires Plain(line) && PlainLines(lines)
    ensures PlainLines([line] + lines) && Joined([line] + lines) + tail == line + [NEWLINE] + (Joined(lines) + tail)
  {
    assert ([line] + lines)[1..] == lines;
    JoinedStarts([line] + lines, tail);
  }

  lemma SplitStep(stream: Bytes, line: Bytes, rest: Bytes)
    requires Plain(line) && stream == line + [NEWLINE] + rest
    ensures SplitLines(stream) == Split([line] + SplitLines(rest).lines, SplitLines(rest).tail)
  {
    Starts(stream, line, rest);
  }

  lemma {:induction false} SplitUnique(lines: seq<Bytes>, tail: Bytes)
    requires PlainLines(lines) && Plain(tail)
    ensures SplitLines(Joined(lines) + tail) == Split(lines, tail)
    decreases |lines|
  {
    if lines == [] {
      assert Joined(lines) + tail == tail;
      PositionNone(tail);
    } else {
      JoinedStarts(lines, tail);
      SplitStep(Joined(lines) + tail, lines[0], Joined(lines[1..]) + tail);
      SplitUnique(lines[1..], tail);
      assert lines == [lines[0]] + lines[1..];
    }
  }
}
