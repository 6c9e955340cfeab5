/** The server's main loop: frames in, JSON-RPC responses out, one per line. */
module Server {
  import opened Results
  import opened Words
  import opened JsonText
  import opened Lifecycles
  import opened Mcp
  import Utf8
  import Framing
  import JsonParser
  import JsonPrinter

  const MAX_FRAME_BYTES := 262_144

  /** The server's parts, the decimal rendering of numbers and the texts of its
      complaints about undecodable bytes and unparsable text. */
  datatype Config = Config(
    tools: Tools,
    show: real -> string,
    badBytes: Bytes -> string,
    badText: string -> string)

  // ---- trimming -------------------------------------------------------------------------

  /** Unicode `White_Space`. */
  predicate IsWhite(c: char) {
    var n := c as int;
    9 <= n <= 13 || n == 32 || n == 0x85 || n == 0xA0 || n == 0x1680 || 0x2000 <= n <= 0x200A
    || n == 0x2028 || n == 0x2029 || n == 0x202F || n == 0x205F || n == 0x3000
  }

  function TrimStart(s: string): string {
    if s != [] && IsWhite(s[0]) then TrimStart(s[1..]) else s
  }

  function TrimEnd(s: string): string {
    if s != [] && IsWhite(s[|s| - 1]) then TrimEnd(s[..|s| - 1]) else s
  }

  function Trim(s: string): string {
    TrimEnd(TrimStart(s))
  }

  // ---- one frame -------------------------------------------------------------------------

  /** `parse_with_limit` on decoded text. */
  function Parse(text: string): Option<Json> {
    if |Utf8.Encode(text)| <= MAX_FRAME_BYTES && Document(text).Done? then Some(Document(text).value) else None
  }

  function AnswerText(config: Config, text: string, now: Lifecycle): Step {
    if text == [] then Step(None, now)
    else
      match Parse(text)
      case None => Step(Some(Failure(Null, -32700, "parse error: " + config.badText(text))), now)
      case Some(req) => Handle(config.tools, req, now)
  }

  function AnswerLine(config: Config, line: Bytes, now: Lifecycle): Step {
    match Utf8.Decode(line)
    case None => Step(Some(Failure(Null, -32700, "parse error: invalid UTF-8: " + config.badBytes(line))), now)
    case Some(text) => AnswerText(config, Trim(text), now)
  }

  function AnswerFrame(config: Config, f: Framing.Frame, now: Lifecycle): Step {
    match f
    case Line(line) => AnswerLine(config, line, now)
    case _ => Step(Some(Failure(Null, -32700, "parse error: JSON-RPC frame exceeds 262144 bytes")), now)
  }

  // ---- whole sessions ---------------------------------------------------------------------

  /** The replies to a sequence of frames. */
  function Session(config: Config, frames: seq<Framing.Frame>, now: Lifecycle): seq<Reply>
    decreases |frames|
  {
    if frames == [] then []
    else
      var s := AnswerFrame(config, frames[0], now);
      (if s.response.Some? then [s.response.value] else []) + Session(config, frames[1..], s.next)
  }

  function Rendered(config: Config, r: Reply): Bytes {
    Utf8.Encode(Write(config.show, ToJson(r), Compact, 0))
  }

  function RenderAll(config: Config, replies: seq<Reply>): (lines: seq<Bytes>)
    ensures |lines| == |replies|
    ensures forall i :: 0 <= i < |replies| ==> lines[i] == Rendered(config, replies[i])
  {
    if replies == [] then [] else [Rendered(config, replies[0])] + RenderAll(config, replies[1..])
  }

  /** The bytes written for a sequence of replies. */
  function Written(config: Config, replies: seq<Reply>): Bytes {
    Framing.Joined(RenderAll(config, replies))
  }

  /** What is written in answer to a stream of bytes. */
  function Output(config: Config, stream: Bytes, broken: bool, now: Lifecycle): Bytes {
    Written(config, Session(config, Framing.Frames(stream, broken, MAX_FRAME_BYTES), now))
  }

  class McpServer {
    const config: Config
    var lifecycle: Lifecycle
    var out: Bytes

    constructor (c: Config)
      ensures config == c && lifecycle == Uninitialized && out == []
    {
      config := c;
      lifecycle := Uninitialized;
      out := [];
    }

    /** Answers one frame and returns what to write. */
    method Answer(kind: Framing.FrameRead, frame: Bytes) returns (r: Option<Reply>)
      requires kind.Ready? || kind.TooLarge?
      modifies this`lifecycle
      ensures Step(r, lifecycle) == AnswerFrame(config, Framing.AsFrame(kind, frame), old(lifecycle))
    {
      if kind.TooLarge? {
        return Some(Failure(Null, -32700, "parse error: JSON-RPC frame exceeds 262144 bytes"));
      }
      var decoded := Utf8.Decode(frame);
      if decoded == None {
        return Some(Failure(Null, -32700, "parse error: invalid UTF-8: " + config.badBytes(frame)));
      }
      var text := Trim(decoded.value);
      if text == [] {
        return None;
      }
      var req := JsonParser.ParseWithLimit(text, |Utf8.Encode(text)|, MAX_FRAME_BYTES);
      if req == None {
        return Some(Failure(Null, -32700, "parse error: " + config.badText(text)));
      }
      var s := Handle(config.tools, req.value, lifecycle);
      lifecycle := s.next;
      r := s.response;
    }

    /** Reads frames to the end of the stream and writes the responses. */
    method Serve(reader: Framing.Reader)
      requires reader.Valid()
      modifies this`lifecycle, this`out, reader`chunks
      ensures out == old(out) + Output(config, old(reader.Stream()), reader.broken, old(lifecycle))
    {
      ghost var goal := out + Output(config, reader.Stream(), reader.broken, lifecycle);
      while true
        invariant reader.Valid()
        invariant out + Output(config, reader.Stream(), reader.broken, lifecycle) == goal
        decreases |reader.Stream()|
      {
        ghost var stream, before, sofar := reader.Stream(), lifecycle, out;
        var kind, frame := Framing.ReadFrame(reader, MAX_FRAME_BYTES);
        if kind.Eof? || kind.ReadError? {
          NothingLeft(config, stream, reader.broken, before);
          return;
        }
        var r := Answer(kind, frame);
        if r.Some? {
          var text := JsonPrinter.AppendValue(config.show, "", ToJson(r.value), Compact, 0);
          assert "" + Write(config.show, ToJson(r.value), Compact, 0)
              == Write(config.show, ToJson(r.value), Compact, 0);
          out := out + Utf8.Encode(text) + [NEWLINE];
        }
        OneFrame(config, stream, reader.broken, before, Framing.AsFrame(kind, frame), reader.Stream(), sofar);
      }
    }
  }

  lemma NothingLeft(config: Config, stream: Bytes, broken: bool, now: Lifecycle)
    requires var f := Framing.Take(stream, broken, MAX_FRAME_BYTES).frame; f.End? || f.Broken?
    ensures Output(config, stream, broken, now) == []
  {
  }

  lemma OneFrame(config: Config, stream: Bytes, broken: bool, now: Lifecycle, f: Framing.Frame, rest: Bytes, out: Bytes)
    requires Framing.Take(stream, broken, MAX_FRAME_BYTES) == Framing.Taken(f, rest)
    requires !f.End? && !f.Broken?
    ensures |rest| < |stream|
    ensures var s := AnswerFrame(config, f, now);
      out + Output(config, stream, broken, now)
      == (if s.response.Some? then out + Rendered(config, s.response.value) + [NEWLINE] else out)
         + Output(config, rest, broken, s.next)
  {
    var s := AnswerFrame(config, f, now);
    var frames, more := Framing.Frames(stream, broken, MAX_FRAME_BYTES), Framing.Frames(rest, broken, MAX_FRAME_BYTES);
    assert frames == [f] + more && frames[1..] == more;
    SessionStep(config, f, more, now);
    WrittenStep(config, s.response, Session(config, more, s.next), out);
  }

  lemma SessionStep(config: Config, f: Framing.Frame, more: seq<Framing.Frame>, now: Lifecycle)
    ensures var s := AnswerFrame(config, f, now);
      Session(config, [f] + more, now) == (if s.response.Some? then [s.response.value] else [])
          + Session(config, more, s.next)
  {
    assert ([f] + more)[1..] == more;
  }

  lemma WrittenStep(config: Config, r: Option<Reply>, more: seq<Reply>, out: Bytes)
    ensures out + Written(config, (if r.Some? then [r.value] else []) + more)
      == (if r.Some? then out + Rendered(config, r.value) + [NEWLINE] else out) + Written(config, more)
  {
    if r.Some? {
      var all := [r.value] + more;
      assert all[1..] == more;
      var line := Rendered(config, r.value);
      assert RenderAll(config, all) == [line] + RenderAll(config, more);
      assert ([line] + RenderAll(config, more))[1..] == RenderAll(config, more);
      assert out + (line + [NEWLINE] + Written(config, more)) == out + line + [NEWLINE] + Written(config, more);
    } else {
      assert [] + more == more;
    }
  }
}
