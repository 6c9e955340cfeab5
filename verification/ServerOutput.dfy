/** What a client sees of a session: the output splits into one line per reply,
    and every line parses back to the reply it was written for. */
module ServerOutput {
  import opened Results
  import opened Words
  import opened JsonText
  import opened JsonRoundTrip
  import opened Lifecycles
  import opened Mcp
  import opened Server
  import Utf8
  import Framing

  // ---- readable values -------------------------------------------------------------------

  /** Printed at this nesting level, the value parses back. */
  ghost predicate Readable(show: real -> string, v: Json, level: nat) {
    NumbersRead(show, v) && Fits(v, level)
  }

  lemma ReadableObject(show: real -> string, fields: seq<Field>, level: nat)
    requires level < MAX_DEPTH && UniqueKeys(fields)
    requires forall i :: 0 <= i < |fields| ==> Readable(show, fields[i].value, level + 1)
    ensures Readable(show, Obj(fields), level)
  {
  }

  lemma ReadableArray(show: real -> string, items: seq<Json>, level: nat)
    requires level < MAX_DEPTH && forall i :: 0 <= i < |items| ==> Readable(show, items[i], level + 1)
    ensures Readable(show, Arr(items), level)
  {
  }

  lemma ReadableScalar(show: real -> string, v: Json, level: nat)
    requires v.Str? || v.Bool? || v.Null? || (v.Num? && PrintsAsInteger(v.n))
    ensures Readable(show, v, level)
  {
  }

  lemma ReadableError(show: real -> string, code: int, message: string, level: nat)
    requires level + 1 < MAX_DEPTH && -40_000 < code < 0
    ensures Readable(show, Obj([Field("code", Num(code as real)), Field("message", Str(message))]), level)
  {
    var fields := [Field("code", Num(code as real)), Field("message", Str(message))];
    ReadableScalar(show, Num(code as real), level + 1);
    ReadableScalar(show, Str(message), level + 1);
    assert fields[0].key != fields[1].key;
    ReadableObject(show, fields, level);
  }

  lemma ReadableToolResult(show: real -> string, text: string, isError: bool, level: nat)
    requires level + 3 < MAX_DEPTH
    ensures Readable(show, ToolResult(text, isError), level)
  {
    var block := [Field("type", Str("text")), Field("text", Str(text))];
    ReadableScalar(show, Str("text"), level + 3);
    ReadableScalar(show, Str(text), level + 3);
    assert block[0].key == "type" && block[1].key == "text";
    ReadableObject(show, block, level + 2);
    ReadableArray(show, [Obj(block)], level + 1);
    ReadableScalar(show, Bool(isError), level + 1);
    var fields := [Field("content", Arr([Obj(block)])), Field("isError", Bool(isError))];
    assert fields[0].key == "content" && fields[1].key == "isError";
    ReadableObject(show, fields, level);
  }

  // ---- readable replies -------------------------------------------------------------------

  /** The server's own texts parse back, and so do the integers allowed as ids. */
  ghost predicate Sound(config: Config) {
    && (forall x :: OneLine(config.show(x)))
    && (forall n: real :: n == n.Floor as real && -MAX_SAFE_INTEGER <= n <= MAX_SAFE_INTEGER ==>
          NumbersRead(config.show, Num(n)))
    && Readable(config.show, config.tools.serverInfo, 2)
    && Readable(config.show, config.tools.instructions, 2)
    && Readable(config.show, config.tools.definitions, 2)
  }

  /** A rendering that meets these demands on numbers. */
  function FloorShow(x: real): string { Integer(x.Floor) }

  lemma FloorShowReads()
    ensures forall x :: OneLine(FloorShow(x))
    ensures forall n: real :: n == n.Floor as real && -MAX_SAFE_INTEGER <= n <= MAX_SAFE_INTEGER ==>
              NumbersRead(FloorShow, Num(n))
  {
    forall x
      ensures OneLine(FloorShow(x))
    {
      IntegerOneLine(x.Floor);
    }
    forall n: real | n == n.Floor as real && -MAX_SAFE_INTEGER <= n <= MAX_SAFE_INTEGER
      ensures NumbersRead(FloorShow, Num(n))
    {
      IntegerStarts(n.Floor, "");
      assert Integer(n.Floor) + "" == Integer(n.Floor);
      forall rest | Delimits(rest)
        ensures Number(FloorShow(n) + rest) == Done(Num(n), rest)
      {
        NumberReads(n.Floor, rest);
      }
    }
  }

  /** The results a server can give. */
  ghost predicate KnownResult(tools: Tools, result: Json) {
    || result == Obj([])
    || result == Obj([Field("tools", tools.definitions)])
    || (exists negotiated :: result == InitializeResult(tools, negotiated))
    || (exists text, isError :: result == ToolResult(text, isError))
  }

  predicate KnownReply(r: Reply) {
    (r.id == Null || ValidId(r.id)) && (r.Failure? ==> -40_000 < r.code < 0)
  }

  lemma ToolCallResult(tools: Tools, id: Json, params: Option<Json>)
    ensures var r := HandleToolCall(tools, id, params);
      r.id == id && (r.Failure? ==> r.code == -32602) && (r.Success? ==> KnownResult(tools, r.result))
  {
  }

  lemma InitializeReply(tools: Tools, id: Json, params: Option<Json>, now: Lifecycle)
    ensures var r := HandleInitialize(tools, id, params, now).response;
      r.Some? && r.value.id == id && (r.value.Failure? ==> -40_000 < r.value.code < 0)
      && (r.value.Success? ==> KnownResult(tools, r.value.result))
  {
  }

  lemma DispatchResult(tools: Tools, m: Message, id: Json, now: Lifecycle)
    requires id == Null || ValidId(id)
    ensures var r := Dispatch(tools, m, id, now).response;
      r.Some? ==> KnownReply(r.value) && (r.value.Success? ==> KnownResult(tools, r.value.result))
  {
    var name := MethodOf(m.name);
    if name == ToolsCall {
      ToolCallResult(tools, id, m.params);
    } else if name == Initialize {
      InitializeReply(tools, id, m.params, now);
    }
  }

  lemma FrameResult(config: Config, f: Framing.Frame, now: Lifecycle)
    ensures var r := AnswerFrame(config, f, now).response;
      r.Some? ==> KnownReply(r.value) && (r.value.Success? ==> KnownResult(config.tools, r.value.result))
  {
    if f.Line? && Utf8.Decode(f.bytes).Some? {
      var text := Trim(Utf8.Decode(f.bytes).value);
      if text != [] && Parse(text).Some? {
        HandleResult(config.tools, Parse(text).value, now);
      }
    }
  }

  lemma HandleResult(tools: Tools, req: Json, now: Lifecycle)
    ensures var r := Handle(tools, req, now).response;
      r.Some? ==> KnownReply(r.value) && (r.value.Success? ==> KnownResult(tools, r.value.result))
  {
    if WellFormed(req) {
      var m := Message(GetText(req, "method").value, Get(req, "id"), Get(req, "params"));
      HandleDispatches(tools, req, now);
      DispatchResult(tools, m, MessageId(m), now);
    } else {
      EnvelopeAccepts(req);
    }
  }

  lemma ReadableResult(config: Config, result: Json)
    requires Sound(config) && KnownResult(config.tools, result)
    ensures Readable(config.show, result, 1)
  {
    var show, tools := config.show, config.tools;
    if result == Obj([]) {
      ReadableObject(show, [], 1);
    } else if result == Obj([Field("tools", tools.definitions)]) {
      ReadableObject(show, [Field("tools", tools.definitions)], 1);
    } else if exists negotiated :: result == InitializeResult(tools, negotiated) {
      var negotiated :| result == InitializeResult(tools, negotiated);
      ReadableInitialize(config, negotiated);
    } else {
      var text, isError :| result == ToolResult(text, isError);
      ReadableToolResult(show, text, isError, 1);
    }
  }

  lemma ReadableInitialize(config: Config, negotiated: string)
    requires Sound(config)
    ensures Readable(config.show, InitializeResult(config.tools, negotiated), 1)
  {
    var show := config.show;
    var changed := [Field("listChanged", Bool(false))];
    ReadableScalar(show, Bool(false), 4);
    ReadableObject(show, changed, 3);
    ReadableObject(show, [Field("tools", Obj(changed))], 2);
    ReadableScalar(show, Str(negotiated), 2);
    var fields := InitializeResult(config.tools, negotiated).fields;
    assert fields[0].key == "protocolVersion" && fields[1].key == "capabilities";
    assert fields[2].key == "serverInfo" && fields[3].key == "instructions";
    FourKeys(fields);
    ReadableObject(show, fields, 1);
  }

  lemma FourKeys(fields: seq<Field>)
    requires |fields| == 4 && fields[0].key == "protocolVersion" && fields[1].key == "capabilities"
    requires fields[2].key == "serverInfo" && fields[3].key == "instructions"
    ensures UniqueKeys(fields)
  {
    assert fields[0].key[0] == 'p' && fields[1].key[0] == 'c' && fields[2].key[0] == 's' && fields[3].key[0] == 'i';
  }

  lemma ThreeKeys(fields: seq<Field>)
    requires |fields| == 3 && fields[0].key == "jsonrpc" && fields[1].key == "id"
    requires fields[2].key == "result" || fields[2].key == "error"
    ensures UniqueKeys(fields)
  {
    assert fields[0].key[0] == 'j' && fields[1].key[0] == 'i' && fields[2].key[0] != 'j' && fields[2].key[0] != 'i';
  }

  lemma ReadableReply(config: Config, r: Reply)
    requires Sound(config) && KnownReply(r) && (r.Success? ==> KnownResult(config.tools, r.result))
    ensures Readable(config.show, ToJson(r), 0)
  {
    var show, fields := config.show, ToJson(r).fields;
    ReadableScalar(show, Str("2.0"), 1);
    match r {
      case Success(_, result) => ReadableResult(config, result);
      case Failure(_, code, message) => ReadableError(show, code, message, 1);
    }
    ThreeKeys(fields);
    ReadableObject(show, fields, 0);
  }

  // ---- whole sessions -----------------------------------------------------------------------

  ghost predicate AllReadable(config: Config, replies: seq<Reply>) {
    forall i :: 0 <= i < |replies| ==> Readable(config.show, ToJson(replies[i]), 0)
  }

  lemma AllReadableConcat(config: Config, a: seq<Reply>, b: seq<Reply>)
    requires AllReadable(config, a) && AllReadable(config, b)
    ensures AllReadable(config, a + b)
  {
    var s := a + b;
    forall i | 0 <= i < |s|
      ensures Readable(config.show, ToJson(s[i]), 0)
    {
      assert s[i] == if i < |a| then a[i] else b[i - |a|];
    }
  }

  /** The reply to one frame, as a sequence. */
  function Replies(s: Step): seq<Reply> {
    if s.response.Some? then [s.response.value] else []
  }

  lemma FrameReadable(config: Config, f: Framing.Frame, now: Lifecycle)
    requires Sound(config)
    ensures AllReadable(config, Replies(AnswerFrame(config, f, now)))
  {
    var s := AnswerFrame(config, f, now);
    FrameResult(config, f, now);
    if s.response.Some? {
      ReadableReply(config, s.response.value);
    }
  }

  lemma SessionSplits(config: Config, frames: seq<Framing.Frame>, now: Lifecycle)
    requires frames != []
    ensures var s := AnswerFrame(config, frames[0], now);
      Session(config, frames, now) == Replies(s) + Session(config, frames[1..], s.next)
  {
  }

  /** Every reply of every session reads back. */
  lemma {:induction false} SessionReadable(config: Config, frames: seq<Framing.Frame>, now: Lifecycle)
    requires Sound(config)
    ensures AllReadable(config, Session(config, frames, now))
    decreases |frames|
  {
    if frames != [] {
      var s := AnswerFrame(config, frames[0], now);
      FrameReadable(config, frames[0], now);
      SessionReadable(config, frames[1..], s.next);
      SessionSplits(config, frames, now);
      AllReadableConcat(config, Replies(s), Session(config, frames[1..], s.next));
    }
  }

  /** A written reply is one line without newline. */
  lemma RenderedPlain(config: Config, r: Reply)
    requires forall x :: OneLine(config.show(x))
    ensures Framing.Plain(Rendered(config, r))
  {
    var text := Write(config.show, ToJson(r), Compact, 0);
    CompactOneLine(config.show, ToJson(r), 0);
    Utf8.NewlineEncoded(text);
  }

  /** Decoding and parsing one line of output. */
  function ReadLine(line: Bytes): Option<Json> {
    match Utf8.Decode(line)
    case None => None
    case Some(text) => if Document(text).Done? then Some(Document(text).value) else None
  }

  lemma RenderedReads(config: Config, r: Reply)
    requires Readable(config.show, ToJson(r), 0)
    ensures ReadLine(Rendered(config, r)) == Some(ToJson(r))
  {
    Utf8.DecodeEncoded(Write(config.show, ToJson(r), Compact, 0));
    DocumentReads(config.show, ToJson(r), Compact);
  }

  /** The output of every session splits into exactly the rendered replies, and
      each line reads back as its reply. */
  lemma OutputReadsBack(config: Config, stream: Bytes, broken: bool, now: Lifecycle)
    requires Sound(config)
    ensures var replies := Session(config, Framing.Frames(stream, broken, MAX_FRAME_BYTES), now);
      var split := Framing.SplitLines(Output(config, stream, broken, now));
      && split.tail == [] && |split.lines| == |replies|
      && forall i :: 0 <= i < |replies| ==> ReadLine(split.lines[i]) == Some(ToJson(replies[i]))
  {
    var frames := Framing.Frames(stream, broken, MAX_FRAME_BYTES);
    var replies := Session(config, frames, now);
    var lines := RenderAll(config, replies);
    SessionReadable(config, frames, now);
    forall i | 0 <= i < |replies|
      ensures Framing.Plain(lines[i]) && ReadLine(lines[i]) == Some(ToJson(replies[i]))
    {
      RenderedPlain(config, replies[i]);
      RenderedReads(config, replies[i]);
    }
    Framing.SplitUnique(lines, []);
    assert Framing.Joined(lines) + [] == Framing.Joined(lines);
  }

  // ---- the parser's own size limit ---------------------------------------------------------

  lemma {:induction false} EncodeConcat(a: string, b: string)
    ensures Utf8.Encode(a + b) == Utf8.Encode(a) + Utf8.Encode(b)
  {
    if a == [] {
      assert a + b == b;
    } else {
      EncodeConcat(a[1..], b);
      EncodeFirst(a, b);
    }
  }

  lemma EncodeFirst(a: string, b: string)
    requires a != []
    ensures Utf8.Encode(a + b) == Utf8.EncodeChar(a[0]) + Utf8.Encode(a[1..] + b)
  {
    assert (a + b)[0] == a[0] && (a + b)[1..] == a[1..] + b;
  }

  lemma {:induction false} TrimStartShorter(s: string)
    ensures |Utf8.Encode(TrimStart(s))| <= |Utf8.Encode(s)|
  {
    if s != [] && IsWhite(s[0]) {
      TrimStartShorter(s[1..]);
    }
  }

  lemma {:induction false} TrimEndShorter(s: string)
    ensures |Utf8.Encode(TrimEnd(s))| <= |Utf8.Encode(s)|
  {
    if s != [] && IsWhite(s[|s| - 1]) {
      var front := s[..|s| - 1];
      TrimEndShorter(front);
      assert s == front + [s[|s| - 1]];
      EncodeConcat(front, [s[|s| - 1]]);
    }
  }

  /** Text from a frame within the limit never meets the parser's own limit. */
  lemma LimitUnreached(line: Bytes)
    requires |line| <= MAX_FRAME_BYTES && Utf8.Decode(line).Some?
    ensures var text := Trim(Utf8.Decode(line).value);
      Parse(text) == if Document(text).Done? then Some(Document(text).value) else None
  {
    var t := Utf8.Decode(line).value;
    Utf8.EncodeDecoded(line);
    TrimStartShorter(t);
    TrimEndShorter(TrimStart(t));
  }
}
