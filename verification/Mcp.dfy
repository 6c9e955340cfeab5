/** The JSON-RPC 2.0 lifecycle machine of the MCP server. Tool bodies and their
    schemas are parameters. */
module Mcp {
  import opened Results
  import opened JsonText
  import opened Lifecycles

  /** What the server is built with: its texts about itself, the tool schemas and
      the tools, which answer with a text or an error text. */
  datatype Tools = Tools(
    serverInfo: Json,
    instructions: Json,
    definitions: Json,
    run: (string, Json) -> Result<string, string>)

  // ---- values ------------------------------------------------------------------------

  function Find(fields: seq<Field>, key: string): Option<Json> {
    if fields == [] then None
    else if fields[0].key == key then Some(fields[0].value)
    else Find(fields[1..], key)
  }

  function Get(v: Json, key: string): Option<Json> {
    if v.Obj? then Find(v.fields, key) else None
  }

  function GetText(v: Json, key: string): Option<string> {
    match Get(v, key)
    case Some(Str(s)) => Some(s)
    case _ => None
  }

  /** A field that is a non-empty string. */
  predicate HasText(v: Json, key: string) {
    GetText(v, key).Some? && GetText(v, key).value != ""
  }

  function OkResponse(id: Json, result: Json): Json {
    Obj([Field("jsonrpc", Str("2.0")), Field("id", id), Field("result", result)])
  }

  function ErrResponse(id: Json, code: int, message: string): Json {
    Obj([Field("jsonrpc", Str("2.0")), Field("id", id),
         Field("error", Obj([Field("code", Num(code as real)), Field("message", Str(message))]))])
  }

  // ---- the envelope ----------------------------------------------------------------------

  const MAX_SAFE_INTEGER := 9_007_199_254_740_991.0

  predicate ValidId(id: Json) {
    match id
    case Str(_) => true
    case Num(n) => n == n.Floor as real && -MAX_SAFE_INTEGER <= n <= MAX_SAFE_INTEGER
    case _ => false
  }

  datatype Message = Message(name: string, id: Option<Json>, params: Option<Json>)

  /** The checks every message must pass before its method is looked at. */
  function Envelope(req: Json): Result<Message, string> {
    if !req.Obj? then Err("invalid request: top-level value must be an object")
    else if GetText(req, "jsonrpc") != Some("2.0") then Err("invalid request: jsonrpc must equal \"2.0\"")
    else if !HasText(req, "method") then Err("invalid request: method must be a non-empty string")
    else if Get(req, "id").Some? && !ValidId(Get(req, "id").value) then
      Err("invalid request: id must be a string or safe integer")
    else Ok(Message(GetText(req, "method").value, Get(req, "id"), Get(req, "params")))
  }

  // ---- handlers -------------------------------------------------------------------------

  const PROTOCOL_VERSION := "2025-11-25"

  function Negotiate(requested: string): (r: string)
    ensures r == requested || r == PROTOCOL_VERSION
  {
    if requested == "2025-11-25" || requested == "2025-06-18" || requested == "2025-03-26" || requested == "2024-11-05"
    then requested
    else PROTOCOL_VERSION
  }

  /** The protocol version asked for by `initialize`, or what is wrong with its
      parameters. */
  function RequestedVersion(params: Option<Json>): Result<string, string> {
    if params == None || !params.value.Obj? then Err("initialize params must be an object")
    else
      var p := params.value;
      if !HasText(p, "protocolVersion") then Err("initialize requires a non-empty protocolVersion")
      else
        match ClientFault(p)
        case Some(fault) => Err(fault)
        case None => Ok(GetText(p, "protocolVersion").value)
  }

  /** What is wrong with the description of the client, if anything. */
  function ClientFault(p: Json): Option<string> {
    var client := Get(p, "clientInfo");
    if Get(p, "capabilities") == None || !Get(p, "capabilities").value.Obj? then
      Some("initialize requires a capabilities object")
    else if client == None || !client.value.Obj? then Some("initialize requires a clientInfo object")
    else if !HasText(client.value, "name") then Some("clientInfo.name must be a non-empty string")
    else if !HasText(client.value, "version") then Some("clientInfo.version must be a non-empty string")
    else None
  }

  function InitializeResult(tools: Tools, negotiated: string): Json {
    Obj([
      Field("protocolVersion", Str(negotiated)),
      Field("capabilities", Obj([Field("tools", Obj([Field("listChanged", Bool(false))]))])),
      Field("serverInfo", tools.serverInfo),
      Field("instructions", tools.instructions)])
  }

  /** What a request is answered with, before it is rendered. */
  datatype Reply = Success(id: Json, result: Json) | Failure(id: Json, code: int, message: string)

  function ToJson(r: Reply): Json {
    match r
    case Success(id, result) => OkResponse(id, result)
    case Failure(id, code, message) => ErrResponse(id, code, message)
  }

  datatype Step = Step(response: Option<Reply>, next: Lifecycle)

  function HandleInitialize(tools: Tools, id: Json, params: Option<Json>, now: Lifecycle): Step {
    if now != Uninitialized then Step(Some(Failure(id, -32600, "server is already initialized")), now)
    else
      match RequestedVersion(params)
      case Err(fault) => Step(Some(Failure(id, -32602, fault)), now)
      case Ok(requested) =>
        Step(Some(Success(id, InitializeResult(tools, Negotiate(requested)))), AwaitingInitialized)
  }

  /** The first property that is not allowed, if any. */
  function UnknownProperty(fields: seq<Field>, allowed: seq<string>): Option<string> {
    if fields == [] then None
    else if fields[0].key !in allowed then Some(fields[0].key)
    else UnknownProperty(fields[1..], allowed)
  }

  function ToolResult(text: string, isError: bool): Json {
    Obj([Field("content", Arr([Obj([Field("type", Str("text")), Field("text", Str(text))])])),
        Field("isError", Bool(isError))])
  }

  function HandleToolCall(tools: Tools, id: Json, params: Option<Json>): Reply {
    if params == None then Failure(id, -32602, "missing params")
    else if !params.value.Obj? then Failure(id, -32602, "tools/call params must be an object")
    else
      var p := params.value;
      var unknown := UnknownProperty(p.fields, ["name", "arguments"]);
      var arguments := Get(p, "arguments");
      if unknown.Some? then Failure(id, -32602, "tools/call params contains unknown property '" + unknown.value + "'")
      else if !HasText(p, "name") then Failure(id, -32602, "missing tool name")
      else if arguments.Some? && !arguments.value.Obj? then Failure(id, -32602, "tool arguments must be an object")
      else
        match tools.run(GetText(p, "name").value, if arguments.Some? then arguments.value else Obj([]))
        case Ok(text) => Success(id, ToolResult(text, false))
        case Err(text) => Success(id, ToolResult(text, true))
  }

  /** One message; nothing is answered to a notification. */
  function Handle(tools: Tools, req: Json, now: Lifecycle): Step {
    match Envelope(req)
    case Err(message) => Step(Some(Failure(Null, -32600, message)), now)
    case Ok(m) => Dispatch(tools, m, if m.id.Some? then m.id.value else Null, now)
  }

  datatype Method = Initialize | Initialized | Ping | ToolsList | ToolsCall | Other

  function MethodOf(name: string): Method {
    if name == "initialize" then Initialize
    else if name == "notifications/initialized" then Initialized
    else if name == "ping" then Ping
    else if name == "tools/list" then ToolsList
    else if name == "tools/call" then ToolsCall
    else Other
  }

  /** The method is looked up; `id` is null in a notification. */
  function Dispatch(tools: Tools, m: Message, id: Json, now: Lifecycle): Step {
    var silent := m.id == None;
    var name := MethodOf(m.name);
    if m.params.Some? && !m.params.value.Obj? then
      if silent then Step(None, now) else Step(Some(Failure(id, -32602, "params must be an object")), now)
    else if name == Initialize then
      if silent then Step(None, now) else HandleInitialize(tools, id, m.params, now)
    else if name == Initialized then
      if !silent then Step(Some(Failure(id, -32600, "notifications/initialized must not contain an id")), now)
      else Step(None, if now == AwaitingInitialized then Ready else now)
    else if name == Ping then
      if silent then Step(None, now) else Step(Some(Success(id, Obj([]))), now)
    else if now != Ready then
      if silent then Step(None, now) else Step(Some(Failure(id, -32002, "server is not initialized")), now)
    else if name == ToolsList then
      if silent then Step(None, now) else Step(Some(Success(id, Obj([Field("tools", tools.definitions)]))), now)
    else if name == ToolsCall then
      if silent then Step(None, now) else Step(Some(HandleToolCall(tools, id, m.params)), now)
    else if silent then Step(None, now)
    else Step(Some(Failure(id, -32601, "method not found: " + m.name)), now)
  }

  // ---- what one message gets --------------------------------------------------------------

  predicate WellFormed(req: Json) {
    && req.Obj?
    && GetText(req, "jsonrpc") == Some("2.0")
    && HasText(req, "method")
    && (Get(req, "id").Some? ==> ValidId(Get(req, "id").value))
  }

  predicate Notification(req: Json) {
    WellFormed(req) && Get(req, "id") == None
  }

  predicate Request(req: Json) {
    WellFormed(req) && Get(req, "id").Some?
  }

  /** A JSON-RPC 2.0 response object (section 5): the version, the id, and either
      a result or an error. */
  predicate ResponseTo(r: Json, id: Json) {
    && GetText(r, "jsonrpc") == Some("2.0")
    && Get(r, "id") == Some(id)
    && (Get(r, "result").Some? != Get(r, "error").Some?)
  }

  lemma FindSkips(f: Field, rest: seq<Field>, key: string)
    ensures Find([f] + rest, key) == if f.key == key then Some(f.value) else Find(rest, key)
  {
    assert ([f] + rest)[1..] == rest;
  }

  lemma FindThree(a: Field, b: Field, c: Field, key: string)
    ensures Find([a, b, c], key) ==
      if a.key == key then Some(a.value) else if b.key == key then Some(b.value)
      else if c.key == key then Some(c.value) else None
  {
    assert [a, b, c] == [a] + [b, c] && [b, c] == [b] + [c] && [c] == [c] + [];
    FindSkips(a, [b, c], key);
    FindSkips(b, [c], key);
    FindSkips(c, [], key);
  }

  lemma OkIsResponse(id: Json, result: Json)
    ensures ResponseTo(OkResponse(id, result), id) && Get(OkResponse(id, result), "result") == Some(result)
  {
    var a, b, c := Field("jsonrpc", Str("2.0")), Field("id", id), Field("result", result);
    FindThree(a, b, c, "jsonrpc");
    FindThree(a, b, c, "id");
    FindThree(a, b, c, "result");
    FindThree(a, b, c, "error");
  }

  lemma ErrIsResponse(id: Json, code: int, message: string)
    ensures ResponseTo(ErrResponse(id, code, message), id) && Get(ErrResponse(id, code, message), "result") == None
  {
    var a, b := Field("jsonrpc", Str("2.0")), Field("id", id);
    var c := Field("error", Obj([Field("code", Num(code as real)), Field("message", Str(message))]));
    FindThree(a, b, c, "jsonrpc");
    FindThree(a, b, c, "id");
    FindThree(a, b, c, "result");
    FindThree(a, b, c, "error");
  }

  lemma EnvelopeAccepts(req: Json)
    ensures Envelope(req).Ok? <==> WellFormed(req)
    ensures WellFormed(req) ==>
      Envelope(req) == Ok(Message(GetText(req, "method").value, Get(req, "id"), Get(req, "params")))
  {
  }

  /** Every rendered reply is a response object with the reply's own id. */
  lemma ReplyIsResponse(r: Reply)
    ensures ResponseTo(ToJson(r), r.id) && (Get(ToJson(r), "result").Some? <==> r.Success?)
  {
    match r
    case Success(id, result) => OkIsResponse(id, result);
    case Failure(id, code, message) => ErrIsResponse(id, code, message);
  }

  predicate Succeeds(r: Option<Reply>) {
    r.Some? && r.value.Success?
  }

  /** The request that may begin a session. */
  predicate StartsHandshake(req: Json) {
    Request(req) && Starts(GetText(req, "method").value, Get(req, "params"))
  }

  predicate Starts(name: string, params: Option<Json>) {
    MethodOf(name) == Initialize && RequestedVersion(params).Ok?
  }

  /** The notification that completes the handshake. */
  predicate CompletesHandshake(req: Json) {
    Notification(req) && Completes(GetText(req, "method").value, Get(req, "params"))
  }

  predicate Completes(name: string, params: Option<Json>) {
    MethodOf(name) == Initialized && (params.Some? ==> params.value.Obj?)
  }

  predicate AsksInitialize(req: Json) {
    HasText(req, "method") && MethodOf(GetText(req, "method").value) == Initialize
  }

  predicate UsesTools(req: Json) {
    HasText(req, "method") && MethodOf(GetText(req, "method").value) in {ToolsList, ToolsCall}
  }

  /** A well-formed request gets one reply carrying its own id, a well-formed
      notification none, and anything else an error with a null id. */
  lemma HandleReplies(tools: Tools, req: Json, now: Lifecycle)
    ensures var r := Handle(tools, req, now).response;
      && (r == None <==> Notification(req))
      && (Request(req) ==> r.value.id == Get(req, "id").value)
      && (!WellFormed(req) ==> r.value.Failure? && r.value.id == Null && r.value.code == -32600)
  {
    EnvelopeAccepts(req);
  }

  function MessageId(m: Message): Json {
    if m.id.Some? then m.id.value else Null
  }

  lemma HandleDispatches(tools: Tools, req: Json, now: Lifecycle)
    requires WellFormed(req)
    ensures var m := Message(GetText(req, "method").value, Get(req, "id"), Get(req, "params"));
      Handle(tools, req, now) == Dispatch(tools, m, MessageId(m), now)
  {
    EnvelopeAccepts(req);
  }

  lemma HandleRefuses(tools: Tools, req: Json, now: Lifecycle)
    requires !WellFormed(req)
    ensures Handle(tools, req, now).next == now && !Succeeds(Handle(tools, req, now).response)
  {
    EnvelopeAccepts(req);
  }

  /** The lifecycle moves only by a faultless `initialize` and by the notification
      that completes it. */
  lemma HandleMoves(tools: Tools, req: Json, now: Lifecycle)
    ensures Handle(tools, req, now).next ==
      if now == Uninitialized && StartsHandshake(req) then AwaitingInitialized
      else if now == AwaitingInitialized && CompletesHandshake(req) then Ready
      else now
  {
    if WellFormed(req) {
      var m := Message(GetText(req, "method").value, Get(req, "id"), Get(req, "params"));
      HandleDispatches(tools, req, now);
      DispatchMoves(tools, m, MessageId(m), now);
    } else {
      HandleRefuses(tools, req, now);
    }
  }

  /** `initialize` succeeds exactly once it is faultless and comes first. */
  lemma HandleInitializes(tools: Tools, req: Json, now: Lifecycle)
    requires AsksInitialize(req)
    ensures Succeeds(Handle(tools, req, now).response) <==> now == Uninitialized && StartsHandshake(req)
  {
    if WellFormed(req) {
      var m := Message(GetText(req, "method").value, Get(req, "id"), Get(req, "params"));
      HandleDispatches(tools, req, now);
      DispatchInitializes(tools, m, MessageId(m), now);
    } else {
      HandleRefuses(tools, req, now);
    }
  }

  /** Tools answer only when the server is ready. */
  lemma HandleGuardsTools(tools: Tools, req: Json, now: Lifecycle)
    requires UsesTools(req) && Succeeds(Handle(tools, req, now).response)
    ensures now == Ready
  {
    if WellFormed(req) {
      var m := Message(GetText(req, "method").value, Get(req, "id"), Get(req, "params"));
      HandleDispatches(tools, req, now);
      DispatchGuardsTools(tools, m, MessageId(m), now);
    } else {
      HandleRefuses(tools, req, now);
    }
  }

  lemma DispatchMoves(tools: Tools, m: Message, id: Json, now: Lifecycle)
    ensures Dispatch(tools, m, id, now).next ==
      if now == Uninitialized && m.id.Some? && Starts(m.name, m.params) then AwaitingInitialized
      else if now == AwaitingInitialized && m.id == None && Completes(m.name, m.params) then Ready
      else now
  {
  }

  lemma InitializeSucceeds(tools: Tools, id: Json, params: Option<Json>, now: Lifecycle)
    ensures Succeeds(HandleInitialize(tools, id, params, now).response) <==>
      now == Uninitialized && RequestedVersion(params).Ok?
    ensures RequestedVersion(params).Ok? ==> params.Some? && params.value.Obj?
  {
  }

  lemma DispatchInitializes(tools: Tools, m: Message, id: Json, now: Lifecycle)
    requires MethodOf(m.name) == Initialize
    ensures Succeeds(Dispatch(tools, m, id, now).response) <==>
      now == Uninitialized && m.id.Some? && Starts(m.name, m.params)
  {
    InitializeSucceeds(tools, id, m.params, now);
  }

  lemma DispatchGuardsTools(tools: Tools, m: Message, id: Json, now: Lifecycle)
    requires MethodOf(m.name) in {ToolsList, ToolsCall} && Succeeds(Dispatch(tools, m, id, now).response)
    ensures now == Ready
  {
  }

  // ---- whole runs ---------------------------------------------------------------------------

  /** The lifecycle before message `k` of a session. */
  function StateAt(tools: Tools, msgs: seq<Json>, k: nat): Lifecycle
    requires k <= |msgs|
  {
    if k == 0 then Uninitialized else Handle(tools, msgs[k - 1], StateAt(tools, msgs, k - 1)).next
  }

  function ReplyAt(tools: Tools, msgs: seq<Json>, k: nat): Option<Reply>
    requires k < |msgs|
  {
    Handle(tools, msgs[k], StateAt(tools, msgs, k)).response
  }

  /** Message `i` is an `initialize` that was answered with a result. */
  predicate InitializedAt(tools: Tools, msgs: seq<Json>, i: nat)
    requires i < |msgs|
  {
    AsksInitialize(msgs[i]) && Succeeds(ReplyAt(tools, msgs, i))
  }

  /** The lifecycle before and after each message of a session, which messages
      were successful initializations and which completed the handshake. */
  function TraceOf(tools: Tools, msgs: seq<Json>): (t: Trace)
    ensures |t.states| == |msgs| + 1 && |t.starts| == |msgs| && |t.completes| == |msgs|
    ensures forall k :: 0 <= k <= |msgs| ==> t.states[k] == StateAt(tools, msgs, k)
    ensures forall k :: 0 <= k < |msgs| ==> t.starts[k] == InitializedAt(tools, msgs, k)
    ensures forall k :: 0 <= k < |msgs| ==> t.completes[k] == CompletesHandshake(msgs[k])
  {
    var n := |msgs|;
    Trace(seq(n + 1, k requires 0 <= k <= n => StateAt(tools, msgs, k)),
          seq(n, k requires 0 <= k < n => InitializedAt(tools, msgs, k)),
          seq(n, k requires 0 <= k < n => CompletesHandshake(msgs[k])))
  }

  lemma TraceMoves(tools: Tools, msgs: seq<Json>, k: nat)
    requires k < |msgs|
    ensures Move(StateAt(tools, msgs, k), StateAt(tools, msgs, k + 1), InitializedAt(tools, msgs, k),
        CompletesHandshake(msgs[k]))
  {
    HandleMoves(tools, msgs[k], StateAt(tools, msgs, k));
    if AsksInitialize(msgs[k]) {
      HandleInitializes(tools, msgs[k], StateAt(tools, msgs, k));
    }
  }

  lemma TraceLegal(tools: Tools, msgs: seq<Json>)
    ensures Legal(TraceOf(tools, msgs))
  {
    var t := TraceOf(tools, msgs);
    forall k | 0 <= k < |t.starts|
      ensures MoveAt(t, k)
    {
      TraceMoves(tools, msgs, k);
    }
  }

  /** The lifecycle never goes back. */
  lemma LifecycleNeverBack(tools: Tools, msgs: seq<Json>, i: nat, k: nat)
    requires i <= k <= |msgs|
    ensures Rank(StateAt(tools, msgs, i)) <= Rank(StateAt(tools, msgs, k))
  {
    TraceLegal(tools, msgs);
    NeverBack(TraceOf(tools, msgs), i, k);
  }

  /** The server is ready exactly after a successful `initialize` followed by the
      initialized notification. */
  lemma ReadyAfterHandshake(tools: Tools, msgs: seq<Json>, k: nat)
    requires k <= |msgs|
    ensures StateAt(tools, msgs, k) == Ready <==>
      exists i, j :: 0 <= i < j < k && InitializedAt(tools, msgs, i) && CompletesHandshake(msgs[j])
  {
    var t := TraceOf(tools, msgs);
    TraceLegal(tools, msgs);
    ReadyIffShaken(t, k);
    assert Shaken(t, k) <==> exists i, j :: 0 <= i < j < k && t.starts[i] && t.completes[j];
  }

  /** No tool list or tool call succeeds before the handshake. */
  lemma ToolsNeedHandshake(tools: Tools, msgs: seq<Json>, k: nat)
    requires k < |msgs| && UsesTools(msgs[k]) && Succeeds(ReplyAt(tools, msgs, k))
    ensures exists i, j :: 0 <= i < j < k && InitializedAt(tools, msgs, i) && CompletesHandshake(msgs[j])
  {
    HandleGuardsTools(tools, msgs[k], StateAt(tools, msgs, k));
    ReadyAfterHandshake(tools, msgs, k);
  }

  /** A session is initialized at most once. */
  lemma InitializedOnce(tools: Tools, msgs: seq<Json>, i: nat, j: nat)
    requires i < |msgs| && j < |msgs| && InitializedAt(tools, msgs, i) && InitializedAt(tools, msgs, j)
    ensures i == j
  {
    TraceLegal(tools, msgs);
    StartsOnce(TraceOf(tools, msgs), i, j);
  }
}
