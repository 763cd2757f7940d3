/** What a local node does with a JSON-RPC request, as functions of its state:
    its methods, its registry and its clock. */
module NodeRequests {
  import opened Sequences
  import opened CStrings
  import opened Json
  import opened LogicalClock
  import opened MethodTable

  const INVALID_REQUEST := -32600
  const METHOD_NOT_FOUND := -32601
  const INVALID_PARAMS := -32602
  const INTERNAL_ERROR := -32603

  /** A registry entry's value and its wall-clock and logical timestamps. */
  datatype Entry = Entry(value: Option<string>, ts: int, lts: int)

  type Registry = map<string, Entry>

  datatype NodeState = NodeState(methods: Methods, registry: Registry, clock: int)

  /** The detail code and message of a RoundError, which callers pass in and requests overwrite. */
  datatype RpcError = RpcError(code: int, message: Option<string>)

  datatype ScriptResult = ScriptResult(ok: bool, result: Option<Json>, err: RpcError)

  /** What is outside the node: the JSON parser and printer, Base64, and the script engines. */
  datatype Env = Env(
    parse: string -> Option<Json>,
    toText: Json -> string,
    decodeBase64: Option<string> -> string,
    runScript: (Method, string, RpcError) -> ScriptResult)

  /** The state, success, answer and error after a request or a part of one. */
  datatype Outcome = Outcome(state: NodeState, ok: bool, result: Option<Json>, err: RpcError)

  /** round_json_rpc_errorcode2string, for the codes a local node sets */
  function ErrorMessage(code: int): string {
    if code == INVALID_REQUEST then "Invalid Request"
    else if code == METHOD_NOT_FOUND then "Method not found"
    else if code == INVALID_PARAMS then "Invalid params"
    else if code == INTERNAL_ERROR then "Internal error"
    else "Unknown Error"
  }

  /** round_error_setjsonrpcerrorcode */
  function ErrorOf(code: int): RpcError {
    RpcError(code, Some(ErrorMessage(code)))
  }

  function Failed(st: NodeState, code: int): Outcome {
    Outcome(st, false, None, ErrorOf(code))
  }

  /** Done when ok holds; otherwise an internal error, in the same state. */
  function DoneIf(st: NodeState, ok: bool, err: RpcError): Outcome {
    if ok then Outcome(st, true, None, err) else Failed(st, INTERNAL_ERROR)
  }

  // ---- The registry -----------------------------------------------------------

  /** The registry after setting a key at the given times: an absent value keeps the one that is there. */
  function WithEntry(reg: Registry, key: string, val: Option<string>, now: int, clock: int): Registry {
    var previous := if key in reg then reg[key].value else None;
    reg[key := Entry(if val.Some? then val else previous, now, clock)]
  }

  /** round_local_node_setregistry succeeds exactly for a key that is there. */
  function AfterSetRegistry(st: NodeState, key: Option<string>, val: Option<string>, now: int): NodeState {
    if key.None? then st else st.(registry := WithEntry(st.registry, key.value, val, now, st.clock))
  }

  function Registered(st: NodeState, key: Option<string>): Option<Entry> {
    if key.Some? && key.value in st.registry then Some(st.registry[key.value]) else None
  }

  function EntryAsJson(key: Option<string>, e: Entry): Json {
    Obj(map["key" := StringOrNull(key), "val" := StringOrNull(e.value), "ts" := Int(e.ts), "lts" := Int(e.lts)])
  }

  // ---- The system methods -----------------------------------------------------

  /** The code a set_method request carries, decoded when it says so; None when it cannot be decoded. */
  function RequestedCode(env: Env, params: Json, code: Option<string>): Option<string> {
    var encode := GetString(env.toText, params, "enc");
    if encode.Some? && RoundStrEq(encode.value, Some("base64")) then
      var decoded := env.decodeBase64(code);
      if decoded == "" then None else Some(decoded)
    else Some(code.GetOr(""))
  }

  function SystemSetMethod(env: Env, st: NodeState, params: Json, err: RpcError): Outcome {
    var name, lang, code :=
      GetString(env.toText, params, "name"), GetString(env.toText, params, "lang"),
      GetString(env.toText, params, "code");
    if name.None? || lang.None? || code.None? || RequestedCode(env, params, code.value).None? then
      Failed(st, INVALID_PARAMS)
    else
      var text := RequestedCode(env, params, code.value).value;
      var c := AfterSetMethod(st.methods, Method(name.value, lang.value, text, 0, None));
      DoneIf(st.(methods := c.methods), c.ok, err)
  }

  function SystemRemoveMethod(env: Env, st: NodeState, params: Json, err: RpcError): Outcome {
    var name := GetString(env.toText, params, "name");
    if name.None? || Reserved(st.methods, name.value) then Failed(st, INVALID_PARAMS)
    else
      var c := AfterRemoveMethod(st.methods, name.value);
      DoneIf(st.(methods := c.methods), c.ok, err)
  }

  function SystemSetRegistry(env: Env, st: NodeState, params: Json, now: int, err: RpcError): Outcome {
    var key, val := GetString(env.toText, params, "key"), GetString(env.toText, params, "val");
    if key.None? || val.None? then Failed(st, INVALID_PARAMS)
    else DoneIf(AfterSetRegistry(st, key.value, val.value, now), key.value.Some?, err)
  }

  function SystemGetRegistry(env: Env, st: NodeState, params: Json, err: RpcError): Outcome {
    var key := GetString(env.toText, params, "key");
    if key.None? || Registered(st, key.value).None? then Failed(st, INVALID_PARAMS)
    else Outcome(st, true, Some(EntryAsJson(key.value, Registered(st, key.value).value)), err)
  }

  function SystemRemoveRegistry(env: Env, st: NodeState, params: Json, err: RpcError): Outcome {
    var key := GetString(env.toText, params, "key");
    if key.None? then Failed(st, INVALID_PARAMS)
    else if Registered(st, key.value).None? then Failed(st, INTERNAL_ERROR)
    else Outcome(st.(registry := st.registry - {key.value.value}), true, None, err)
  }

  function RunBuiltin(env: Env, st: NodeState, func: Builtin, params: Json, now: int, err: RpcError): Outcome {
    match func
    case SetMethodFunc => SystemSetMethod(env, st, params, err)
    case RemoveMethodFunc => SystemRemoveMethod(env, st, params, err)
    case SetRegistryFunc => SystemSetRegistry(env, st, params, now, err)
    case GetRegistryFunc => SystemGetRegistry(env, st, params, err)
    case RemoveRegistryFunc => SystemRemoveRegistry(env, st, params, err)
  }

  // ---- Requests ---------------------------------------------------------------

  /** round_native_engine_run */
  function RunNative(env: Env, st: NodeState, m: Method, params: string, now: int, err: RpcError): Outcome {
    if m.func.None? then Failed(st, METHOD_NOT_FOUND)
    else if env.parse(params).None? then Failed(st, INVALID_PARAMS)
    else RunBuiltin(env, st, m.func.value, env.parse(params).value, now, err)
  }

  /** round_method_manager_execmethod. Without a name or parameters it fails and sets no error. */
  function ExecMethod(env: Env, st: NodeState, name: Option<string>, params: Option<string>, now: int,
                      err: RpcError): Outcome {
    if name.None? || params.None? then Outcome(st, false, None, err)
    else if Lookup(st.methods, name).None? then Failed(st, METHOD_NOT_FOUND)
    else
      var m := Lookup(st.methods, name).value;
      if m.lang == Some(NATIVE_LANGUAGE) then RunNative(env, st, m, params.value, now, err)
      else
        var r := env.runScript(m, params.value, err);
        Outcome(st, r.ok, r.result, r.err)
  }

  /** An empty JSON-RPC response to the request, with the request's id as a string. */
  function ResponseTo(env: Env, req: Json): map<string, Json> {
    var id := GetString(env.toText, req, "id");
    map["jsonrpc" := Str("2.0")] + if id.Some? then map["id" := StringOrNull(id.value)] else map[]
  }

  function ErrorAsJson(err: RpcError): Json {
    Obj(map["code" := Int(err.code), "message" := StringOrNull(err.message)])
  }

  /** The response filled in with a method's outcome. */
  function Responded(env: Env, req: Json, o: Outcome): Outcome {
    var res := ResponseTo(env, req);
    o.(result := Some(Obj(
      if !o.ok then res["error" := ErrorAsJson(o.err)]
      else if o.result.Some? then res["result" := o.result.value]
      else res)))
  }

  /** round_local_node_execrequest */
  function ExecRequest(env: Env, st: NodeState, req: Json, now: int, err: RpcError): Outcome {
    if !req.Obj? then Responded(env, req, Failed(st, INVALID_REQUEST))
    else
      Responded(env, req, ExecMethod(env, st, GetString(env.toText, req, "method").GetOr(None),
                                     GetString(env.toText, req, "params").GetOr(None), now, err))
  }

  datatype Batch = Batch(state: NodeState, responses: seq<Json>, err: RpcError)

  /** The requests executed in order, at the times that nows gives by position, all sharing the error. */
  function ExecAll(env: Env, st: NodeState, reqs: seq<Json>, nows: nat -> int, err: RpcError): Batch {
    if reqs == [] then Batch(st, [], err)
    else
      var n := |reqs| - 1;
      var b := ExecAll(env, st, reqs[..n], nows, err);
      var o := ExecRequest(env, b.state, reqs[n], nows(n), b.err);
      Batch(o.state, b.responses + [o.result.GetOr(Null)], o.err)
  }

  /** The state once a message has moved the clock. */
  function Ticked(st: NodeState, msg: Json): NodeState {
    st.(clock := Tick(st.clock, GetInteger(msg, "ts")))
  }

  /** round_local_node_postmessage: a batch always succeeds and answers with an array. */
  function Post(env: Env, st: NodeState, msg: Json, nows: nat -> int, err: RpcError): Outcome {
    var ticked := Ticked(st, msg);
    match msg
    case Obj(_) => ExecRequest(env, ticked, msg, nows(0), err)
    case Arr(elements) =>
      var b := ExecAll(env, ticked, elements, nows, err);
      Outcome(b.state, true, Some(Arr(b.responses)), b.err)
    case _ => Failed(ticked, INVALID_REQUEST)
  }
}
