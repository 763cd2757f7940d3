/** What a caller can tell from a local node's answers: the form of responses, the errors in
    them, and what one system method says about the effect of another. */
module Responses {
  import opened Sequences
  import opened Json
  import opened MethodTable
  import opened NodeRequests
  import opened LogicalClock
  import opened RequestTheory

  // ---- Responses and errors -----------------------------------------------------------

  ghost function MethodName(env: Env, req: Json): Option<string> {
    GetString(env.toText, req, "method").GetOr(None)
  }

  ghost function ParamsText(env: Env, req: Json): Option<string> {
    GetString(env.toText, req, "params").GetOr(None)
  }

  /** Every response says which version it is, repeats the request's id as a string if there is one,
      and holds the error if and only if the request failed; a failure has no result. */
  lemma ResponseWellFormed(env: Env, st: NodeState, req: Json, now: int, err: RpcError)
    ensures var o := ExecRequest(env, st, req, now, err);
            && o.result.Some? && o.result.value.Obj?
            && var res := o.result.value.members;
            && res.Keys <= {"jsonrpc", "id", "result", "error"}
            && "jsonrpc" in res && res["jsonrpc"] == Str("2.0")
            && ("id" in res <==> req.Obj? && "id" in req.members)
            && ("id" in res ==>
                  var id := req.members["id"];
                  res["id"] == if id.Null? || id.Bool? then Null else if id.Str? then id else Str(env.toText(id)))
            && ("error" in res <==> !o.ok)
            && (!o.ok ==>
                  && "result" !in res
                  && var message := if o.err.message.Some? then Str(o.err.message.value) else Null;
                     res["error"] == Obj(map["code" := Int(o.err.code), "message" := message]))
  {
    hide ExecMethod, ErrorOf;
  }

  /** The request's method is not run by a script engine. */
  ghost predicate NotScripted(env: Env, st: NodeState, req: Json) {
    var m := Lookup(st.methods, MethodName(env, req));
    m.Some? ==> m.value.lang == Some(NATIVE_LANGUAGE)
  }

  lemma ErrorIgnored(env: Env, st: NodeState, req: Json, now: int, e: RpcError, f: RpcError)
    requires NotScripted(env, st, req)
    ensures var a, b := ExecRequest(env, st, req, now, e), ExecRequest(env, st, req, now, f);
            && a.state == b.state && a.ok == b.ok
            && (!req.Obj? || (MethodName(env, req).Some? && ParamsText(env, req).Some?) ==> a.result == b.result)
  {
    hide GetString, ResponseTo, RunBuiltin;
    var name, params := MethodName(env, req), ParamsText(env, req);
    if name.Some? && params.Some? && Lookup(st.methods, name).Some? {
      var m := Lookup(st.methods, name).value;
      if m.func.Some? && env.parse(params.value).Some? {
        BuiltinErrorIgnored(env, st, m.func.value, env.parse(params.value).value, now, e, f);
      }
    }
  }

  /** What is in the error object before a request shows in its response exactly when the request
      is an object without method name or parameters; it never shows in the state or the success. */
  lemma StaleErrorShows(env: Env, st: NodeState, req: Json, now: int)
    requires NotScripted(env, st, req)
    ensures (forall e, f :: ExecRequest(env, st, req, now, e).result == ExecRequest(env, st, req, now, f).result)
            <==> !req.Obj? || (MethodName(env, req).Some? && ParamsText(env, req).Some?)
    ensures forall e, f :: ExecRequest(env, st, req, now, e).state == ExecRequest(env, st, req, now, f).state
                           && ExecRequest(env, st, req, now, e).ok == ExecRequest(env, st, req, now, f).ok
  {
    hide GetString, ExecRequest;
    forall e, f
      ensures ExecRequest(env, st, req, now, e).state == ExecRequest(env, st, req, now, f).state
      ensures ExecRequest(env, st, req, now, e).ok == ExecRequest(env, st, req, now, f).ok
      ensures !req.Obj? || (MethodName(env, req).Some? && ParamsText(env, req).Some?) ==>
                ExecRequest(env, st, req, now, e).result == ExecRequest(env, st, req, now, f).result
    {
      ErrorIgnored(env, st, req, now, e, f);
    }
    if req.Obj? && (MethodName(env, req).None? || ParamsText(env, req).None?) {
      TwoErrorsTwoResponses(env, st, req, now);
    }
  }

  lemma BuiltinErrorIgnored(env: Env, st: NodeState, func: Builtin, params: Json, now: int, e: RpcError, f: RpcError)
    ensures var a, b := RunBuiltin(env, st, func, params, now, e), RunBuiltin(env, st, func, params, now, f);
            a.state == b.state && a.ok == b.ok && a.result == b.result && (!a.ok ==> a.err == b.err)
  {
    hide GetString, RequestedCode, AfterSetMethod, AfterRemoveMethod, Reserved;
  }

  lemma TwoErrorsTwoResponses(env: Env, st: NodeState, req: Json, now: int)
    requires req.Obj? && (MethodName(env, req).None? || ParamsText(env, req).None?)
    ensures ExecRequest(env, st, req, now, RpcError(0, None)).result
            != ExecRequest(env, st, req, now, RpcError(1, None)).result
  {
    hide GetString, ResponseTo;
    var a := ExecRequest(env, st, req, now, RpcError(0, None)).result.value.members["error"];
    var b := ExecRequest(env, st, req, now, RpcError(1, None)).result.value.members["error"];
    assert a.members["code"] == Int(0) && b.members["code"] == Int(1);
  }

  const UNKNOWN_REQUEST := Obj(map["method" := Str("unknown"), "params" := Str("{}")])
  const NAMELESS_REQUEST := Obj(map[])

  /** The response, without id, that reports the error. */
  ghost function ErrorResponse(err: RpcError): Json {
    Obj(map["jsonrpc" := Str("2.0"), "error" := ErrorAsJson(err)])
  }

  lemma UnknownAnswered(env: Env, st: NodeState, now: int, err: RpcError)
    requires "unknown" !in st.methods
    ensures ExecRequest(env, st, UNKNOWN_REQUEST, now, err)
            == Outcome(st, false, Some(ErrorResponse(ErrorOf(METHOD_NOT_FOUND))), ErrorOf(METHOD_NOT_FOUND))
  {
    hide ErrorAsJson, ErrorMessage;
    assert ResponseTo(env, UNKNOWN_REQUEST) == map["jsonrpc" := Str("2.0")];
  }

  lemma NamelessAnswered(env: Env, st: NodeState, now: int, err: RpcError)
    ensures ExecRequest(env, st, NAMELESS_REQUEST, now, err) == Outcome(st, false, Some(ErrorResponse(err)), err)
  {
    hide ErrorAsJson;
    assert ResponseTo(env, NAMELESS_REQUEST) == map["jsonrpc" := Str("2.0")];
  }

  lemma ExecTwo(env: Env, st: NodeState, a: Json, b: Json, nows: nat -> int, err: RpcError)
    ensures var first := ExecRequest(env, st, a, nows(0), err);
            var second := ExecRequest(env, first.state, b, nows(1), first.err);
            ExecAll(env, st, [a, b], nows, err)
            == Batch(second.state, [first.result.GetOr(Null), second.result.GetOr(Null)], second.err)
  {
    hide ExecRequest;
    var none: seq<Json> := [];
    assert [a, b][..1] == [a] && [a][..0] == none;
    assert ExecAll(env, st, none, nows, err) == Batch(st, [], err);
    var first := ExecRequest(env, st, a, nows(0), err);
    assert ExecAll(env, st, [a], nows, err) == Batch(first.state, [first.result.GetOr(Null)], first.err);
  }

  /** An input: in a batch of a request for an unknown method and one without method and parameters,
      the second is answered "method not found" too; posted alone with a fresh error it answers code 0. */
  lemma StaleErrorInBatch(env: Env, st: NodeState, nows: nat -> int, err: RpcError)
    requires "unknown" !in st.methods
    ensures Post(env, st, Arr([UNKNOWN_REQUEST, NAMELESS_REQUEST]), nows, err).result
            == Some(Arr([ErrorResponse(ErrorOf(METHOD_NOT_FOUND)), ErrorResponse(ErrorOf(METHOD_NOT_FOUND))]))
    ensures Post(env, st, NAMELESS_REQUEST, nows, RpcError(0, None)).result == Some(ErrorResponse(RpcError(0, None)))
  {
    hide ErrorResponse, ErrorOf, ExecRequest, ExecAll;
    var ticked := Ticked(st, Arr([UNKNOWN_REQUEST, NAMELESS_REQUEST]));
    ExecTwo(env, ticked, UNKNOWN_REQUEST, NAMELESS_REQUEST, nows, err);
    UnknownAnswered(env, ticked, nows(0), err);
    NamelessAnswered(env, ticked, nows(1), ErrorOf(METHOD_NOT_FOUND));
    NamelessAnswered(env, Ticked(st, NAMELESS_REQUEST), nows(0), RpcError(0, None));
  }

  lemma ExecOne(env: Env, st: NodeState, a: Json, nows: nat -> int, err: RpcError)
    ensures var first := ExecRequest(env, st, a, nows(0), err);
            ExecAll(env, st, [a], nows, err) == Batch(first.state, [first.result.GetOr(Null)], first.err)
  {
    hide ExecRequest;
    var none: seq<Json> := [];
    assert [a][..0] == none && ExecAll(env, st, none, nows, err) == Batch(st, [], err);
  }

  /** An input: a batch inside a batch is refused as an invalid request; posted on its own it is executed. */
  lemma NestedBatchRefused(env: Env, st: NodeState, nows: nat -> int, err: RpcError)
    requires "unknown" !in st.methods
    ensures Post(env, st, Arr([Arr([UNKNOWN_REQUEST])]), nows, err).result
            == Some(Arr([ErrorResponse(ErrorOf(INVALID_REQUEST))]))
    ensures Post(env, st, Arr([UNKNOWN_REQUEST]), nows, err).result
            == Some(Arr([ErrorResponse(ErrorOf(METHOD_NOT_FOUND))]))
  {
    hide ErrorOf, ErrorAsJson, ExecAll;
    var inner := Arr([UNKNOWN_REQUEST]);
    assert ResponseTo(env, inner) == map["jsonrpc" := Str("2.0")];
    ExecOne(env, Ticked(st, Arr([inner])), inner, nows, err);
    ExecOne(env, Ticked(st, inner), UNKNOWN_REQUEST, nows, err);
    UnknownAnswered(env, Ticked(st, inner), nows(0), err);
  }

  // ---- System methods against each other ------------------------------------------------

  /** The registry key that the parameters of a system method name. */
  ghost function KeyOf(env: Env, params: Json): Option<Option<string>> {
    GetString(env.toText, params, "key")
  }

  /** get_registry answers what set_registry stored, with the time and the clock of the set; an absent
      value leaves the one from before. Every other key answers as before. */
  lemma GetAfterSet(env: Env, st: NodeState, setting: Json, getting: Json, k: string, v: Option<string>, now: int,
                    e: RpcError, f: RpcError)
    requires KeyOf(env, setting) == Some(Some(k)) && GetString(env.toText, setting, "val") == Some(v)
    ensures var s := SystemSetRegistry(env, st, setting, now, e);
            && s.ok && s.state.methods == st.methods
            && (KeyOf(env, getting) == Some(Some(k)) ==>
                  var value := if v.Some? then v else if k in st.registry then st.registry[k].value else None;
                  SystemGetRegistry(env, s.state, getting, f)
                  == Outcome(s.state, true, Some(Obj(map["key" := Str(k), "val" := StringOrNull(value),
                                                         "ts" := Int(now), "lts" := Int(st.clock)])), f))
            && (KeyOf(env, getting) != Some(Some(k)) ==>
                  SystemGetRegistry(env, s.state, getting, f).result == SystemGetRegistry(env, st, getting, f).result)
  {
    hide GetString;
  }

  /** remove_registry succeeds exactly for a registered key, which get_registry then no longer finds;
      removing a key that was new when it was set restores the registry. */
  lemma RemoveAfterSet(env: Env, st: NodeState, params: Json, setting: Json, k: string, v: Option<string>, now: int,
                       e: RpcError)
    requires KeyOf(env, params) == Some(Some(k))
    requires KeyOf(env, setting) == Some(Some(k)) && GetString(env.toText, setting, "val") == Some(v)
    ensures var r := SystemRemoveRegistry(env, st, params, e);
            && (r.ok <==> k in st.registry) && (!r.ok ==> r.err.code == INTERNAL_ERROR)
            && SystemGetRegistry(env, r.state, params, e) == Failed(r.state, INVALID_PARAMS)
    ensures k !in st.registry ==>
              SystemRemoveRegistry(env, SystemSetRegistry(env, st, setting, now, e).state, params, e).state == st
  {
    hide GetString;
    if k !in st.registry {
      assert WithEntry(st.registry, k, v, now, st.clock) - {k} == st.registry;
    }
  }

  /** The method name that the parameters of a system method give. */
  ghost function NameOf(env: Env, params: Json): Option<Option<string>> {
    GetString(env.toText, params, "name")
  }

  /** remove_method undoes a set_method that bound a free name. */
  lemma RemoveUndoesSetMethod(env: Env, st: NodeState, setting: Json, removing: Json, e: RpcError, f: RpcError)
    requires SystemSetMethod(env, st, setting, e).ok && NameOf(env, removing) == NameOf(env, setting)
    requires Lookup(st.methods, NameOf(env, setting).GetOr(None)).None?
    ensures SystemRemoveMethod(env, SystemSetMethod(env, st, setting, e).state, removing, f)
            == Outcome(st, true, None, f)
  {
    hide GetString, RequestedCode;
    var name := NameOf(env, setting).value;
    var m := Method(name, GetString(env.toText, setting, "lang").value,
                    RequestedCode(env, setting, GetString(env.toText, setting, "code").value).value, 0, None);
    assert st.methods[name.value := m] - {name.value} == st.methods;
  }

  /** Requests that name a final method change nothing, and say so. */
  lemma FinalMethodRefused(env: Env, st: NodeState, params: Json, e: RpcError)
    requires NameOf(env, params).Some? && Reserved(st.methods, NameOf(env, params).value)
    ensures SystemRemoveMethod(env, st, params, e) == Failed(st, INVALID_PARAMS)
    ensures SystemSetMethod(env, st, params, e) == Failed(st, SystemSetMethod(env, st, params, e).err.code)
    ensures SystemSetMethod(env, st, params, e).err.code in {INVALID_PARAMS, INTERNAL_ERROR}
  {
    hide GetString, RequestedCode, IsValid;
  }

  /** An input: a set_method request with empty code fails and loses the method "f" it was to replace. */
  lemma EmptyCodeLosesMethod(env: Env, st: NodeState, e: RpcError)
    requires "f" in st.methods && !IsFinal(st.methods["f"])
    ensures var params := Obj(map["name" := Str("f"), "lang" := Str("js"), "code" := Str("")]);
            SystemSetMethod(env, st, params, e) == Failed(st.(methods := st.methods - {"f"}), INTERNAL_ERROR)
            && "f" !in (st.methods - {"f"})
  {
  }

  // ---- The same for a caller that posts messages ------------------------------------------

  /** The message calls the method with parameters that parse to the given ones. */
  ghost predicate Calls(env: Env, msg: Json, name: string, params: Json) {
    && msg.Obj? && MethodName(env, msg) == Some(name)
    && ParamsText(env, msg).Some? && env.parse(ParamsText(env, msg).value) == Some(params)
  }

  /** The system method of that name has that function. */
  ghost predicate IsSystem(name: string, func: Builtin) {
    name in SystemTable() && SystemTable()[name].func == Some(func)
  }

  lemma SystemFunctions()
    ensures IsSystem(SET_METHOD, SetMethodFunc) && IsSystem(REMOVE_METHOD, RemoveMethodFunc)
    ensures IsSystem(SET_REGISTRY, SetRegistryFunc) && IsSystem(GET_REGISTRY, GetRegistryFunc)
    ensures IsSystem(REMOVE_REGISTRY, RemoveRegistryFunc)
  {
    hide NativeMethod;
    NativeFunctions();
  }

  lemma NativeFunctions()
    ensures forall name, func, isFinal :: NativeMethod(name, func, isFinal).func == Some(func)
    ensures forall name, func, isFinal :: NativeMethod(name, func, isFinal).lang == Some(NATIVE_LANGUAGE)
  {
  }

  lemma SystemMethodBound(ms: Methods, name: string, func: Builtin)
    requires KeepsFinal(SystemTable(), ms) && IsSystem(name, func)
    ensures name in ms && ms[name].lang == Some(NATIVE_LANGUAGE) && ms[name].func == Some(func)
  {
    SystemMethodsStay(ms);
    NativeFunctions();
    hide NativeMethod, KeepsFinal;
  }

  /** A posted call of a system method runs it, one clock tick later, and answers its outcome. */
  lemma PostedCall(env: Env, st: NodeState, msg: Json, name: string, func: Builtin, params: Json,
                   nows: nat -> int, err: RpcError)
    requires Calls(env, msg, name, params) && IsSystem(name, func) && KeepsFinal(SystemTable(), st.methods)
    ensures Post(env, st, msg, nows, err)
            == Responded(env, msg, RunBuiltin(env, Ticked(st, msg), func, params, nows(0), err))
  {
    SystemMethodBound(st.methods, name, func);
    hide GetString, RunBuiltin, Responded, Tick, KeepsFinal, SystemTable, IsSystem;
  }

  /** The same, part by part: the result goes into the response. */
  lemma PostedParts(env: Env, st: NodeState, msg: Json, name: string, func: Builtin, params: Json,
                    nows: nat -> int, err: RpcError)
    requires Calls(env, msg, name, params) && IsSystem(name, func) && KeepsFinal(SystemTable(), st.methods)
    ensures var p, o := Post(env, st, msg, nows, err), RunBuiltin(env, Ticked(st, msg), func, params, nows(0), err);
            && p.state == o.state && p.ok == o.ok && p.err == o.err && p.result.Some? && p.result.value.Obj?
            && (o.ok && o.result.Some? ==>
                  "result" in p.result.value.members && p.result.value.members["result"] == o.result.value)
  {
    PostedCall(env, st, msg, name, func, params, nows, err);
    hide Post, RunBuiltin, ResponseTo, Tick, Calls, IsSystem, KeepsFinal, SystemTable;
  }

  /** What posting set_registry and then get_registry answers: the stored value, the time of the set
      and the clock of the set. */
  lemma PostedGetAfterSet(env: Env, st: NodeState, setMsg: Json, getMsg: Json, setting: Json, getting: Json,
                          k: string, v: Option<string>, nows: nat -> int, later: nat -> int, e: RpcError, f: RpcError)
    requires KeepsFinal(SystemTable(), st.methods)
    requires Calls(env, setMsg, SET_REGISTRY, setting) && Calls(env, getMsg, GET_REGISTRY, getting)
    requires KeyOf(env, setting) == Some(Some(k)) && GetString(env.toText, setting, "val") == Some(v)
    requires KeyOf(env, getting) == Some(Some(k))
    ensures var s := Post(env, st, setMsg, nows, e);
            var g := Post(env, s.state, getMsg, later, f);
            var value := if v.Some? then v else if k in st.registry then st.registry[k].value else None;
            && s.ok && s.state.methods == st.methods
            && g.ok && g.result.Some? && g.result.value.Obj? && "result" in g.result.value.members
            && g.result.value.members["result"]
               == Obj(map["key" := Str(k), "val" := StringOrNull(value),
                          "ts" := Int(nows(0)), "lts" := Int(s.state.clock)])
  {
    SystemFunctions();
    hide GetString, Post, Tick, Calls, KeepsFinal, SystemTable, IsSystem;
    PostedParts(env, st, setMsg, SET_REGISTRY, SetRegistryFunc, setting, nows, e);
    var s := Post(env, st, setMsg, nows, e);
    PostedParts(env, s.state, getMsg, GET_REGISTRY, GetRegistryFunc, getting, later, f);
  }

  lemma SameEntrySameGet(env: Env, a: NodeState, b: NodeState, getting: Json, err: RpcError)
    requires KeyOf(env, getting).Some? ==>
               Registered(a, KeyOf(env, getting).value) == Registered(b, KeyOf(env, getting).value)
    ensures var x, y := SystemGetRegistry(env, a, getting, err), SystemGetRegistry(env, b, getting, err);
            x.ok == y.ok && x.result == y.result && x.err == y.err
  {
    hide GetString, Registered, EntryAsJson, ErrorMessage;
  }

  lemma OtherEntryKept(env: Env, st: NodeState, setting: Json, now: int, err: RpcError, key: Option<string>)
    requires KeyOf(env, setting) != Some(key)
    ensures Registered(SystemSetRegistry(env, st, setting, now, err).state, key) == Registered(st, key)
  {
    hide GetString, ErrorMessage;
  }

  lemma SameOutcomeSameResponse(env: Env, msg: Json, x: Outcome, y: Outcome)
    requires x.ok == y.ok && x.result == y.result && x.err == y.err
    ensures Responded(env, msg, x).result == Responded(env, msg, y).result
  {
    hide ResponseTo, ErrorAsJson;
  }

  /** A get of another key is answered as if nothing had been set. */
  lemma PostedGetOfOther(env: Env, st: NodeState, setMsg: Json, getMsg: Json, setting: Json, getting: Json,
                         nows: nat -> int, later: nat -> int, e: RpcError, f: RpcError)
    requires KeepsFinal(SystemTable(), st.methods)
    requires Calls(env, setMsg, SET_REGISTRY, setting) && Calls(env, getMsg, GET_REGISTRY, getting)
    requires KeyOf(env, setting) != KeyOf(env, getting)
    ensures Post(env, Post(env, st, setMsg, nows, e).state, getMsg, later, f).result
            == Post(env, st, getMsg, later, f).result
  {
    SystemFunctions();
    PostKeepsSystemMethods(env, st, setMsg, nows, e);
    hide *;
    PostedParts(env, st, setMsg, SET_REGISTRY, SetRegistryFunc, setting, nows, e);
    var s := Post(env, st, setMsg, nows, e).state;
    PostedCall(env, st, getMsg, GET_REGISTRY, GetRegistryFunc, getting, later, f);
    PostedCall(env, s, getMsg, GET_REGISTRY, GetRegistryFunc, getting, later, f);
    RunsSystemFunctions(env, Ticked(st, setMsg), setting, nows(0), e);
    RunsSystemFunctions(env, Ticked(st, getMsg), getting, later(0), f);
    RunsSystemFunctions(env, Ticked(s, getMsg), getting, later(0), f);
    if KeyOf(env, getting).Some? {
      OtherEntryKept(env, Ticked(st, setMsg), setting, nows(0), e, KeyOf(env, getting).value);
      TickKeepsEntries(st, setMsg, KeyOf(env, getting).value);
      TickKeepsEntries(st, getMsg, KeyOf(env, getting).value);
      TickKeepsEntries(s, getMsg, KeyOf(env, getting).value);
    }
    SameEntrySameGet(env, Ticked(s, getMsg), Ticked(st, getMsg), getting, f);
    SameOutcomeSameResponse(env, getMsg, SystemGetRegistry(env, Ticked(s, getMsg), getting, f),
                            SystemGetRegistry(env, Ticked(st, getMsg), getting, f));
  }

  lemma RunsSystemFunctions(env: Env, st: NodeState, params: Json, now: int, err: RpcError)
    ensures RunBuiltin(env, st, SetRegistryFunc, params, now, err) == SystemSetRegistry(env, st, params, now, err)
    ensures RunBuiltin(env, st, GetRegistryFunc, params, now, err) == SystemGetRegistry(env, st, params, err)
  {
  }

  lemma TickKeepsEntries(st: NodeState, msg: Json, key: Option<string>)
    ensures Registered(Ticked(st, msg), key) == Registered(st, key)
  {
  }

  /** Posting remove_registry succeeds exactly for a registered key, and get_registry then fails. */
  lemma PostedRemove(env: Env, st: NodeState, removeMsg: Json, getMsg: Json, params: Json, k: string,
                     nows: nat -> int, later: nat -> int, e: RpcError, f: RpcError)
    requires KeepsFinal(SystemTable(), st.methods)
    requires Calls(env, removeMsg, REMOVE_REGISTRY, params) && Calls(env, getMsg, GET_REGISTRY, params)
    requires KeyOf(env, params) == Some(Some(k))
    ensures var r := Post(env, st, removeMsg, nows, e);
            var g := Post(env, r.state, getMsg, later, f);
            (r.ok <==> k in st.registry) && !g.ok && g.err == ErrorOf(INVALID_PARAMS)
  {
    SystemFunctions();
    hide GetString, Post, Tick, Calls, KeepsFinal, SystemTable, IsSystem, ErrorMessage;
    PostedParts(env, st, removeMsg, REMOVE_REGISTRY, RemoveRegistryFunc, params, nows, e);
    PostedParts(env, Post(env, st, removeMsg, nows, e).state, getMsg, GET_REGISTRY, GetRegistryFunc, params, later, f);
  }

  /** Posting remove_registry after set_registry leaves a key that was new as if never set. */
  lemma PostedRemoveAfterSet(env: Env, st: NodeState, setMsg: Json, removeMsg: Json, setting: Json, removing: Json,
                             k: string, v: Option<string>, nows: nat -> int, later: nat -> int,
                             e: RpcError, f: RpcError)
    requires KeepsFinal(SystemTable(), st.methods) && k !in st.registry
    requires Calls(env, setMsg, SET_REGISTRY, setting) && Calls(env, removeMsg, REMOVE_REGISTRY, removing)
    requires KeyOf(env, setting) == Some(Some(k)) && GetString(env.toText, setting, "val") == Some(v)
    requires KeyOf(env, removing) == Some(Some(k))
    ensures var s := Post(env, st, setMsg, nows, e);
            var r := Post(env, s.state, removeMsg, later, f);
            s.ok && r.ok && r.state.methods == st.methods && r.state.registry == st.registry
  {
    SystemFunctions();
    hide GetString, Post, Tick, ResponseTo, Calls, KeepsFinal, SystemTable, IsSystem;
    PostedCall(env, st, setMsg, SET_REGISTRY, SetRegistryFunc, setting, nows, e);
    var s := Post(env, st, setMsg, nows, e);
    PostedCall(env, s.state, removeMsg, REMOVE_REGISTRY, RemoveRegistryFunc, removing, later, f);
    assert WithEntry(st.registry, k, v, nows(0), s.state.clock) - {k} == st.registry;
  }

  /** Posting remove_method undoes a posted set_method that bound a free name: methods and registry are
      as before. */
  lemma PostedRemoveUndoesSetMethod(env: Env, st: NodeState, setMsg: Json, removeMsg: Json,
                                    setting: Json, removing: Json,
                                    nows: nat -> int, later: nat -> int, e: RpcError, f: RpcError)
    requires KeepsFinal(SystemTable(), st.methods)
    requires Calls(env, setMsg, SET_METHOD, setting) && Calls(env, removeMsg, REMOVE_METHOD, removing)
    requires Post(env, st, setMsg, nows, e).ok && NameOf(env, removing) == NameOf(env, setting)
    requires Lookup(st.methods, NameOf(env, setting).GetOr(None)).None?
    ensures var s := Post(env, st, setMsg, nows, e);
            var r := Post(env, s.state, removeMsg, later, f);
            r.ok && r.state.methods == st.methods && r.state.registry == st.registry
  {
    SystemFunctions();
    PostedCall(env, st, setMsg, SET_METHOD, SetMethodFunc, setting, nows, e);
    PostKeepsSystemMethods(env, st, setMsg, nows, e);
    hide GetString, Post, Tick, ResponseTo, Calls, KeepsFinal, SystemTable, IsSystem,
         SystemSetMethod, SystemRemoveMethod;
    var s := Post(env, st, setMsg, nows, e);
    var setDone := SystemSetMethod(env, Ticked(st, setMsg), setting, e);
    assert s.state == setDone.state && setDone.ok;
    PostedCall(env, s.state, removeMsg, REMOVE_METHOD, RemoveMethodFunc, removing, later, f);
    RemoveUndoesSetMethodLater(env, Ticked(st, setMsg), setting, removing, Ticked(s.state, removeMsg).clock, e, f);
  }

  lemma PostKeepsSystemMethods(env: Env, st: NodeState, msg: Json, nows: nat -> int, err: RpcError)
    requires KeepsFinal(SystemTable(), st.methods)
    ensures KeepsFinal(SystemTable(), Post(env, st, msg, nows, err).state.methods)
  {
    PostAdvances(env, st, msg, nows, err);
    hide Post, IsFinal, SystemTable;
  }

  /** The clock may move between the two requests. */
  lemma RemoveUndoesSetMethodLater(env: Env, st: NodeState, setting: Json, removing: Json, clock: int,
                                   e: RpcError, f: RpcError)
    requires SystemSetMethod(env, st, setting, e).ok && NameOf(env, removing) == NameOf(env, setting)
    requires Lookup(st.methods, NameOf(env, setting).GetOr(None)).None?
    ensures SystemRemoveMethod(env, SystemSetMethod(env, st, setting, e).state.(clock := clock), removing, f)
            == Outcome(st.(clock := clock), true, None, f)
  {
    RemoveUndoesSetMethod(env, st.(clock := clock), setting, removing, e, f);
    hide GetString, RequestedCode;
  }

  /** Posted set_method and remove_method requests that name a final method fail, and change nothing but the clock. */
  lemma PostedFinalMethodRefused(env: Env, st: NodeState, msg: Json, params: Json, nows: nat -> int, err: RpcError)
    requires KeepsFinal(SystemTable(), st.methods)
    requires Calls(env, msg, SET_METHOD, params) || Calls(env, msg, REMOVE_METHOD, params)
    requires NameOf(env, params).Some? && Reserved(st.methods, NameOf(env, params).value)
    ensures var o := Post(env, st, msg, nows, err);
            !o.ok && o.state == Ticked(st, msg) && o.err.code in {INVALID_PARAMS, INTERNAL_ERROR}
  {
    SystemFunctions();
    FinalMethodRefused(env, Ticked(st, msg), params, err);
    if Calls(env, msg, SET_METHOD, params) {
      PostedCall(env, st, msg, SET_METHOD, SetMethodFunc, params, nows, err);
    } else {
      PostedCall(env, st, msg, REMOVE_METHOD, RemoveMethodFunc, params, nows, err);
    }
    hide GetString, Post, Tick, ResponseTo, Calls, KeepsFinal, SystemTable, IsSystem,
         SystemSetMethod, SystemRemoveMethod;
  }
}
