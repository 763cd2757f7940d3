/** What posted JSON-RPC messages do, in terms of the JSON that is in them. */
module PostedJson {
  import opened Sequences
  import opened CStrings
  import opened Json
  import opened LogicalClock
  import opened MethodTable
  import opened NodeRequests
  import opened RequestTheory
  import opened Responses

  /** The member is there and has that text: its own characters, what the printer makes of other values, and
      none for null and booleans. */
  ghost predicate HasText(env: Env, members: map<string, Json>, key: string, text: Option<string>) {
    && key in members
    && var member := members[key];
       text == if member.Null? || member.Bool? then None
               else if member.Str? then Some(member.s)
               else Some(env.toText(member))
  }

  lemma TextRead(env: Env, members: map<string, Json>, key: string, text: Option<string>)
    requires HasText(env, members, key, text)
    ensures GetString(env.toText, Obj(members), key) == Some(text)
  {
  }

  /** The message names a method and has the text of its parameters. */
  ghost predicate Asks(env: Env, msg: Json, name: string, text: string) {
    && msg.Obj? && HasText(env, msg.members, "method", Some(name))
    && HasText(env, msg.members, "params", Some(text))
  }

  /** The message names a method, and the text of its parameters denotes an object with these members. */
  ghost predicate Sends(env: Env, msg: Json, name: string, params: map<string, Json>) {
    exists text :: Asks(env, msg, name, text) && env.parse(text) == Some(Obj(params))
  }

  lemma SendsCalls(env: Env, msg: Json, name: string, params: map<string, Json>)
    requires Sends(env, msg, name, params)
    ensures Calls(env, msg, name, Obj(params))
  {
    var text :| Asks(env, msg, name, text) && env.parse(text) == Some(Obj(params));
    TextRead(env, msg.members, "method", Some(name));
    TextRead(env, msg.members, "params", Some(text));
    hide GetString, HasText;
  }

  /** A posted set_registry with a key stores the value, or without one keeps the value that is there, with
      the time and the clock. */
  lemma SetRegistryWrites(env: Env, st: NodeState, msg: Json, params: map<string, Json>,
                          k: Option<string>, v: Option<string>, nows: nat -> int, err: RpcError)
    requires KeepsFinal(SystemTable(), st.methods) && Sends(env, msg, "set_registry", params)
    requires HasText(env, params, "key", k) && HasText(env, params, "val", v)
    ensures var o := Post(env, st, msg, nows, err);
            && o.state.methods == st.methods && (o.ok <==> k.Some?)
            && (o.ok ==>
                  var kept := if k.value in st.registry then st.registry[k.value].value else None;
                  var value := if v.Some? then v else kept;
                  o.state.registry == st.registry[k.value := Entry(value, nows(0), o.state.clock)])
            && (!o.ok ==> o.state.registry == st.registry && o.err == RpcError(-32603, Some("Internal error")))
  {
    SendsCalls(env, msg, "set_registry", params);
    SystemFunctions();
    TextRead(env, params, "key", k);
    TextRead(env, params, "val", v);
    hide Post, GetString, Calls, IsSystem, KeepsFinal, SystemTable, Tick, HasText, Sends;
    PostedParts(env, st, msg, SET_REGISTRY, SetRegistryFunc, Obj(params), nows, err);
  }

  /** A posted get_registry answers the entry of the key exactly when there is one. */
  lemma GetRegistryReads(env: Env, st: NodeState, msg: Json, params: map<string, Json>, k: Option<string>,
                         nows: nat -> int, err: RpcError)
    requires KeepsFinal(SystemTable(), st.methods) && Sends(env, msg, "get_registry", params)
    requires HasText(env, params, "key", k)
    ensures var o := Post(env, st, msg, nows, err);
            && o.state.methods == st.methods && o.state.registry == st.registry
            && o.result.Some? && o.result.value.Obj? && (o.ok <==> k.Some? && k.value in st.registry)
            && (o.ok ==>
                  && "result" in o.result.value.members
                  && var e := st.registry[k.value];
                     o.result.value.members["result"]
                     == Obj(map["key" := Str(k.value), "val" := if e.value.Some? then Str(e.value.value) else Null,
                                "ts" := Int(e.ts), "lts" := Int(e.lts)]))
            && (!o.ok ==> o.err == RpcError(-32602, Some("Invalid params")))
  {
    SendsCalls(env, msg, "get_registry", params);
    SystemFunctions();
    TextRead(env, params, "key", k);
    hide Post, GetString, Calls, IsSystem, KeepsFinal, SystemTable, Tick, HasText, Sends;
    PostedParts(env, st, msg, GET_REGISTRY, GetRegistryFunc, Obj(params), nows, err);
  }

  /** A posted remove_registry takes the key away exactly when it is there. */
  lemma RemoveRegistryTakes(env: Env, st: NodeState, msg: Json, params: map<string, Json>, k: Option<string>,
                            nows: nat -> int, err: RpcError)
    requires KeepsFinal(SystemTable(), st.methods) && Sends(env, msg, "remove_registry", params)
    requires HasText(env, params, "key", k)
    ensures var o := Post(env, st, msg, nows, err);
            && o.state.methods == st.methods && (o.ok <==> k.Some? && k.value in st.registry)
            && o.state.registry == (if o.ok then st.registry - {k.value} else st.registry)
            && (!o.ok ==> o.err == RpcError(-32603, Some("Internal error")))
  {
    SendsCalls(env, msg, "remove_registry", params);
    SystemFunctions();
    TextRead(env, params, "key", k);
    hide Post, GetString, Calls, IsSystem, KeepsFinal, SystemTable, Tick, HasText, Sends;
    PostedParts(env, st, msg, REMOVE_REGISTRY, RemoveRegistryFunc, Obj(params), nows, err);
  }

  /** The parameters say that the code is in Base64. */
  ghost predicate SaysBase64(env: Env, params: map<string, Json>) {
    HasText(env, params, "enc", Some("base64"))
  }

  /** The code that a set_method message carries, decoded when it says so. */
  ghost function SentCode(env: Env, params: map<string, Json>, code: Option<string>): string {
    if SaysBase64(env, params) then env.decodeBase64(code) else code.GetOr("")
  }

  /** What set_method does with this name, language and code to a state: it binds the name to a dynamic
      method exactly when name and code are not empty and the name is not bound to a final method; and a
      method that is not final is lost when it fails, unless the code could not be decoded. */
  ghost predicate Binds(st: NodeState, o: Outcome, n: Option<string>, l: Option<string>, code: string,
                        isBase64: bool) {
    var final := n.Some? && n.value in st.methods && IsFinal(st.methods[n.value]);
    var undecoded := isBase64 && code == "";
    && o.state.registry == st.registry
    && (o.ok <==> n.Some? && n.value != "" && code != "" && !final)
    && (o.ok ==> o.state.methods == st.methods[n.value := Method(n, l, code, 0, None)])
    && (!o.ok ==>
          && o.state.methods == (if n.None? || final || undecoded then st.methods else st.methods - {n.value})
          && o.err == if undecoded then RpcError(-32602, Some("Invalid params"))
                      else RpcError(-32603, Some("Internal error")))
  }

  /** A posted set_method binds the name to the sent language and code. */
  lemma SetMethodBinds(env: Env, st: NodeState, msg: Json, params: map<string, Json>,
                       n: Option<string>, l: Option<string>, c: Option<string>, nows: nat -> int, err: RpcError)
    requires KeepsFinal(SystemTable(), st.methods) && Sends(env, msg, "set_method", params)
    requires HasText(env, params, "name", n) && HasText(env, params, "lang", l) && HasText(env, params, "code", c)
    ensures Binds(st, Post(env, st, msg, nows, err), n, l, SentCode(env, params, c), SaysBase64(env, params))
  {
    SendsCalls(env, msg, "set_method", params);
    SystemFunctions();
    HandlerBinds(env, Ticked(st, msg), params, n, l, c, err);
    hide Post, Calls, IsSystem, KeepsFinal, SystemTable, Tick, HasText, Sends, SystemSetMethod, SentCode, SaysBase64;
    hide IsFinal;
    PostedParts(env, st, msg, SET_METHOD, SetMethodFunc, Obj(params), nows, err);
  }

  lemma HandlerBinds(env: Env, st: NodeState, params: map<string, Json>,
                     n: Option<string>, l: Option<string>, c: Option<string>, err: RpcError)
    requires HasText(env, params, "name", n) && HasText(env, params, "lang", l) && HasText(env, params, "code", c)
    ensures Binds(st, SystemSetMethod(env, st, Obj(params), err), n, l, SentCode(env, params, c),
                  SaysBase64(env, params))
  {
    TextRead(env, params, "name", n);
    TextRead(env, params, "lang", l);
    TextRead(env, params, "code", c);
    SentCodeRequested(env, params, c);
    DynamicMethod();
    hide GetString, HasText, RequestedCode, SentCode, IsEnabled, SaysBase64;
    if n.Some? && n.value !in st.methods {
      assert st.methods - {n.value} == st.methods;
    }
  }

  /** A method without flags is neither final nor static. */
  lemma DynamicMethod()
    ensures !IsEnabled(0, FINAL_FLAG) && !IsEnabled(0, STATIC_FLAG)
  {
  }

  lemma SentCodeRequested(env: Env, params: map<string, Json>, c: Option<string>)
    ensures RequestedCode(env, Obj(params), c)
            == if SaysBase64(env, params) && SentCode(env, params, c) == "" then None
               else Some(SentCode(env, params, c))
  {
    if "enc" in params {
      var encode := GetString(env.toText, Obj(params), "enc").value;
      AbsentStrings(encode, Some("base64"));
      hide RoundStrEq, RoundStrCmp;
    }
  }

  /** A posted remove_method unbinds the name exactly when it is bound to a method that is not final. */
  lemma RemoveMethodUnbinds(env: Env, st: NodeState, msg: Json, params: map<string, Json>, n: Option<string>,
                            nows: nat -> int, err: RpcError)
    requires KeepsFinal(SystemTable(), st.methods) && Sends(env, msg, "remove_method", params)
    requires HasText(env, params, "name", n)
    ensures var o := Post(env, st, msg, nows, err);
            var bound := n.Some? && n.value in st.methods;
            && o.state.registry == st.registry && (o.ok <==> bound && !IsFinal(st.methods[n.value]))
            && o.state.methods == (if o.ok then st.methods - {n.value} else st.methods)
            && (!o.ok ==> o.err == if bound then RpcError(-32602, Some("Invalid params"))
                                   else RpcError(-32603, Some("Internal error")))
  {
    SendsCalls(env, msg, "remove_method", params);
    SystemFunctions();
    TextRead(env, params, "name", n);
    hide Post, GetString, Calls, IsSystem, KeepsFinal, SystemTable, Tick, HasText, Sends, IsFinal;
    PostedParts(env, st, msg, REMOVE_METHOD, RemoveMethodFunc, Obj(params), nows, err);
  }

  /** The parameter that a system method cannot do without. */
  ghost predicate Needs(func: Builtin, key: string) {
    match func
    case SetRegistryFunc => key in {"key", "val"}
    case GetRegistryFunc => key == "key"
    case RemoveRegistryFunc => key == "key"
    case SetMethodFunc => key in {"name", "lang", "code"}
    case RemoveMethodFunc => key == "name"
  }

  /** A posted call of a system method without a parameter it needs changes nothing but the clock. */
  lemma MissingParameterRefused(env: Env, st: NodeState, msg: Json, name: string, func: Builtin,
                                params: map<string, Json>, key: string, nows: nat -> int, err: RpcError)
    requires KeepsFinal(SystemTable(), st.methods) && Sends(env, msg, name, params) && IsSystem(name, func)
    requires Needs(func, key) && key !in params
    ensures var o := Post(env, st, msg, nows, err);
            !o.ok && o.state == Ticked(st, msg) && o.err == RpcError(-32602, Some("Invalid params"))
  {
    SendsCalls(env, msg, name, params);
    HandlerRefuses(env, Ticked(st, msg), func, params, key, nows(0), err);
    hide Post, Calls, IsSystem, KeepsFinal, SystemTable, Tick, Sends, RunBuiltin, Needs;
    PostedParts(env, st, msg, name, func, Obj(params), nows, err);
  }

  lemma HandlerRefuses(env: Env, st: NodeState, func: Builtin, params: map<string, Json>, key: string,
                       now: int, err: RpcError)
    requires Needs(func, key) && key !in params
    ensures var o := RunBuiltin(env, st, func, Obj(params), now, err);
            !o.ok && o.state == st && o.err == RpcError(-32602, Some("Invalid params"))
  {
    MissingRead(env, params, key);
    hide GetString, RequestedCode, AfterSetMethod, AfterRemoveMethod, Reserved;
  }

  lemma MissingRead(env: Env, params: map<string, Json>, key: string)
    requires key !in params
    ensures GetString(env.toText, Obj(params), key) == None
  {
  }

  /** What is no request object and no batch is refused without a response; a call of an unknown method, or
      of a native one without function or with parameters that do not parse, is answered with its error.
      Nothing but the clock changes. */
  lemma RefusedMessages(env: Env, st: NodeState, msg: Json, name: string, text: string,
                        nows: nat -> int, err: RpcError)
    ensures !msg.Obj? && !msg.Arr? ==>
              Post(env, st, msg, nows, err)
              == Outcome(Ticked(st, msg), false, None, RpcError(-32600, Some("Invalid Request")))
    ensures Asks(env, msg, name, text) && name !in st.methods ==>
              var o := Post(env, st, msg, nows, err);
              !o.ok && o.state == Ticked(st, msg) && o.err == RpcError(-32601, Some("Method not found"))
    ensures Asks(env, msg, name, text) && name in st.methods && st.methods[name].lang == Some("c") ==>
              var o, func := Post(env, st, msg, nows, err), st.methods[name].func;
              && (func.None? ==>
                    !o.ok && o.state == Ticked(st, msg) && o.err == RpcError(-32601, Some("Method not found")))
              && (func.Some? && env.parse(text).None? ==>
                    !o.ok && o.state == Ticked(st, msg) && o.err == RpcError(-32602, Some("Invalid params")))
  {
    if Asks(env, msg, name, text) {
      TextRead(env, msg.members, "method", Some(name));
      TextRead(env, msg.members, "params", Some(text));
    }
    hide Tick, ResponseTo, ErrorAsJson, GetString, HasText, RunBuiltin;
  }

  /** A method in a script language answers what the script does, and changes nothing but the clock. */
  lemma ScriptAnswers(env: Env, st: NodeState, msg: Json, name: string, text: string,
                      nows: nat -> int, err: RpcError)
    requires Asks(env, msg, name, text) && name in st.methods && st.methods[name].lang != Some("c")
    ensures var o, r := Post(env, st, msg, nows, err), env.runScript(st.methods[name], text, err);
            && o.state == Ticked(st, msg) && o.ok == r.ok && o.err == r.err
            && o.result.Some? && o.result.value.Obj?
            && (r.ok && r.result.Some? ==>
                  "result" in o.result.value.members && o.result.value.members["result"] == r.result.value)
  {
    TextRead(env, msg.members, "method", Some(name));
    TextRead(env, msg.members, "params", Some(text));
    hide Tick, ResponseTo, ErrorAsJson, RunNative, GetString, HasText;
  }
}
