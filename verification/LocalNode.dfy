/** The local node of local_node.c, serving requests from its method manager, registry and clock. */
module LocalNode {
  import opened Sequences
  import opened CStrings
  import opened Json
  import opened LogicalClock
  import opened MethodTable
  import opened NodeRequests
  import opened RequestTheory

  class LocalNode {
    const env: Env
    const methodMgr: MethodManager
    const clock: Clock
    var registry: Registry

    /** round_local_node_new with its system methods */
    constructor (env: Env)
      ensures this.env == env && fresh(methodMgr) && fresh(clock)
      ensures State() == NodeState(SystemTable(), map[], INITIAL_VALUE) && clock.value == 0
    {
      this.env := env;
      methodMgr := new MethodManager();
      clock := new Clock();
      registry := map[];
      new;
      InitSystemMethods();
    }

    ghost function State(): NodeState
      reads this, methodMgr, clock
    {
      NodeState(methodMgr.methodMap, registry, clock.value)
    }

    /** round_local_node_initsystemmethods */
    method InitSystemMethods()
      requires methodMgr.methodMap == map[]
      modifies methodMgr
      ensures methodMgr.methodMap == SystemTable()
    {
      var _ := SetMethod(NativeMethod(SET_METHOD, SetMethodFunc, true));
      var _ := SetMethod(NativeMethod(REMOVE_METHOD, RemoveMethodFunc, true));
      var _ := SetMethod(NativeMethod(SET_REGISTRY, SetRegistryFunc, false));
      var _ := SetMethod(NativeMethod(GET_REGISTRY, GetRegistryFunc, false));
      var _ := SetMethod(NativeMethod(REMOVE_REGISTRY, RemoveRegistryFunc, false));
    }

    // ---- Methods ----------------------------------------------------------------

    /** round_local_node_setmethod */
    method SetMethod(m: Method) returns (ok: bool)
      modifies methodMgr
      ensures AfterSetMethod(old(methodMgr.methodMap), m) == Change(methodMgr.methodMap, ok)
    {
      var exMethod := methodMgr.GetMethod(m.name);
      if exMethod.Some? {
        if IsFinal(exMethod.value) {
          return false;
        }
        var _ := methodMgr.RemoveMethod(m.name);
      }
      ok := methodMgr.AddMethod(m);
      assert m.name.Some? && exMethod.None? ==> old(methodMgr.methodMap) - {m.name.value} == old(methodMgr.methodMap);
    }

    /** round_local_node_isfinalmethod */
    method IsFinalMethod(name: Option<string>) returns (b: bool)
      ensures b == Reserved(methodMgr.methodMap, name)
    {
      var m := methodMgr.GetMethod(name);
      return m.Some? && IsFinal(m.value);
    }

    /** round_local_node_removemethod */
    method RemoveMethod(name: Option<string>) returns (ok: bool)
      modifies methodMgr
      ensures AfterRemoveMethod(old(methodMgr.methodMap), name) == Change(methodMgr.methodMap, ok)
    {
      var m := methodMgr.GetMethod(name);
      if m.None? || IsFinal(m.value) {
        return false;
      }
      ok := methodMgr.RemoveMethod(name);
    }

    // ---- Registry ---------------------------------------------------------------

    /** round_local_node_setregistry */
    method SetRegistry(key: Option<string>, val: Option<string>, now: int) returns (ok: bool)
      modifies this
      ensures ok == key.Some? && State() == AfterSetRegistry(old(State()), key, val, now)
    {
      var reg := Entry(None, 0, 0);
      if key.Some? && key.value in registry {
        reg := registry[key.value];
      } else if key.None? {
        return false;
      }
      if val.Some? {
        reg := reg.(value := val);
      }
      reg := reg.(ts := now);
      reg := reg.(lts := clock.value);
      registry := registry[key.value := reg];
      return true;
    }

    /** round_local_node_getregistry */
    method GetRegistry(key: Option<string>) returns (reg: Option<Entry>)
      ensures reg == Registered(State(), key)
    {
      reg := if key.Some? && key.value in registry then Some(registry[key.value]) else None;
    }

    /** round_local_node_removeregistry */
    method RemoveRegistry(key: Option<string>) returns (ok: bool)
      modifies this
      ensures ok == Registered(old(State()), key).Some?
      ensures State() == if ok then old(State()).(registry := old(registry) - {key.value}) else old(State())
    {
      if key.None? || key.value !in registry {
        return false;
      }
      registry := registry - {key.value};
      return true;
    }

    // ---- System methods ---------------------------------------------------------

    /** round_system_method_setmethod */
    method ExecSetMethod(params: Json, err: RpcError) returns (ok: bool, result: Option<Json>, err': RpcError)
      modifies methodMgr
      ensures SystemSetMethod(env, old(State()), params, err) == Outcome(State(), ok, result, err')
    {
      if !params.Obj? {
        return false, None, ErrorOf(INVALID_PARAMS);
      }
      var name := GetString(env.toText, params, "name");
      if name.None? {
        return false, None, ErrorOf(INVALID_PARAMS);
      }
      var lang := GetString(env.toText, params, "lang");
      if lang.None? {
        return false, None, ErrorOf(INVALID_PARAMS);
      }
      var code := GetString(env.toText, params, "code");
      if code.None? {
        return false, None, ErrorOf(INVALID_PARAMS);
      }
      var text := code.value.GetOr("");
      var encode := GetString(env.toText, params, "enc");
      if encode.Some? && RoundStrEq(encode.value, Some("base64")) {
        text := env.decodeBase64(code.value);
        if |text| <= 0 {
          return false, None, ErrorOf(INVALID_PARAMS);
        }
      }
      ok := SetMethod(Method(name.value, lang.value, text, 0, None));
      return ok, None, if ok then err else ErrorOf(INTERNAL_ERROR);
    }

    /** round_system_method_removemethod */
    method ExecRemoveMethod(params: Json, err: RpcError) returns (ok: bool, result: Option<Json>, err': RpcError)
      modifies methodMgr
      ensures SystemRemoveMethod(env, old(State()), params, err) == Outcome(State(), ok, result, err')
    {
      if !params.Obj? {
        return false, None, ErrorOf(INVALID_PARAMS);
      }
      var name := GetString(env.toText, params, "name");
      if name.None? {
        return false, None, ErrorOf(INVALID_PARAMS);
      }
      var isFinal := IsFinalMethod(name.value);
      if isFinal {
        return false, None, ErrorOf(INVALID_PARAMS);
      }
      ok := RemoveMethod(name.value);
      return ok, None, if ok then err else ErrorOf(INTERNAL_ERROR);
    }

    /** round_system_method_setregistry */
    method ExecSetRegistry(params: Json, now: int, err: RpcError)
      returns (ok: bool, result: Option<Json>, err': RpcError)
      modifies this
      ensures SystemSetRegistry(env, old(State()), params, now, err) == Outcome(State(), ok, result, err')
    {
      if !params.Obj? {
        return false, None, ErrorOf(INVALID_PARAMS);
      }
      var key := GetString(env.toText, params, "key");
      if key.None? {
        return false, None, ErrorOf(INVALID_PARAMS);
      }
      var val := GetString(env.toText, params, "val");
      if val.None? {
        return false, None, ErrorOf(INVALID_PARAMS);
      }
      ok := SetRegistry(key.value, val.value, now);
      return ok, None, if ok then err else ErrorOf(INTERNAL_ERROR);
    }

    /** round_system_method_getregistry */
    method ExecGetRegistry(params: Json, err: RpcError) returns (ok: bool, result: Option<Json>, err': RpcError)
      ensures SystemGetRegistry(env, State(), params, err) == Outcome(State(), ok, result, err')
    {
      if !params.Obj? {
        return false, None, ErrorOf(INVALID_PARAMS);
      }
      var key := GetString(env.toText, params, "key");
      if key.None? {
        return false, None, ErrorOf(INVALID_PARAMS);
      }
      var reg := GetRegistry(key.value);
      if reg.None? {
        return false, None, ErrorOf(INVALID_PARAMS);
      }
      return true, Some(EntryAsJson(key.value, reg.value)), err;
    }

    /** round_system_method_removeregistry */
    method ExecRemoveRegistry(params: Json, err: RpcError) returns (ok: bool, result: Option<Json>, err': RpcError)
      modifies this
      ensures SystemRemoveRegistry(env, old(State()), params, err) == Outcome(State(), ok, result, err')
    {
      if !params.Obj? {
        return false, None, ErrorOf(INVALID_PARAMS);
      }
      var key := GetString(env.toText, params, "key");
      if key.None? {
        return false, None, ErrorOf(INVALID_PARAMS);
      }
      ok := RemoveRegistry(key.value);
      return ok, None, if ok then err else ErrorOf(INTERNAL_ERROR);
    }

    // ---- Requests ---------------------------------------------------------------

    /** round_native_engine_run */
    method ExecNative(m: Method, params: string, now: int, err: RpcError)
      returns (ok: bool, result: Option<Json>, err': RpcError)
      modifies this, methodMgr
      ensures RunNative(env, old(State()), m, params, now, err) == Outcome(State(), ok, result, err')
    {
      hide SystemSetMethod, SystemRemoveMethod, SystemSetRegistry, SystemGetRegistry, SystemRemoveRegistry;
      if m.func.None? {
        return false, None, ErrorOf(METHOD_NOT_FOUND);
      }
      var jsonParams := env.parse(params);
      if jsonParams.None? {
        return false, None, ErrorOf(INVALID_PARAMS);
      }
      match m.func.value {
        case SetMethodFunc => ok, result, err' := ExecSetMethod(jsonParams.value, err);
        case RemoveMethodFunc => ok, result, err' := ExecRemoveMethod(jsonParams.value, err);
        case SetRegistryFunc => ok, result, err' := ExecSetRegistry(jsonParams.value, now, err);
        case GetRegistryFunc => ok, result, err' := ExecGetRegistry(jsonParams.value, err);
        case RemoveRegistryFunc => ok, result, err' := ExecRemoveRegistry(jsonParams.value, err);
      }
    }

    /** round_method_manager_execmethod */
    method ExecMethod(name: Option<string>, params: Option<string>, now: int, err: RpcError)
      returns (ok: bool, result: Option<Json>, err': RpcError)
      modifies this, methodMgr
      ensures NodeRequests.ExecMethod(env, old(State()), name, params, now, err) == Outcome(State(), ok, result, err')
    {
      hide RunNative;
      if name.None? || params.None? {
        return false, None, err;
      }
      var m := methodMgr.GetMethod(name);
      if m.None? {
        return false, None, ErrorOf(METHOD_NOT_FOUND);
      }
      if m.value.lang == Some(NATIVE_LANGUAGE) {
        ok, result, err' := ExecNative(m.value, params.value, now, err);
      } else {
        var r := env.runScript(m.value, params.value, err);
        return r.ok, r.result, r.err;
      }
    }

    /** round_local_node_execrequest */
    method ExecRequest(req: Json, now: int, err: RpcError) returns (ok: bool, res: Json, err': RpcError)
      modifies this, methodMgr
      ensures NodeRequests.ExecRequest(env, old(State()), req, now, err) == Outcome(State(), ok, Some(res), err')
    {
      hide NodeRequests.ExecMethod;
      var members := ResponseTo(env, req);
      if !req.Obj? {
        err' := ErrorOf(INVALID_REQUEST);
        return false, Obj(members["error" := ErrorAsJson(err')]), err';
      }
      var methodName, params := GetString(env.toText, req, "method"), GetString(env.toText, req, "params");
      var result;
      ok, result, err' := ExecMethod(methodName.GetOr(None), params.GetOr(None), now, err);
      if ok {
        if result.Some? {
          members := members["result" := result.value];
        }
      } else {
        members := members["error" := ErrorAsJson(err')];
      }
      res := Obj(members);
    }

    /** round_node_updateclockbyjsonobject */
    method UpdateClock(msg: Json)
      modifies clock
      ensures State() == Ticked(old(State()), msg)
    {
      var ts := GetInteger(msg, "ts");
      if ts.Some? {
        clock.SetRemoteValue(ts.value);
      } else {
        var _ := clock.Increment();
      }
    }

    /** round_local_node_postmessage */
    method PostMessage(msg: Json, nows: nat -> int, err: RpcError) returns (ok: bool, res: Option<Json>, err': RpcError)
      modifies this, methodMgr, clock
      ensures Post(env, old(State()), msg, nows, err) == Outcome(State(), ok, res, err')
    {
      hide NodeRequests.ExecRequest;
      UpdateClock(msg);
      if !msg.Obj? && !msg.Arr? {
        return false, None, ErrorOf(INVALID_REQUEST);
      }
      err' := err;
      if msg.Obj? {
        var single;
        ok, single, err' := ExecRequest(msg, nows(0), err);
        return ok, Some(single), err';
      }
      ghost var ticked := State();
      var responses := [];
      for n := 0 to |msg.elements|
        invariant ExecAll(env, ticked, msg.elements[..n], nows, err) == Batch(State(), responses, err')
      {
        var _, element, e := ExecRequest(msg.elements[n], nows(n), err');
        assert msg.elements[..n + 1][..n] == msg.elements[..n];
        responses, err' := responses + [element], e;
      }
      assert msg.elements[..|msg.elements|] == msg.elements;
      return true, Some(Arr(responses)), err';
    }

    // ---- Whole runs -----------------------------------------------------------------

    /** One call on the node. */
    method Perform(call: Call)
      modifies this, methodMgr, clock
      ensures State() == AfterCall(env, old(State()), call)
    {
      hide Post, AfterSetMethod, AfterRemoveMethod, AfterSetRegistry;
      match call
      case PostCall(msg, nows, err) =>
        var _, _, _ := PostMessage(msg, nows, err);
      case SetMethodCall(m) =>
        var _ := SetMethod(m);
      case RemoveMethodCall(name) =>
        var _ := RemoveMethod(name);
      case SetRegistryCall(key, val, now) =>
        var _ := SetRegistry(key, val, now);
      case RemoveRegistryCall(key) =>
        var ok := RemoveRegistry(key);
        assert key.Some? && !ok ==> old(registry) - {key.value} == old(registry);
    }

    /** Any calls on a node that has come from its initial state by the calls `before`: the system methods
        stay bound, every method that was final stays bound, the clock does not go back, and no
        registry entry is stamped after it. */
    method Execute(ghost before: seq<Call>, calls: seq<Call>)
      requires State() == AfterRun(env, before)
      modifies this, methodMgr, clock
      ensures State() == AfterRun(env, before + calls)
      ensures KeepsFinal(old(methodMgr.methodMap), methodMgr.methodMap)
      ensures forall n :: n in SystemTable() ==> n in methodMgr.methodMap && methodMgr.methodMap[n] == SystemTable()[n]
      ensures old(clock.value) <= clock.value && forall k :: k in registry ==> registry[k].lts <= clock.value
    {
      hide AfterCall, KeepsFinal, StampsBounded, SystemTable;
      assert before + calls[..0] == before;
      for i := 0 to |calls|
        invariant State() == AfterRun(env, before + calls[..i])
      {
        assert (before + calls[..i + 1])[..|before| + i] == before + calls[..i];
        Perform(calls[i]);
      }
      assert calls[..|calls|] == calls && (before + calls)[..|before|] == before;
      RunAdvances(env, before + calls, |before|);
      RunInvariant(env, before + calls, |before|);
      StampsAt(State());
    }
  }

  lemma StampsAt(st: NodeState)
    requires StampsBounded(st)
    ensures forall k :: k in st.registry ==> st.registry[k].lts <= st.clock
  {
  }
}
