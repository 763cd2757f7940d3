/** What holds of every request and every run of a local node: batches against single
    requests, final methods, and logical timestamps. */
module RequestTheory {
  import opened Sequences
  import opened Json
  import opened LogicalClock
  import opened MethodTable
  import opened NodeRequests

  // ---- A batch against its requests posted one by one -----------------------------

  /** The same methods, and the same keys with the same values: logical timestamps and clocks aside. */
  ghost predicate Similar(a: NodeState, b: NodeState) {
    && a.methods == b.methods && a.registry.Keys == b.registry.Keys
    && forall k :: k in a.registry ==>
         a.registry[k].value == b.registry[k].value && a.registry[k].ts == b.registry[k].ts
  }

  /** The same value, except for the logical timestamp of a registry entry. */
  ghost predicate SameButLts(a: Json, b: Json) {
    || a == b
    || (a.Obj? && b.Obj? && "lts" in a.members && "lts" in b.members && a.members - {"lts"} == b.members - {"lts"})
  }

  ghost predicate SameResponse(a: Json, b: Json) {
    || a == b
    || (&& a.Obj? && b.Obj? && "result" in a.members && "result" in b.members
        && a.members - {"result"} == b.members - {"result"}
        && SameButLts(a.members["result"], b.members["result"]))
  }

  /** Outcomes that tell the states apart by nothing but logical timestamps. */
  ghost predicate Alike(a: Outcome, b: Outcome) {
    && Similar(a.state, b.state) && a.ok == b.ok && a.err == b.err
    && a.result.Some? == b.result.Some?
    && (a.result.Some? ==> SameButLts(a.result.value, b.result.value))
  }

  lemma GetRegistryAlike(env: Env, s: NodeState, t: NodeState, params: Json, err: RpcError)
    requires Similar(s, t)
    ensures Alike(SystemGetRegistry(env, s, params, err), SystemGetRegistry(env, t, params, err))
    ensures SystemGetRegistry(env, s, params, err).state.clock == s.clock
  {
  }

  lemma SetRegistryAlike(env: Env, s: NodeState, t: NodeState, params: Json, now: int, err: RpcError)
    requires Similar(s, t)
    ensures Alike(SystemSetRegistry(env, s, params, now, err), SystemSetRegistry(env, t, params, now, err))
    ensures SystemSetRegistry(env, s, params, now, err).state.clock == s.clock
  {
  }

  lemma RemoveRegistryAlike(env: Env, s: NodeState, t: NodeState, params: Json, err: RpcError)
    requires Similar(s, t)
    ensures Alike(SystemRemoveRegistry(env, s, params, err), SystemRemoveRegistry(env, t, params, err))
    ensures SystemRemoveRegistry(env, s, params, err).state.clock == s.clock
  {
  }

  lemma MethodChangeAlike(env: Env, s: NodeState, t: NodeState, params: Json, err: RpcError)
    requires Similar(s, t)
    ensures Alike(SystemSetMethod(env, s, params, err), SystemSetMethod(env, t, params, err))
    ensures Alike(SystemRemoveMethod(env, s, params, err), SystemRemoveMethod(env, t, params, err))
    ensures SystemSetMethod(env, s, params, err).state.clock == s.clock
    ensures SystemRemoveMethod(env, s, params, err).state.clock == s.clock
  {
    hide GetString, RequestedCode, AfterSetMethod, AfterRemoveMethod, Reserved, SameButLts;
  }

  lemma BuiltinAlike(env: Env, s: NodeState, t: NodeState, func: Builtin, params: Json, now: int, err: RpcError)
    requires Similar(s, t)
    ensures Alike(RunBuiltin(env, s, func, params, now, err), RunBuiltin(env, t, func, params, now, err))
    ensures RunBuiltin(env, s, func, params, now, err).state.clock == s.clock
  {
    hide Similar, Alike, SystemSetMethod, SystemRemoveMethod, SystemSetRegistry, SystemGetRegistry,
        SystemRemoveRegistry;
    MethodChangeAlike(env, s, t, params, err);
    SetRegistryAlike(env, s, t, params, now, err);
    GetRegistryAlike(env, s, t, params, err);
    RemoveRegistryAlike(env, s, t, params, err);
  }

  lemma ExecMethodAlike(env: Env, s: NodeState, t: NodeState, name: Option<string>, params: Option<string>,
                        now: int, err: RpcError)
    requires Similar(s, t)
    ensures Alike(ExecMethod(env, s, name, params, now, err), ExecMethod(env, t, name, params, now, err))
    ensures ExecMethod(env, s, name, params, now, err).state.clock == s.clock
  {
    hide RunBuiltin;
    if name.Some? && params.Some? && Lookup(s.methods, name).Some? {
      var m := Lookup(s.methods, name).value;
      if m.lang == Some(NATIVE_LANGUAGE) && m.func.Some? && env.parse(params.value).Some? {
        BuiltinAlike(env, s, t, m.func.value, env.parse(params.value).value, now, err);
      }
    }
  }

  lemma ExecRequestAlike(env: Env, s: NodeState, t: NodeState, req: Json, now: int, err: RpcError)
    requires Similar(s, t)
    ensures var a, b := ExecRequest(env, s, req, now, err), ExecRequest(env, t, req, now, err);
            && Similar(a.state, b.state) && a.ok == b.ok && a.err == b.err && a.state.clock == s.clock
            && a.result.Some? && b.result.Some? && SameResponse(a.result.value, b.result.value)
  {
    hide ExecMethod, GetString, ResponseTo, Similar, SameButLts;
    if req.Obj? {
      var name, params := GetString(env.toText, req, "method").GetOr(None),
                           GetString(env.toText, req, "params").GetOr(None);
      ExecMethodAlike(env, s, t, name, params, now, err);
      RespondedAlike(env, req, ExecMethod(env, s, name, params, now, err), ExecMethod(env, t, name, params, now, err));
    }
  }

  lemma RespondedAlike(env: Env, req: Json, a: Outcome, b: Outcome)
    requires Alike(a, b)
    ensures SameResponse(Responded(env, req, a).result.value, Responded(env, req, b).result.value)
  {
  }

  /** The requests posted one by one, the i-th at time nows(i), all sharing the error. */
  ghost function Singles(env: Env, st: NodeState, reqs: seq<Json>, nows: nat -> int, err: RpcError): Batch {
    if reqs == [] then Batch(st, [], err)
    else
      var n := |reqs| - 1;
      var b := Singles(env, st, reqs[..n], nows, err);
      var o := Post(env, b.state, reqs[n], (i: nat) => nows(n + i), b.err);
      Batch(o.state, b.responses + [o.result.GetOr(Null)], o.err)
  }

  /** The remote clocks that the requests carry. */
  ghost function RemoteClocks(reqs: seq<Json>): seq<Option<int>> {
    if reqs == [] then [] else RemoteClocks(reqs[..|reqs| - 1]) + [GetInteger(reqs[|reqs| - 1], "ts")]
  }

  /** The answers to one request, in a batch and posted on its own. What is no object is refused both
      ways, with an error response in a batch and without a response (Null) on its own. */
  ghost predicate SameAnswer(env: Env, req: Json, inBatch: Json, single: Json) {
    if req.Obj? then SameResponse(inBatch, single)
    else
      && inBatch == Obj(ResponseTo(env, req)["error" := ErrorAsJson(ErrorOf(INVALID_REQUEST))])
      && single == Null
  }

  /** One request executed as a batch member and posted on its own, in similar states. */
  lemma MemberAsSingle(env: Env, s: NodeState, t: NodeState, req: Json, now: int, nows: nat -> int, err: RpcError)
    requires Similar(s, t) && !req.Arr? && nows(0) == now
    ensures var a, b := ExecRequest(env, s, req, now, err), Post(env, t, req, nows, err);
            && Similar(a.state, b.state) && a.err == b.err && a.state.clock == s.clock
            && b.state.clock == Tick(t.clock, GetInteger(req, "ts"))
            && SameAnswer(env, req, a.result.GetOr(Null), b.result.GetOr(Null))
  {
    hide ExecMethod, GetString, GetInteger, Tick, ResponseTo, ErrorOf, SameResponse;
    ExecRequestAlike(env, s, Ticked(t, req), req, now, err);
    ExecRequestAlike(env, Ticked(t, req), s, req, now, err);
  }

  lemma {:induction false} ExecAllAsSingles(env: Env, ticked: NodeState, st: NodeState, reqs: seq<Json>,
                                            nows: nat -> int, err: RpcError)
    requires Similar(ticked, st) && forall i :: 0 <= i < |reqs| ==> !reqs[i].Arr?
    ensures var b, s := ExecAll(env, ticked, reqs, nows, err), Singles(env, st, reqs, nows, err);
            && |b.responses| == |s.responses| == |reqs| && b.err == s.err
            && (forall i :: 0 <= i < |reqs| ==> SameAnswer(env, reqs[i], b.responses[i], s.responses[i]))
            && Similar(b.state, s.state)
            && b.state.clock == ticked.clock && s.state.clock == TickAll(st.clock, RemoteClocks(reqs))
  {
    hide ExecRequest, Post, SameAnswer, Tick, GetInteger, Similar;
    if reqs != [] {
      var n := |reqs| - 1;
      ExecAllAsSingles(env, ticked, st, reqs[..n], nows, err);
      var b, s := ExecAll(env, ticked, reqs[..n], nows, err), Singles(env, st, reqs[..n], nows, err);
      MemberAsSingle(env, b.state, s.state, reqs[n], nows(n), (i: nat) => nows(n + i), b.err);
      var clocks := RemoteClocks(reqs);
      assert clocks[..|clocks| - 1] == RemoteClocks(reqs[..n]) && clocks[|clocks| - 1] == GetInteger(reqs[n], "ts");
    }
  }

  /** Posting requests as one batch gives the methods, registry values, error and, in order,
      the answers of posting them one by one, while the clock advances once instead of n times.
      Members that are arrays are shut out: on its own an array is a batch, in a batch it is refused. */
  lemma BatchIsSingles(env: Env, st: NodeState, reqs: seq<Json>, nows: nat -> int, err: RpcError)
    requires forall i :: 0 <= i < |reqs| ==> !reqs[i].Arr?
    ensures var b, s := Post(env, st, Arr(reqs), nows, err), Singles(env, st, reqs, nows, err);
            && b.ok && b.err == s.err && Similar(b.state, s.state)
            && b.result.Some? && b.result.value.Arr? && |b.result.value.elements| == |reqs| == |s.responses|
            && (forall i :: 0 <= i < |reqs| ==> SameAnswer(env, reqs[i], b.result.value.elements[i], s.responses[i]))
            && b.state.clock == st.clock + 1
            && s.state.clock == TickAll(st.clock, RemoteClocks(reqs))
  {
    hide ExecAll, Singles, SameAnswer;
    ExecAllAsSingles(env, Ticked(st, Arr(reqs)), st, reqs, nows, err);
  }

  // ---- Runs -------------------------------------------------------------------------

  /** No registry entry is stamped later than the clock. */
  ghost predicate StampsBounded(st: NodeState) {
    forall k :: k in st.registry ==> st.registry[k].lts <= st.clock
  }

  /** From s to t, final methods stay bound, the clock does not go back, and stamps stay bounded. */
  ghost predicate Advances(s: NodeState, t: NodeState) {
    && KeepsFinal(s.methods, t.methods) && s.clock <= t.clock
    && (StampsBounded(s) ==> StampsBounded(t))
  }

  lemma BuiltinAdvances(env: Env, st: NodeState, func: Builtin, params: Json, now: int, err: RpcError)
    ensures Advances(st, RunBuiltin(env, st, func, params, now, err).state)
    ensures RunBuiltin(env, st, func, params, now, err).state.clock == st.clock
  {
  }

  lemma ExecRequestAdvances(env: Env, st: NodeState, req: Json, now: int, err: RpcError)
    ensures Advances(st, ExecRequest(env, st, req, now, err).state)
    ensures ExecRequest(env, st, req, now, err).state.clock == st.clock
  {
    hide RunBuiltin, GetString, IsFinal, ResponseTo;
    if req.Obj? {
      var name, params := GetString(env.toText, req, "method").GetOr(None),
                           GetString(env.toText, req, "params").GetOr(None);
      if name.Some? && params.Some? && Lookup(st.methods, name).Some? {
        var m := Lookup(st.methods, name).value;
        if m.func.Some? && env.parse(params.value).Some? {
          BuiltinAdvances(env, st, m.func.value, env.parse(params.value).value, now, err);
        }
      }
    }
  }

  lemma {:induction false} ExecAllAdvances(env: Env, st: NodeState, reqs: seq<Json>, nows: nat -> int, err: RpcError)
    ensures Advances(st, ExecAll(env, st, reqs, nows, err).state)
    ensures ExecAll(env, st, reqs, nows, err).state.clock == st.clock
  {
    hide ExecRequest, IsFinal;
    if reqs != [] {
      var n := |reqs| - 1;
      ExecAllAdvances(env, st, reqs[..n], nows, err);
      var b := ExecAll(env, st, reqs[..n], nows, err);
      ExecRequestAdvances(env, b.state, reqs[n], nows(n), b.err);
    }
  }

  /** Every posted message, valid or not, moves the clock forward. */
  lemma PostAdvances(env: Env, st: NodeState, msg: Json, nows: nat -> int, err: RpcError)
    ensures Advances(st, Post(env, st, msg, nows, err).state)
    ensures Post(env, st, msg, nows, err).state.clock == Tick(st.clock, GetInteger(msg, "ts")) > st.clock
  {
    hide ExecRequest, ExecAll, IsFinal;
    if msg.Obj? {
      ExecRequestAdvances(env, Ticked(st, msg), msg, nows(0), err);
    } else if msg.Arr? {
      ExecAllAdvances(env, Ticked(st, msg), msg.elements, nows, err);
    }
  }

  /** A posted object that carries an integer "ts" brings the clock past it and past where it was; any
      other message moves the clock by one. */
  lemma PostedClock(env: Env, st: NodeState, msg: Json, nows: nat -> int, err: RpcError)
    ensures msg.Obj? && "ts" in msg.members && msg.members["ts"].Int? ==>
              var r := msg.members["ts"].i;
              Post(env, st, msg, nows, err).state.clock == (if st.clock < r then r else st.clock) + 1
    ensures !(msg.Obj? && "ts" in msg.members && msg.members["ts"].Int?) ==>
              Post(env, st, msg, nows, err).state.clock == st.clock + 1
  {
    PostAdvances(env, st, msg, nows, err);
    hide Post;
  }

  /** What can happen to a node: a posted message, or a call of its own functions. */
  datatype Call =
    | PostCall(msg: Json, nows: nat -> int, err: RpcError)
    | SetMethodCall(m: Method)
    | RemoveMethodCall(name: Option<string>)
    | SetRegistryCall(key: Option<string>, val: Option<string>, now: int)
    | RemoveRegistryCall(key: Option<string>)

  ghost function AfterCall(env: Env, st: NodeState, call: Call): NodeState {
    match call
    case PostCall(msg, nows, err) => Post(env, st, msg, nows, err).state
    case SetMethodCall(m) => st.(methods := AfterSetMethod(st.methods, m).methods)
    case RemoveMethodCall(name) => st.(methods := AfterRemoveMethod(st.methods, name).methods)
    case SetRegistryCall(key, val, now) => AfterSetRegistry(st, key, val, now)
    case RemoveRegistryCall(key) => if key.Some? then st.(registry := st.registry - {key.value}) else st
  }

  /** The state of a new node after the given calls, in order. */
  ghost function AfterRun(env: Env, calls: seq<Call>): NodeState {
    if calls == [] then NodeState(SystemTable(), map[], INITIAL_VALUE)
    else AfterCall(env, AfterRun(env, calls[..|calls| - 1]), calls[|calls| - 1])
  }

  lemma CallAdvances(env: Env, st: NodeState, call: Call)
    ensures Advances(st, AfterCall(env, st, call))
    ensures call.PostCall? ==> st.clock < AfterCall(env, st, call).clock
  {
    hide Post, IsFinal, AfterSetMethod, AfterRemoveMethod, Tick;
    match call
    case PostCall(msg, nows, err) => PostAdvances(env, st, msg, nows, err);
    case SetMethodCall(m) => SetMethodKeepsFinal(st.methods, m);
    case RemoveMethodCall(name) => RemoveMethodKeepsFinal(st.methods, name);
    case SetRegistryCall(key, val, now) =>
    case RemoveRegistryCall(key) =>
  }

  /** Along a run, every later state is an advance on every earlier one. */
  lemma {:induction false} RunAdvances(env: Env, calls: seq<Call>, i: nat)
    requires i <= |calls|
    ensures Advances(AfterRun(env, calls[..i]), AfterRun(env, calls))
    decreases |calls|
  {
    hide AfterCall, IsFinal;
    if i < |calls| {
      var init := calls[..|calls| - 1];
      RunAdvances(env, init, i);
      assert init[..i] == calls[..i];
      CallAdvances(env, AfterRun(env, init), calls[|calls| - 1]);
    } else {
      assert calls[..i] == calls;
    }
  }

  /** In every run: the five system methods stay bound to their names, any method that is final
      at some point stays bound from then on, and no registry entry is stamped after the clock. */
  lemma RunInvariant(env: Env, calls: seq<Call>, i: nat)
    requires i <= |calls|
    ensures var st := AfterRun(env, calls);
            && StampsBounded(st)
            && (forall n :: n in SystemTable() ==> n in st.methods && st.methods[n] == SystemTable()[n])
            && KeepsFinal(AfterRun(env, calls[..i]).methods, st.methods)
  {
    hide AfterCall, IsFinal, SystemTable;
    RunAdvances(env, calls, i);
    RunAdvances(env, calls, 0);
    assert calls[..0] == [];
    SystemMethodsStay(AfterRun(env, calls).methods);
  }

  /** From s to t, every entry is as it was or stamped with t's clock. */
  ghost predicate StampedOnce(s: NodeState, t: NodeState) {
    forall k :: k in t.registry ==> (k in s.registry && t.registry[k] == s.registry[k]) || t.registry[k].lts == t.clock
  }

  lemma ExecRequestStamps(env: Env, st: NodeState, req: Json, now: int, err: RpcError)
    ensures StampedOnce(st, ExecRequest(env, st, req, now, err).state)
  {
    hide GetString, RequestedCode, AfterSetMethod, AfterRemoveMethod, Reserved, ResponseTo;
  }

  lemma {:induction false} ExecAllStamps(env: Env, st: NodeState, reqs: seq<Json>, nows: nat -> int, err: RpcError)
    ensures StampedOnce(st, ExecAll(env, st, reqs, nows, err).state)
  {
    hide ExecRequest;
    if reqs != [] {
      var n := |reqs| - 1;
      var b := ExecAll(env, st, reqs[..n], nows, err);
      ExecAllStamps(env, st, reqs[..n], nows, err);
      ExecAllAdvances(env, st, reqs[..n], nows, err);
      ExecRequestStamps(env, b.state, reqs[n], nows(n), b.err);
      ExecRequestAdvances(env, b.state, reqs[n], nows(n), b.err);
    }
  }

  /** All entries that one batch leaves written carry the same logical timestamp, the clock after
      the batch: within a batch stamps do not tell which request came later. */
  lemma BatchStampsOnce(env: Env, st: NodeState, reqs: seq<Json>, nows: nat -> int, err: RpcError)
    ensures var t := Post(env, st, Arr(reqs), nows, err).state;
            && t.clock == st.clock + 1
            && forall k :: k in t.registry ==>
                 (k in st.registry && t.registry[k] == st.registry[k]) || t.registry[k].lts == st.clock + 1
  {
    hide ExecAll;
    ExecAllStamps(env, Ticked(st, Arr(reqs)), reqs, nows, err);
    ExecAllAdvances(env, Ticked(st, Arr(reqs)), reqs, nows, err);
  }

  // ---- Stamps of posted set_registry requests -----------------------------------------

  /** The message is a single set_registry request. */
  ghost predicate IsSetRegistry(msg: Json) {
    msg.Obj? && "method" in msg.members && msg.members["method"] == Str(SET_REGISTRY)
  }

  /** The key that a set_registry request names. */
  ghost function RequestedKey(env: Env, msg: Json): Option<string> {
    var params := GetString(env.toText, msg, "params").GetOr(None);
    if params.None? || env.parse(params.value).None? then None
    else GetString(env.toText, env.parse(params.value).value, "key").GetOr(None)
  }

  /** A set_registry request that succeeds stamps its key with the clock. */
  lemma SetRegistryStamps(env: Env, st: NodeState, msg: Json, nows: nat -> int, err: RpcError)
    requires IsSetRegistry(msg)
    requires Lookup(st.methods, Some(SET_REGISTRY)) == Some(NativeMethod(SET_REGISTRY, SetRegistryFunc, false))
    requires Post(env, st, msg, nows, err).ok
    ensures var key, st' := RequestedKey(env, msg), Post(env, st, msg, nows, err).state;
            key.Some? && key.value in st'.registry && st'.registry[key.value].lts == st'.clock
  {
  }

  /** The k-th call of the run posts a set_registry request, which succeeds. */
  ghost predicate SetsRegistry(env: Env, calls: seq<Call>, k: nat)
    requires k < |calls|
  {
    && calls[k].PostCall? && IsSetRegistry(calls[k].msg)
    && Post(env, AfterRun(env, calls[..k]), calls[k].msg, calls[k].nows, calls[k].err).ok
  }

  /** The key and the registry entry that the k-th call of a run leaves, and the clock then. */
  lemma StampOfCall(env: Env, calls: seq<Call>, k: nat)
    requires k < |calls| && SetsRegistry(env, calls, k)
    ensures var key, st := RequestedKey(env, calls[k].msg), AfterRun(env, calls[..k + 1]);
            key.Some? && key.value in st.registry && st.registry[key.value].lts == st.clock
  {
    hide Post, IsSetRegistry, RequestedKey, IsFinal, KeepsFinal, StampsBounded;
    RunInvariant(env, calls[..k], 0);
    SetRegistryStamps(env, AfterRun(env, calls[..k]), calls[k].msg, calls[k].nows, calls[k].err);
    assert calls[..k + 1][..k] == calls[..k];
  }

  /** Of two set_registry requests that succeed in one run, the later one stamps its key with
      the greater logical timestamp. */
  lemma LaterStampsAreGreater(env: Env, calls: seq<Call>, i: nat, j: nat)
    requires i < j < |calls| && SetsRegistry(env, calls, i) && SetsRegistry(env, calls, j)
    ensures var key1, key2 := RequestedKey(env, calls[i].msg), RequestedKey(env, calls[j].msg);
            var first, second := AfterRun(env, calls[..i + 1]).registry, AfterRun(env, calls[..j + 1]).registry;
            && key1.Some? && key1.value in first && key2.Some? && key2.value in second
            && first[key1.value].lts < second[key2.value].lts
  {
    hide AfterCall, Post, IsSetRegistry, RequestedKey, KeepsFinal, StampsBounded;
    StampOfCall(env, calls, i);
    StampOfCall(env, calls, j);
    RunAdvances(env, calls[..j], i + 1);
    assert calls[..j][..i + 1] == calls[..i + 1] && calls[..j + 1][..j] == calls[..j];
    CallAdvances(env, AfterRun(env, calls[..j]), calls[j]);
  }
}
