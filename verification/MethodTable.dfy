/** A node's methods and the manager of method_manager.c that holds them by name. */
module MethodTable {
  import opened Sequences
  import opened CStrings

  const FINAL_FLAG: bv32 := 1
  const STATIC_FLAG: bv32 := 2
  const NATIVE_LANGUAGE := "c"

  const SET_METHOD := "set_method"
  const REMOVE_METHOD := "remove_method"
  const SET_REGISTRY := "set_registry"
  const GET_REGISTRY := "get_registry"
  const REMOVE_REGISTRY := "remove_registry"

  datatype Builtin = SetMethodFunc | RemoveMethodFunc | SetRegistryFunc | GetRegistryFunc | RemoveRegistryFunc

  datatype Method = Method(name: Option<string>, lang: Option<string>, code: string, opt: bv32, func: Option<Builtin>)

  type Methods = map<string, Method>

  /** round_option_setflag: turning a flag off toggles it. */
  function SetFlag(opt: bv32, flag: bv32, value: bool): bv32 {
    if value then opt | flag else opt ^ flag
  }

  /** round_option_isenabled */
  predicate IsEnabled(opt: bv32, flag: bv32) {
    opt & flag != 0
  }

  /** round_method_isfinal */
  predicate IsFinal(m: Method) {
    IsEnabled(m.opt, FINAL_FLAG)
  }

  /** round_method_isvalid: a name, and code unless the method is static. */
  predicate IsValid(m: Method) {
    RoundStrLen(m.name) > 0 && (!IsEnabled(m.opt, STATIC_FLAG) ==> m.code != "")
  }

  /** round_naitive_method_new */
  function NativeMethod(name: string, func: Builtin, isFinal: bool): Method {
    Method(Some(name), Some(NATIVE_LANGUAGE), "", SetFlag(SetFlag(0, FINAL_FLAG, isFinal), STATIC_FLAG, true),
           Some(func))
  }

  /** Turning a flag off turns it on when it was off. */
  lemma FlagAfterSet(opt: bv32, value: bool)
    ensures IsEnabled(SetFlag(opt, FINAL_FLAG, value), FINAL_FLAG) <==> value || !IsEnabled(opt, FINAL_FLAG)
    ensures IsEnabled(SetFlag(opt, FINAL_FLAG, value), STATIC_FLAG) <==> IsEnabled(opt, STATIC_FLAG)
  {
  }

  /** Asked not to be final, a native method is final all the same. */
  lemma NativeMethodIsFinal(name: string, func: Builtin, isFinal: bool)
    ensures IsFinal(NativeMethod(name, func, isFinal)) && IsEnabled(NativeMethod(name, func, isFinal).opt, STATIC_FLAG)
    ensures NativeMethod(name, func, true) == NativeMethod(name, func, false)
    ensures NativeMethod(name, func, isFinal).opt == 3
  {
  }

  /** A method can be bound exactly when it has a name, and code or the static flag, which is 2. */
  lemma ValidMethods(m: Method)
    ensures IsValid(m) <==> m.name.Some? && m.name.value != "" && (m.code != "" || m.opt & 2 != 0)
    ensures IsFinal(m) <==> m.opt & 1 != 0
  {
  }

  function Lookup(ms: Methods, name: Option<string>): Option<Method> {
    if name.Some? && name.value in ms then Some(ms[name.value]) else None
  }

  function Unbound(ms: Methods, name: Option<string>): Methods {
    if name.Some? then ms - {name.value} else ms
  }

  /** The name is bound to a method that must not be rebound or removed. */
  predicate Reserved(ms: Methods, name: Option<string>) {
    Lookup(ms, name).Some? && IsFinal(Lookup(ms, name).value)
  }

  datatype Change = Change(methods: Methods, ok: bool)

  /** The table after round_local_node_setmethod: the method's name is freed before the method is checked. */
  function AfterSetMethod(ms: Methods, m: Method): Change {
    if Reserved(ms, m.name) then Change(ms, false)
    else if !IsValid(m) then Change(Unbound(ms, m.name), false)
    else Change(ms[m.name.value := m], true)
  }

  /** The table after round_local_node_removemethod. */
  function AfterRemoveMethod(ms: Methods, name: Option<string>): Change {
    if Lookup(ms, name).None? || Reserved(ms, name) then Change(ms, false)
    else Change(Unbound(ms, name), true)
  }

  // ---- What no change of the table does -------------------------------------------

  /** Every method that was final is bound to the same name as before. */
  ghost predicate KeepsFinal(before: Methods, after: Methods) {
    forall n :: n in before && IsFinal(before[n]) ==> n in after && after[n] == before[n]
  }

  lemma SetMethodKeepsFinal(ms: Methods, m: Method)
    ensures KeepsFinal(ms, AfterSetMethod(ms, m).methods)
  {
  }

  lemma RemoveMethodKeepsFinal(ms: Methods, name: Option<string>)
    ensures KeepsFinal(ms, AfterRemoveMethod(ms, name).methods)
  {
  }

  /** setmethod succeeds exactly for a valid method whose name is not bound to a final one. When it
      fails, the table is the old one exactly when the name was unbound or bound to a final method;
      otherwise the non-final method that was to be replaced is lost. */
  lemma FailedSetMethod(ms: Methods, m: Method)
    ensures var c := AfterSetMethod(ms, m);
            && (c.ok <==> IsValid(m) && !(m.name.value in ms && IsFinal(ms[m.name.value])))
            && (c.ok ==> c.methods == ms[m.name.value := m])
            && (!c.ok ==> (c.methods == ms <==> Lookup(ms, m.name).None? || IsFinal(Lookup(ms, m.name).value)))
            && (!c.ok && c.methods != ms ==>
                  m.name.Some? && m.name.value in ms && !IsFinal(ms[m.name.value]) && c.methods == ms - {m.name.value})
  {
    if m.name.Some? && m.name.value in ms {
      assert m.name.value !in Unbound(ms, m.name);
    }
  }

  /** A method "f" that is not final is lost when a method of that name without code is set. */
  lemma InvalidReplacementLosesMethod(f: Method)
    requires !IsFinal(f)
    ensures var ms: Methods := map["f" := f];
            AfterSetMethod(ms, Method(Some("f"), Some("js"), "", 0, None)) == Change(map[], false)
  {
    var ms: Methods := map["f" := f];
    assert ms - {"f"} == map[];
  }

  datatype TableCall = SetCall(m: Method) | RemoveCall(name: Option<string>)

  /** The table after the given calls, in order, whether they succeed or fail. */
  function AfterCalls(ms: Methods, calls: seq<TableCall>): Methods {
    if calls == [] then ms
    else
      var before := AfterCalls(ms, calls[..|calls| - 1]);
      match calls[|calls| - 1]
      case SetCall(m) => AfterSetMethod(before, m).methods
      case RemoveCall(name) => AfterRemoveMethod(before, name).methods
  }

  /** No sequence of setmethod and removemethod calls rebinds or removes a final method. */
  lemma {:induction false} CallsKeepFinal(ms: Methods, calls: seq<TableCall>)
    ensures KeepsFinal(ms, AfterCalls(ms, calls))
  {
    hide IsFinal, AfterSetMethod, AfterRemoveMethod;
    if calls != [] {
      var init := calls[..|calls| - 1];
      CallsKeepFinal(ms, init);
      match calls[|calls| - 1]
      case SetCall(m) => SetMethodKeepsFinal(AfterCalls(ms, init), m);
      case RemoveCall(name) => RemoveMethodKeepsFinal(AfterCalls(ms, init), name);
    }
  }

  /** The table round_local_node_initsystemmethods leaves: every system method under its name. */
  function SystemTable(): Methods {
    map[SET_METHOD := NativeMethod(SET_METHOD, SetMethodFunc, true),
        REMOVE_METHOD := NativeMethod(REMOVE_METHOD, RemoveMethodFunc, true),
        SET_REGISTRY := NativeMethod(SET_REGISTRY, SetRegistryFunc, false),
        GET_REGISTRY := NativeMethod(GET_REGISTRY, GetRegistryFunc, false),
        REMOVE_REGISTRY := NativeMethod(REMOVE_REGISTRY, RemoveRegistryFunc, false)]
  }

  /** All system methods are final, so a table that keeps final methods keeps every one of them. */
  lemma SystemMethodsStay(after: Methods)
    requires KeepsFinal(SystemTable(), after)
    ensures forall n :: n in SystemTable() ==> n in after && after[n] == SystemTable()[n]
  {
  }

  class MethodManager {
    var methodMap: Methods

    constructor ()
      ensures methodMap == map[]
    {
      methodMap := map[];
    }

    /** round_method_manager_getmethod */
    method GetMethod(name: Option<string>) returns (m: Option<Method>)
      ensures m == Lookup(methodMap, name)
    {
      if name.None? || name.value !in methodMap {
        return None;
      }
      m := Some(methodMap[name.value]);
    }

    /** round_method_manager_addmethod */
    method AddMethod(m: Method) returns (ok: bool)
      modifies this
      ensures ok == IsValid(m)
      ensures methodMap == if ok then old(methodMap)[m.name.value := m] else old(methodMap)
    {
      if !IsValid(m) {
        return false;
      }
      var _ := RemoveMethod(m.name);
      methodMap := methodMap[m.name.value := m];
      return true;
    }

    /** round_method_manager_removemethod */
    method RemoveMethod(name: Option<string>) returns (ok: bool)
      modifies this
      ensures ok == Lookup(old(methodMap), name).Some? && methodMap == Unbound(old(methodMap), name)
    {
      if name.None? || name.value !in methodMap {
        assert name.Some? ==> methodMap - {name.value} == methodMap;
        return false;
      }
      methodMap := methodMap - {name.value};
      return true;
    }
  }
}
