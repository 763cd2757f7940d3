/** The JSON values that requests and responses are made of, as json_map.c reads them. */
module Json {
  import opened Sequences

  datatype Json =
    | Null
    | Bool(b: bool)
    | Int(i: int)
    | Real(r: real)
    | Str(s: string)
    | Arr(elements: seq<Json>)
    | Obj(members: map<string, Json>)

  /** round_json_map_getinteger */
  function GetInteger(obj: Json, key: string): Option<int> {
    if obj.Obj? && key in obj.members && obj.members[key].Int? then Some(obj.members[key].i) else None
  }

  /** round_json_map_getstring, None when there is no such member. A null member is found but has
      no text; nor has a boolean, which the printer refuses outside of arrays and objects. Other
      members are printed by toText. */
  function GetString(toText: Json -> string, obj: Json, key: string): Option<Option<string>> {
    if !obj.Obj? || key !in obj.members then None
    else
      match obj.members[key]
      case Null => Some(None)
      case Bool(_) => Some(None)
      case Str(s) => Some(Some(s))
      case other => Some(Some(toText(other)))
  }

  /** round_json_string_new */
  function StringOrNull(s: Option<string>): Json {
    if s.Some? then Str(s.value) else Null
  }
}
