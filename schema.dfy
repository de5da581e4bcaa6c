/** The fixed table of top-level configuration keys: for each, the Python
    type its value must have, the function that merges two fragments'
    values, and the depth at which it is written to the server (0: the key
    is one unit; 1: each entry of the key's object is its own unit). */
module Schema {
  import opened Results
  import opened Json

  /** `dict`, `list` and `str` of the `isinstance` check. */
  datatype Kind = Dict | List | Text

  datatype Merger = StrUnique | DictUniqueKey | ListAppend | DictSettings

  datatype Entry = Entry(kind: Kind, merge: Merger, depth: nat)

  /** `SCHEMA_CONFIG_KEYS[k]`, or None for a key outside the table. */
  function Lookup(k: string): (r: Option<Entry>)
    ensures r.Some? <==> k in {"settings", "listeners", "routes", "applications", "upstreams", "access_log"}
    ensures r.Some? ==> r.value.depth <= 1
    // only the map-union keys are written entry by entry
    ensures r.Some? ==> (r.value.depth == 1 <==> r.value.merge == DictUniqueKey)
    // every merge function receives the type it works on
    ensures r.Some? ==> (r.value.kind == Dict <==> r.value.merge in {DictUniqueKey, DictSettings})
    ensures r.Some? ==> (r.value.kind == List <==> r.value.merge == ListAppend)
    ensures r.Some? ==> (r.value.merge == DictSettings <==> k == "settings")
  {
    if k == "settings" then Some(Entry(Dict, DictSettings, 0))
    else if k == "listeners" then Some(Entry(Dict, DictUniqueKey, 1))
    else if k == "routes" then Some(Entry(List, ListAppend, 0))
    else if k == "applications" then Some(Entry(Dict, DictUniqueKey, 1))
    else if k == "upstreams" then Some(Entry(Dict, DictUniqueKey, 1))
    else if k == "access_log" then Some(Entry(Text, StrUnique, 0))
    else None
  }

  /** `isinstance(v, t)`. */
  predicate HasKind(v: Json, t: Kind) {
    match t
    case Dict => v.Obj?
    case List => v.Arr?
    case Text => v.Str?
  }

  /** The apply depth of a key of the table. */
  function Depth(k: string): nat
    requires Lookup(k).Some?
  {
    Lookup(k).value.depth
  }
}
