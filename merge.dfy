/** The merge algebra of the fragment loader: what each per-key merge
    function makes of the desired-state tree and one fragment's value, and
    the fold over all fragments. These functions are the specification the
    in-place merge methods of module FilesConfigs are proved against. */
module Merge {
  import opened Results
  import opened Json
  import Schema
  import Messages

  /** Repeated `http` fields that merge to the larger value. */
  const MaxFields: seq<string> :=
    ["header_read_timeout", "body_read_timeout", "send_timeout", "idle_timeout", "max_body_size"]

  /** Repeated `http` fields that are always a conflict. */
  const UniqueFields: seq<string> := ["discard_unsafe_fields", "static"]

  /** The entries already merged under an object-valued key (`{}` when the
      key is absent). */
  function Entries(config: Fields, key: string): Fields {
    match Get(config, key)
    case Some(Obj(f)) => f
    case _ => []
  }

  /** The items already merged under a list-valued key (`[]` when absent). */
  function Items(config: Fields, key: string): seq<Json> {
    match Get(config, key)
    case Some(Arr(xs)) => xs
    case _ => []
  }

  // ---------------------------------------------------------------- shape

  /** The `settings` value: an object holding at most an `http` object. */
  predicate SettingsShaped(v: Json) {
    v.Obj? && (v.fields == [] || (|v.fields| == 1 && v.fields[0].0 == "http" && v.fields[0].1.Obj?))
  }

  predicate EntryShaped(k: string, v: Json) {
    && Schema.Lookup(k).Some?
    && Schema.HasKind(v, Schema.Lookup(k).value.kind)
    && WellFormed(v)
    && (k == "settings" ==> SettingsShaped(v))
  }

  /** What the desired-state tree always is: a dict whose keys are schema
      keys, each holding a well-formed value of the schema's type. */
  ghost predicate Shaped(config: Fields) {
    && DistinctKeys(config)
    && forall i :: 0 <= i < |config| ==> EntryShaped(config[i].0, config[i].1)
  }

  lemma ShapedGet(config: Fields, k: string)
    requires Shaped(config) && HasKey(config, k)
    ensures EntryShaped(k, Get(config, k).value)
  {
    var j :| 0 <= j < |config| && config[j] == (k, Get(config, k).value);
  }

  lemma SetShaped(config: Fields, k: string, v: Json)
    requires Shaped(config) && EntryShaped(k, v)
    ensures Shaped(Set(config, k, v))
  {
    SetDistinct(config, k, v);
    SetMembers(config, k, v);
    var r := Set(config, k, v);
    forall i | 0 <= i < |r| ensures EntryShaped(r[i].0, r[i].1) {
      assert r[i] in r;
      if r[i] != (k, v) {
        var j :| 0 <= j < |config| && config[j] == r[i];
      }
    }
  }

  lemma EntriesWellFormed(config: Fields, key: string)
    requires Shaped(config)
    ensures WellFormed(Obj(Entries(config, key)))
  {
    if HasKey(config, key) {
      ShapedGet(config, key);
    }
  }

  // ------------------------------------------------------------ access_log

  /** `_str_unique`: the first value stays; an equal value is accepted,
      a different one is a conflict. */
  function StrUnique(config: Fields, key: string, v: Json): (r: Result<Fields>)
    ensures r.Ok? <==> Get(config, key).None? || Equal(Get(config, key).value, v)
    ensures r.Fail? ==> r.failure == ConflictError
    ensures r.Ok? ==> Get(r.value, key) == Some(v)
    ensures r.Ok? ==> forall k :: k != key ==> Get(r.value, k) == Get(config, k)
  {
    match Get(config, key)
    case Some(prev) => if !Equal(prev, v) then Fail(ConflictError) else Ok(Set(config, key, v))
    case None => Ok(Set(config, key, v))
  }

  /** Repeating the value already merged leaves the tree as it was. */
  lemma StrUniqueRepeat(config: Fields, key: string, s: string)
    requires DistinctKeys(config) && Get(config, key) == Some(Str(s))
    ensures StrUnique(config, key, Str(s)) == Ok(config)
  {
    SetSame(config, key, Str(s));
  }

  /** `_str_unique` with conflict message `msg`: a conflict builds the
      message with `%` first (`shown` is how `%s` renders the two values),
      and only a message that can be built reaches `exit`. */
  function StrUniqueWith(msg: string, config: Fields, key: string, v: Json, shown: (string, string)): Result<Fields> {
    match Get(config, key)
    case Some(prev) =>
      if Equal(prev, v) then Ok(Set(config, key, v))
      else if Messages.Format(msg, [key, shown.0, shown.1]).Fail? then Fail(Crash)
      else Fail(ConflictError)
    case None => Ok(Set(config, key, v))
  }

  /** As written, a conflict on a `_str_unique` key raises ValueError from
      the `%S` of its message instead of exiting with the message. */
  lemma StrUniqueAsWrittenCrashes(config: Fields, key: string, v: Json, shown: (string, string))
    requires Get(config, key).Some? && !Equal(Get(config, key).value, v)
    ensures StrUniqueWith(Messages.StrUniqueMessage, config, key, v, shown) == Fail(Crash)
    ensures StrUnique(config, key, v) == Fail(ConflictError)
  {
    Messages.StrUniqueMessageFails(key, shown.0, shown.1);
  }

  /** With `%s` in place of `%S`, the helper is `StrUnique`, the merge
      the rest of this model uses. */
  lemma StrUniqueIntended(config: Fields, key: string, v: Json, shown: (string, string))
    ensures StrUniqueWith(Messages.StrUniqueMessageIntended, config, key, v, shown) == StrUnique(config, key, v)
  {
    Messages.StrUniqueMessageIntendedFormats(key, shown.0, shown.1);
  }

  // --------------------------------------- listeners, applications, upstreams

  /** `_dict_unique_key`: the fragment's entries follow the merged ones;
      any inner key already merged is a conflict, even with an equal value. */
  function DictUniqueKey(config: Fields, key: string, items: Fields): (r: Result<Fields>)
    ensures r.Ok? <==> forall i :: 0 <= i < |items| ==> !HasKey(Entries(config, key), items[i].0)
    ensures r.Fail? ==> r.failure == ConflictError
    ensures r.Ok? ==> Get(r.value, key) == Some(Obj(Entries(config, key) + items))
    ensures r.Ok? ==> forall k :: k != key ==> Get(r.value, k) == Get(config, k)
  {
    if exists i :: 0 <= i < |items| && HasKey(Entries(config, key), items[i].0) then Fail(ConflictError)
    else Ok(Set(config, key, Obj(Entries(config, key) + items)))
  }

  /** Unlike the other merges, repeating a fragment under a map-union key
      is a conflict: its first entry is already there. */
  lemma DictUniqueKeyRepeat(config: Fields, key: string, items: Fields)
    requires items != [] && DictUniqueKey(config, key, items).Ok?
    ensures DictUniqueKey(DictUniqueKey(config, key, items).value, key, items) == Fail(ConflictError)
  {
    var merged := DictUniqueKey(config, key, items).value;
    var inner := Entries(config, key) + items;
    assert Entries(merged, key) == inner;
    assert Keys(inner)[|Entries(config, key)|] == items[0].0;
    assert HasKey(Entries(merged, key), items[0].0);
  }

  // ---------------------------------------------------------------- routes

  /** `_list_append`: concatenation, duplicates kept. */
  function ListAppend(config: Fields, key: string, items: seq<Json>): (r: Fields)
    ensures Get(r, key) == Some(Arr(Items(config, key) + items))
    ensures forall k :: k != key ==> Get(r, k) == Get(config, k)
  {
    Set(config, key, Arr(Items(config, key) + items))
  }

  /** The merged list is as long as both lists together; a missing list
      starts empty, so appending one fragment twice doubles it. */
  lemma ListAppendTwice(config: Fields, key: string, items: seq<Json>)
    requires Get(config, key).None?
    ensures var r := ListAppend(ListAppend(config, key, items), key, items);
            Get(r, key) == Some(Arr(items + items))
  {
    assert Items(config, key) + items == items;
  }

  // -------------------------------------------------------------- settings

  /** Python's `max(a, b)` on two integers; on anything else the model
      treats the comparison as failing. */
  function PyMax(a: Json, b: Json): (r: Option<Json>)
    ensures r.Some? <==> a.Int? && b.Int?
    ensures r.Some? ==> r.value.Int? && r.value.n >= a.n && r.value.n >= b.n
    ensures r.Some? ==> r.value == a || r.value == b
  {
    if a.Int? && b.Int? then Some(if b.n > a.n then b else a) else None
  }

  /** One field of `__dict_settings_http`, as the loop body writes it. */
  function HttpField(http: Fields, field: (string, Json)): Result<Fields> {
    var (k, v) := field;
    if !HasKey(http, k) then Ok(Set(http, k, v))
    else if k in MaxFields then
      match PyMax(Get(http, k).value, v)
      case Some(m) => Ok(Set(http, k, m))
      case None => Fail(Crash)
    else if k in UniqueFields then Fail(ConflictError)
    else Ok(http)
  }

  /** `__dict_settings_http`: the fields of one fragment's `http` object
      folded into the merged one, in order. */
  function SettingsHttp(http: Fields, items: Fields): Result<Fields> {
    Fold(HttpField, http, items)
  }

  /** The merge rule for one `http` field, stated field by field: a new
      field is copied, a timeout or size becomes the larger value, an
      unmergeable field is a conflict, any other field keeps its first value. */
  function FieldRule(k: string, had: Option<Json>, given: Json): (r: Result<Json>)
    ensures had.None? ==> r == Ok(given)
    ensures had.Some? && k in MaxFields && had.value.Int? && given.Int? ==>
              r.Ok? && r.value.Int? && r.value.n == (if had.value.n >= given.n then had.value.n else given.n)
    ensures had.Some? && k in UniqueFields ==> r == Fail(ConflictError)
    ensures had.Some? && k !in MaxFields && k !in UniqueFields ==> r == Ok(had.value)
  {
    match had
    case None => Ok(given)
    case Some(c) =>
      if k in MaxFields then (match PyMax(c, given) case Some(m) => Ok(m) case None => Fail(Crash))
      else if k in UniqueFields then Fail(ConflictError)
      else Ok(c)
  }

  /** What a field holds after the merge of `items` into `http`. */
  function MergedField(http: Fields, items: Fields, k: string): Option<Json> {
    match Get(items, k)
    case None => Get(http, k)
    case Some(v) =>
      match FieldRule(k, Get(http, k), v)
      case Ok(x) => Some(x)
      case Fail(_) => None
  }

  /** One field of the loop agrees with `FieldRule`, and touches no other field. */
  lemma HttpFieldRule(h: Fields, k: string, v: Json)
    ensures HttpField(h, (k, v)).Ok? <==> FieldRule(k, Get(h, k), v).Ok?
    ensures HttpField(h, (k, v)).Ok? ==>
              Get(HttpField(h, (k, v)).value, k) == Some(FieldRule(k, Get(h, k), v).value)
    ensures HttpField(h, (k, v)).Ok? ==>
              forall k' :: k' != k ==> Get(HttpField(h, (k, v)).value, k') == Get(h, k')
  {
  }

  lemma DistinctLast(items: Fields)
    requires DistinctKeys(items) && items != []
    ensures DistinctKeys(items[..|items| - 1])
    ensures !HasKey(items[..|items| - 1], items[|items| - 1].0)
  {
  }

  /** The rule of every field of `items` accepts it. */
  predicate RulesPass(http: Fields, items: Fields) {
    forall i :: 0 <= i < |items| ==> FieldRule(items[i].0, Get(http, items[i].0), items[i].1).Ok?
  }

  lemma RulesPassLast(http: Fields, items: Fields)
    requires items != []
    ensures var n := |items| - 1;
            RulesPass(http, items) <==>
              RulesPass(http, items[..n]) && FieldRule(items[n].0, Get(http, items[n].0), items[n].1).Ok?
  {
    var n := |items| - 1;
    var pre := items[..n];
    assert forall i | 0 <= i < n :: pre[i] == items[i];
    assert items == pre + [items[n]];
  }

  /** The loop of `__dict_settings_http` succeeds exactly when the rule of
      every field does. */
  lemma {:induction false} SettingsHttpSucceeds(http: Fields, items: Fields)
    requires DistinctKeys(items)
    ensures SettingsHttp(http, items).Ok? <==> RulesPass(http, items)
    decreases |items|
  {
    if items != [] {
      var n := |items| - 1;
      var pre, last := items[..n], items[n];
      DistinctLast(items);
      SettingsHttpSucceeds(http, pre);
      RulesPassLast(http, items);
      if SettingsHttp(http, pre).Ok? {
        var h := SettingsHttp(http, pre).value;
        assert Get(h, last.0) == Get(http, last.0) by {
          SettingsHttpValues(http, pre);
          GetLast(items, last.0);
        }
        HttpFieldRule(h, last.0, last.1);
        assert SettingsHttp(http, items) == HttpField(h, last);
      } else {
        assert SettingsHttp(http, items).Fail?;
      }
    }
  }

  /** After a successful loop every field holds what its rule gives. */
  lemma {:induction false} SettingsHttpValues(http: Fields, items: Fields)
    requires DistinctKeys(items)
    ensures SettingsHttp(http, items).Ok? ==>
              forall k :: Get(SettingsHttp(http, items).value, k) == MergedField(http, items, k)
    decreases |items|
  {
    if items != [] && SettingsHttp(http, items).Ok? {
      var n := |items| - 1;
      var pre, last := items[..n], items[n];
      DistinctLast(items);
      SettingsHttpValues(http, pre);
      var h := SettingsHttp(http, pre).value;
      assert Get(h, last.0) == Get(http, last.0) by {
        GetLast(items, last.0);
      }
      HttpFieldRule(h, last.0, last.1);
      assert SettingsHttp(http, items) == HttpField(h, last);
      var r := SettingsHttp(http, items).value;
      forall k ensures Get(r, k) == MergedField(http, items, k) {
        GetLast(items, k);
      }
    }
  }

  /** The loop of `__dict_settings_http` applies `FieldRule` to every field
      independently: it succeeds exactly when every field's rule does, and
      then every field holds what its rule gives. */
  lemma SettingsHttpFieldwise(http: Fields, items: Fields)
    requires DistinctKeys(items)
    ensures SettingsHttp(http, items).Ok? <==>
              forall i :: 0 <= i < |items| ==> FieldRule(items[i].0, Get(http, items[i].0), items[i].1).Ok?
    ensures SettingsHttp(http, items).Ok? ==>
              forall k :: Get(SettingsHttp(http, items).value, k) == MergedField(http, items, k)
  {
    SettingsHttpSucceeds(http, items);
    SettingsHttpValues(http, items);
  }

  /** The `http` object of a merged `settings` value (`{}` when absent). */
  function HttpOf(settings: Fields): Fields {
    match Get(settings, "http")
    case Some(Obj(f)) => f
    case _ => []
  }

  /** One sub-key of a fragment's `settings` object: only `http` exists,
      and its value must be an object (`.items()` raises otherwise). */
  function SettingsKey(settings: Fields, sub: (string, Json)): Result<Fields> {
    var (k, v) := sub;
    if k != "http" then Fail(SchemaError)
    else if !v.Obj? then Fail(Crash)
    else
      match SettingsHttp(HttpOf(settings), v.fields)
      case Ok(h) => Ok(Set(settings, "http", Obj(h)))
      case Fail(e) => Fail(e)
  }

  function SettingsFold(settings: Fields, items: Fields): Result<Fields> {
    Fold(SettingsKey, settings, items)
  }

  /** `_dict_settings`. */
  function DictSettings(config: Fields, key: string, items: Fields): Result<Fields> {
    match SettingsFold(Entries(config, key), items)
    case Ok(s) => Ok(Set(config, key, Obj(s)))
    case Fail(e) => Fail(e)
  }

  /** A `settings` sub-key other than `http` always aborts the merge. */
  lemma SettingsOnlyHttp(settings: Fields, items: Fields, i: nat)
    requires i < |items| && items[i].0 != "http"
    ensures SettingsFold(settings, items).Fail?
  {
    assert items[..i + 1][..i] == items[..i];
    match SettingsFold(settings, items[..i])
    case Fail(e) =>
      FoldPrefixFails(SettingsKey, settings, items, i + 1, e);
    case Ok(s) =>
      FoldPrefixFails(SettingsKey, settings, items, i + 1, SchemaError);
  }


  // ------------------------------------------------------------ fragments

  /** One top-level key of a fragment: it must be in the schema and of the
      schema's type, and then goes through exactly its merge function. */
  function MergeKey(config: Fields, entry: (string, Json)): Result<Fields> {
    var (k, v) := entry;
    match Schema.Lookup(k)
    case None => Fail(SchemaError)
    case Some(e) =>
      if !Schema.HasKind(v, e.kind) then Fail(SchemaError)
      else
        match e.merge
        case StrUnique => StrUnique(config, k, v)
        case DictUniqueKey => DictUniqueKey(config, k, v.fields)
        case ListAppend => Ok(ListAppend(config, k, v.items))
        case DictSettings => DictSettings(config, k, v.fields)
  }

  /** The loop over one document's entries. */
  function MergeFields(config: Fields, items: Fields): Result<Fields> {
    Fold(MergeKey, config, items)
  }

  /** One file: `json.load` may fail (None), and the document must be an
      object. */
  function MergeFile(config: Fields, file: (string, Option<Json>)): Result<Fields> {
    match file.1
    case None => Fail(SchemaError)
    case Some(Obj(items)) => MergeFields(config, items)
    case Some(_) => Fail(SchemaError)
  }

  /** The fold of `get_filesconfig` over files already in listing order. */
  function MergeFiles(files: seq<(string, Option<Json>)>): Result<Fields> {
    Fold(MergeFile, [], files)
  }

  // ----------------------------------------------------------------- shape

  lemma ItemsWellFormed(config: Fields, key: string)
    requires Shaped(config)
    ensures WellFormed(Arr(Items(config, key)))
  {
    if HasKey(config, key) {
      ShapedGet(config, key);
    }
  }

  lemma DictUniqueKeyShaped(config: Fields, key: string, items: Fields)
    requires Shaped(config) && WellFormed(Obj(items))
    requires Schema.Lookup(key).Some? && Schema.Lookup(key).value.merge == Schema.DictUniqueKey
    requires DictUniqueKey(config, key, items).Ok?
    ensures Shaped(DictUniqueKey(config, key, items).value)
  {
    EntriesWellFormed(config, key);
    JoinWellFormed(Entries(config, key), items);
    SetShaped(config, key, Obj(Entries(config, key) + items));
  }

  lemma ListAppendShaped(config: Fields, key: string, items: seq<Json>)
    requires Shaped(config) && WellFormed(Arr(items))
    requires Schema.Lookup(key).Some? && Schema.Lookup(key).value.merge == Schema.ListAppend
    ensures Shaped(ListAppend(config, key, items))
  {
    ItemsWellFormed(config, key);
    var xs := Items(config, key) + items;
    assert WellFormed(Arr(xs)) by {
      forall i | 0 <= i < |xs| ensures WellFormed(xs[i]) {
        if i >= |Items(config, key)| {
          assert xs[i] == items[i - |Items(config, key)|];
        }
      }
    }
    SetShaped(config, key, Arr(xs));
  }

  lemma {:induction false} SettingsHttpWellFormed(http: Fields, items: Fields)
    requires WellFormed(Obj(http)) && WellFormed(Obj(items))
    requires SettingsHttp(http, items).Ok?
    ensures WellFormed(Obj(SettingsHttp(http, items).value))
    decreases |items|
  {
    if items != [] {
      var n := |items| - 1;
      assert WellFormed(Obj(items[..n])) by {
        forall i | 0 <= i < n ensures items[..n][i] == items[i] { }
      }
      SettingsHttpWellFormed(http, items[..n]);
      var h := SettingsHttp(http, items[..n]).value;
      var (k, v) := items[n];
      assert WellFormed(v);
      if !HasKey(h, k) {
        SetWellFormed(h, k, v);
      } else if k in MaxFields {
        SetWellFormed(h, k, PyMax(Get(h, k).value, v).value);
      }
    }
  }

  lemma {:induction false} SettingsFoldShaped(settings: Fields, items: Fields)
    requires SettingsShaped(Obj(settings)) && WellFormed(Obj(settings)) && WellFormed(Obj(items))
    requires SettingsFold(settings, items).Ok?
    ensures SettingsShaped(Obj(SettingsFold(settings, items).value))
    ensures WellFormed(Obj(SettingsFold(settings, items).value))
    decreases |items|
  {
    if items != [] {
      var n := |items| - 1;
      assert WellFormed(Obj(items[..n])) by {
        forall i | 0 <= i < n ensures items[..n][i] == items[i] { }
      }
      SettingsFoldShaped(settings, items[..n]);
      var s := SettingsFold(settings, items[..n]).value;
      var (k, v) := items[n];
      assert k == "http" && v.Obj? && WellFormed(v);
      assert WellFormed(Obj(HttpOf(s)));
      SettingsHttpWellFormed(HttpOf(s), v.fields);
      var h := SettingsHttp(HttpOf(s), v.fields).value;
      SetWellFormed(s, "http", Obj(h));
      assert Set(s, "http", Obj(h)) == [("http", Obj(h))];
    }
  }

  lemma DictSettingsShaped(config: Fields, items: Fields)
    requires Shaped(config) && WellFormed(Obj(items))
    requires DictSettings(config, "settings", items).Ok?
    ensures Shaped(DictSettings(config, "settings", items).value)
  {
    var s0 := Entries(config, "settings");
    if HasKey(config, "settings") {
      ShapedGet(config, "settings");
    }
    assert SettingsShaped(Obj(s0)) && WellFormed(Obj(s0));
    SettingsFoldShaped(s0, items);
    SetShaped(config, "settings", Obj(SettingsFold(s0, items).value));
  }

  /** Every merge that succeeds keeps the tree in shape. */
  lemma MergeKeyShaped(config: Fields, k: string, v: Json)
    requires Shaped(config) && WellFormed(v) && MergeKey(config, (k, v)).Ok?
    ensures Shaped(MergeKey(config, (k, v)).value)
  {
    var e := Schema.Lookup(k).value;
    match e.merge
    case StrUnique => SetShaped(config, k, v);
    case DictUniqueKey => DictUniqueKeyShaped(config, k, v.fields);
    case ListAppend => ListAppendShaped(config, k, v.items);
    case DictSettings => DictSettingsShaped(config, v.fields);
  }

  lemma {:induction false} MergeFieldsShaped(config: Fields, items: Fields)
    requires Shaped(config) && WellFormed(Obj(items)) && MergeFields(config, items).Ok?
    ensures Shaped(MergeFields(config, items).value)
    decreases |items|
  {
    if items != [] {
      var n := |items| - 1;
      assert WellFormed(Obj(items[..n])) by {
        forall i | 0 <= i < n ensures items[..n][i] == items[i] { }
      }
      MergeFieldsShaped(config, items[..n]);
      MergeKeyShaped(MergeFields(config, items[..n]).value, items[n].0, items[n].1);
    }
  }

  /** What `json.load` hands over is well formed. */
  ghost predicate Loaded(files: seq<(string, Option<Json>)>) {
    forall i :: 0 <= i < |files| && files[i].1.Some? ==> WellFormed(files[i].1.value)
  }

  /** The desired-state tree built from any directory is in shape: schema
      keys only, each of its schema type, no key twice. */
  lemma {:induction false} MergeFilesShaped(files: seq<(string, Option<Json>)>)
    requires Loaded(files) && MergeFiles(files).Ok?
    ensures Shaped(MergeFiles(files).value)
    decreases |files|
  {
    if files != [] {
      var n := |files| - 1;
      assert Loaded(files[..n]) by {
        forall i | 0 <= i < n ensures files[..n][i] == files[i] { }
      }
      MergeFilesShaped(files[..n]);
      var c := MergeFiles(files[..n]).value;
      var doc := files[n].1;
      MergeFieldsShaped(c, doc.value.fields);
    }
  }

  // ------------------------------------------------------------ validation

  /** A fragment the loader refuses whatever came before it: unreadable, not
      an object, or holding a key outside the schema or of the wrong type. */
  predicate Invalid(doc: Option<Json>) {
    || doc.None?
    || !doc.value.Obj?
    || exists j :: 0 <= j < |doc.value.fields| && BadKey(doc.value.fields[j].0, doc.value.fields[j].1)
  }

  predicate BadKey(k: string, v: Json) {
    Schema.Lookup(k).None? || !Schema.HasKind(v, Schema.Lookup(k).value.kind)
  }

  /** A key outside the schema, or of the wrong type, aborts the fragment. */
  lemma BadKeyAborts(config: Fields, items: Fields, j: nat)
    requires j < |items| && BadKey(items[j].0, items[j].1)
    ensures MergeFields(config, items).Fail?
  {
    assert items[..j + 1][..j] == items[..j];
    match MergeFields(config, items[..j]) {
      case Fail(e) =>
        FoldPrefixFails(MergeKey, config, items, j + 1, e);
      case Ok(c) =>
        assert MergeKey(c, items[j]) == Fail(SchemaError);
        FoldPrefixFails(MergeKey, config, items, j + 1, SchemaError);
    }
  }


  /** One invalid fragment anywhere in the directory aborts the whole merge. */
  lemma {:induction false} InvalidFileAborts(files: seq<(string, Option<Json>)>, i: nat)
    requires i < |files| && Invalid(files[i].1)
    ensures MergeFiles(files).Fail?
    decreases |files|
  {
    var n := |files| - 1;
    if i < n {
      assert files[..n][i] == files[i];
      InvalidFileAborts(files[..n], i);
    } else if MergeFiles(files[..n]).Ok? {
      var c := MergeFiles(files[..n]).value;
      var doc := files[n].1;
      if doc.Some? && doc.value.Obj? {
        var j :| 0 <= j < |doc.value.fields| && BadKey(doc.value.fields[j].0, doc.value.fields[j].1);
        BadKeyAborts(c, doc.value.fields, j);
      }
    }
  }



  /** Sorting the listing keeps every loaded document well formed. */
  lemma LoadedPermutation(files: seq<(string, Option<Json>)>, sorted: seq<(string, Option<Json>)>)
    requires Loaded(files) && multiset(sorted) == multiset(files)
    ensures Loaded(sorted)
  {
    forall i | 0 <= i < |sorted| && sorted[i].1.Some? ensures WellFormed(sorted[i].1.value) {
      assert sorted[i] in multiset(files);
      var j :| 0 <= j < |files| && files[j] == sorted[i];
    }
  }

}
