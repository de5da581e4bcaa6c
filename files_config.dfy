/** `get_filesconfig` and the merge helpers it dispatches to, as the
    program runs them: the desired-state tree is one dictionary that the
    helpers update in place while looping over a fragment's entries. */
module FilesConfigs {
  import opened Results
  import opened Json
  import Schema
  import Merge
  import Listing


  /** The dictionary `filesconfig` (`total_data` inside the helpers). */
  class FilesConfig {
    var data: Fields

    ghost predicate Valid()
      reads this
    {
      Merge.Shaped(data)
    }

    constructor ()
      ensures Valid() && data == []
    {
      data := [];
    }

    /** `_str_unique`. */
    method StrUnique(key: string, v: Json) returns (outcome: Outcome)
      requires Valid() && Merge.EntryShaped(key, v)
      modifies this
      ensures outcome.Pass? ==> Valid()
      ensures Merge.StrUnique(old(data), key, v) == if outcome.Pass? then Ok(data) else Fail(outcome.failure)
    {
      var prev := Get(data, key);
      if prev.Some? && !Equal(prev.value, v) {
        return Stop(ConflictError);
      }
      Merge.SetShaped(data, key, v);
      data := Set(data, key, v);
      outcome := Pass;
    }

    /** `_dict_unique_key`: the fragment's entries go into the merged
        object of `key`, and a key merged before stops the run. */
    method DictUniqueKey(key: string, items: Fields) returns (outcome: Outcome)
      requires Valid() && WellFormed(Obj(items))
      requires Schema.Lookup(key).Some? && Schema.Lookup(key).value.merge == Schema.DictUniqueKey
      modifies this
      ensures outcome.Pass? ==> Valid()
      ensures Merge.DictUniqueKey(old(data), key, items) == if outcome.Pass? then Ok(data) else Fail(outcome.failure)
    {
      var joined := UnionEntries(Merge.Entries(data, key), items);
      if joined.Fail? {
        return Stop(joined.failure);
      }
      Merge.DictUniqueKeyShaped(data, key, items);
      data := Set(data, key, Obj(joined.value));
      outcome := Pass;
    }

    /** The body of the loop over one document's entries: the key must be
        in the schema table and its value of the table's type, and then the
        key's merge function runs. */
    method MergeEntry(k: string, v: Json) returns (outcome: Outcome)
      requires Valid() && WellFormed(v)
      modifies this
      ensures outcome.Pass? ==> Valid()
      ensures Merge.MergeKey(old(data), (k, v)) == if outcome.Pass? then Ok(data) else Fail(outcome.failure)
    {
      var entry := Schema.Lookup(k);
      if entry.None? || !Schema.HasKind(v, entry.value.kind) {
        return Stop(SchemaError);
      }
      outcome := Pass;
      match entry.value.merge {
        case StrUnique =>
          outcome := StrUnique(k, v);
        case DictUniqueKey =>
          outcome := DictUniqueKey(k, v.fields);
        case ListAppend =>
          ListAppend(k, v.items);
        case DictSettings =>
          outcome := DictSettings(k, v.fields);
      }
    }

    /** The loop over one document's entries, in the document's order. */
    method MergeDocument(items: Fields) returns (outcome: Outcome)
      requires Valid() && WellFormed(Obj(items))
      modifies this
      ensures outcome.Pass? ==> Valid()
      ensures Merge.MergeFields(old(data), items) == if outcome.Pass? then Ok(data) else Fail(outcome.failure)
    {
      ghost var start := data;
      var j := 0;
      assert items[..j] == [];
      while j < |items|
        invariant 0 <= j <= |items|
        invariant Valid()
        invariant Merge.MergeFields(start, items[..j]) == Ok(data)
      {
        assert items[j] in items;
        outcome := MergeEntry(items[j].0, items[j].1);
        FoldNext(Merge.MergeKey, start, items, j);
        if outcome.Stop? {
          FoldPrefixFails(Merge.MergeKey, start, items, j + 1, outcome.failure);
          return;
        }
        j := j + 1;
      }
      assert items[..j] == items;
      outcome := Pass;
    }

    /** `_list_append`: `+=` on the merged list. */
    method ListAppend(key: string, items: seq<Json>)
      requires Valid() && WellFormed(Arr(items))
      requires Schema.Lookup(key).Some? && Schema.Lookup(key).value.merge == Schema.ListAppend
      modifies this
      ensures Valid()
      ensures data == Merge.ListAppend(old(data), key, items)
    {
      ghost var start := data;
      if !HasKey(data, key) {
        data := Set(data, key, Arr([]));
      }
      SetSet(start, key, Arr([]), Arr(Merge.Items(start, key) + items));
      data := Set(data, key, Arr(Merge.Items(data, key) + items));
      Merge.ListAppendShaped(start, key, items);
    }

    /** `_dict_settings`: each sub-key must be `http`, whose fields go
        through `__dict_settings_http` into the merged `http` object. */
    method DictSettings(key: string, items: Fields) returns (outcome: Outcome)
      requires Valid() && WellFormed(Obj(items)) && key == "settings"
      modifies this
      ensures outcome.Pass? ==> Valid()
      ensures Merge.DictSettings(old(data), key, items) == if outcome.Pass? then Ok(data) else Fail(outcome.failure)
    {
      var settings := MergeSettings(Merge.Entries(data, key), items);
      if settings.Fail? {
        return Stop(settings.failure);
      }
      Merge.DictSettingsShaped(data, items);
      data := Set(data, key, Obj(settings.value));
      outcome := Pass;
    }
  }

  /** `get_filesconfig` on a directory listing: each entry is a file name
      with the document `json.load` read from it, or None when the file is
      not valid JSON. The files are merged in name order into one object. */
  method GetFilesConfig(listing: seq<(string, Option<Json>)>) returns (r: Result<Fields>)
    requires Merge.Loaded(listing)
    ensures r == Merge.MergeFiles(Listing.SortByName(listing))
    ensures r.Ok? ==> Merge.Shaped(r.value)
  {
    var files := Listing.SortByName(listing);
    Merge.LoadedPermutation(listing, files);
    r := MergeListing(files);
  }

  /** The loop of `get_filesconfig` over the sorted files. */
  method MergeListing(files: seq<(string, Option<Json>)>) returns (r: Result<Fields>)
    requires Merge.Loaded(files)
    ensures r == Merge.MergeFiles(files)
    ensures r.Ok? ==> Merge.Shaped(r.value)
  {
    var filesconfig := new FilesConfig();
    var i := 0;
    assert files[..i] == [];
    while i < |files|
      invariant 0 <= i <= |files|
      invariant filesconfig.Valid()
      invariant Merge.MergeFiles(files[..i]) == Ok(filesconfig.data)
    {
      FoldNext(Merge.MergeFile, [], files, i);
      var doc := files[i].1;
      if doc.None? || !doc.value.Obj? {
        FoldPrefixFails(Merge.MergeFile, [], files, i + 1, SchemaError);
        return Fail(SchemaError);
      }
      ghost var before := filesconfig.data;
      assert WellFormed(doc.value);
      var outcome := filesconfig.MergeDocument(doc.value.fields);
      assert Merge.MergeFile(before, files[i]) == if outcome.Pass? then Ok(filesconfig.data) else Fail(outcome.failure);
      if outcome.Stop? {
        FoldPrefixFails(Merge.MergeFile, [], files, i + 1, outcome.failure);
        return Fail(outcome.failure);
      }
      i := i + 1;
    }
    assert files[..i] == files;
    r := Ok(filesconfig.data);
  }

  /** The loop of `_dict_unique_key` on the merged object `inner`: each
      entry is refused when its key is already there, and added otherwise. */
  method UnionEntries(inner: Fields, items: Fields) returns (r: Result<Fields>)
    requires DistinctKeys(items)
    ensures r.Ok? <==> forall i :: 0 <= i < |items| ==> !HasKey(inner, items[i].0)
    ensures r.Fail? ==> r.failure == ConflictError
    ensures r.Ok? ==> r.value == inner + items
  {
    var acc := inner;
    var i := 0;
    while i < |items|
      invariant 0 <= i <= |items|
      invariant acc == inner + items[..i]
      invariant forall j :: 0 <= j < i ==> !HasKey(inner, items[j].0)
    {
      var k, v := items[i].0, items[i].1;
      PrefixKey(inner, items, i);
      if HasKey(acc, k) {
        assert HasKey(inner, items[i].0);
        return Fail(ConflictError);
      }
      // `d[k] = v` on a key `d` lacks appends the entry (Json.SetAbsent)
      assert items[..i + 1] == items[..i] + [(k, v)];
      acc := acc + [(k, v)];
      i := i + 1;
      assert forall j :: 0 <= j < i ==> !HasKey(inner, items[j].0) by {
        forall j | 0 <= j < i ensures !HasKey(inner, items[j].0) {
          if j == i - 1 {
            assert items[j].0 == k;
          }
        }
      }
    }
    assert items[..i] == items;
    r := Ok(acc);
  }

  /** The loop of `_dict_settings` on the merged settings object. */
  method MergeSettings(settings: Fields, items: Fields) returns (r: Result<Fields>)
    ensures r == Merge.SettingsFold(settings, items)
  {
    var s := settings;
    var i := 0;
    assert items[..i] == [];
    while i < |items|
      invariant 0 <= i <= |items|
      invariant Merge.SettingsFold(settings, items[..i]) == Ok(s)
    {
      FoldNext(Merge.SettingsKey, settings, items, i);
      var k, v := items[i].0, items[i].1;
      ghost var step := Merge.SettingsKey(s, (k, v));
      if k != "http" {
        assert step == Fail(SchemaError);
        FoldPrefixFails(Merge.SettingsKey, settings, items, i + 1, SchemaError);
        return Fail(SchemaError);
      }
      ghost var before := s;
      if !HasKey(s, "http") {
        s := Set(s, "http", Obj([]));
      }
      if !v.Obj? {
        assert step == Fail(Crash);
        FoldPrefixFails(Merge.SettingsKey, settings, items, i + 1, Crash);
        return Fail(Crash);
      }
      assert Merge.HttpOf(s) == Merge.HttpOf(before);
      var http := MergeHttp(Merge.HttpOf(s), v.fields);
      if http.Fail? {
        assert step == Fail(http.failure);
        FoldPrefixFails(Merge.SettingsKey, settings, items, i + 1, http.failure);
        return Fail(http.failure);
      }
      SetSet(before, "http", Obj([]), Obj(http.value));
      s := Set(s, "http", Obj(http.value));
      assert step == Ok(s);
      i := i + 1;
    }
    assert items[..i] == items;
    r := Ok(s);
  }

  /** `__dict_settings_http` on the merged `http` object: each field of the
      fragment is copied, maximised, refused or ignored in turn. */
  method MergeHttp(http: Fields, items: Fields) returns (r: Result<Fields>)
    ensures r == Merge.SettingsHttp(http, items)
  {
    var h := http;
    var i := 0;
    assert items[..i] == [];
    assert Merge.SettingsHttp(http, items[..i]) == Ok(h);
    while i < |items|
      invariant 0 <= i <= |items|
      invariant Merge.SettingsHttp(http, items[..i]) == Ok(h)
    {
      var k, v := items[i].0, items[i].1;
      ghost var before := h;
      if !HasKey(h, k) {
        h := Set(h, k, v);
      } else if k in Merge.MaxFields {
        var m := Merge.PyMax(Get(h, k).value, v);
        if m.None? {
          FoldStep(Merge.HttpField, http, items, i, before, Fail(Crash));
          FoldPrefixFails(Merge.HttpField, http, items, i + 1, Crash);
          return Fail(Crash);
        }
        h := Set(h, k, m.value);
      } else if k in Merge.UniqueFields {
        FoldStep(Merge.HttpField, http, items, i, before, Fail(ConflictError));
        FoldPrefixFails(Merge.HttpField, http, items, i + 1, ConflictError);
        return Fail(ConflictError);
      }
      FoldStep(Merge.HttpField, http, items, i, before, Ok(h));
      i := i + 1;
    }
    assert items[..i] == items;
    r := Ok(h);
  }
}
