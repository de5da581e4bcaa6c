/** Outcomes shared by every module: an optional value, and the terminal
    failures of the program (each `exit(...)` and each uncaught exception
    ends the whole run, so a failure carries only its kind). */
module Results {

  datatype Option<T> = None | Some(value: T)

  datatype Failure =
    | SchemaError    // unknown key, wrong value type, unreadable or non-object fragment
    | ConflictError  // two fragments disagree on a value the merge cannot reconcile
    | HttpError      // no status line in the response, or a status other than 200
    | Crash          // an uncaught exception: KeyError, AttributeError, TypeError

  datatype Result<T> = Ok(value: T) | Fail(failure: Failure)

  /** How a step that changes state in place ended. */
  datatype Outcome = Pass | Stop(failure: Failure)

  /** `step` applied to each item in turn, starting from `start`; the first
      failure ends the run (every failure of the program is terminal). */
  function Fold<S, T>(step: (S, T) -> Result<S>, start: S, items: seq<T>): Result<S>
    decreases |items|
  {
    if items == [] then Ok(start)
    else
      match Fold(step, start, items[..|items| - 1])
      case Fail(e) => Fail(e)
      case Ok(s) => step(s, items[|items| - 1])
  }

  /** One more item is one more step. */
  lemma FoldNext<S, T>(step: (S, T) -> Result<S>, start: S, items: seq<T>, i: nat)
    requires i < |items|
    ensures Fold(step, start, items[..i + 1]) ==
      match Fold(step, start, items[..i])
      case Fail(e) => Fail(e)
      case Ok(s) => step(s, items[i])
  {
    assert items[..i + 1][..i] == items[..i];
  }

  /** A step taken from the state reached on a prefix is the run on the
      prefix one item longer. */
  lemma FoldStep<S, T>(step: (S, T) -> Result<S>, start: S, items: seq<T>, i: nat, s: S, r: Result<S>)
    requires i < |items| && Fold(step, start, items[..i]) == Ok(s) && step(s, items[i]) == r
    ensures Fold(step, start, items[..i + 1]) == r
  {
    FoldNext(step, start, items, i);
  }

  /** A run that fails on a prefix of the items fails with the same failure
      on all of them. */
  lemma {:induction false} FoldPrefixFails<S, T>(step: (S, T) -> Result<S>, start: S, items: seq<T>, j: nat, e: Failure)
    requires j <= |items| && Fold(step, start, items[..j]) == Fail(e)
    ensures Fold(step, start, items) == Fail(e)
    decreases |items|
  {
    if j < |items| {
      var n := |items| - 1;
      assert items[..n][..j] == items[..j];
      FoldPrefixFails(step, start, items[..n], j, e);
    } else {
      assert items[..j] == items;
    }
  }
}

/** JSON values as the program sees them after `json.load`: numbers are
    integers, and an object is an association list in insertion order,
    because dictionary order decides the order of the requests sent. */
module Json {
  import opened Results

  datatype Json =
    | Null
    | Bool(b: bool)
    | Int(n: int)
    | Str(s: string)
    | Arr(items: seq<Json>)
    | Obj(fields: seq<(string, Json)>)

  type Fields = seq<(string, Json)>

  /** The keys of an object, in order. */
  function Keys(f: Fields): (ks: seq<string>)
    ensures |ks| == |f|
    ensures forall i :: 0 <= i < |f| ==> ks[i] == f[i].0
  {
    if f == [] then [] else [f[0].0] + Keys(f[1..])
  }

  /** `d.get(k)`: the value of the first entry with key `k`. */
  function Get(f: Fields, k: string): (r: Option<Json>)
    ensures r.None? <==> k !in Keys(f)
    ensures r.Some? ==> (k, r.value) in f
  {
    if f == [] then None else if f[0].0 == k then Some(f[0].1) else Get(f[1..], k)
  }

  predicate HasKey(f: Fields, k: string) {
    k in Keys(f)
  }

  /** A Python dict never holds a key twice. */
  predicate DistinctKeys(f: Fields) {
    forall i, j :: 0 <= i < j < |f| ==> f[i].0 != f[j].0
  }

  /** Every object inside the value has distinct keys, as every value built
      by `json.load` or by the program does. */
  predicate WellFormed(v: Json)
    decreases v
  {
    match v
    case Arr(xs) => forall i :: 0 <= i < |xs| ==> WellFormed(xs[i])
    case Obj(fs) => DistinctKeys(fs) && forall i :: 0 <= i < |fs| ==> WellFormed(fs[i].1)
    case _ => true
  }

  /** `d.pop(k, None)`: the entries without key `k`, the others in order. */
  function Remove(f: Fields, k: string): (r: Fields)
    ensures forall k' :: Get(r, k') == if k' == k then None else Get(f, k')
    ensures |r| <= |f|
  {
    if f == [] then []
    else if f[0].0 == k then Remove(f[1..], k)
    else [f[0]] + Remove(f[1..], k)
  }

  /** `d[k] = v`: an existing key keeps its place, a new key goes last. */
  function Set(f: Fields, k: string, v: Json): (r: Fields)
    ensures Get(r, k) == Some(v)
    ensures forall k' :: k' != k ==> Get(r, k') == Get(f, k')
    ensures |r| == if HasKey(f, k) then |f| else |f| + 1
  {
    if f == [] then [(k, v)]
    else if f[0].0 == k then [(k, v)] + f[1..]
    else [f[0]] + Set(f[1..], k, v)
  }

  lemma KeysCons(f: Fields)
    requires f != []
    ensures Keys(f) == [f[0].0] + Keys(f[1..])
  {
  }

  lemma {:induction false} SetMembers(f: Fields, k: string, v: Json)
    ensures forall e :: e in Set(f, k, v) ==> e == (k, v) || e in f
  {
    if f != [] && f[0].0 != k {
      SetMembers(f[1..], k, v);
    }
  }

  lemma {:induction false} SetKeys(f: Fields, k: string, v: Json)
    ensures Keys(Set(f, k, v)) == if HasKey(f, k) then Keys(f) else Keys(f) + [k]
  {
    if f != [] {
      var r := Set(f, k, v);
      KeysCons(f);
      KeysCons(r);
      if f[0].0 != k {
        SetKeys(f[1..], k, v);
        assert r[1..] == Set(f[1..], k, v);
      }
    }
  }

  lemma {:induction false} SetDistinct(f: Fields, k: string, v: Json)
    requires DistinctKeys(f)
    ensures DistinctKeys(Set(f, k, v))
  {
    if f != [] && f[0].0 != k {
      SetDistinct(f[1..], k, v);
      var r := Set(f[1..], k, v);
      assert Get(r, f[0].0) == Get(f[1..], f[0].0) == None;
      assert f[0].0 !in Keys(r);
    }
  }

  /** Storing the value a key already holds changes nothing. */
  lemma {:induction false} SetSame(f: Fields, k: string, v: Json)
    requires Get(f, k) == Some(v)
    ensures Set(f, k, v) == f
  {
    if f[0].0 != k {
      SetSame(f[1..], k, v);
    }
  }

  lemma {:induction false} GetAppend(f: Fields, g: Fields, k: string)
    ensures Get(f + g, k) == if HasKey(f, k) then Get(f, k) else Get(g, k)
  {
    if f == [] {
      assert f + g == g;
    } else {
      assert (f + g)[1..] == f[1..] + g;
      GetAppend(f[1..], g, k);
      assert Keys(f) == [f[0].0] + Keys(f[1..]);
    }
  }

  lemma GetCons(e: (string, Json), f: Fields, k: string)
    ensures Get([e] + f, k) == if e.0 == k then Some(e.1) else Get(f, k)
  {
    assert ([e] + f)[1..] == f;
  }

  lemma KeysAppend(f: Fields, g: Fields)
    ensures Keys(f + g) == Keys(f) + Keys(g)
  {
  }

  /** An object is its fields before the last one, then the last one. */
  lemma InitLast(f: Fields)
    requires f != []
    ensures f[..|f| - 1] + [f[|f| - 1]] == f
  {
  }

  /** In a dict, a key is not among the keys that come before it. */
  lemma FreshKey(g: Fields, i: nat)
    requires DistinctKeys(g) && i < |g|
    ensures !HasKey(g[..i], g[i].0)
  {
    assert g[i].0 !in Keys(g[..i]) by {
      forall j | 0 <= j < i ensures Keys(g[..i])[j] != g[i].0 {
        assert g[..i][j] == g[j];
      }
    }
  }

  /** The value an association list gives a key: from the entries before
      the last if they hold it, else from the last entry. */
  lemma GetLast(items: Fields, k: string)
    requires items != []
    ensures var n := |items| - 1;
            Get(items, k) == if HasKey(items[..n], k) then Get(items[..n], k)
                             else if k == items[n].0 then Some(items[n].1) else None
  {
    var n := |items| - 1;
    assert items == items[..n] + [items[n]];
    GetAppend(items[..n], [items[n]], k);
  }

  /** The value a dict gives the key of its last entry, and the others. */
  lemma DictGetLast(f: Fields, k: string)
    requires DistinctKeys(f) && f != []
    ensures Get(f, k) == if k == f[|f| - 1].0 then Some(f[|f| - 1].1) else Get(f[..|f| - 1], k)
  {
    GetLast(f, k);
    FreshKey(f, |f| - 1);
  }

  lemma PrefixKey(f: Fields, g: Fields, i: nat)
    requires DistinctKeys(g) && i < |g|
    ensures HasKey(f + g[..i], g[i].0) <==> HasKey(f, g[i].0)
  {
    KeysAppend(f, g[..i]);
    FreshKey(g, i);
  }

  /** Two objects with no key in common join into one. */
  lemma JoinWellFormed(f: Fields, g: Fields)
    requires WellFormed(Obj(f)) && WellFormed(Obj(g))
    requires forall i :: 0 <= i < |g| ==> !HasKey(f, g[i].0)
    ensures WellFormed(Obj(f + g))
  {
    var h := f + g;
    forall i, j | 0 <= i < j < |h| ensures h[i].0 != h[j].0 {
      if i < |f| && j >= |f| {
        assert h[i].0 in Keys(f);
        assert h[j] == g[j - |f|];
      }
    }
  }

  lemma {:induction false} SetWellFormed(f: Fields, k: string, v: Json)
    requires WellFormed(Obj(f)) && WellFormed(v)
    ensures WellFormed(Obj(Set(f, k, v)))
  {
    SetDistinct(f, k, v);
    if f != [] && f[0].0 != k {
      SetWellFormed(f[1..], k, v);
      var r := Set(f, k, v);
      assert r == [f[0]] + Set(f[1..], k, v);
      forall i | 0 <= i < |r| ensures WellFormed(r[i].1) {
        if i > 0 {
          assert r[i] == Set(f[1..], k, v)[i - 1];
        }
      }
    }
  }

  /** Setting a key that is absent appends one entry. */
  lemma {:induction false} SetAbsent(f: Fields, k: string, v: Json)
    requires !HasKey(f, k)
    ensures Set(f, k, v) == f + [(k, v)]
  {
    if f != [] {
      SetAbsent(f[1..], k, v);
    }
  }

  lemma {:induction false} SetSet(f: Fields, k: string, v: Json, w: Json)
    ensures Set(Set(f, k, v), k, w) == Set(f, k, w)
  {
    if f != [] && f[0].0 != k {
      SetSet(f[1..], k, v, w);
    }
  }

  /** Python's `==` on decoded JSON (CPython compares two dicts by size and
      then looks every key of the first up in the second, so key order does
      not matter; lists compare element by element). */
  predicate Equal(a: Json, b: Json)
    decreases a
  {
    match a
    case Null => b.Null?
    case Bool(x) => b.Bool? && b.b == x
    case Int(x) => b.Int? && b.n == x
    case Str(x) => b.Str? && b.s == x
    case Arr(xs) =>
      b.Arr? && |xs| == |b.items| &&
      forall i :: 0 <= i < |xs| ==> Equal(xs[i], b.items[i])
    case Obj(fs) =>
      b.Obj? && |fs| == |b.fields| &&
      forall i :: 0 <= i < |fs| ==>
        Get(b.fields, fs[i].0).Some? && Equal(fs[i].1, Get(b.fields, fs[i].0).value)
  }

  lemma GetDistinct(f: Fields, i: nat)
    requires DistinctKeys(f) && i < |f|
    ensures Get(f, f[i].0) == Some(f[i].1)
  {
    if i > 0 {
      GetDistinct(f[1..], i - 1);
    }
  }

  lemma DistinctKeysTail(f: Fields)
    requires DistinctKeys(f) && f != []
    ensures DistinctKeys(f[1..]) && f[0].0 !in Keys(f[1..])
  {
  }

  /** Every well-formed value is equal to itself. */
  lemma {:induction false} EqualReflexive(a: Json)
    requires WellFormed(a)
    ensures Equal(a, a)
    decreases a
  {
    match a
    case Arr(xs) =>
      forall i | 0 <= i < |xs| ensures Equal(xs[i], xs[i]) {
        EqualReflexive(xs[i]);
      }
    case Obj(fs) =>
      forall i | 0 <= i < |fs| ensures Get(fs, fs[i].0) == Some(fs[i].1) && Equal(fs[i].1, fs[i].1) {
        GetDistinct(fs, i);
        EqualReflexive(fs[i].1);
      }
    case _ =>
  }

  /** The keys of an object, as a set. */
  ghost function KeySet(f: Fields): set<string> {
    set i | 0 <= i < |f| :: f[i].0
  }

  lemma {:induction false} KeySetSize(f: Fields)
    requires DistinctKeys(f)
    ensures |KeySet(f)| == |f|
    decreases |f|
  {
    if f != [] {
      DistinctKeysTail(f);
      KeySetSize(f[1..]);
      assert KeySet(f) == {f[0].0} + KeySet(f[1..]) by {
        forall x | x in KeySet(f) ensures x in {f[0].0} + KeySet(f[1..]) {
          var i :| 0 <= i < |f| && f[i].0 == x;
          if i > 0 {
            assert f[1..][i - 1].0 == x;
          }
        }
        forall x | x in KeySet(f[1..]) ensures x in KeySet(f) {
          var i :| 0 <= i < |f[1..]| && f[1..][i].0 == x;
          assert f[i + 1].0 == x;
        }
      }
      KeySetHas(f[1..], f[0].0);
    }
  }

  lemma KeySetHas(f: Fields, k: string)
    ensures k in KeySet(f) <==> HasKey(f, k)
  {
    if HasKey(f, k) {
      var i :| 0 <= i < |Keys(f)| && Keys(f)[i] == k;
      assert f[i].0 == k;
    }
  }

  /** Two dicts of the same size where every key of the first is a key of
      the second have the same keys. */
  lemma KeysCover(f: Fields, g: Fields)
    requires DistinctKeys(f) && DistinctKeys(g) && |f| == |g|
    requires forall i :: 0 <= i < |f| ==> HasKey(g, f[i].0)
    ensures forall j :: 0 <= j < |g| ==> HasKey(f, g[j].0)
  {
    var a, b := KeySet(f), KeySet(g);
    KeySetSize(f);
    KeySetSize(g);
    assert a <= b by {
      forall x | x in a ensures x in b {
        var i :| 0 <= i < |f| && f[i].0 == x;
        KeySetHas(g, x);
      }
    }
    assert a * b == a && a + b == b;
    assert |b - a| == 0;
    forall j | 0 <= j < |g| ensures HasKey(f, g[j].0) {
      assert g[j].0 in b;
      KeySetHas(f, g[j].0);
    }
  }

  /** Python's `==` on well-formed values is symmetric. */
  lemma {:induction false} EqualSymmetric(a: Json, b: Json)
    requires WellFormed(a) && WellFormed(b) && Equal(a, b)
    ensures Equal(b, a)
    decreases a
  {
    match a
    case Arr(xs) =>
      forall i | 0 <= i < |xs| ensures Equal(b.items[i], xs[i]) {
        EqualSymmetric(xs[i], b.items[i]);
      }
    case Obj(fs) =>
      var g := b.fields;
      KeysCover(fs, g);
      forall j | 0 <= j < |g| ensures Get(fs, g[j].0).Some? && Equal(g[j].1, Get(fs, g[j].0).value) {
        var i :| 0 <= i < |Keys(fs)| && Keys(fs)[i] == g[j].0;
        GetDistinct(fs, i);
        GetDistinct(g, j);
        EqualSymmetric(fs[i].1, g[j].1);
      }
    case _ =>
  }
}
