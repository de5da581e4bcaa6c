/** What the requests of a run do to the server's configuration, under the
    control API's documented meaning of a request: a PUT stores its body at
    its path, a DELETE removes the value there, and a path below a key that
    is not an object (or, for a DELETE, a path with no value) is refused,
    which ends the program. This is used to judge the entry loop of the
    PUT phase for a depth-1 key the server does not have yet. */
module Effect {
  import opened Results
  import opened Json
  import opened Reconcile
  import Merge

  /** The server's configuration after one request, or None when the
      request is refused. */
  function Step(state: Fields, op: Op): Option<Fields> {
    match op
    case Put(Top(k), b) => Some(Set(state, k, b))
    case Put(Entry(k, n), w) =>
      (match Get(state, k)
       case Some(Obj(f)) => Some(Set(state, k, Obj(Set(f, n, w))))
       case _ => None)
    case Delete(Top(k)) =>
      if HasKey(state, k) then Some(Remove(state, k)) else None
    case Delete(Entry(k, n)) =>
      (match Get(state, k)
       case Some(Obj(f)) => if HasKey(f, n) then Some(Set(state, k, Obj(Remove(f, n)))) else None
       case _ => None)
  }

  /** The requests one after the other; the first refusal ends the run. */
  function Replay(state: Fields, ops: seq<Op>): Option<Fields>
    decreases |ops|
  {
    if ops == [] then Some(state)
    else
      match Step(state, ops[0])
      case None => None
      case Some(s) => Replay(s, ops[1..])
  }

  lemma {:induction false} ReplayAppend(state: Fields, a: seq<Op>, b: seq<Op>)
    ensures Replay(state, a + b) ==
      match Replay(state, a)
      case None => None
      case Some(s) => Replay(s, b)
    decreases |a|
  {
    if a == [] {
      assert a + b == b;
    } else {
      assert (a + b)[0] == a[0] && (a + b)[1..] == a[1..] + b;
      match Step(state, a[0])
      case None =>
      case Some(s) => ReplayAppend(s, a[1..], b);
    }
  }

  /** The container PUT followed by one entry PUT. */
  lemma ReplayPair(s: Fields, k: string, n: string, w: Json)
    ensures Replay(s, [Put(Top(k), Obj([])), Put(Entry(k, n), w)]) == Some(Set(s, k, Obj([(n, w)])))
  {
    var ops := [Put(Top(k), Obj([])), Put(Entry(k, n), w)];
    var s1 := Set(s, k, Obj([]));
    assert Step(s, ops[0]) == Some(s1);
    assert ops[1..] == [Put(Entry(k, n), w)];
    assert Replay(s, ops) == Replay(s1, [Put(Entry(k, n), w)]);
    ReplayOne(s1, k, [], n, w);
    assert Set([], n, w) == [(n, w)];
    SetSet(s, k, Obj([]), Obj([(n, w)]));
  }

  /** One entry PUT into an existing object. */
  lemma ReplayOne(s: Fields, k: string, f: Fields, n: string, w: Json)
    requires Get(s, k) == Some(Obj(f))
    ensures Replay(s, [Put(Entry(k, n), w)]) == Some(Set(s, k, Obj(Set(f, n, w))))
  {
    assert Step(s, Put(Entry(k, n), w)) == Some(Set(s, k, Obj(Set(f, n, w))));
  }

  /** The declared entries the entry loop writes when the server has no
      entry under the key: those whose value is not `null` (a missing entry
      reads as `None`, which equals a declared `null`). */
  function Written(entries: Fields): Fields
    decreases |entries|
  {
    if entries == [] then []
    else
      var m := |entries| - 1;
      if entries[m].1.Null? then Written(entries[..m])
      else Written(entries[..m]) + [entries[m]]
  }

  lemma {:induction false} WrittenKeys(entries: Fields, n: string)
    ensures HasKey(Written(entries), n) ==> HasKey(entries, n)
    decreases |entries|
  {
    if entries != [] {
      var m := |entries| - 1;
      WrittenKeys(entries[..m], n);
      InitLast(entries);
      KeysAppend(entries[..m], [entries[m]]);
      KeysAppend(Written(entries[..m]), [entries[m]]);
    }
  }

  /** With no entry to write, the loop as written sends nothing. */
  lemma {:induction false} NothingWritten(k: string, entries: Fields)
    requires Written(entries) == []
    ensures EntryOps(k, entries, [], false) == []
    decreases |entries|
  {
    if entries != [] {
      var m := |entries| - 1;
      NothingWritten(k, entries[..m]);
      assert entries[m].1.Null?;
    }
  }

  lemma WrittenSnoc(prefix: Fields, e: (string, Json))
    ensures Written(prefix + [e]) == if e.1.Null? then Written(prefix) else Written(prefix) + [e]
  {
    assert (prefix + [e])[..|prefix|] == prefix;
  }

  /** The last entry of an object. */
  function LastEntry(f: Fields): (string, Json)
    requires f != []
  {
    f[|f| - 1]
  }

  /** As written, the entry loop of a depth-1 key `k` the server lacks PUTs
      `{}` to `k` before each entry it writes, so each entry written wipes
      the ones before it: the server ends with the last one alone. */
  lemma {:induction false} ContainerPutWipes(state: Fields, k: string, entries: Fields)
    requires !HasKey(state, k) && Written(entries) != []
    ensures Replay(state, EntryOps(k, entries, [], false)) == Some(Set(state, k, Obj([LastEntry(Written(entries))])))
    decreases |entries|
  {
    var m := |entries| - 1;
    var prefix := entries[..m];
    InitLast(entries);
    if Written(prefix) != [] {
      ContainerPutWipes(state, k, prefix);
    } else {
      NothingWritten(k, prefix);
    }
    WipesNext(state, k, prefix, entries[m].0, entries[m].1);
  }

  /** One more entry of the loop as written. */
  lemma WipesNext(state: Fields, k: string, prefix: Fields, n: string, w: Json)
    requires !HasKey(state, k) && Written(prefix + [(n, w)]) != []
    requires Replay(state, EntryOps(k, prefix, [], false)) ==
      Some(if Written(prefix) == [] then state else Set(state, k, Obj([LastEntry(Written(prefix))])))
    ensures Replay(state, EntryOps(k, prefix + [(n, w)], [], false)) ==
      Some(Set(state, k, Obj([LastEntry(Written(prefix + [(n, w)]))])))
  {
    var before := EntryOps(k, prefix, [], false);
    var last := EntryOp(k, n, w, [], false);
    EntryOpsNext(k, prefix, n, w, [], false);
    EntryOpAbsent(k, n, w, false);
    WrittenSnoc(prefix, (n, w));
    if w.Null? {
      assert before + last == before;
    } else {
      ReplayAppend(state, before, last);
      if Written(prefix) == [] {
        ReplayPair(state, k, n, w);
      } else {
        var s := Set(state, k, Obj([LastEntry(Written(prefix))]));
        ReplayPair(s, k, n, w);
        SetSet(state, k, Obj([LastEntry(Written(prefix))]), Obj([(n, w)]));
      }
    }
  }

  /** Two new listeners: the first is gone once the second is written. */
  lemma TwoListeners(a: Json, b: Json)
    requires !b.Null?
    ensures Replay([], EntryOps("listeners", [("*:80", a), ("*:81", b)], [], false)) ==
      Some([("listeners", Obj([("*:81", b)]))])
  {
    var entries := [("*:80", a), ("*:81", b)];
    assert entries[..1] == [("*:80", a)] && entries[..1][..0] == [];
    assert Written(entries) == Written(entries[..1]) + [("*:81", b)];
    ContainerPutWipes([], "listeners", entries);
  }

  /** The entry loop with the container PUT sent only while nothing has
      been written to the key: once the key exists on the server, further
      entries go into it. */
  function EntryOpsOnce(k: string, entries: Fields, have: Fields, present: bool): seq<Op>
    decreases |entries|
  {
    if entries == [] then []
    else
      var m := |entries| - 1;
      var before := EntryOpsOnce(k, entries[..m], have, present);
      before + EntryOp(k, entries[m].0, entries[m].1, have, present || before != [])
  }

  /** For a key the server has, the corrected loop sends what the loop as
      written sends. */
  lemma {:induction false} OnceWhenPresent(k: string, entries: Fields, have: Fields)
    ensures EntryOpsOnce(k, entries, have, true) == EntryOps(k, entries, have, true)
    decreases |entries|
  {
    if entries != [] {
      OnceWhenPresent(k, entries[..|entries| - 1], have);
    }
  }

  /** The corrected loop leaves every declared entry it writes of a key the
      server lacks on the server, in order. */
  lemma {:induction false} OnceKeepsAll(state: Fields, k: string, entries: Fields)
    requires !HasKey(state, k) && DistinctKeys(entries)
    ensures Replay(state, EntryOpsOnce(k, entries, [], false)) ==
      Some(if Written(entries) == [] then state else Set(state, k, Obj(Written(entries))))
    decreases |entries|
  {
    if entries != [] {
      var m := |entries| - 1;
      var prefix := entries[..m];
      InitLast(entries);
      Merge.DistinctLast(entries);
      OnceKeepsAll(state, k, prefix);
      OnceWritesAll(k, prefix);
      OnceNext(state, k, prefix, entries[m].0, entries[m].1, EntryOpsOnce(k, prefix, [], false));
    }
  }

  /** Against no live entries, an entry is written exactly when it is not
      `null`. */
  lemma EntryOpAbsent(k: string, n: string, w: Json, present: bool)
    ensures EntryOp(k, n, w, [], present) ==
      if w.Null? then [] else if present then [Put(Entry(k, n), w)]
      else [Put(Top(k), Obj([])), Put(Entry(k, n), w)]
  {
    assert OrNull(Get([], n)) == Null;
  }

  /** One more entry of the corrected loop. */
  lemma OnceNext(state: Fields, k: string, prefix: Fields, n: string, w: Json, before: seq<Op>)
    requires !HasKey(state, k) && !HasKey(prefix, n)
    requires before != [] <==> Written(prefix) != []
    requires Replay(state, before) == Some(if Written(prefix) == [] then state else Set(state, k, Obj(Written(prefix))))
    ensures Replay(state, before + EntryOp(k, n, w, [], before != [])) ==
      Some(if Written(prefix + [(n, w)]) == [] then state else Set(state, k, Obj(Written(prefix + [(n, w)]))))
  {
    var after := Written(prefix + [(n, w)]);
    WrittenSnoc(prefix, (n, w));
    if w.Null? {
      assert after == Written(prefix);
      OnceSkip(state, k, n, w, before);
    } else if Written(prefix) == [] {
      assert after == [(n, w)];
      OnceFirst(state, k, n, w, before);
    } else {
      assert after == Written(prefix) + [(n, w)] && after != [];
      WrittenKeys(prefix, n);
      OnceMore(state, k, Written(prefix), n, w, before);
    }
  }

  /** A `null` entry sends nothing. */
  lemma OnceSkip(state: Fields, k: string, n: string, w: Json, before: seq<Op>)
    requires w.Null?
    ensures Replay(state, before + EntryOp(k, n, w, [], before != [])) == Replay(state, before)
  {
    EntryOpAbsent(k, n, w, before != []);
    assert before + [] == before;
  }

  /** The first entry written creates the key. */
  lemma OnceFirst(state: Fields, k: string, n: string, w: Json, before: seq<Op>)
    requires !w.Null? && before == []
    ensures Replay(state, before + EntryOp(k, n, w, [], before != [])) == Some(Set(state, k, Obj([(n, w)])))
  {
    EntryOpAbsent(k, n, w, false);
    assert before + EntryOp(k, n, w, [], false) == [Put(Top(k), Obj([])), Put(Entry(k, n), w)];
    ReplayPair(state, k, n, w);
  }

  /** A later entry goes into the key created before. */
  lemma OnceMore(state: Fields, k: string, f: Fields, n: string, w: Json, before: seq<Op>)
    requires !w.Null? && before != [] && !HasKey(f, n)
    requires Replay(state, before) == Some(Set(state, k, Obj(f)))
    ensures Replay(state, before + EntryOp(k, n, w, [], before != [])) == Some(Set(state, k, Obj(f + [(n, w)])))
  {
    EntryOpAbsent(k, n, w, true);
    ReplayAppend(state, before, [Put(Entry(k, n), w)]);
    OnceStep(state, k, f, n, w);
  }

  lemma OnceStep(state: Fields, k: string, prefix: Fields, n: string, w: Json)
    requires !HasKey(prefix, n)
    ensures Replay(Set(state, k, Obj(prefix)), [Put(Entry(k, n), w)]) == Some(Set(state, k, Obj(prefix + [(n, w)])))
  {
    ReplayOne(Set(state, k, Obj(prefix)), k, prefix, n, w);
    SetAbsent(prefix, n, w);
    SetSet(state, k, Obj(prefix), Obj(prefix + [(n, w)]));
  }

  /** Against a key with no live entries the corrected loop sends something
      exactly when some declared entry is written. */
  lemma {:induction false} OnceWritesAll(k: string, entries: Fields)
    ensures EntryOpsOnce(k, entries, [], false) != [] <==> Written(entries) != []
    decreases |entries|
  {
    if entries != [] {
      var m := |entries| - 1;
      OnceWritesAll(k, entries[..m]);
    }
  }
}
