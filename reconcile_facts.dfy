/** What the requests of a reconciliation run are, key by key: the PUTs
    are exactly the differences between the desired and the live state,
    the DELETEs exactly what the live state has and the desired state does
    not declare, every PUT comes before every DELETE, and a server already
    in the desired state receives nothing. */
module ReconcileFacts {
  import opened Results
  import opened Json
  import Schema
  import Merge
  import opened Reconcile

  /** The top-level key a request is about. */
  function KeyOf(op: Op): string {
    op.target.key
  }

  /** The requests about key `k`, in order. */
  function OpsFor(ops: seq<Op>, k: string): (r: seq<Op>)
    ensures forall op :: op in r <==> op in ops && KeyOf(op) == k
  {
    if ops == [] then []
    else if KeyOf(ops[0]) == k then [ops[0]] + OpsFor(ops[1..], k)
    else OpsFor(ops[1..], k)
  }

  lemma {:induction false} OpsForAppend(a: seq<Op>, b: seq<Op>, k: string)
    ensures OpsFor(a + b, k) == OpsFor(a, k) + OpsFor(b, k)
  {
    if a != [] {
      assert (a + b)[1..] == a[1..] + b;
      OpsForAppend(a[1..], b, k);
    } else {
      assert a + b == b;
    }
  }

  /** Requests that are all about key `x`. */
  predicate AllAbout(ops: seq<Op>, x: string) {
    forall i :: 0 <= i < |ops| ==> KeyOf(ops[i]) == x
  }

  lemma {:induction false} OpsForAll(ops: seq<Op>, x: string, k: string)
    requires AllAbout(ops, x)
    ensures OpsFor(ops, k) == if k == x then ops else []
  {
    if ops != [] {
      OpsForAll(ops[1..], x, k);
    }
  }

  lemma {:induction false} EntryOpsAbout(k: string, entries: Fields, have: Fields, present: bool)
    ensures AllAbout(EntryOps(k, entries, have, present), k)
    decreases |entries|
  {
    if entries != [] {
      EntryOpsAbout(k, entries[..|entries| - 1], have, present);
    }
  }

  lemma {:induction false} EntryDeletesAbout(k: string, f: Fields)
    ensures AllAbout(EntryDeletes(k, f), k)
    decreases |f|
  {
    if f != [] {
      EntryDeletesAbout(k, f[..|f| - 1]);
    }
  }

  lemma KeyPutsAbout(k: string, v: Json, live: Fields)
    requires KeyPuts(k, v, live).Ok?
    ensures AllAbout(KeyPuts(k, v, live).value, k)
  {
    if v.Obj? && LiveEntries(live, k).Some? {
      EntryOpsAbout(k, v.fields, LiveEntries(live, k).value, HasKey(live, k));
    }
  }

  lemma KeyDeletesAbout(k: string, v: Json)
    requires KeyDeletes(k, v).Ok?
    ensures AllAbout(KeyDeletes(k, v).value, k)
  {
    if v.Obj? {
      EntryDeletesAbout(k, v.fields);
    }
  }

  /** A PUT phase that passes sends, about each key, exactly the requests
      of that key's own comparison, and nothing about undeclared keys. */
  lemma {:induction false} PutRunFor(desired: Fields, live: Fields, k: string)
    requires DistinctKeys(desired) && PutRun(desired, live).outcome.Pass?
    ensures Get(desired, k).Some? ==> KeyPuts(k, Get(desired, k).value, live).Ok?
    ensures OpsFor(PutRun(desired, live).ops, k) ==
      if Get(desired, k).None? then [] else KeyPuts(k, Get(desired, k).value, live).value
    decreases |desired|
  {
    if desired != [] {
      var n := |desired| - 1;
      var x, w := desired[n].0, desired[n].1;
      var p := PutRun(desired[..n], live);
      PutRunFor(desired[..n], live, k);
      KeyPutsAbout(x, w, live);
      OpsForAppend(p.ops, KeyPuts(x, w, live).value, k);
      OpsForAll(KeyPuts(x, w, live).value, x, k);
      DictGetLast(desired, k);
    }
  }

  /** A DELETE phase that passes sends, about each key left, exactly the
      deletions of that key, and nothing about other keys. */
  lemma {:induction false} DeleteRunFor(left: Fields, k: string)
    requires DistinctKeys(left) && DeleteRun(left).outcome.Pass?
    ensures Get(left, k).Some? ==> KeyDeletes(k, Get(left, k).value).Ok?
    ensures OpsFor(DeleteRun(left).ops, k) ==
      if Get(left, k).None? then [] else KeyDeletes(k, Get(left, k).value).value
    decreases |left|
  {
    if left != [] {
      var n := |left| - 1;
      var x, w := left[n].0, left[n].1;
      var p := DeleteRun(left[..n]);
      DeleteRunFor(left[..n], k);
      KeyDeletesAbout(x, w);
      OpsForAppend(p.ops, KeyDeletes(x, w).value, k);
      OpsForAll(KeyDeletes(x, w).value, x, k);
      DictGetLast(left, k);
    }
  }

  // ------------------------------------------------- what the copy keeps

  /** What the PUT phase leaves of live value `v` of key `k`. */
  function Residue(desired: Fields, k: string, v: Json): Option<Json> {
    match Get(desired, k)
    case None => Some(v)
    case Some(w) =>
      if Atomic(k) then None
      else if v.Obj? && w.Obj? then Some(Obj(Strip(v.fields, w.fields)))
      else Some(v)
  }

  /** The first live key as `Leftover` treats it. */
  lemma LeftoverCons(desired: Fields, live: Fields)
    requires live != []
    ensures Leftover(desired, live) ==
      match Residue(desired, live[0].0, live[0].1)
      case None => Leftover(desired, live[1..])
      case Some(r) => [(live[0].0, r)] + Leftover(desired, live[1..])
  {
  }

  lemma {:induction false} GetLeftoverAll(desired: Fields, live: Fields, k: string)
    requires DistinctKeys(live)
    ensures Get(Leftover(desired, live), k) ==
      match Get(live, k)
      case None => None
      case Some(v) => Residue(desired, k, v)
    decreases |live|
  {
    if live != [] {
      var x, v := live[0].0, live[0].1;
      var rest := Leftover(desired, live[1..]);
      DistinctKeysTail(live);
      GetLeftoverAll(desired, live[1..], k);
      LeftoverCons(desired, live);
      assert Get(live, k) == if x == k then Some(v) else Get(live[1..], k);
      match Residue(desired, x, v)
      case None =>
      case Some(r) =>
        GetCons((x, r), rest, k);
    }
  }

  lemma ConsDistinct(e: (string, Json), rest: Fields)
    requires DistinctKeys(rest) && !HasKey(rest, e.0)
    ensures DistinctKeys([e] + rest)
  {
    var f := [e] + rest;
    forall i, j | 0 <= i < j < |f| ensures f[i].0 != f[j].0 {
      if i == 0 {
        assert f[j] == rest[j - 1];
        assert Keys(rest)[j - 1] == rest[j - 1].0;
      } else {
        assert f[i] == rest[i - 1] && f[j] == rest[j - 1];
      }
    }
  }

  /** The copy is still a dict. */
  lemma {:induction false} LeftoverDistinct(desired: Fields, live: Fields)
    requires DistinctKeys(live)
    ensures DistinctKeys(Leftover(desired, live))
    decreases |live|
  {
    if live != [] {
      DistinctKeysTail(live);
      LeftoverDistinct(desired, live[1..]);
      var rest := Leftover(desired, live[1..]);
      GetLeftoverAll(desired, live[1..], live[0].0);
      forall v: Json ensures DistinctKeys([(live[0].0, v)] + rest) {
        ConsDistinct((live[0].0, v), rest);
      }
    }
  }

  lemma {:induction false} GetStripAll(have: Fields, names: Fields, n: string)
    ensures Get(Strip(have, names), n) == if HasKey(names, n) then None else Get(have, n)
    decreases |have|
  {
    if have != [] {
      GetStripAll(have[1..], names, n);
      GetCons(have[0], Strip(have[1..], names), n);
    }
  }

  // ------------------------------------------------ requests about entries

  lemma {:induction false} EntryPutIn(k: string, entries: Fields, have: Fields, present: bool, n: string, w: Json)
    requires DistinctKeys(entries)
    ensures Put(Entry(k, n), w) in EntryOps(k, entries, have, present) <==>
      Get(entries, n) == Some(w) && Differs(w, Get(have, n))
    decreases |entries|
  {
    if entries != [] {
      var m := |entries| - 1;
      assert DistinctKeys(entries[..m]);
      EntryPutIn(k, entries[..m], have, present, n, w);
      DictGetLast(entries, n);
    }
  }

  /** A PUT of the whole key from the entry loop is always the empty
      object, and only for a key the live state lacks. */
  lemma {:induction false} EntryContainerPut(k: string, entries: Fields, have: Fields, present: bool, b: Json)
    requires Put(Top(k), b) in EntryOps(k, entries, have, present)
    ensures b == Obj([]) && !present
    decreases |entries|
  {
    var m := |entries| - 1;
    if Put(Top(k), b) in EntryOps(k, entries[..m], have, present) {
      EntryContainerPut(k, entries[..m], have, present, b);
    }
  }

  /** The entry deletions of a key never delete the key itself. */
  lemma {:induction false} EntryDeletesKeepKey(k: string, f: Fields)
    ensures Delete(Top(k)) !in EntryDeletes(k, f)
    decreases |f|
  {
    if f != [] {
      EntryDeletesKeepKey(k, f[..|f| - 1]);
    }
  }

  lemma {:induction false} EntryDeleteIn(k: string, f: Fields, n: string)
    ensures Delete(Entry(k, n)) in EntryDeletes(k, f) <==> HasKey(f, n)
    decreases |f|
  {
    if f != [] {
      var m := |f| - 1;
      EntryDeleteIn(k, f[..m], n);
      assert f == f[..m] + [f[m]];
      KeysAppend(f[..m], [f[m]]);
    }
  }

  // ------------------------------------------------- PUTs before DELETEs

  predicate AllPuts(ops: seq<Op>) {
    forall i :: 0 <= i < |ops| ==> ops[i].Put?
  }

  predicate AllDeletes(ops: seq<Op>) {
    forall i :: 0 <= i < |ops| ==> ops[i].Delete?
  }

  lemma {:induction false} PutRunPuts(desired: Fields, live: Fields)
    ensures AllPuts(PutRun(desired, live).ops)
    decreases |desired|
  {
    if desired != [] {
      var n := |desired| - 1;
      PutRunPuts(desired[..n], live);
      var r := KeyPuts(desired[n].0, desired[n].1, live);
      if r.Ok? && desired[n].1.Obj? && LiveEntries(live, desired[n].0).Some? {
        EntryOpsPuts(desired[n].0, desired[n].1.fields, LiveEntries(live, desired[n].0).value, HasKey(live, desired[n].0));
      }
    }
  }

  lemma {:induction false} EntryOpsPuts(k: string, entries: Fields, have: Fields, present: bool)
    ensures AllPuts(EntryOps(k, entries, have, present))
    decreases |entries|
  {
    if entries != [] {
      EntryOpsPuts(k, entries[..|entries| - 1], have, present);
    }
  }

  lemma {:induction false} EntryDeletesDeletes(k: string, f: Fields)
    ensures AllDeletes(EntryDeletes(k, f))
    decreases |f|
  {
    if f != [] {
      EntryDeletesDeletes(k, f[..|f| - 1]);
    }
  }

  lemma {:induction false} DeleteRunDeletes(left: Fields)
    ensures AllDeletes(DeleteRun(left).ops)
    decreases |left|
  {
    if left != [] {
      var n := |left| - 1;
      DeleteRunDeletes(left[..n]);
      if left[n].1.Obj? {
        EntryDeletesDeletes(left[n].0, left[n].1.fields);
      }
    }
  }

  /** Every PUT of a run comes before every DELETE of it. */
  lemma PutsFirst(desired: Fields, live: Fields)
    ensures var ops := Reconcile.Reconcile(desired, live).ops;
      forall i, j :: 0 <= i < j < |ops| && ops[i].Delete? ==> ops[j].Delete?
  {
    PutRunPuts(desired, live);
    DeleteRunDeletes(Leftover(desired, live));
  }

  // ------------------------------------------------- the whole run, key by key

  /** The desired value of entry `n` of key `k`, when declared. */
  function DesiredEntry(desired: Fields, k: string, n: string): Option<Json> {
    match Get(desired, k)
    case Some(Obj(f)) => Get(f, n)
    case _ => None
  }

  /** The live value of entry `n` of key `k`, when present. */
  function LiveEntry(live: Fields, k: string, n: string): Option<Json> {
    match Get(live, k)
    case Some(Obj(f)) => Get(f, n)
    case _ => None
  }

  /** A PUT is among the requests of a run that ends well exactly when
      the PUT phase sends it. */
  lemma PutIn(desired: Fields, live: Fields, op: Op)
    requires Reconcile.Reconcile(desired, live).outcome.Pass? && op.Put?
    ensures op in Reconcile.Reconcile(desired, live).ops <==> op in OpsFor(PutRun(desired, live).ops, KeyOf(op))
  {
    var d := DeleteRun(Leftover(desired, live)).ops;
    DeleteRunDeletes(Leftover(desired, live));
    forall i | 0 <= i < |d| ensures d[i] != op { }
  }

  /** A DELETE is among the requests of a run that ends well exactly when
      the DELETE phase sends it. */
  lemma DeleteIn(desired: Fields, live: Fields, op: Op)
    requires Reconcile.Reconcile(desired, live).outcome.Pass? && op.Delete?
    ensures op in Reconcile.Reconcile(desired, live).ops <==>
      op in OpsFor(DeleteRun(Leftover(desired, live)).ops, KeyOf(op))
  {
    var p := PutRun(desired, live).ops;
    PutRunPuts(desired, live);
    forall i | 0 <= i < |p| ensures p[i] != op { }
  }

  /** The PUTs about key `k` of a run that ends well. */
  lemma RunPuts(desired: Fields, live: Fields, k: string)
    requires Merge.Shaped(desired) && Reconcile.Reconcile(desired, live).outcome.Pass?
    ensures Get(desired, k).Some? ==> KeyPuts(k, Get(desired, k).value, live).Ok?
    ensures OpsFor(PutRun(desired, live).ops, k) ==
      if Get(desired, k).None? then [] else KeyPuts(k, Get(desired, k).value, live).value
    ensures Get(desired, k).Some? ==> Merge.EntryShaped(k, Get(desired, k).value)
  {
    PutRunFor(desired, live, k);
    if HasKey(desired, k) {
      Merge.ShapedGet(desired, k);
    }
  }

  /** The DELETEs about key `k` of a run that ends well. */
  lemma RunDeletes(desired: Fields, live: Fields, k: string)
    requires DistinctKeys(live) && Reconcile.Reconcile(desired, live).outcome.Pass?
    ensures Get(Leftover(desired, live), k).Some? ==> KeyDeletes(k, Get(Leftover(desired, live), k).value).Ok?
    ensures OpsFor(DeleteRun(Leftover(desired, live)).ops, k) ==
      if Get(Leftover(desired, live), k).None? then []
      else KeyDeletes(k, Get(Leftover(desired, live), k).value).value
    ensures Get(Leftover(desired, live), k) ==
      match Get(live, k)
      case None => None
      case Some(v) => Residue(desired, k, v)
  {
    LeftoverDistinct(desired, live);
    DeleteRunFor(Leftover(desired, live), k);
    GetLeftoverAll(desired, live, k);
  }

  /** A depth-0 key is PUT, with its desired value, exactly when the desired
      state declares it with a value other than the live one. */
  lemma TopPut(desired: Fields, live: Fields, k: string, b: Json)
    requires Merge.Shaped(desired) && DistinctKeys(live) && Reconcile.Reconcile(desired, live).outcome.Pass?
    requires Atomic(k)
    ensures Put(Top(k), b) in Reconcile.Reconcile(desired, live).ops <==>
      Get(desired, k) == Some(b) && Differs(b, Get(live, k))
  {
    PutIn(desired, live, Put(Top(k), b));
    RunPuts(desired, live, k);
  }

  /** A depth-0 key is DELETEd exactly when it is live and not declared. */
  lemma TopDelete(desired: Fields, live: Fields, k: string)
    requires Merge.Shaped(desired) && DistinctKeys(live) && Reconcile.Reconcile(desired, live).outcome.Pass?
    requires Atomic(k)
    ensures Delete(Top(k)) in Reconcile.Reconcile(desired, live).ops <==>
      HasKey(live, k) && !HasKey(desired, k)
  {
    DeleteIn(desired, live, Delete(Top(k)));
    RunDeletes(desired, live, k);
  }

  lemma KeyPutsEntry(k: string, v: Json, live: Fields, n: string, w: Json)
    requires !Atomic(k) && Merge.EntryShaped(k, v) && KeyPuts(k, v, live).Ok?
    ensures Put(Entry(k, n), w) in KeyPuts(k, v, live).value <==>
      Get(v.fields, n) == Some(w) && Differs(w, LiveEntry(live, k, n))
  {
    if v.fields != [] {
      EntryPutIn(k, v.fields, LiveEntries(live, k).value, HasKey(live, k), n, w);
    }
  }

  /** An entry of a depth-1 key is PUT, with its desired value, exactly
      when it is declared with a value other than the live one. */
  lemma EntryPut(desired: Fields, live: Fields, k: string, n: string, w: Json)
    requires Merge.Shaped(desired) && DistinctKeys(live) && Reconcile.Reconcile(desired, live).outcome.Pass?
    requires Schema.Lookup(k).Some? && !Atomic(k)
    ensures Put(Entry(k, n), w) in Reconcile.Reconcile(desired, live).ops <==>
      DesiredEntry(desired, k, n) == Some(w) && Differs(w, LiveEntry(live, k, n))
  {
    PutIn(desired, live, Put(Entry(k, n), w));
    RunPuts(desired, live, k);
    if HasKey(desired, k) {
      KeyPutsEntry(k, Get(desired, k).value, live, n, w);
    }
  }

  /** The entry loop PUTs a whole depth-1 key only as the empty object, and
      only when the live state lacks the key. */
  lemma ContainerPut(desired: Fields, live: Fields, k: string, b: Json)
    requires Merge.Shaped(desired) && DistinctKeys(live) && Reconcile.Reconcile(desired, live).outcome.Pass?
    requires Schema.Lookup(k).Some? && !Atomic(k)
    requires Put(Top(k), b) in Reconcile.Reconcile(desired, live).ops
    ensures b == Obj([]) && !HasKey(live, k)
  {
    PutIn(desired, live, Put(Top(k), b));
    RunPuts(desired, live, k);
    var v := Get(desired, k).value;
    EntryContainerPut(k, v.fields, LiveEntries(live, k).value, HasKey(live, k), b);
  }

  lemma ResidueEntry(desired: Fields, k: string, v: Json, n: string)
    requires Schema.Lookup(k).Some? && !Atomic(k)
    requires Get(desired, k).Some? ==> Merge.EntryShaped(k, Get(desired, k).value)
    requires Residue(desired, k, v).Some? && KeyDeletes(k, Residue(desired, k, v).value).Ok?
    ensures Delete(Entry(k, n)) in KeyDeletes(k, Residue(desired, k, v).value).value <==>
      v.Obj? && Get(v.fields, n).Some? && DesiredEntry(desired, k, n).None?
  {
    var r := Residue(desired, k, v).value;
    EntryDeleteIn(k, r.fields, n);
    if HasKey(desired, k) {
      GetStripAll(v.fields, Get(desired, k).value.fields, n);
    }
  }

  /** An entry of a depth-1 key is DELETEd exactly when it is live and the
      desired state does not declare it. */
  lemma EntryDelete(desired: Fields, live: Fields, k: string, n: string)
    requires Merge.Shaped(desired) && DistinctKeys(live) && Reconcile.Reconcile(desired, live).outcome.Pass?
    requires Schema.Lookup(k).Some? && !Atomic(k)
    ensures Delete(Entry(k, n)) in Reconcile.Reconcile(desired, live).ops <==>
      LiveEntry(live, k, n).Some? && DesiredEntry(desired, k, n).None?
    ensures Delete(Top(k)) !in Reconcile.Reconcile(desired, live).ops
  {
    DeleteIn(desired, live, Delete(Entry(k, n)));
    DeleteIn(desired, live, Delete(Top(k)));
    KeyEntryDelete(desired, live, k, n);
    DeletesKeepKey(desired, live, k);
  }

  /** The DELETEs about key `k` hold entry `n` exactly when it is live and
      not declared. */
  lemma KeyEntryDelete(desired: Fields, live: Fields, k: string, n: string)
    requires Merge.Shaped(desired) && DistinctKeys(live) && Reconcile.Reconcile(desired, live).outcome.Pass?
    requires Schema.Lookup(k).Some? && !Atomic(k)
    ensures Delete(Entry(k, n)) in OpsFor(DeleteRun(Leftover(desired, live)).ops, k) <==>
      LiveEntry(live, k, n).Some? && DesiredEntry(desired, k, n).None?
  {
    RunDeletes(desired, live, k);
    var left := Get(Leftover(desired, live), k);
    LiveDeletes(desired, live, k, n, left, OpsFor(DeleteRun(Leftover(desired, live)).ops, k));
  }

  /** The same, given what is live under key `k`, what the PUT phase leaves
      of it and the DELETEs sent for it. */
  lemma LiveDeletes(desired: Fields, live: Fields, k: string, n: string, left: Option<Json>, ops: seq<Op>)
    requires Schema.Lookup(k).Some? && !Atomic(k)
    requires Merge.Shaped(desired)
    requires left.Some? ==> KeyDeletes(k, left.value).Ok?
    requires ops == if left.None? then [] else KeyDeletes(k, left.value).value
    requires left == match Get(live, k) case None => None case Some(v) => Residue(desired, k, v)
    ensures Delete(Entry(k, n)) in ops <==>
      LiveEntry(live, k, n).Some? && DesiredEntry(desired, k, n).None?
  {
    var v := Get(live, k);
    if v.Some? {
      if HasKey(desired, k) {
        Merge.ShapedGet(desired, k);
      }
      ResidueEntry(desired, k, v.value, n);
    }
  }

  /** The DELETEs about a depth-1 key never delete the key itself. */
  lemma DeletesKeepKey(desired: Fields, live: Fields, k: string)
    requires DistinctKeys(live) && Reconcile.Reconcile(desired, live).outcome.Pass?
    requires Schema.Lookup(k).Some? && !Atomic(k)
    ensures Delete(Top(k)) !in OpsFor(DeleteRun(Leftover(desired, live)).ops, k)
  {
    RunDeletes(desired, live, k);
    var left := Get(Leftover(desired, live), k);
    if left.Some? {
      EntryDeletesKeepKey(k, left.value.fields);
    }
  }

  // ------------------------------------------------- keys outside the table

  /** A key left over that cannot be deleted ends the DELETE phase. */
  lemma {:induction false} DeleteRunFails(left: Fields, j: nat)
    requires j < |left| && KeyDeletes(left[j].0, left[j].1).Fail?
    ensures DeleteRun(left).outcome == Stop(Crash)
  {
    assert left[..j + 1][..j] == left[..j];
    DeleteRunCrashes(left[..j + 1]);
    DeleteRunStops(left, j + 1);
  }

  /** Every failure of the DELETE phase is a crash. */
  lemma {:induction false} DeleteRunCrashes(left: Fields)
    ensures DeleteRun(left).outcome.Stop? ==> DeleteRun(left).outcome == Stop(Crash)
    decreases |left|
  {
    if left != [] {
      DeleteRunCrashes(left[..|left| - 1]);
    }
  }

  /** A live key outside the schema table makes the DELETE phase raise
      KeyError: the run ends with a crash, after its PUTs. */
  lemma UnknownLiveKey(desired: Fields, live: Fields, i: nat)
    requires Merge.Shaped(desired) && DistinctKeys(live) && PutRun(desired, live).outcome.Pass?
    requires i < |live| && Schema.Lookup(live[i].0).None?
    ensures Reconcile.Reconcile(desired, live).outcome == Stop(Crash)
    ensures PutRun(desired, live).ops <= Reconcile.Reconcile(desired, live).ops
  {
    var k := live[i].0;
    var left := Leftover(desired, live);
    assert !HasKey(desired, k) by {
      if HasKey(desired, k) {
        Merge.ShapedGet(desired, k);
      }
    }
    GetDistinct(live, i);
    GetLeftover(desired, live, k);
    var j :| 0 <= j < |left| && left[j] == (k, live[i].1);
    DeleteRunFails(left, j);
  }

  // ------------------------------------------------- the container PUT

  /** Every entry PUT comes right after a PUT of `{}` to key `k`. */
  predicate ContainerFirst(ops: seq<Op>, k: string) {
    forall i :: 0 <= i < |ops| && ops[i].target.Entry? ==> 0 < i && ops[i - 1] == Put(Top(k), Obj([]))
  }

  /** For a depth-1 key the live state lacks, every entry PUT among the
      key's requests comes right after a PUT of `{}` to the key. */
  lemma {:induction false} ContainerBeforeEachEntry(k: string, entries: Fields, have: Fields)
    ensures ContainerFirst(EntryOps(k, entries, have, false), k)
    decreases |entries|
  {
    if entries != [] {
      var m := |entries| - 1;
      ContainerBeforeEachEntry(k, entries[..m], have);
      var before := EntryOps(k, entries[..m], have, false);
      var last := EntryOp(k, entries[m].0, entries[m].1, have, false);
      var ops := before + last;
      forall i | 0 <= i < |ops| && ops[i].target.Entry? ensures 0 < i && ops[i - 1] == Put(Top(k), Obj([])) {
        if i < |before| {
          assert ops[i] == before[i];
          assert 0 < i && before[i - 1] == Put(Top(k), Obj([]));
          assert ops[i - 1] == before[i - 1];
        } else {
          assert ops[i] == last[i - |before|];
          assert i == |before| + 1 && ops[i - 1] == last[0];
        }
      }
    }
  }

  /** In a whole request sequence, every PUT to an entry of key `k` comes
      right after a PUT of `{}` to `k`. */
  predicate ContainerJustBefore(ops: seq<Op>, k: string) {
    forall i :: 0 <= i < |ops| && ops[i].Put? && ops[i].target.Entry? && ops[i].target.key == k ==>
      0 < i && ops[i - 1] == Put(Top(k), Obj([]))
  }

  lemma ContainerJustBeforeAppend(a: seq<Op>, b: seq<Op>, k: string)
    requires ContainerJustBefore(a, k) && ContainerJustBefore(b, k)
    ensures ContainerJustBefore(a + b, k)
  {
    var ops := a + b;
    forall i | 0 <= i < |ops| && ops[i].Put? && ops[i].target.Entry? && ops[i].target.key == k
      ensures 0 < i && ops[i - 1] == Put(Top(k), Obj([]))
    {
      if i < |a| {
        assert ops[i] == a[i] && ops[i - 1] == a[i - 1];
      } else {
        assert ops[i] == b[i - |a|] && ops[i - 1] == b[i - |a| - 1];
      }
    }
  }

  /** The requests of one declared key, for a depth-1 key `k` the live
      state lacks: only `k`'s own block has entry PUTs to `k`, and there
      each follows a PUT of `{}`. */
  lemma KeyPutsJustBefore(x: string, w: Json, live: Fields, k: string)
    requires KeyPuts(x, w, live).Ok?
    requires Schema.Lookup(k).Some? && !Atomic(k) && !HasKey(live, k)
    ensures ContainerJustBefore(KeyPuts(x, w, live).value, k)
  {
    if x != k {
      KeyPutsAbout(x, w, live);
    } else {
      assert LiveEntries(live, k) == Some([]);
      if w.fields != [] {
        assert KeyPuts(k, w, live).value == EntryOps(k, w.fields, [], false);
        ContainerBeforeEachEntry(k, w.fields, []);
      }
    }
  }

  lemma {:induction false} PutRunJustBefore(desired: Fields, live: Fields, k: string)
    requires Schema.Lookup(k).Some? && !Atomic(k) && !HasKey(live, k)
    ensures ContainerJustBefore(PutRun(desired, live).ops, k)
    decreases |desired|
  {
    if desired != [] {
      var n := |desired| - 1;
      PutRunJustBefore(desired[..n], live, k);
      var p := PutRun(desired[..n], live);
      if p.outcome.Pass? && KeyPuts(desired[n].0, desired[n].1, live).Ok? {
        KeyPutsJustBefore(desired[n].0, desired[n].1, live, k);
        ContainerJustBeforeAppend(p.ops, KeyPuts(desired[n].0, desired[n].1, live).value, k);
      }
    }
  }

  /** The requests about a depth-1 key absent from the live state: a PUT of
      `{}` to the key comes right before each PUT of a differing entry,
      both among the key's own requests and in the whole run. */
  lemma AbsentKeyPuts(desired: Fields, live: Fields, k: string)
    requires Merge.Shaped(desired) && Reconcile.Reconcile(desired, live).outcome.Pass?
    requires Schema.Lookup(k).Some? && !Atomic(k) && !HasKey(live, k)
    ensures ContainerFirst(OpsFor(PutRun(desired, live).ops, k), k)
    ensures ContainerJustBefore(Reconcile.Reconcile(desired, live).ops, k)
  {
    PutRunJustBefore(desired, live, k);
    DeleteRunDeletes(Leftover(desired, live));
    ContainerJustBeforeAppend(PutRun(desired, live).ops, DeleteRun(Leftover(desired, live)).ops, k);
    RunPuts(desired, live, k);
    if HasKey(desired, k) {
      var v := Get(desired, k).value;
      assert LiveEntries(live, k) == Some([]);
      if v.fields != [] {
        assert KeyPuts(k, v, live).value == EntryOps(k, v.fields, [], false);
        ContainerBeforeEachEntry(k, v.fields, []);
      }
    }
  }

  // ------------------------------------------------- nothing to do

  lemma {:induction false} StripCovered(have: Fields, names: Fields)
    requires forall i :: 0 <= i < |have| ==> HasKey(names, have[i].0)
    ensures Strip(have, names) == []
    decreases |have|
  {
    if have != [] {
      assert forall i :: 0 <= i < |have[1..]| ==> have[1..][i] == have[i + 1];
      StripCovered(have[1..], names);
    }
  }

  lemma {:induction false} EntryOpsQuiet(k: string, entries: Fields, have: Fields, present: bool)
    requires forall i :: 0 <= i < |entries| ==> EntryOp(k, entries[i].0, entries[i].1, have, present) == []
    ensures EntryOps(k, entries, have, present) == []
    decreases |entries|
  {
    if entries != [] {
      var n := |entries| - 1;
      var before := entries[..n];
      forall i | 0 <= i < |before| ensures EntryOp(k, before[i].0, before[i].1, have, present) == [] {
        assert before[i] == entries[i];
      }
      EntryOpsQuiet(k, before, have, present);
      assert EntryOp(k, entries[n].0, entries[n].1, have, present) == [];
    }
  }

  lemma {:induction false} PutRunQuiet(desired: Fields, live: Fields)
    requires forall i :: 0 <= i < |desired| ==> KeyPuts(desired[i].0, desired[i].1, live) == Ok([])
    ensures PutRun(desired, live) == Run([], Pass)
    decreases |desired|
  {
    if desired != [] {
      var n := |desired| - 1;
      assert forall i :: 0 <= i < n ==> desired[..n][i] == desired[i];
      PutRunQuiet(desired[..n], live);
    }
  }

  lemma {:induction false} DeleteRunQuiet(left: Fields)
    requires forall i :: 0 <= i < |left| ==> KeyDeletes(left[i].0, left[i].1) == Ok([])
    ensures DeleteRun(left) == Run([], Pass)
    decreases |left|
  {
    if left != [] {
      var n := |left| - 1;
      assert forall i :: 0 <= i < n ==> left[..n][i] == left[i];
      DeleteRunQuiet(left[..n]);
    }
  }

  /** A key whose live value equals its desired value needs no PUT. */
  lemma KeyPutsInSync(desired: Fields, live: Fields, i: nat)
    requires Merge.Shaped(desired) && i < |desired| && Equal(Obj(desired), Obj(live))
    ensures KeyPuts(desired[i].0, desired[i].1, live) == Ok([])
  {
    var k, v := desired[i].0, desired[i].1;
    assert Merge.EntryShaped(k, v);
    var lv := Get(live, k).value;
    assert Equal(v, lv);
    if !Atomic(k) {
      var f := v.fields;
      assert lv.Obj? && LiveEntries(live, k) == Some(lv.fields);
      forall j | 0 <= j < |f| ensures EntryOp(k, f[j].0, f[j].1, lv.fields, true) == [] {
        assert Get(lv.fields, f[j].0).Some? && Equal(f[j].1, Get(lv.fields, f[j].0).value);
      }
      EntryOpsQuiet(k, f, lv.fields, true);
    }
  }

  /** What the PUT phase leaves of a live state equal to the desired one is
      an empty object for each depth-1 key. */
  lemma LeftoverInSync(desired: Fields, live: Fields, i: nat)
    requires Merge.Shaped(desired) && DistinctKeys(live) && Equal(Obj(live), Obj(desired))
    requires i < |Leftover(desired, live)|
    ensures KeyDeletes(Leftover(desired, live)[i].0, Leftover(desired, live)[i].1) == Ok([])
  {
    var left := Leftover(desired, live);
    var x := left[i].0;
    LeftoverDistinct(desired, live);
    GetDistinct(left, i);
    GetLeftoverAll(desired, live, x);
    var lv := Get(live, x).value;
    var j :| 0 <= j < |live| && live[j] == (x, lv);
    assert Get(desired, x).Some? && Equal(lv, Get(desired, x).value);
    var dv := Get(desired, x).value;
    Merge.ShapedGet(desired, x);
    assert !Atomic(x) && dv.Obj? && lv.Obj?;
    forall m | 0 <= m < |lv.fields| ensures HasKey(dv.fields, lv.fields[m].0) {
      assert Get(dv.fields, lv.fields[m].0).Some?;
    }
    StripCovered(lv.fields, dv.fields);
  }

  /** A server whose configuration equals the desired state under Python's
      `==` (in any key order) receives no request, and the run ends well. */
  lemma InSync(desired: Fields, live: Fields)
    requires Merge.Shaped(desired) && WellFormed(Obj(live)) && Equal(Obj(live), Obj(desired))
    ensures Reconcile.Reconcile(desired, live) == Run([], Pass)
  {
    assert WellFormed(Obj(desired)) by {
      forall i | 0 <= i < |desired| ensures WellFormed(desired[i].1) {
        assert Merge.EntryShaped(desired[i].0, desired[i].1);
      }
    }
    EqualSymmetric(Obj(live), Obj(desired));
    forall i | 0 <= i < |desired| ensures KeyPuts(desired[i].0, desired[i].1, live) == Ok([]) {
      KeyPutsInSync(desired, live, i);
    }
    PutRunQuiet(desired, live);
    var left := Leftover(desired, live);
    forall i | 0 <= i < |left| ensures KeyDeletes(left[i].0, left[i].1) == Ok([]) {
      LeftoverInSync(desired, live, i);
    }
    DeleteRunQuiet(left);
  }

  /** A listener declared `null` that the server does not have compares
      equal to the missing entry (`None != None` is false): nothing is
      sent, not even the `{}` for the absent key. */
  lemma NullEntryQuiet()
    ensures Reconcile.Reconcile([("listeners", Obj([("*:80", Null)]))], []) == Run([], Pass)
  {
  }
}
