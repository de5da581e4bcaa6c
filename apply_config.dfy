/** The two loops of `do_apply_config` as the program runs them: the
    requests are appended to a log, and `server` is the program's copy of
    the live state, from which the first loop pops everything the desired
    state declares. Each method is proved to send the requests of the
    reference run of module Reconcile. */
module Apply {
  import opened Results
  import opened Json
  import Schema
  import Merge
  import opened Reconcile

  /** The inner loop of the first phase, for a depth-1 key `k` and its
      declared entries: `server` is the copy before the loop and after. */
  method PutEntries(k: string, entries: Fields, server0: Fields) returns (ops: seq<Op>, outcome: Outcome, server: Fields)
    requires DistinctKeys(entries)
    ensures outcome == if entries != [] && LiveEntries(server0, k).None? then Stop(Crash) else Pass
    ensures outcome.Stop? ==> ops == []
    ensures outcome.Pass? ==> server == StripKey(server0, k, entries)
    ensures outcome.Pass? ==>
      ops == if entries == [] then [] else EntryOps(k, entries, LiveEntries(server0, k).value, HasKey(server0, k))
  {
    ghost var live := LiveEntries(server0, k);
    ghost var have := if live.Some? then live.value else [];
    server := server0;
    ops := [];
    StripKeyNothing(server0, k);
    var j := 0;
    ghost var done: Fields := [];
    while j < |entries|
      invariant 0 <= j <= |entries| && done == entries[..j]
      invariant j > 0 ==> live.Some?
      invariant ops == EntryOps(k, done, have, HasKey(server0, k))
      invariant server == StripKey(server0, k, done)
    {
      var n, w := entries[j].0, entries[j].1;
      FreshKey(entries, j);
      var sent;
      sent, server, outcome := PutEntry(k, n, w, server, server0, done);
      if outcome.Stop? {
        return;
      }
      EntryOpsNext(k, done, n, w, have, HasKey(server0, k));
      ops := ops + sent;
      assert done + [(n, w)] == entries[..j + 1];
      j, done := j + 1, done + [(n, w)];
    }
    assert entries[..j] == entries;
    outcome := Pass;
  }

  /** The body of the inner loop for the declared entry `n` with value
      `w`, after the entries `done`: the requests for the entry, and the
      copy after its `pop`. The `.get` on a live value that is not a dict
      raises. */
  method PutEntry(k: string, n: string, w: Json, server: Fields, ghost server0: Fields, ghost done: Fields)
    returns (sent: seq<Op>, next: Fields, outcome: Outcome)
    requires server == StripKey(server0, k, done) && !HasKey(done, n)
    requires done != [] ==> LiveEntries(server0, k).Some?
    ensures outcome.Stop? <==> LiveEntries(server0, k).None?
    ensures outcome.Stop? ==> outcome == Stop(Crash) && done == []
    ensures outcome.Pass? ==>
      && sent == EntryOp(k, n, w, LiveEntries(server0, k).value, HasKey(server0, k))
      && next == StripKey(server0, k, done + [(n, w)])
  {
    next := server;
    sent := [];
    // `server_config.get(k, {})`
    var cur := Get(server, k);
    if cur.Some? && !cur.value.Obj? {
      if done == [] {
        StripKeyNothing(server0, k);
      }
      return sent, next, Stop(Crash);
    }
    var inner := if cur.Some? then cur.value.fields else [];
    if done == [] {
      StripKeyNothing(server0, k);
    }
    var have := LiveEntries(server0, k).value;
    StripKeyGet(server0, k, have, done);
    GetStrip(have, done, n);
    PopStep(server0, k, have, HasKey(server0, k), done, n, w, server);
    if !Equal(w, OrNull(Get(inner, n))) {
      if !HasKey(server, k) {
        sent := sent + [Put(Top(k), Obj([]))];
      }
      sent := sent + [Put(Entry(k, n), w)];
    }
    if HasKey(server, k) {
      // `server_config[k].pop(n, None)`
      next := Set(server, k, Obj(Remove(inner, n)));
    }
    outcome := Pass;
  }

  /** What the copy holds for `k` once the declared entries `done` are
      popped. */
  lemma StripKeyGet(server0: Fields, k: string, have: Fields, done: Fields)
    requires LiveEntries(server0, k) == Some(have)
    ensures Get(StripKey(server0, k, done), k) == if HasKey(server0, k) then Some(Obj(Strip(have, done))) else None
  {
  }

  /** The copy after one more `pop`, in terms of the live state it was
      copied from. */
  lemma PopStep(server0: Fields, k: string, have: Fields, present: bool, done: Fields, n: string, w: Json, server: Fields)
    requires LiveEntries(server0, k) == Some(have) && present == HasKey(server0, k)
    requires server == StripKey(server0, k, done)
    ensures var next := if present then Set(server, k, Obj(Remove(Strip(have, done), n))) else server;
      next == StripKey(server0, k, done + [(n, w)])
  {
    StripKeyOneMore(server0, k, done, n, w);
    StripOneMore(have, done, n, w);
    if present {
      SetSet(server0, k, Obj(Strip(have, done)), Obj(Remove(Strip(have, done), n)));
    }
  }

  /** One pass of the first loop, for key `k` with desired value `v`, on
      the copy `server0`: depth-0 keys are compared and popped, depth-1 keys
      go entry by entry. */
  method PutKey(k: string, v: Json, server0: Fields) returns (ops: seq<Op>, outcome: Outcome, server: Fields)
    requires v.Obj? ==> DistinctKeys(v.fields)
    ensures KeyPuts(k, v, server0) == if outcome.Pass? then Ok(ops) else Fail(outcome.failure)
    ensures outcome.Pass? && Atomic(k) ==> server == Remove(server0, k)
    ensures outcome.Pass? && !Atomic(k) ==> v.Obj? && server == StripKey(server0, k, v.fields)
  {
    server := server0;
    // `SCHEMA_CONFIG_KEYS[k]`
    var entry := Schema.Lookup(k);
    if entry.None? {
      return [], Stop(Crash), server;
    }
    if entry.value.depth == 0 {
      ops := if !Equal(v, OrNull(Get(server, k))) then [Put(Top(k), v)] else [];
      server := Remove(server, k);
      return ops, Pass, server;
    }
    // `.items()` on a value that is not a dict
    if !v.Obj? {
      return [], Stop(Crash), server;
    }
    ops, outcome, server := PutEntries(k, v.fields, server);
    if v.fields == [] {
      StripKeyNothing(server0, k);
    }
  }

  /** The first loop: a PUT for each depth-0 key whose value differs from
      the live one, the entry PUTs of each depth-1 key, and the pops. */
  method PutPhase(desired: Fields, live: Fields) returns (ops: seq<Op>, outcome: Outcome, server: Fields)
    requires Merge.Shaped(desired) && DistinctKeys(live)
    ensures Run(ops, outcome) == PutRun(desired, live)
    ensures outcome.Pass? ==> server == Leftover(desired, live)
  {
    server := live;
    ops := [];
    LeftoverNothing(live);
    var i := 0;
    ghost var done: Fields := [];
    while i < |desired|
      invariant 0 <= i <= |desired| && done == desired[..i]
      invariant PutRun(done, live) == Run(ops, Pass)
      invariant server == Leftover(done, live)
    {
      var k, v := desired[i].0, desired[i].1;
      assert Merge.EntryShaped(k, v);
      PutRunNext(desired, live, i);
      LeftoverNext(desired, live, i);
      var keyOps, keyOutcome;
      keyOps, keyOutcome, server := PutKey(k, v, server);
      if keyOutcome.Stop? {
        PutRunStops(desired, live, i + 1);
        return ops, keyOutcome, server;
      }
      ops := ops + keyOps;
      i, done := i + 1, desired[..i + 1];
    }
    assert done == desired;
    outcome := Pass;
  }

  /** The second loop, over what the first one left: a DELETE for each
      depth-0 key and for each entry of each depth-1 key. */
  method DeletePhase(server: Fields) returns (ops: seq<Op>, outcome: Outcome)
    ensures Run(ops, outcome) == DeleteRun(server)
  {
    ops := [];
    var i := 0;
    assert server[..i] == [];
    while i < |server|
      invariant 0 <= i <= |server|
      invariant DeleteRun(server[..i]) == Run(ops, Pass)
    {
      var k, v := server[i].0, server[i].1;
      assert server[..i + 1][..i] == server[..i];
      // `SCHEMA_CONFIG_KEYS[k]`
      var entry := Schema.Lookup(k);
      if entry.None? {
        DeleteRunStops(server, i + 1);
        return ops, Stop(Crash);
      }
      if entry.value.depth == 0 {
        ops := ops + [Delete(Top(k))];
      } else {
        if !v.Obj? {
          DeleteRunStops(server, i + 1);
          return ops, Stop(Crash);
        }
        ghost var base := ops;
        var j := 0;
        assert v.fields[..j] == [];
        while j < |v.fields|
          invariant 0 <= j <= |v.fields|
          invariant ops == base + EntryDeletes(k, v.fields[..j])
        {
          assert v.fields[..j + 1][..j] == v.fields[..j];
          ops := ops + [Delete(Entry(k, v.fields[j].0))];
          j := j + 1;
        }
        assert v.fields[..j] == v.fields;
      }
      i := i + 1;
    }
    assert server[..i] == server;
    outcome := Pass;
  }

  /** `do_apply_config` after its two reads. */
  method ApplyConfig(desired: Fields, live: Fields) returns (ops: seq<Op>, outcome: Outcome)
    requires Merge.Shaped(desired) && DistinctKeys(live)
    ensures Run(ops, outcome) == Reconcile.Reconcile(desired, live)
  {
    var server;
    ops, outcome, server := PutPhase(desired, live);
    if outcome.Stop? {
      return;
    }
    var deletes;
    deletes, outcome := DeletePhase(server);
    ops := ops + deletes;
  }
}
