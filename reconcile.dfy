/** `do_apply_config` after its two reads: the merged files configuration
    (the desired state) is compared with the server's configuration (the
    live state), and the differences become PUT and DELETE requests. The
    reference definitions below read only the original live state; the
    methods work on a copy of it that they pop entries from, as the program
    does, and are proved to send exactly the requests the definitions
    list. */
module Reconcile {
  import opened Results
  import opened Json
  import Schema
  import Merge

  /** What a request addresses: a top-level key, or one entry of an
      object-valued key. */
  datatype Target = Top(key: string) | Entry(key: string, name: string)

  /** One `json_request` sent after the initial GET. */
  datatype Op = Put(target: Target, body: Json) | Delete(target: Target)

  /** The requests a run sends, in order, and how it ends. */
  datatype Run = Run(ops: seq<Op>, outcome: Outcome)

  /** `"/config/%s"` and `"/config/%s/%s"`. */
  function Path(t: Target): string {
    match t
    case Top(k) => "/config/" + k
    case Entry(k, n) => "/config/" + k + "/" + n
  }

  /** A key of the table that is written as one unit (depth 0). */
  predicate Atomic(k: string) {
    Schema.Lookup(k).Some? && Schema.Lookup(k).value.depth == 0
  }

  /** `.get(..., None)`: the value found, or `null` when there is none. */
  function OrNull(have: Option<Json>): Json {
    if have.Some? then have.value else Null
  }

  /** `want != have`, where `have` came from a `.get(..., None)`: a missing
      entry compares equal to a declared `null`. */
  predicate Differs(want: Json, have: Option<Json>) {
    !Equal(want, OrNull(have))
  }

  // ------------------------------------------------------------ PUT phase

  /** `server_config.get(k, {})`: the live entries of `k`, or None when
      the live value is not a dict (its `.get` raises). */
  function LiveEntries(live: Fields, k: string): Option<Fields> {
    match Get(live, k)
    case None => Some([])
    case Some(Obj(f)) => Some(f)
    case Some(_) => None
  }

  /** The requests for one declared entry `n` of key `k`. While `k` is
      missing from the live state, a PUT of `{}` to the key goes before
      every entry that is written. */
  function EntryOp(k: string, n: string, w: Json, have: Fields, present: bool): seq<Op> {
    if !Differs(w, Get(have, n)) then []
    else if present then [Put(Entry(k, n), w)]
    else [Put(Top(k), Obj([])), Put(Entry(k, n), w)]
  }

  function EntryOps(k: string, entries: Fields, have: Fields, present: bool): seq<Op>
    decreases |entries|
  {
    if entries == [] then []
    else
      var n := |entries| - 1;
      EntryOps(k, entries[..n], have, present) + EntryOp(k, entries[n].0, entries[n].1, have, present)
  }

  /** One more declared entry is its requests after those of the others. */
  lemma EntryOpsNext(k: string, done: Fields, n: string, w: Json, have: Fields, present: bool)
    ensures EntryOps(k, done + [(n, w)], have, present) == EntryOps(k, done, have, present) + EntryOp(k, n, w, have, present)
  {
    assert (done + [(n, w)])[..|done|] == done;
  }

  /** The requests for one declared key, or the crash it causes (a key
      outside the table raises KeyError; a depth-1 value that is not a dict
      raises on `.items()`). */
  function KeyPuts(k: string, v: Json, live: Fields): Result<seq<Op>> {
    if Schema.Lookup(k).None? then Fail(Crash)
    else if Schema.Lookup(k).value.depth == 0 then
      Ok(if Differs(v, Get(live, k)) then [Put(Top(k), v)] else [])
    else if !v.Obj? then Fail(Crash)
    else if v.fields == [] then Ok([])
    else
      match LiveEntries(live, k)
      case None => Fail(Crash)
      case Some(have) => Ok(EntryOps(k, v.fields, have, HasKey(live, k)))
  }

  /** The first loop of `do_apply_config`, key by key in the desired
      state's order; a crash ends the run. */
  function PutRun(desired: Fields, live: Fields): Run
    decreases |desired|
  {
    if desired == [] then Run([], Pass)
    else
      var n := |desired| - 1;
      var p := PutRun(desired[..n], live);
      if p.outcome.Stop? then p
      else
        match KeyPuts(desired[n].0, desired[n].1, live)
        case Fail(e) => Run(p.ops, Stop(e))
        case Ok(ops) => Run(p.ops + ops, Pass)
  }

  // -------------------------------------------------------- what is left

  /** The entries of `have` whose names `names` does not declare. */
  function Strip(have: Fields, names: Fields): Fields {
    if have == [] then []
    else if HasKey(names, have[0].0) then Strip(have[1..], names)
    else [have[0]] + Strip(have[1..], names)
  }

  /** The copy after `server_config[k].pop(n, None)` for each declared
      entry `n` of `k`. */
  function StripKey(server: Fields, k: string, entries: Fields): Fields {
    match Get(server, k)
    case Some(Obj(f)) => Set(server, k, Obj(Strip(f, entries)))
    case _ => server
  }

  /** The live state once the PUT phase has popped what the desired state
      declares: a declared depth-0 key is gone, a declared depth-1 key keeps
      only its undeclared entries, and every other key is untouched. */
  function Leftover(desired: Fields, live: Fields): Fields
    decreases |live|
  {
    if live == [] then []
    else
      var k, v := live[0].0, live[0].1;
      var rest := Leftover(desired, live[1..]);
      match Get(desired, k)
      case None => [(k, v)] + rest
      case Some(w) =>
        if Atomic(k) then rest
        else if v.Obj? && w.Obj? then [(k, Obj(Strip(v.fields, w.fields)))] + rest
        else [(k, v)] + rest
  }

  lemma {:induction false} StripNothing(have: Fields)
    ensures Strip(have, []) == have
  {
    if have != [] {
      StripNothing(have[1..]);
    }
  }

  /** Declaring one more name pops one more entry. */
  lemma {:induction false} StripOneMore(have: Fields, names: Fields, n: string, w: Json)
    ensures Strip(have, names + [(n, w)]) == Remove(Strip(have, names), n)
  {
    if have != [] {
      KeysAppend(names, [(n, w)]);
      StripOneMore(have[1..], names, n, w);
    }
  }

  lemma {:induction false} GetStrip(have: Fields, names: Fields, n: string)
    requires !HasKey(names, n)
    ensures Get(Strip(have, names), n) == Get(have, n)
  {
    if have != [] {
      GetStrip(have[1..], names, n);
    }
  }

  /** Popping one more declared entry of `k` from the copy. */
  lemma StripKeyOneMore(server: Fields, k: string, done: Fields, n: string, w: Json)
    requires LiveEntries(server, k).Some?
    ensures StripKey(server, k, done + [(n, w)]) ==
      if HasKey(server, k) then Set(server, k, Obj(Remove(Strip(LiveEntries(server, k).value, done), n)))
      else server
  {
    if HasKey(server, k) {
      StripOneMore(LiveEntries(server, k).value, done, n, w);
    }
  }

  /** One more declared key, as seen by a live key. */
  lemma GetDeclaredAppend(desired: Fields, k: string, v: Json, x: string)
    ensures Get(desired + [(k, v)], x) ==
      if HasKey(desired, x) then Get(desired, x) else if x == k then Some(v) else None
  {
    GetAppend(desired, [(k, v)], x);
  }

  lemma {:induction false} LeftoverNothing(live: Fields)
    ensures Leftover([], live) == live
  {
    if live != [] {
      LeftoverNothing(live[1..]);
    }
  }

  /** A live key the desired state does not declare is left as it is. */
  lemma {:induction false} GetLeftover(desired: Fields, live: Fields, k: string)
    requires !HasKey(desired, k)
    ensures Get(Leftover(desired, live), k) == Get(live, k)
  {
    if live != [] {
      var rest := Leftover(desired, live[1..]);
      GetLeftover(desired, live[1..], k);
      var out := Leftover(desired, live);
      if live[0].0 == k {
        assert out == [live[0]] + rest;
      } else {
        assert out == rest || (out == [(live[0].0, out[0].1)] + rest && out[0].0 != k);
      }
    }
  }

  lemma {:induction false} LeftoverAbsent(desired: Fields, live: Fields, k: string, v: Json)
    requires !HasKey(desired, k) && !HasKey(live, k)
    ensures Leftover(desired + [(k, v)], live) == Leftover(desired, live)
  {
    if live != [] {
      GetDeclaredAppend(desired, k, v, live[0].0);
      LeftoverAbsent(desired, live[1..], k, v);
    }
  }

  /** Declaring a depth-0 key pops it. */
  lemma {:induction false} LeftoverAtomic(desired: Fields, live: Fields, k: string, v: Json)
    requires !HasKey(desired, k) && Atomic(k)
    ensures Leftover(desired + [(k, v)], live) == Remove(Leftover(desired, live), k)
  {
    if live != [] {
      GetDeclaredAppend(desired, k, v, live[0].0);
      LeftoverAtomic(desired, live[1..], k, v);
    }
  }

  lemma StripKeyCons(e: (string, Json), rest: Fields, k: string, entries: Fields)
    requires e.0 != k
    ensures StripKey([e] + rest, k, entries) == [e] + StripKey(rest, k, entries)
  {
    GetCons(e, rest, k);
    assert ([e] + rest)[1..] == rest;
  }

  /** Declaring a depth-1 key pops its declared entries. */
  lemma {:induction false} LeftoverEntries(desired: Fields, live: Fields, k: string, v: Json)
    requires !HasKey(desired, k) && !Atomic(k) && v.Obj? && DistinctKeys(live)
    ensures Leftover(desired + [(k, v)], live) == StripKey(Leftover(desired, live), k, v.fields)
  {
    if live != [] {
      var x := live[0].0;
      GetDeclaredAppend(desired, k, v, x);
      DistinctKeysTail(live);
      if x == k {
        LeftoverAbsent(desired, live[1..], k, v);
        GetCons(live[0], Leftover(desired, live[1..]), k);
      } else {
        LeftoverEntries(desired, live[1..], k, v);
        var rest := Leftover(desired, live[1..]);
        if Get(desired, x).Some? && !Atomic(x) {
          var w := Get(desired, x).value;
          var head := if live[0].1.Obj? && w.Obj? then (x, Obj(Strip(live[0].1.fields, w.fields))) else live[0];
          StripKeyCons(head, rest, k, v.fields);
        } else if Get(desired, x).None? {
          StripKeyCons(live[0], rest, k, v.fields);
        }
      }
    }
  }

  lemma StripKeyNothing(server: Fields, k: string)
    ensures StripKey(server, k, []) == server
  {
    if Get(server, k).Some? && Get(server, k).value.Obj? {
      StripNothing(Get(server, k).value.fields);
      SetSame(server, k, Get(server, k).value);
    }
  }

  /** Once the PUT phase has stopped, later keys send nothing. */
  lemma {:induction false} PutRunStops(desired: Fields, live: Fields, j: nat)
    requires j <= |desired| && PutRun(desired[..j], live).outcome.Stop?
    ensures PutRun(desired, live) == PutRun(desired[..j], live)
    decreases |desired|
  {
    if j < |desired| {
      var n := |desired| - 1;
      assert desired[..n][..j] == desired[..j];
      PutRunStops(desired[..n], live, j);
    } else {
      assert desired[..j] == desired;
    }
  }

  // --------------------------------------------------------- DELETE phase

  function EntryDeletes(k: string, f: Fields): seq<Op>
    decreases |f|
  {
    if f == [] then []
    else EntryDeletes(k, f[..|f| - 1]) + [Delete(Entry(k, f[|f| - 1].0))]
  }

  /** The deletions for one key left over: the key itself at depth 0, each
      of its entries at depth 1; a key outside the table raises KeyError,
      a depth-1 value that is not a dict raises on `.items()`. */
  function KeyDeletes(k: string, v: Json): Result<seq<Op>> {
    match Schema.Lookup(k)
    case None => Fail(Crash)
    case Some(e) =>
      if e.depth == 0 then Ok([Delete(Top(k))])
      else if v.Obj? then Ok(EntryDeletes(k, v.fields))
      else Fail(Crash)
  }

  /** The second loop of `do_apply_config`, over what is left. */
  function DeleteRun(left: Fields): Run
    decreases |left|
  {
    if left == [] then Run([], Pass)
    else
      var n := |left| - 1;
      var p := DeleteRun(left[..n]);
      if p.outcome.Stop? then p
      else
        match KeyDeletes(left[n].0, left[n].1)
        case Fail(e) => Run(p.ops, Stop(e))
        case Ok(ops) => Run(p.ops + ops, Pass)
  }

  /** Both loops: the DELETE phase runs on what the PUT phase left. */
  function Reconcile(desired: Fields, live: Fields): Run {
    var p := PutRun(desired, live);
    if p.outcome.Stop? then p
    else
      var d := DeleteRun(Leftover(desired, live));
      Run(p.ops + d.ops, d.outcome)
  }

  /** Once the DELETE phase has stopped, later keys send nothing. */
  lemma {:induction false} DeleteRunStops(left: Fields, j: nat)
    requires j <= |left| && DeleteRun(left[..j]).outcome.Stop?
    ensures DeleteRun(left) == DeleteRun(left[..j])
    decreases |left|
  {
    if j < |left| {
      var n := |left| - 1;
      assert left[..n][..j] == left[..j];
      DeleteRunStops(left[..n], j);
    } else {
      assert left[..j] == left;
    }
  }

  /** One more desired key is one more step of the first loop. */
  lemma PutRunNext(desired: Fields, live: Fields, i: nat)
    requires i < |desired|
    ensures PutRun(desired[..i + 1], live) ==
      var p := PutRun(desired[..i], live);
      if p.outcome.Stop? then p
      else
        match KeyPuts(desired[i].0, desired[i].1, live)
        case Fail(e) => Run(p.ops, Stop(e))
        case Ok(ops) => Run(p.ops + ops, Pass)
  {
    assert desired[..i + 1][..i] == desired[..i];
  }

  /** What one more desired key takes out of the leftover state, and that
      the keys before it leave its live value alone. */
  lemma LeftoverNext(desired: Fields, live: Fields, i: nat)
    requires Merge.Shaped(desired) && DistinctKeys(live) && i < |desired|
    ensures Get(Leftover(desired[..i], live), desired[i].0) == Get(live, desired[i].0)
    ensures KeyPuts(desired[i].0, desired[i].1, Leftover(desired[..i], live)) == KeyPuts(desired[i].0, desired[i].1, live)
    ensures Atomic(desired[i].0) ==>
      Leftover(desired[..i + 1], live) == Remove(Leftover(desired[..i], live), desired[i].0)
    ensures !Atomic(desired[i].0) ==>
      (desired[i].1.Obj? &&
       Leftover(desired[..i + 1], live) == StripKey(Leftover(desired[..i], live), desired[i].0, desired[i].1.fields))
  {
    var k, v := desired[i].0, desired[i].1;
    assert desired[..i + 1] == desired[..i] + [(k, v)];
    assert Merge.EntryShaped(k, v);
    FreshKey(desired, i);
    GetLeftover(desired[..i], live, k);
    if Atomic(k) {
      LeftoverAtomic(desired[..i], live, k, v);
    } else {
      LeftoverEntries(desired[..i], live, k, v);
    }
  }
}
