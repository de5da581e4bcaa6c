/** `do_apply_config` from end to end: the GET of the live configuration
    comes first, then the merge of the fragments, then the requests of the
    two loops, each of which must be answered with status 200 and a JSON
    body. The loops never read an answer (`json_request`'s result is
    dropped), so the requests a run sends are those the loops list, cut
    short at the first one that is not accepted. */
module Program {
  import opened Results
  import opened Json
  import Merge
  import Listing
  import Http
  import opened Reconcile
  import FilesConfigs
  import Apply
  import ReconcileFacts

  /** How one `json_request` ends, given the text received: `loads`
      stands for `json.loads` (None when the text is not JSON). */
  function Answer(reply: string, loads: string -> Option<Json>): (r: Outcome)
    ensures r.Pass? <==> Http.StatusCode(reply) == Some(200) && loads(Http.Body(reply)).Some?
    ensures r.Stop? && Http.StatusCode(reply) != Some(200) ==> r.failure == HttpError
  {
    match Http.Reply(reply)
    case Fail(e) => Stop(e)
    case Ok(body) => if loads(body).None? then Stop(Crash) else Pass
  }

  /** The method of a request the loops send. */
  function Verb(op: Op): string {
    if op.Put? then "PUT" else "DELETE"
  }

  /** What `json_request` hands to `http_request`: `json.dumps` of the body
      (`dumps` stands for it), or nothing at all for a DELETE and for a PUT
      of `null`, whose body is Python's `None` and so is never dumped. */
  function Data(op: Op, dumps: Json -> string): Option<string> {
    if op.Put? && !op.body.Null? then Some(dumps(op.body)) else None
  }

  /** The text sent for one request of the loops. */
  function RequestOf(op: Op, dumps: Json -> string): string {
    Http.RequestText(Verb(op), Path(op.target), Data(op, dumps))
  }

  /** A request for keys and entry names without spaces is read back as its
      method, its `/config/...` path and its body; a PUT of `null` and a
      DELETE carry an empty body. */
  lemma RequestOfRead(op: Op, dumps: Json -> string)
    requires ' ' !in op.target.key && (op.target.Entry? ==> ' ' !in op.target.name)
    ensures Http.ParseRequest(RequestOf(op, dumps)) ==
      Some((Verb(op), Path(op.target), if op.Put? && !op.body.Null? then dumps(op.body) else ""))
  {
    var p := Path(op.target);
    assert ' ' !in p by {
      if op.target.Entry? {
        assert p == "/config/" + op.target.key + "/" + op.target.name;
      }
    }
    Http.RequestRoundTrip(Verb(op), p, Data(op, dumps));
  }

  /** How each request after the GET ends. */
  function Answers(replies: nat -> string, loads: string -> Option<Json>): nat -> Outcome {
    (k: nat) => Answer(replies(k), loads)
  }

  /** The requests from number `i` on, sent one at a time: `answer(k)` is
      how request `k` ends, and the first request not accepted ends the
      run; once all are accepted the run ends as `end`. */
  function Deliver(ops: seq<Op>, end: Outcome, answer: nat -> Outcome, i: nat): (r: Run)
    requires i <= |ops|
    ensures |r.ops| <= |ops| - i && r.ops == ops[i..i + |r.ops|]
    ensures r.outcome.Pass? ==> r.ops == ops[i..] && end.Pass?
    decreases |ops| - i
  {
    if i == |ops| then Run([], end)
    else
      if answer(i).Stop? then Run([ops[i]], answer(i))
      else
        var rest := Deliver(ops, end, answer, i + 1);
        assert [ops[i]] + ops[i + 1..i + 1 + |rest.ops|] == ops[i..i + 1 + |rest.ops|];
        assert [ops[i]] + ops[i + 1..] == ops[i..];
        Run([ops[i]] + rest.ops, rest.outcome)
  }

  /** When every request is accepted, all are sent and the run ends as the
      loops end. */
  lemma {:induction false} DeliverAll(ops: seq<Op>, end: Outcome, answer: nat -> Outcome, i: nat)
    requires i <= |ops|
    requires forall k :: i <= k < |ops| ==> answer(k).Pass?
    ensures Deliver(ops, end, answer, i) == Run(ops[i..], end)
    decreases |ops| - i
  {
    if i < |ops| {
      DeliverAll(ops, end, answer, i + 1);
      assert ops[i..] == [ops[i]] + ops[i + 1..];
    }
  }

  /** A request that is not accepted is the last one sent, and its answer
      ends the run; the requests after it are never sent. */
  lemma {:induction false} DeliverRefused(ops: seq<Op>, end: Outcome, answer: nat -> Outcome, i: nat, k: nat)
    requires i <= k < |ops| && answer(k).Stop?
    requires forall j :: i <= j < k ==> answer(j).Pass?
    ensures Deliver(ops, end, answer, i) == Run(ops[i..k + 1], answer(k))
    decreases k - i
  {
    if i < k {
      DeliverRefused(ops, end, answer, i + 1, k);
      assert ops[i..k + 1] == [ops[i]] + ops[i + 1..k + 1];
    }
  }

  /** The whole of `do_apply_config`: `getReply` is the text received for
      `GET /config`, `listing` the directory as `json.load` read it. */
  function ApplyRun(getReply: string, loads: string -> Option<Json>, listing: seq<(string, Option<Json>)>, replies: nat -> string): Run {
    match Http.Reply(getReply)
    case Fail(e) => Run([], Stop(e))
    case Ok(body) =>
      match loads(body)
      case None => Run([], Stop(Crash))
      case Some(live) =>
        match Merge.MergeFiles(Listing.SortByName(listing))
        case Fail(e) => Run([], Stop(e))
        case Ok(desired) =>
          // `.get` on a live value that is not a dict raises before any request
          if !live.Obj? then Run([], Stop(Crash))
          else
            var plan := Reconcile.Reconcile(desired, live.fields);
            Deliver(plan.ops, plan.outcome, Answers(replies, loads), 0)
  }

  /** `do_apply_config`. */
  method DoApplyConfig(getReply: string, loads: string -> Option<Json>, listing: seq<(string, Option<Json>)>, replies: nat -> string)
    returns (sent: seq<Op>, outcome: Outcome)
    requires Merge.Loaded(listing)
    requires forall s :: loads(s).Some? ==> WellFormed(loads(s).value)
    ensures Run(sent, outcome) == ApplyRun(getReply, loads, listing, replies)
    // the live state is read before the fragments: a failed GET ends the
    // run whatever the fragments hold
    ensures Http.Reply(getReply).Fail? ==> sent == [] && outcome == Stop(HttpError)
    // a fragment that cannot be merged ends the run before any write
    ensures Merge.MergeFiles(Listing.SortByName(listing)).Fail? ==> sent == [] && outcome.Stop?
  {
    var got := Http.Reply(getReply);
    if got.Fail? {
      return [], Stop(got.failure);
    }
    var doc := loads(got.value);
    if doc.None? {
      return [], Stop(Crash);
    }
    var desired := FilesConfigs.GetFilesConfig(listing);
    if desired.Fail? {
      return [], Stop(desired.failure);
    }
    var live := doc.value;
    if !live.Obj? {
      return [], Stop(Crash);
    }
    var plan, end := Apply.ApplyConfig(desired.value, live.fields);
    var run := Deliver(plan, end, Answers(replies, loads), 0);
    sent, outcome := run.ops, run.outcome;
  }

  /** A second run right after a run that brought the server to the
      desired state, with the same fragments, sends no request: the live
      configuration only has to equal the merged one under Python's `==`,
      whatever order the server lists its keys in. */
  lemma SecondRunQuiet(getReply: string, loads: string -> Option<Json>, listing: seq<(string, Option<Json>)>, replies: nat -> string)
    requires Merge.Loaded(listing) && Merge.MergeFiles(Listing.SortByName(listing)).Ok?
    requires Http.Reply(getReply).Ok? && loads(Http.Reply(getReply).value).Some?
    requires WellFormed(loads(Http.Reply(getReply).value).value)
    requires Equal(loads(Http.Reply(getReply).value).value, Obj(Merge.MergeFiles(Listing.SortByName(listing)).value))
    ensures ApplyRun(getReply, loads, listing, replies) == Run([], Pass)
  {
    var files := Listing.SortByName(listing);
    Merge.LoadedPermutation(listing, files);
    Merge.MergeFilesShaped(files);
    var live := loads(Http.Reply(getReply).value).value;
    assert live.Obj?;
    ReconcileFacts.InSync(Merge.MergeFiles(files).value, live.fields);
  }
}
