# unitconfig — a verified model of the reconciliation core

`unitconfig.py` keeps the configuration of a running NGINX Unit server in step with a
directory of JSON fragments. It has three parts, and this project models each in Dafny:

1. **The fragment merge.** `get_filesconfig` reads the fragments in file-name order. Each
   top-level key must be one of six schema keys and of the schema's type. Each key is
   folded into one desired-state tree by its own merge helper: `access_log` must be unique,
   `listeners` / `applications` / `upstreams` are unions in which every entry must be new,
   `routes` are appended, and `settings` allows only `http`, merged field by field.
2. **The reconciliation.** `do_apply_config` compares the desired tree with the live tree
   fetched from the server. It sends a `PUT` for every difference: a whole key at depth 0,
   one entry at depth 1. It pops everything the fragments declare from its copy of the live
   tree, then sends a `DELETE` for whatever is left.
3. **The HTTP text.** `http_request` and `json_request` build the HTTP/1.0 request text,
   find the status code with a regular expression, take the body after the first blank
   line, and reject any status other than 200.

Every `exit(...)` and every uncaught exception ends the run. They are modelled as one
`Failure` value: `SchemaError`, `ConflictError`, `HttpError`, or `Crash` for a `KeyError`,
`AttributeError`, `TypeError` or `ValueError`. JSON is the datatype `Json.Json`. Numbers
in it are integers. An object is an association list in insertion order, because dict
order decides the order of the requests sent. Python's `==` on decoded JSON is
`Json.Equal`, which ignores key order as CPython's dict comparison does.

Layout (one module per component):

- `json.dfy`: `Results` (Option / Result / Outcome, and `Fold`, a fold that stops at the
  first failure) and `Json` (values, `d.get`, `d[k] = v`, `d.pop`, equality).
- `schema.dfy`: the `SCHEMA_CONFIG_KEYS` table.
- `listing.dfy`: `sorted(os.listdir(...))` as a sort by Python string order.
- `merge.dfy`: the merge helpers and the fold as functions. These are the specification.
- `files_config.dfy`: the same helpers as the program runs them. A `FilesConfig` object
  holds the dictionary `total_data` and is updated in place by loops. Each method is proved
  equal to its function in `Merge`.
- `messages.dfy`: Python's `%` formatting, only as far as it decides whether the
  conflict message of `_str_unique` can be built at all.
- `reconcile.dfy`: reference definitions of the requests of both loops. They read only the
  original live tree.
- `apply_config.dfy`: the two loops as methods. They pop from a copy of the live tree and
  append to a request log, and are proved to send exactly the reference requests.
- `reconcile_facts.dfy`: what the requests are, key by key and entry by entry.
- `effect.dfy`: what the requests do to a server (used for a finding below).
- `http.dfy`: the request text, the status-line pattern, the body offset, the 200 check.
- `program.dfy`: `do_apply_config` from end to end. The GET comes first, then the merge,
  then the requests, each of which must be accepted.

## Model

| member | source | states |
|---|---|---|
| `Schema.Lookup` | unitconfig.py:132-139 | exactly the six schema keys are known; only the three map-union keys have apply depth 1; every key's type is the one its merge function takes; only `settings` uses the settings merge |
| `Merge.StrUnique` | unitconfig.py:87-90 | `access_log` merges exactly when the key is absent or holds an equal value, and then holds the fragment's value with every other key unchanged; a different value is a conflict |
| `Merge.StrUniqueRepeat` | unitconfig.py:87-90 | merging the value already held leaves the whole tree unchanged |
| `FilesConfigs.FilesConfig.StrUnique` | unitconfig.py:87-90 | the in-place helper leaves the dictionary as `Merge.StrUnique` says, or stops with its failure |
| `Merge.DictUniqueKey` | unitconfig.py:93-99 | a map-union merge succeeds exactly when no inner key of the fragment is already merged; the key then holds the old entries followed by the fragment's, in order (`{}` when it was absent); otherwise it is a conflict |
| `Merge.DictUniqueKeyRepeat` | unitconfig.py:96-98 | merging the same non-empty fragment a second time is a conflict, even though the values are equal |
| `FilesConfigs.UnionEntries` | unitconfig.py:96-99 | the loop over the fragment's entries returns the old entries followed by the new ones, or a conflict exactly when some key was already there |
| `FilesConfigs.FilesConfig.DictUniqueKey` | unitconfig.py:93-99 | the in-place helper leaves the dictionary as `Merge.DictUniqueKey` says |
| `Merge.ListAppend` | unitconfig.py:102-105 | `routes` becomes the old list (`[]` when absent) followed by the fragment's list; other keys are unchanged |
| `Merge.ListAppendTwice` | unitconfig.py:102-105 | appending one fragment twice to an absent key gives the list twice: no deduplication |
| `FilesConfigs.FilesConfig.ListAppend` | unitconfig.py:102-105 | the in-place `+=` leaves the dictionary as `Merge.ListAppend` says |
| `Merge.PyMax` | unitconfig.py:114 | `max` of two integers is one of them and at least both; on anything else the comparison fails |
| `Merge.FieldRule` | unitconfig.py:109-116 | a new `http` field is copied; a repeated timeout or `max_body_size` becomes the larger value; a repeated `discard_unsafe_fields` or `static` is a conflict whatever the values; any other repeated field keeps its first value |
| `Merge.HttpFieldRule` | unitconfig.py:109-116 | one step of the loop gives exactly what `FieldRule` gives for its field and changes no other field |
| `Merge.SettingsHttpSucceeds` | unitconfig.py:108-116 | the `http` loop succeeds exactly when every field of the fragment passes its rule |
| `Merge.SettingsHttpFieldwise` | unitconfig.py:108-116 | the whole `http` loop succeeds exactly when every field's rule does, and then every field holds what its rule gives (fields of the fragment are merged independently) |
| `FilesConfigs.MergeHttp` | unitconfig.py:108-116 | the loop of `__dict_settings_http` computes the fold of the field rule |
| `Merge.SettingsOnlyHttp` | unitconfig.py:122-128 | any `settings` sub-key other than `http` makes the merge fail |
| `FilesConfigs.MergeSettings` | unitconfig.py:119-128 | the loop of `_dict_settings` computes the settings fold |
| `FilesConfigs.FilesConfig.DictSettings` | unitconfig.py:119-128 | the in-place helper leaves the dictionary as the settings merge says |
| `FilesConfigs.FilesConfig.MergeEntry` | unitconfig.py:155-161 | a key outside the schema or of the wrong type is a schema error; otherwise exactly the key's own merge function runs |
| `FilesConfigs.FilesConfig.MergeDocument` | unitconfig.py:155-161 | the loop over one fragment's keys folds them in the fragment's order and stops at the first failure |
| `Merge.BadKeyAborts` | unitconfig.py:155-160 | a key outside the schema, or of the wrong type, anywhere in a fragment makes the fragment fail |
| `Merge.InvalidFileAborts` | unitconfig.py:149-160 | one unreadable fragment, non-object fragment or fragment with a bad key anywhere in the directory makes the whole merge fail |
| `Merge.MergeFilesShaped` | unitconfig.py:143-162 | a successful merge yields a dict of schema keys, each holding a well-formed value of the schema's type (`settings` holds at most `http`) |
| `Listing.SortByName` | unitconfig.py:146 | the files are the directory's entries, in ascending Python string order |
| `FilesConfigs.MergeListing` | unitconfig.py:145-162 | the loop over the sorted files computes the fold of all fragments and keeps the tree in shape |
| `FilesConfigs.GetFilesConfig` | unitconfig.py:143-162 | `get_filesconfig` is the fold of the fragments in file-name order |
| `Apply.PutEntries` | unitconfig.py:230-240 | the inner loop sends the entry requests of the reference definition and pops every declared entry from the copy; a live value that is not a dict crashes it |
| `Apply.PutEntry` | unitconfig.py:230-240 | one pass of the inner loop: it crashes exactly when the live value of the key is not a dict, otherwise it sends the entry's request of the reference definition and pops that entry from the copy |
| `Apply.PutKey` | unitconfig.py:221-240 | one desired key: a depth-0 key is compared and popped, a depth-1 key goes entry by entry; the requests are those of the reference definition |
| `Apply.PutPhase` | unitconfig.py:220-240 | the first loop sends the reference PUT requests and leaves the copy as the reference leftover |
| `Apply.DeletePhase` | unitconfig.py:243-251 | the second loop sends a DELETE for each depth-0 key left and for each entry of each depth-1 key left; a key outside the schema crashes it |
| `Apply.ApplyConfig` | unitconfig.py:220-251 | both loops send exactly the reference requests of the run, and end as it ends |
| `Reconcile.LeftoverNext` | unitconfig.py:228-240 | declaring one more key pops a depth-0 key whole and strips the declared entries of a depth-1 key; earlier keys leave its live value alone |
| `ReconcileFacts.TopPut` | unitconfig.py:222-225 | a depth-0 key is PUT, with its desired value, exactly when it is declared and its value differs under `==` from the live one, a missing live key reading as `null` |
| `ReconcileFacts.TopDelete` | unitconfig.py:243-247 | a depth-0 key is DELETEd exactly when it is live and not declared |
| `ReconcileFacts.EntryPut` | unitconfig.py:229-236 | an entry of a depth-1 key is PUT, with its desired value, exactly when it is declared and its value differs under `==` from the live one, a missing live entry reading as `null` (so a declared `null` that is absent live is not sent) |
| `ReconcileFacts.ContainerPut` | unitconfig.py:232-234 | a whole depth-1 key is PUT only as `{}` and only when the live tree lacks it |
| `ReconcileFacts.AbsentKeyPuts` | unitconfig.py:231-236 | for a depth-1 key the live tree lacks, each entry PUT comes immediately after a PUT of `{}` to the key, both among the key's own requests and in the whole request sequence of the run (no request about another key comes between them) |
| `ReconcileFacts.KeyEntryDelete` | unitconfig.py:243-251 | among the DELETEs about a depth-1 key, the one for entry `n` is present exactly when `n` is live and not declared |
| `ReconcileFacts.EntryDelete` | unitconfig.py:243-251 | an entry of a depth-1 key is DELETEd exactly when it is live and not declared; a depth-1 key itself is never DELETEd |
| `ReconcileFacts.PutsFirst` | unitconfig.py:220-251 | every PUT of a run comes before every DELETE |
| `ReconcileFacts.PutRunFor` | unitconfig.py:220-240 | the PUTs about each key are exactly those of that key's own comparison; an undeclared key gets none |
| `ReconcileFacts.DeleteRunFor` | unitconfig.py:243-251 | the DELETEs about each leftover key are exactly that key's deletions; other keys get none |
| `ReconcileFacts.UnknownLiveKey` | unitconfig.py:244 | a live key outside the schema ends the run with a crash (KeyError) after all its PUTs |
| `ReconcileFacts.InSync` | unitconfig.py:220-251 | a well-formed live tree equal to the desired tree under Python's `==`, in any key order, receives no request, and the run ends well |
| `ReconcileFacts.NullEntryQuiet` | unitconfig.py:231 | a listener declared `null` that the server lacks sends nothing, not even the `{}` for the absent key |
| `Json.EqualSymmetric` | unitconfig.py:222 | the `==` of decoded JSON is symmetric on well-formed values, so which side of a comparison is the live one does not matter |
| `Effect.ContainerPutWipes` | unitconfig.py:231-236 | as written, a depth-1 key absent live ends, on a server, with only the last of its declared entries that are not `null` |
| `Effect.TwoListeners` | unitconfig.py:231-236 | two new listeners, the second not `null`: after the run only the second is on the server |
| `Effect.OnceKeepsAll` | unitconfig.py:231-236 | with `{}` sent only before the first entry written, every declared entry that is not `null` ends on the server, in order, and a key with none is not created |
| `Effect.OnceWhenPresent` | unitconfig.py:231-236 | for a key the server has, the corrected loop sends exactly what the loop as written sends |
| `Merge.StrUniqueAsWrittenCrashes` | unitconfig.py:89 | as written, an `access_log` conflict raises ValueError from `%S` instead of exiting with its message |
| `Merge.StrUniqueIntended` | unitconfig.py:87-90 | with `%s`, the helper is exactly the conflict check `Merge.StrUnique` |
| `Messages.StrUniqueMessageFails` | unitconfig.py:89 | the conflict message as written cannot be formatted, whatever the values |
| `Http.RequestText` | unitconfig.py:180 | the request starts with the verb and a space and ends with the body (empty when there is none) |
| `Http.RequestRoundTrip` | unitconfig.py:180 | a request whose verb and path hold no space is read back as that verb, path and body |
| `Program.RequestOfRead` | unitconfig.py:204-208 | the request text of a PUT or DELETE is read back as its method, its `/config/...` path and its body; a PUT of `null` and a DELETE send an empty body, because `json_request` dumps only a body that is not `None` |
| `Http.MatchAtComplete` | unitconfig.py:172 | every way the status pattern can match at a position gives the group computed there |
| `Http.MatchAtSound` | unitconfig.py:172 | what is computed at a position is a match of the status pattern |
| `Http.FirstMatch` | unitconfig.py:197 | the search returns the leftmost position where the pattern matches, or none when it matches nowhere |
| `Http.DecimalRoundTrip` | unitconfig.py:200 | `int` of the decimal digits of a number is the number |
| `Http.StatusOfResponse` | unitconfig.py:197-200 | the status code read from a server's status line is the code written in it |
| `Http.Find` | unitconfig.py:201 | `find` returns the first index where the separator occurs, or -1 when it occurs nowhere |
| `Http.Body` | unitconfig.py:201-203 | the body is a suffix of the response text |
| `Http.BodyAfterHead` | unitconfig.py:201-203 | for a head without a blank line, the body is exactly the text after the head's blank line |
| `Http.BodyWithoutBlankLine` | unitconfig.py:201-203 | without a blank line, the body is the text from offset 3 (empty for shorter text) |
| `Http.Response` | unitconfig.py:197-203 | the response fails exactly when the status pattern matches nowhere; otherwise its body is `Body` |
| `Http.Reply` | unitconfig.py:209-211 | a reply is accepted exactly when its status code is 200, and then gives the body |
| `Http.ReplyOfResponse` | unitconfig.py:197-211 | a server's response is accepted, with its body, exactly when its code is 200 |
| `Program.Answer` | unitconfig.py:209-212 | a request is accepted exactly when its status is 200 and its body is JSON; a status other than 200 is an HTTP error |
| `Program.Deliver` | unitconfig.py:225-251 | the requests sent are a prefix of those the loops list; a run that ends well sent all of them |
| `Program.DeliverAll` | unitconfig.py:209-211 | when every request is accepted, all are sent and the run ends as the loops end |
| `Program.DeliverRefused` | unitconfig.py:209-211 | the first request not accepted is the last one sent, and its answer ends the run |
| `Program.DoApplyConfig` | unitconfig.py:215-253 | the GET comes first, so a failed GET ends the run with no request whatever the fragments hold; a fragment that cannot be merged ends the run before any write; otherwise the run is the reconciliation cut at the first refused request |
| `Program.SecondRunQuiet` | unitconfig.py:215-253 | when the configuration the server returns equals the merged one under Python's `==`, whatever its key order, a run sends no request and ends well |

## Findings

| source | as written | input that shows it | evidently intended | confidence | as-written member | corrected member |
|---|---|---|---|---|---|---|
| unitconfig.py:89 | the conflict message uses `%S`, which `%` formatting rejects with ValueError | fragment A sets `access_log` to `"a.log"`, fragment B to `"b.log"` | `%s`: exit with a message naming both values | high, not executed | `Merge.StrUniqueAsWrittenCrashes` | `Merge.StrUniqueIntended` |
| unitconfig.py:231-236 | `PUT /config/<k> {}` is sent before every differing entry of a key the live tree lacks, and the live copy is never updated, so each such PUT replaces the entries written before it | no live `listeners`; the fragments declare `*:80` and `*:81`, neither `null` | create the container once, before the first entry | medium (assumes a PUT replaces the whole object, as the control API documents), not executed | `Effect.ContainerPutWipes` | `Effect.OnceKeepsAll` |

For the first row, the merge in the rest of the model is the corrected `Merge.StrUnique`.
Both outcomes end the run, so the model keeps one terminal failure either way. For the
second row, the request model (`Reconcile`, `Apply`, `ReconcileFacts`) keeps the loop as
written, because it lists the requests the program sends. `Effect.EntryOpsOnce` is the
corrected loop. `Effect.OnceWhenPresent` shows that it differs only for keys absent live.

Where the specification of the system and the code disagree, the model follows the code:

- Repeating an identical map-union fragment is a conflict (`Merge.DictUniqueKeyRepeat`), not a no-op.
- The container PUT is sent before every differing entry of an absent key, not only the first.
- With no blank line in a response, the body starts at offset 3. This is not treated as an error.

## Left out

- Command-line parsing, socket-path discovery, `_print` verbosity, `app_restart` and `show_config` are not part of this model. They are glue, stat calls, a single RPC and pretty-printing.
- The socket connect, send and receive loop is not modelled. The text received for each request is an input (`getReply`, `replies`), and decoding the bytes as UTF-8 is assumed to succeed.
- `os.listdir`, `open` and `json.load` are not modelled. The directory is an input list of (file name, parsed document or None). An entry that cannot be opened (a sub-directory, say) is not modelled.
- `json.loads` and `json.dumps` are function parameters, `loads` and `dumps`. Their text formats are not modelled.
- The wording of error messages is not modelled. Each `exit` is one `Failure` value. The only exception is the `%S` finding, where formatting decides whether `exit` is reached.
- Merge.PyMax: only integers are compared. Python's `max` of two strings or two lists, and floats, are modelled as a failure.
- Json.Equal: `True == 1`, `1 == 1.0` and other mixed-type equalities of Python are not modelled. Numbers are integers and booleans are a separate case.
- Http.In: `\d` is the ASCII digits and `\s` the ASCII whitespace together with the separators `\x1c`-`\x1f`. Python's `str` patterns also match non-ASCII digits and spaces (the Unicode classes).
- Program.Deliver: a refused request stops the run after the requests before it. The server's state after a partial run is modelled only in `Effect`.
