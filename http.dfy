/** The text of the HTTP/1.0 exchange of `http_request` and the status
    check of `json_request`. The socket is not modelled: the request is the
    text that would be sent, and the response is the text received until
    the server closed the connection. */
module Http {
  import opened Results

  // ------------------------------------------------------------- request

  /** The protocol version, the `Host` and `Connection` headers and the
      blank line that follow the path. */
  const Headers := "HTTP/1.0\nHost: none\nConnection: close\n\n"

  /** `data or ""`. */
  function BodyText(data: Option<string>): string {
    if data.Some? then data.value else ""
  }

  /** The request `http_request` sends: the request line, two headers, a
      blank line, and the body if there is one (there is no
      `Content-Length`: the body ends where the text ends). */
  function RequestText(verb: string, path: string, data: Option<string>): (r: string)
    ensures |r| == |verb| + |path| + 2 + |Headers| + |BodyText(data)|
    ensures r[..|verb|] == verb && r[|verb|] == ' '
    ensures r[|r| - |BodyText(data)|..] == BodyText(data)
  {
    verb + " " + path + " " + Headers + BodyText(data)
  }

  /** The index of the first `c` in `s`, or `|s|` when there is none. */
  function IndexOf(s: string, c: char): (r: nat)
    ensures r <= |s|
    ensures forall i :: 0 <= i < r ==> s[i] != c
    ensures r < |s| ==> s[r] == c
  {
    if s == [] || s[0] == c then 0 else 1 + IndexOf(s[1..], c)
  }

  /** The text before the first `c` and the text after it, if there is one. */
  function SplitAt(s: string, c: char): Option<(string, string)> {
    var i := IndexOf(s, c);
    if i == |s| then None else Some((s[..i], s[i + 1..]))
  }

  /** How a receiver splits a request text back into verb, path and
      body: the verb ends at the first space, the path at the next one,
      and the fixed headers must follow. */
  function ParseRequest(t: string): Option<(string, string, string)> {
    match SplitAt(t, ' ')
    case None => None
    case Some((verb, rest)) =>
      match SplitAt(rest, ' ')
      case None => None
      case Some((path, tail)) =>
        if |tail| < |Headers| || tail[..|Headers|] != Headers then None
        else Some((verb, path, tail[|Headers|..]))
  }

  lemma SplitAtFirst(a: string, c: char, b: string)
    requires c !in a
    ensures SplitAt(a + [c] + b, c) == Some((a, b))
  {
    var s := a + [c] + b;
    assert s[|a|] == c;
    assert IndexOf(s, c) == |a|;
    assert s[..|a|] == a && s[|a| + 1..] == b;
  }

  /** A request whose verb and path hold no space is read back as the
      verb, the path and the body it was built from. */
  lemma RequestRoundTrip(verb: string, path: string, data: Option<string>)
    requires ' ' !in verb && ' ' !in path
    ensures ParseRequest(RequestText(verb, path, data)) == Some((verb, path, BodyText(data)))
  {
    var body := BodyText(data);
    var tail := Headers + body;
    assert RequestText(verb, path, data) == verb + [' '] + (path + [' '] + tail);
    SplitAtFirst(verb, ' ', path + [' '] + tail);
    SplitAtFirst(path, ' ', tail);
    assert tail[..|Headers|] == Headers && tail[|Headers|..] == body;
  }

  // ------------------------------------------------------ the status line

  /** The character classes of the status pattern, over ASCII: `\d`, the
      version's `[\d\.]` and `\s`. */
  datatype Class = Digit | VersionChar | Space

  predicate In(c: char, cls: Class) {
    match cls
    case Digit => '0' <= c <= '9'
    case VersionChar => '0' <= c <= '9' || c == '.'
    case Space =>
      c == ' ' || c == '\t' || c == '\n' || c == '\r' || c == '\U{000B}' || c == '\U{000C}' ||
      c == '\U{001C}' || c == '\U{001D}' || c == '\U{001E}' || c == '\U{001F}'
  }

  /** The end of the longest run of `cls` characters starting at `i`. */
  function Span(t: string, i: nat, cls: Class): (j: nat)
    requires i <= |t|
    ensures i <= j <= |t|
    ensures forall k :: i <= k < j ==> In(t[k], cls)
    ensures j < |t| ==> !In(t[j], cls)
    decreases |t| - i
  {
    if i < |t| && In(t[i], cls) then Span(t, i + 1, cls) else i
  }

  /** A run of `cls` from `i` to `j` that cannot be extended is the span. */
  lemma SpanIs(t: string, i: nat, j: nat, cls: Class)
    requires i <= j <= |t|
    requires forall k :: i <= k < j ==> In(t[k], cls)
    requires j < |t| ==> !In(t[j], cls)
    ensures Span(t, i, cls) == j
  {
  }

  /** `HTTP/[\d\.]+\s+(\d+)\s+` matches at `i`, with its three runs ending
      at `a`, `b` and `c`: the group is `t[b..c]`. */
  predicate Pattern(t: string, i: nat, a: nat, b: nat, c: nat) {
    && i + 5 < a < b < c < |t|
    && t[i..i + 5] == "HTTP/"
    && (forall k :: i + 5 <= k < a ==> In(t[k], VersionChar))
    && (forall k :: a <= k < b ==> In(t[k], Space))
    && (forall k :: b <= k < c ==> In(t[k], Digit))
    && In(t[c], Space)
  }

  /** The group of the pattern's match at `i`, if it matches there. Each
      run is followed by a character outside its class, so no shorter run
      can lead to a match: the longest runs are the only candidates. */
  function MatchAt(t: string, i: nat): Option<string>
    requires i <= |t|
  {
    if i + 5 > |t| || t[i..i + 5] != "HTTP/" then None
    else
      var a := Span(t, i + 5, VersionChar);
      var b := Span(t, a, Space);
      var c := Span(t, b, Digit);
      if a == i + 5 || b == a || c == b || c == |t| || !In(t[c], Space) then None
      else Some(t[b..c])
  }

  /** Every way the pattern can match at `i` gives the group `MatchAt`
      returns. */
  lemma MatchAtComplete(t: string, i: nat, a: nat, b: nat, c: nat)
    requires Pattern(t, i, a, b, c)
    ensures MatchAt(t, i) == Some(t[b..c])
  {
    SpanIs(t, i + 5, a, VersionChar);
    SpanIs(t, a, b, Space);
    SpanIs(t, b, c, Digit);
  }

  /** What `MatchAt` finds is a match of the pattern. */
  lemma MatchAtSound(t: string, i: nat)
    requires i <= |t| && MatchAt(t, i).Some?
    ensures exists a: nat, b: nat, c: nat :: Pattern(t, i, a, b, c) && MatchAt(t, i).value == t[b..c]
  {
    var a := Span(t, i + 5, VersionChar);
    var b := Span(t, a, Space);
    var c := Span(t, b, Digit);
    assert Pattern(t, i, a, b, c);
  }

  /** `re.search` from position `i`: the leftmost position where the
      pattern matches. */
  function FirstMatch(t: string, i: nat): (r: Option<nat>)
    requires i <= |t|
    ensures r.Some? ==> i <= r.value <= |t| && MatchAt(t, r.value).Some?
    ensures r.Some? ==> forall k :: i <= k < r.value ==> MatchAt(t, k).None?
    ensures r.None? ==> forall k :: i <= k <= |t| ==> MatchAt(t, k).None?
    decreases |t| - i
  {
    if MatchAt(t, i).Some? then Some(i)
    else if i == |t| then None
    else FirstMatch(t, i + 1)
  }

  /** `int(...)` of a run of decimal digits. */
  function DecimalValue(s: string): nat
    decreases |s|
  {
    if s == [] then 0
    else
      var d := s[|s| - 1] as int - '0' as int;
      DecimalValue(s[..|s| - 1]) * 10 + (if 0 <= d then d else 0)
  }

  /** `str(n)`. */
  function Decimal(n: nat): (s: string)
    ensures s != [] && forall k :: 0 <= k < |s| ==> In(s[k], Digit)
  {
    var d := [(n % 10 + '0' as int) as char];
    if n < 10 then d else Decimal(n / 10) + d
  }

  /** Reading back the digits of a number gives the number. */
  lemma {:induction false} DecimalRoundTrip(n: nat)
    ensures DecimalValue(Decimal(n)) == n
  {
    var s := Decimal(n);
    if n >= 10 {
      DecimalRoundTrip(n / 10);
      assert s[..|s| - 1] == Decimal(n / 10);
    } else {
      assert s[..|s| - 1] == [];
    }
  }

  /** The status code of a response: the digits of the first status line
      the pattern finds, or None (the program then exits). */
  function StatusCode(t: string): Option<nat> {
    match FirstMatch(t, 0)
    case None => None
    case Some(i) => Some(DecimalValue(MatchAt(t, i).value))
  }

  // ---------------------------------------------------------------- body

  const Separator := "\r\n\r\n"

  /** `pat` occurs in `s` at index `k`. */
  predicate OccursAt(s: string, pat: string, k: nat) {
    k + |pat| <= |s| && s[k..k + |pat|] == pat
  }

  /** `s.find(pat, i)`: the first index from `i` where `pat` occurs, or -1. */
  function Find(s: string, pat: string, i: nat): (r: int)
    requires i <= |s|
    ensures r == -1 || (i <= r && OccursAt(s, pat, r))
    ensures r >= 0 ==> forall k :: i <= k < r ==> !OccursAt(s, pat, k)
    ensures r == -1 ==> forall k :: i <= k ==> !OccursAt(s, pat, k)
    decreases |s| - i
  {
    if OccursAt(s, pat, i) then i
    else if i + |pat| >= |s| then -1
    else Find(s, pat, i + 1)
  }

  /** `data[data.find("\r\n\r\n") + 4:]`: the text after the first blank
      line; when there is none, `find` gives -1 and the slice starts at 3. */
  function Body(t: string): (r: string)
    ensures |r| <= |t| && r == t[|t| - |r|..]
  {
    var start := Find(t, Separator, 0) + 4;
    if start <= |t| then t[start..] else ""
  }

  /** Text that holds no blank line. */
  predicate NoBlankLine(s: string) {
    forall k :: 0 <= k <= |s| ==> !OccursAt(s, Separator, k)
  }

  /** An occurrence that ends within a common prefix is seen in both texts. */
  lemma OccursInPrefix(s: string, p: string, k: nat)
    requires |p| <= |s| && s[..|p|] == p && k + 4 <= |p|
    ensures OccursAt(s, Separator, k) <==> OccursAt(p, Separator, k)
  {
    assert s[k..k + 4] == p[k..k + 4];
  }

  /** The body is what follows the first blank line of the response: the
      head and the separator's first three characters hold no blank line. */
  lemma BodyAfterHead(head: string, body: string)
    requires NoBlankLine(head + "\r\n\r")
    ensures Body(head + Separator + body) == body
  {
    var t := head + Separator + body;
    var h := head + "\r\n\r";
    assert t[..|h|] == h;
    assert OccursAt(t, Separator, |head|);
    forall k | 0 <= k < |head| ensures !OccursAt(t, Separator, k) {
      OccursInPrefix(t, h, k);
    }
  }

  /** Without a blank line the body is the text from offset 3 on (empty
      when the text is shorter). */
  lemma BodyWithoutBlankLine(t: string)
    requires NoBlankLine(t)
    ensures Body(t) == if |t| >= 3 then t[3..] else ""
  {
    assert Find(t, Separator, 0) == -1;
  }

  // ------------------------------------------------------------- replies

  /** `http_request` once the response text is in: the status code and
      the body, or a failure when no status line is found. */
  function Response(t: string): (r: Result<(nat, string)>)
    ensures r.Fail? <==> forall k :: 0 <= k <= |t| ==> MatchAt(t, k).None?
    ensures r.Fail? ==> r.failure == HttpError
    ensures r.Ok? ==> r.value.1 == Body(t)
  {
    match StatusCode(t)
    case None => Fail(HttpError)
    case Some(code) => Ok((code, Body(t)))
  }

  /** `json_request` before `json.loads`: the body of a response with
      status 200; any other status, or no status, fails. */
  function Reply(t: string): (r: Result<string>)
    ensures r.Ok? <==> StatusCode(t) == Some(200)
    ensures r.Fail? ==> r.failure == HttpError
    ensures r.Ok? ==> r.value == Body(t)
  {
    match Response(t)
    case Fail(e) => Fail(e)
    case Ok((code, body)) => if code != 200 then Fail(HttpError) else Ok(body)
  }

  /** The status line a server writes with version `version` and code
      `code`, up to its reason phrase. */
  function StatusLine(version: string, code: nat): string {
    "HTTP/" + version + " " + Decimal(code) + " "
  }

  predicate IsVersion(version: string) {
    version != [] && forall k :: 0 <= k < |version| ==> In(version[k], VersionChar)
  }

  /** The status code of a server's response is the code it wrote. */
  lemma StatusOfResponse(version: string, code: nat, rest: string)
    requires IsVersion(version)
    ensures StatusCode(StatusLine(version, code) + rest) == Some(code)
  {
    var digits := Decimal(code);
    var t := StatusLine(version, code) + rest;
    var a := 5 + |version|;
    var b := a + 1;
    var c := b + |digits|;
    assert Pattern(t, 0, a, b, c) by {
      assert t[0..5] == "HTTP/";
      forall k | 5 <= k < a ensures In(t[k], VersionChar) {
        assert t[k] == version[k - 5];
      }
      assert t[a] == ' ';
      forall k | b <= k < c ensures In(t[k], Digit) {
        assert t[k] == digits[k - b];
      }
      assert t[c] == ' ';
    }
    assert t[b..c] == digits;
    MatchAtComplete(t, 0, a, b, c);
    DecimalRoundTrip(code);
  }

  /** A status line holds no carriage return. */
  lemma StatusLineNoReturn(version: string, code: nat)
    requires IsVersion(version)
    ensures forall k :: 0 <= k < |StatusLine(version, code)| ==> StatusLine(version, code)[k] != '\r'
  {
    var s := StatusLine(version, code);
    var digits := Decimal(code);
    forall k | 0 <= k < |s| ensures s[k] != '\r' {
      if 5 <= k < 5 + |version| {
        assert s[k] == version[k - 5];
      } else if 6 + |version| <= k < 6 + |version| + |digits| {
        assert s[k] == digits[k - 6 - |version|];
      }
    }
  }

  /** Text without a carriage return in front of text without a blank
      line holds no blank line. */
  lemma NoBlankLineAfter(p: string, x: string)
    requires forall k :: 0 <= k < |p| ==> p[k] != '\r'
    requires NoBlankLine(x)
    ensures NoBlankLine(p + x)
  {
    var s := p + x;
    forall k | 0 <= k <= |s| ensures !OccursAt(s, Separator, k) {
      if k + 4 <= |s| {
        if k < |p| {
          assert s[k..k + 4][0] == p[k] != Separator[0];
        } else {
          assert s[k..k + 4] == x[k - |p|..k - |p| + 4];
          assert !OccursAt(x, Separator, k - |p|);
        }
      }
    }
  }

  lemma ResponseStatus(version: string, code: nat, head: string, body: string)
    requires IsVersion(version)
    ensures StatusCode(StatusLine(version, code) + head + Separator + body) == Some(code)
  {
    var line := StatusLine(version, code);
    assert line + head + Separator + body == line + (head + Separator + body);
    StatusOfResponse(version, code, head + Separator + body);
  }

  lemma ResponseBody(version: string, code: nat, head: string, body: string)
    requires IsVersion(version) && NoBlankLine(head + "\r\n\r")
    ensures Body(StatusLine(version, code) + head + Separator + body) == body
  {
    var line := StatusLine(version, code);
    StatusLineNoReturn(version, code);
    NoBlankLineAfter(line, head + "\r\n\r");
    assert line + (head + "\r\n\r") == (line + head) + "\r\n\r";
    BodyAfterHead(line + head, body);
  }

  /** A server's answer is accepted exactly when its code is 200, and then
      its body is what the caller gets. */
  lemma ReplyOfResponse(version: string, code: nat, head: string, body: string)
    requires IsVersion(version) && NoBlankLine(head + "\r\n\r")
    ensures Reply(StatusLine(version, code) + head + Separator + body) ==
      if code == 200 then Ok(body) else Fail(HttpError)
  {
    ResponseStatus(version, code, head, body);
    ResponseBody(version, code, head, body);
  }
}
