/** Python's `%` formatting of the program's `exit` messages, as far as it
    decides whether a message can be built at all: the text of a message
    is not modelled, but a directive that `%` does not accept raises
    ValueError before `exit` is reached. */
module Messages {
  import opened Results

  /** `fmt % tuple(args)` with the directives the messages use: `%s` takes
      the next argument, `%%` is a percent sign; any other directive raises
      ValueError, a missing argument or one left over raises TypeError. */
  function Format(fmt: string, args: seq<string>): (r: Result<string>)
    ensures r.Fail? ==> r.failure == Crash
    ensures r.Ok? && '%' !in fmt ==> r.value == fmt
    decreases |fmt|
  {
    if fmt == [] then (if args == [] then Ok("") else Fail(Crash))
    else if fmt[0] != '%' then Prepend([fmt[0]], Format(fmt[1..], args))
    else if |fmt| == 1 then Fail(Crash)
    else if fmt[1] == '%' then Prepend("%", Format(fmt[2..], args))
    else if fmt[1] == 's' && args != [] then Prepend(args[0], Format(fmt[2..], args[1..]))
    else Fail(Crash)
  }

  function Prepend(p: string, r: Result<string>): Result<string> {
    match r
    case Ok(s) => Ok(p + s)
    case Fail(e) => Fail(e)
  }

  lemma PrependTwice(a: string, b: string, r: Result<string>)
    ensures Prepend(a, Prepend(b, r)) == Prepend(a + b, r)
  {
    if r.Ok? {
      assert a + (b + r.value) == (a + b) + r.value;
    }
  }

  /** Text without directives is copied. */
  lemma {:induction false} FormatPlain(p: string, rest: string, args: seq<string>)
    requires '%' !in p
    ensures Format(p + rest, args) == Prepend(p, Format(rest, args))
    decreases |p|
  {
    if p == [] {
      assert p + rest == rest;
      if Format(rest, args).Ok? {
        assert p + Format(rest, args).value == Format(rest, args).value;
      }
    } else {
      assert (p + rest)[0] == p[0] && (p + rest)[1..] == p[1..] + rest;
      FormatPlain(p[1..], rest, args);
      PrependTwice([p[0]], p[1..], Format(rest, args));
      assert [p[0]] + p[1..] == p;
    }
  }

  /** `%s` takes the next argument. */
  lemma FormatArg(rest: string, a: string, args: seq<string>)
    ensures Format("%s" + rest, [a] + args) == Prepend(a, Format(rest, args))
  {
    assert ("%s" + rest)[2..] == rest;
    assert ([a] + args)[1..] == args;
  }

  /** `%S` is not a directive of `%`: ValueError. */
  lemma FormatCapitalS(rest: string, args: seq<string>)
    ensures Format("%S" + rest, args) == Fail(Crash)
  {
  }

  // The fixed parts of the conflict message of `_str_unique`.
  const Head := "error file config: config key \""
  const Middle := "\" repeats in different config ("
  const Versus := " vs "
  const Tail := ")"

  /** The conflict message of `_str_unique`, as written: its third
      directive is `%S`. */
  const StrUniqueMessage := Head + ("%s" + (Middle + ("%s" + (Versus + ("%S" + Tail)))))

  /** The same message with `%s` as its third directive. */
  const StrUniqueMessageIntended := Head + ("%s" + (Middle + ("%s" + (Versus + ("%s" + Tail)))))

  /** Whatever the three values, the message as written cannot be built. */
  lemma StrUniqueMessageFails(key: string, prev: string, next: string)
    ensures Format(StrUniqueMessage, [key, prev, next]) == Fail(Crash)
  {
    FormatPlain(Head, "%s" + (Middle + ("%s" + (Versus + ("%S" + Tail)))), [key, prev, next]);
    assert [key, prev, next] == [key] + [prev, next];
    FormatArg(Middle + ("%s" + (Versus + ("%S" + Tail))), key, [prev, next]);
    FormatPlain(Middle, "%s" + (Versus + ("%S" + Tail)), [prev, next]);
    assert [prev, next] == [prev] + [next];
    FormatArg(Versus + ("%S" + Tail), prev, [next]);
    FormatPlain(Versus, "%S" + Tail, [next]);
    FormatCapitalS(Tail, [next]);
  }

  /** With `%s` in its place the message is built from the three values. */
  lemma StrUniqueMessageIntendedFormats(key: string, prev: string, next: string)
    ensures Format(StrUniqueMessageIntended, [key, prev, next]) ==
      Ok(Head + (key + (Middle + (prev + (Versus + (next + Tail))))))
  {
    FormatPlain(Head, "%s" + (Middle + ("%s" + (Versus + ("%s" + Tail)))), [key, prev, next]);
    assert [key, prev, next] == [key] + [prev, next];
    FormatArg(Middle + ("%s" + (Versus + ("%s" + Tail))), key, [prev, next]);
    FormatPlain(Middle, "%s" + (Versus + ("%s" + Tail)), [prev, next]);
    assert [prev, next] == [prev] + [next];
    FormatArg(Versus + ("%s" + Tail), prev, [next]);
    FormatPlain(Versus, "%s" + Tail, [next]);
    assert [next] == [next] + [];
    FormatArg(Tail, next, []);
    assert Tail == Tail + "";
    FormatPlain(Tail, "", []);
  }
}
