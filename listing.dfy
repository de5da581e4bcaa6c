/** `sorted(os.listdir(...))`: the directory listing in Python's string
    order, which compares code points one by one and puts a proper prefix
    first. */
module Listing {

  /** Python's `a < b` on `str`. */
  predicate Below(a: string, b: string)
    decreases |a|
  {
    if b == [] then false
    else if a == [] then true
    else if a[0] != b[0] then a[0] < b[0]
    else Below(a[1..], b[1..])
  }

  lemma {:induction false} BelowIrreflexive(a: string)
    ensures !Below(a, a)
    decreases |a|
  {
    if a != [] {
      BelowIrreflexive(a[1..]);
    }
  }

  lemma {:induction false} BelowTotal(a: string, b: string)
    ensures a == b || Below(a, b) || Below(b, a)
    decreases |a|
  {
    if a != [] && b != [] && a[0] == b[0] {
      BelowTotal(a[1..], b[1..]);
      if a[1..] == b[1..] {
        assert a == [a[0]] + a[1..] && b == [b[0]] + b[1..];
      }
    }
  }

  lemma {:induction false} BelowTransitive(a: string, b: string, c: string)
    requires Below(a, b) && Below(b, c)
    ensures Below(a, c)
    decreases |a|
  {
    if a != [] && a[0] == b[0] && b[0] == c[0] {
      BelowTransitive(a[1..], b[1..], c[1..]);
    }
  }

  /** `a <= b`. */
  predicate NotAbove(a: string, b: string) {
    !Below(b, a)
  }

  lemma NotAboveTransitive(a: string, b: string, c: string)
    requires NotAbove(a, b) && NotAbove(b, c)
    ensures NotAbove(a, c)
  {
    if Below(c, a) {
      BelowTotal(b, c);
      if b != c {
        BelowTransitive(b, c, a);
      }
    }
  }

  predicate SortedByName<T>(s: seq<(string, T)>) {
    forall i, j :: 0 <= i < j < |s| ==> NotAbove(s[i].0, s[j].0)
  }

  /** An entry that comes no later than any of a sorted listing can go in
      front of it. */
  lemma ConsSorted<T>(h: (string, T), t: seq<(string, T)>)
    requires SortedByName(t) && forall j :: 0 <= j < |t| ==> NotAbove(h.0, t[j].0)
    ensures SortedByName([h] + t)
  {
    forall i, j | 0 <= i < j < |[h] + t| ensures NotAbove(([h] + t)[i].0, ([h] + t)[j].0) {
      assert ([h] + t)[j] == t[j - 1];
      if i > 0 {
        assert ([h] + t)[i] == t[i - 1];
      }
    }
  }

  /** What `Insert` puts after the head of `s` (`x` and the tail of `s`)
      comes no earlier than that head, when `x` itself does not. */
  lemma InsertedAfterHead<T>(x: (string, T), s: seq<(string, T)>, rest: seq<(string, T)>)
    requires SortedByName(s) && s != [] && !NotAbove(x.0, s[0].0)
    requires multiset(rest) == multiset(s[1..]) + multiset{x}
    ensures forall j :: 0 <= j < |rest| ==> NotAbove(s[0].0, rest[j].0)
  {
    forall j | 0 <= j < |rest| ensures NotAbove(s[0].0, rest[j].0) {
      assert rest[j] in multiset(rest);
      if rest[j] == x {
        BelowIrreflexive(x.0);
        if Below(x.0, s[0].0) {
          BelowTransitive(x.0, s[0].0, x.0);
        }
      } else {
        assert rest[j] in multiset(s[1..]);
        var k :| 0 <= k < |s[1..]| && s[1..][k] == rest[j];
        assert s[k + 1] == rest[j];
      }
    }
  }

  function Insert<T>(x: (string, T), s: seq<(string, T)>): (r: seq<(string, T)>)
    requires SortedByName(s)
    ensures multiset(r) == multiset(s) + multiset{x}
    ensures SortedByName(r)
  {
    if s == [] then [x]
    else if NotAbove(x.0, s[0].0) then
      assert forall j :: 0 < j < |s| ==> NotAbove(x.0, s[j].0) by {
        forall j | 0 < j < |s| ensures NotAbove(x.0, s[j].0) {
          NotAboveTransitive(x.0, s[0].0, s[j].0);
        }
      }
      ConsSorted(x, s);
      [x] + s
    else
      var rest := Insert(x, s[1..]);
      assert multiset(s) == multiset{s[0]} + multiset(s[1..]) by {
        assert s == [s[0]] + s[1..];
      }
      InsertedAfterHead(x, s, rest);
      ConsSorted(s[0], rest);
      [s[0]] + rest
  }

  /** The listing in the order `sorted` gives: the same entries, names
      ascending. */
  function SortByName<T>(s: seq<(string, T)>): (r: seq<(string, T)>)
    ensures multiset(r) == multiset(s)
    ensures SortedByName(r)
    decreases |s|
  {
    if s == [] then []
    else
      assert s == s[..|s| - 1] + [s[|s| - 1]];
      Insert(s[|s| - 1], SortByName(s[..|s| - 1]))
  }
}
