/** The two JavaScript built-ins the colour helper applies to lists of strings:
    Array.prototype.join and String.prototype.split, for a one-character separator. */
module Strings {

  /** The combined length of the parts. */
  function TotalLength(parts: seq<string>): nat {
    if parts == [] then 0 else |parts[0]| + TotalLength(parts[1..])
  }

  /** No part contains the separator. */
  predicate SeparatorFree(parts: seq<string>, sep: char) {
    forall i :: 0 <= i < |parts| ==> sep !in parts[i]
  }

  /** parts.join(sep): the parts in order, with sep between each two neighbours. */
  function Join(parts: seq<string>, sep: char): (s: string)
    ensures |parts| >= 1 ==> |s| == TotalLength(parts) + |parts| - 1
    ensures |parts| >= 1 ==> parts[0] <= s
    ensures |parts| >= 2 ==> s[|parts[0]|] == sep
  {
    if |parts| == 0 then ""
    else if |parts| == 1 then parts[0]
    else parts[0] + [sep] + Join(parts[1..], sep)
  }

  /** Joining a concatenation joins the two halves with one more separator. */
  lemma {:induction false} JoinAppend(a: seq<string>, b: seq<string>, sep: char)
    requires |a| >= 1 && |b| >= 1
    ensures Join(a + b, sep) == Join(a, sep) + [sep] + Join(b, sep)
    decreases |a|
  {
    if |a| >= 2 {
      JoinAppend(a[1..], b, sep);
      assert (a + b)[1..] == a[1..] + b;
    }
  }

  /** Three parts joined. */
  lemma JoinThree(a: string, b: string, c: string, sep: char)
    ensures Join([a, b, c], sep) == a + [sep] + b + [sep] + c
  {
    assert [a, b, c][1..] == [b, c];
    assert [b, c][1..] == [c];
    assert Join([b, c], sep) == b + [sep] + c;
    assert Join([a, b, c], sep) == a + [sep] + (b + [sep] + c);
    assert a + [sep] + (b + [sep] + c) == a + [sep] + b + [sep] + c;
  }

  /** s.split(sep): the maximal separator-free pieces between separators ("" gives [""]). */
  function Split(s: string, sep: char): (parts: seq<string>)
    ensures |parts| >= 1
    ensures SeparatorFree(parts, sep)
    ensures Join(parts, sep) == s
    decreases |s|
  {
    if s == [] then [""]
    else
      var rest := Split(s[1..], sep);
      assert [s[0]] + s[1..] == s;
      if s[0] == sep then
        assert ([""] + rest)[1..] == rest;
        [""] + rest
      else
        ExtendFirst(s[0], rest, sep);
        [[s[0]] + rest[0]] + rest[1..]
  }

  /** Prefixing a non-separator character to the first part prefixes it to the join. */
  lemma ExtendFirst(c: char, rest: seq<string>, sep: char)
    requires c != sep && |rest| >= 1 && SeparatorFree(rest, sep)
    ensures SeparatorFree([[c] + rest[0]] + rest[1..], sep)
    ensures Join([[c] + rest[0]] + rest[1..], sep) == [c] + Join(rest, sep)
  {
    var parts := [[c] + rest[0]] + rest[1..];
    assert parts[1..] == rest[1..];
    assert forall i :: 1 <= i < |parts| ==> parts[i] == rest[i];
    if |rest| >= 2 {
      assert Join(parts, sep) == [c] + rest[0] + [sep] + Join(rest[1..], sep);
    }
  }

  /** Two strings, each free of the separator, are recovered from their join. */
  lemma SplitAtSeparator(x: string, y: string, x': string, y': string, sep: char)
    requires sep !in x && sep !in x'
    requires x + [sep] + y == x' + [sep] + y'
    ensures x == x' && y == y'
  {
    var s := x + [sep] + y;
    assert forall k :: 0 <= k < |x| ==> s[k] == x[k] != sep;
    assert forall k :: 0 <= k < |x'| ==> s[k] == x'[k] != sep;
    assert s[|x|] == sep && s[|x'|] == sep;
    assert x == s[..|x|] == x';
    assert y == s[|x| + 1..] == y';
  }

  /** Non-empty lists of separator-free parts with the same join are equal. */
  lemma {:induction false} JoinInjective(p: seq<string>, q: seq<string>, sep: char)
    requires |p| >= 1 && |q| >= 1
    requires SeparatorFree(p, sep) && SeparatorFree(q, sep)
    requires Join(p, sep) == Join(q, sep)
    ensures p == q
    decreases |p|
  {
    if |p| >= 2 && |q| >= 2 {
      SplitAtSeparator(p[0], Join(p[1..], sep), q[0], Join(q[1..], sep), sep);
      JoinInjective(p[1..], q[1..], sep);
      assert p == [p[0]] + p[1..];
      assert q == [q[0]] + q[1..];
    }
  }

  /** Splitting a join of separator-free parts gives the parts back. */
  lemma SplitJoin(parts: seq<string>, sep: char)
    requires |parts| >= 1 && SeparatorFree(parts, sep)
    ensures Split(Join(parts, sep), sep) == parts
  {
    JoinInjective(Split(Join(parts, sep), sep), parts, sep);
  }
}
