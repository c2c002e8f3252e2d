/**
 * The few operations of Python's `str` that the bridge relies on, over
 * `string` (a `seq<char>`): `split` and `join` with a one-character
 * separator, `replace(c, "")`, and `str(n)` for a natural number.
 */
module Strings {

  /** Position of the first `c` in `s`, or `|s|` when `s` holds no `c`. */
  function IndexOf(s: string, c: char): (i: nat)
    ensures i <= |s|
    ensures i < |s| ==> s[i] == c
    ensures forall k :: 0 <= k < i ==> s[k] != c
  {
    if |s| == 0 || s[0] == c then 0 else 1 + IndexOf(s[1..], c)
  }

  /** The first `c` of `p + [c] + rest` is the one right after `p` when `p` holds none. */
  lemma IndexOfAfter(p: string, c: char, rest: string)
    requires c !in p
    ensures IndexOf(p + [c] + rest, c) == |p|
  {
    var s := p + [c] + rest;
    assert s[|p|] == c;
    assert forall k :: 0 <= k < |p| ==> s[k] == p[k];
  }

  /** Python's `sep.join(parts)`. */
  function Join(sep: char, parts: seq<string>): (s: string)
    ensures |parts| >= 1 ==> parts[0] <= s
  {
    if |parts| == 0 then ""
    else if |parts| == 1 then parts[0]
    else parts[0] + [sep] + Join(sep, parts[1..])
  }

  /**
   * Python's `s.split(sep)` for a one-character separator: the maximal pieces
   * of `s` between separators, empty pieces included. There is always at
   * least one piece, no piece holds `sep`, and the pieces joined by `sep`
   * give back `s`; these three facts determine the pieces (see SplitJoin).
   */
  function Split(s: string, sep: char): (parts: seq<string>)
    ensures |parts| >= 1
    ensures forall k :: 0 <= k < |parts| ==> sep !in parts[k]
    ensures Join(sep, parts) == s
    ensures |parts| == 1 <==> sep !in s
    decreases |s|
  {
    var i := IndexOf(s, sep);
    if i == |s| then
      [s]
    else
      assert s == s[..i] + [sep] + s[i + 1..];
      assert sep !in s[..i] by {
        forall k | 0 <= k < i ensures s[..i][k] != sep { }
      }
      [s[..i]] + Split(s[i + 1..], sep)
  }

  /** Splitting undoes joining: pieces without the separator come back one by one. */
  lemma {:induction false} SplitJoin(sep: char, parts: seq<string>)
    requires |parts| >= 1
    requires forall k :: 0 <= k < |parts| ==> sep !in parts[k]
    ensures Split(Join(sep, parts), sep) == parts
  {
    if |parts| == 1 {
      assert Join(sep, parts) == parts[0];
    } else {
      var head, rest := parts[0], Join(sep, parts[1..]);
      var s := head + [sep] + rest;
      assert Join(sep, parts) == s;
      IndexOfAfter(head, sep, rest);
      assert s[..|head|] == head;
      assert s[|head| + 1..] == rest;
      assert Split(s, sep) == [head] + Split(rest, sep);
      SplitJoin(sep, parts[1..]);
      assert parts == [head] + parts[1..];
    }
  }

  /** The first piece of a string that starts with `head + [sep]` is `head`. */
  lemma SplitHead(s: string, sep: char, head: string)
    requires sep !in head
    requires head + [sep] <= s
    ensures Split(s, sep)[0] == head
  {
    var rest := s[|head| + 1..];
    assert s == head + [sep] + rest;
    IndexOfAfter(head, sep, rest);
    assert s[..|head|] == head;
  }

  /** Python's `s.replace(c, "")` for a one-character `c`. */
  function RemoveAll(s: string, c: char): (r: string)
    ensures c !in r
  {
    if |s| == 0 then "" else (if s[0] == c then "" else [s[0]]) + RemoveAll(s[1..], c)
  }

  /** Every other character is kept, as often as it occurs; every `c` is gone. */
  lemma {:induction false} RemoveAllCounts(s: string, c: char)
    ensures multiset(RemoveAll(s, c)) == multiset(s)[c := 0]
    ensures |RemoveAll(s, c)| == |s| - multiset(s)[c]
  {
    if |s| > 0 {
      assert s == [s[0]] + s[1..];
      RemoveAllCounts(s[1..], c);
    }
  }

  /**
   * Removing works piece by piece, so the kept characters stay in their
   * order; with `RemoveAllOne` this determines the result on every string.
   */
  lemma {:induction false} RemoveAllAppend(a: string, b: string, c: char)
    ensures RemoveAll(a + b, c) == RemoveAll(a, c) + RemoveAll(b, c)
  {
    if |a| > 0 {
      assert (a + b)[1..] == a[1..] + b;
      RemoveAllAppend(a[1..], b, c);
    } else {
      assert a + b == b;
    }
  }

  /** On one character: gone if it is `c`, kept otherwise. */
  lemma RemoveAllOne(d: char, c: char)
    ensures RemoveAll([d], c) == if d == c then "" else [d]
  {
    assert [d][1..] == "";
  }

  /** A string without `c` is left as it is. */
  lemma {:induction false} RemoveAllAbsent(s: string, c: char)
    requires c !in s
    ensures RemoveAll(s, c) == s
  {
    if |s| > 0 {
      RemoveAllAbsent(s[1..], c);
    }
  }

  predicate IsDigits(s: string)
  {
    forall k :: 0 <= k < |s| ==> '0' <= s[k] <= '9'
  }

  function DigitChar(d: nat): (c: char)
    requires d < 10
    ensures '0' <= c <= '9' && c as int - '0' as int == d
  {
    ('0' as int + d) as char
  }

  /** Python's `str(n)` for a natural number: decimal digits, no leading zero. */
  function NatToString(n: nat): (s: string)
    ensures |s| >= 1 && IsDigits(s)
    ensures s[0] == '0' <==> n == 0
    decreases n
  {
    if n < 10 then [DigitChar(n)] else NatToString(n / 10) + [DigitChar(n % 10)]
  }

  /** The value of a string of decimal digits. */
  function ParseNat(s: string): nat
    requires IsDigits(s)
  {
    if |s| == 0 then 0 else 10 * ParseNat(s[..|s| - 1]) + (s[|s| - 1] as int - '0' as int)
  }

  lemma {:induction false} ParseNatToString(n: nat)
    ensures ParseNat(NatToString(n)) == n
  {
    if n >= 10 {
      var s := NatToString(n);
      assert s[..|s| - 1] == NatToString(n / 10);
      ParseNatToString(n / 10);
    }
  }

  /** Distinct numbers have distinct decimal renderings. */
  lemma NatToStringInjective(a: nat, b: nat)
    requires NatToString(a) == NatToString(b)
    ensures a == b
  {
    ParseNatToString(a);
    ParseNatToString(b);
  }
}
