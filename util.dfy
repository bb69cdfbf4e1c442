/** Option type and the string operations the patch engine relies on
    (ordinal prefix test, ordinal case-insensitive comparison, String.Replace,
    String.TrimStart and the two-way String.Split). */
module Util {

  datatype Option<+T> = None | Some(value: T)

  /** ASCII upper case letters fold to lower case; every other character is kept. */
  function LowerChar(c: char): char
  {
    if 'A' <= c <= 'Z' then (c as int + 32) as char else c
  }

  /** Ordinal case-insensitive equality, as used by Enum.TryParse with ignoreCase. */
  predicate EqualsIgnoreCase(s: string, t: string)
  {
    |s| == |t| && forall i :: 0 <= i < |s| ==> LowerChar(s[i]) == LowerChar(t[i])
  }

  /** `pat` occurs in `s` starting at index `i`. */
  predicate OccursAt(s: string, pat: string, i: nat)
  {
    i + |pat| <= |s| && s[i..i + |pat|] == pat
  }

  /** String.Replace(pat, ""): every non-overlapping occurrence of `pat`,
      scanning from the left, is deleted. */
  function ReplaceAll(s: string, pat: string): (r: string)
    requires pat != []
    ensures |r| <= |s|
    decreases |s|
  {
    if |s| < |pat| then s
    else if pat <= s then ReplaceAll(s[|pat|..], pat)
    else [s[0]] + ReplaceAll(s[1..], pat)
  }

  /** String.TrimStart(c): drops every leading `c`. */
  function TrimStart(s: string, c: char): (r: string)
    ensures |r| <= |s| && r == s[|s| - |r|..]
    ensures r == [] || r[0] != c
    ensures forall i :: 0 <= i < |s| - |r| ==> s[i] == c
  {
    if s != [] && s[0] == c then TrimStart(s[1..], c) else s
  }

  /** Index of the first `c` in `s`, if any. */
  function IndexOfChar(s: string, c: char): (r: Option<nat>)
    ensures r.None? <==> c !in s
    ensures r.Some? ==> r.value < |s| && s[r.value] == c && c !in s[..r.value]
  {
    if s == [] then None
    else if s[0] == c then Some(0)
    else match IndexOfChar(s[1..], c)
      case None => None
      case Some(i) => assert s[1..][..i] == s[1..i + 1]; Some(i + 1)
  }

  /** String.Split(sep, 2): the text before the first `sep` and everything after it,
      or None when `sep` does not occur. */
  function SplitFirst(s: string, sep: char): (r: Option<(string, string)>)
    ensures r.None? <==> sep !in s
    ensures r.Some? ==> s == r.value.0 + [sep] + r.value.1 && sep !in r.value.0
  {
    match IndexOfChar(s, sep)
    case None => None
    case Some(i) =>
      assert s == s[..i] + [sep] + s[i + 1..];
      Some((s[..i], s[i + 1..]))
  }

  /** Splitting at the first separator recovers the two halves of any string
      whose head part does not contain the separator. */
  lemma SplitFirstJoin(a: string, b: string, sep: char)
    requires sep !in a
    ensures SplitFirst(a + [sep] + b, sep) == Some((a, b))
  {
    var s := a + [sep] + b;
    var r := SplitFirst(s, sep);
    assert sep in s by { assert s[|a|] == sep; }
    SplitUnique(a, b, r.value.0, r.value.1, sep);
  }

  /** Two strings split around a character that neither head contains split
      at the same place. */
  lemma SplitUnique(x: string, y: string, x': string, y': string, c: char)
    requires c !in x && c !in x'
    requires x + [c] + y == x' + [c] + y'
    ensures x == x' && y == y'
  {
    var s := x + [c] + y;
    IndexOfCharAfter(x, y, c);
    IndexOfCharAfter(x', y', c);
    assert x == s[..|x|] && x' == s[..|x'|];
    assert y == s[|x| + 1..] && y' == s[|x'| + 1..];
  }

  /** The first `c` of `x + [c] + y` sits right after `x` when `x` has none. */
  lemma {:induction false} IndexOfCharAfter(x: string, y: string, c: char)
    requires c !in x
    ensures IndexOfChar(x + [c] + y, c) == Some(|x|)
  {
    if x != [] {
      IndexOfCharAfter(x[1..], y, c);
      assert (x + [c] + y)[1..] == x[1..] + [c] + y;
    }
  }

  /** Deleting occurrences of a pattern from a literal prefix of it. */
  lemma ReplaceAllPrefix(pat: string, rest: string)
    requires pat != []
    ensures ReplaceAll(pat + rest, pat) == ReplaceAll(rest, pat)
  {
    var s := pat + rest;
    assert pat <= s;
    assert s[|pat|..] == rest;
  }

  /** A string shorter than the pattern is left as it is. */
  lemma ReplaceAllShort(s: string, pat: string)
    requires pat != [] && |s| < |pat|
    ensures ReplaceAll(s, pat) == s
  {
  }

  /** Deleting `pat` from `pat + "/" + v` and trimming the slash leaves `v`, when `v`
      is shorter than `pat` and does not start with a slash. */
  lemma TrimmedRemainder(pat: string, v: string)
    requires pat != [] && |v| + 1 < |pat| && (v == [] || v[0] != '/')
    ensures TrimStart(ReplaceAll(pat + ("/" + v), pat), '/') == v
  {
    ReplaceAllPrefix(pat, "/" + v);
    ReplaceAllShort("/" + v, pat);
    assert ("/" + v)[1..] == v;
  }
}
