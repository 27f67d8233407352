/** String helpers shared by the browser and the server side of the catalogue:
    whitespace trimming (JavaScript and Python flavours), splitting on one
    character, joining with a separator, substring search and ASCII lower-casing. */
module Strings {

  /** The characters JavaScript's `String.prototype.trim` removes
      (WhiteSpace and LineTerminator of ECMA-262). */
  predicate IsJsSpace(c: char) {
    || c == '\t' || c == '\n' || c == '\U{000B}' || c == '\U{000C}' || c == '\r'
    || c == ' ' || c == '\U{00A0}' || c == '\U{1680}'
    || ('\U{2000}' <= c <= '\U{200A}')
    || c == '\U{2028}' || c == '\U{2029}' || c == '\U{202F}' || c == '\U{205F}'
    || c == '\U{3000}' || c == '\U{FEFF}'
  }

  /** The characters Python's `str.strip()` removes (those for which `str.isspace` holds). */
  predicate IsPySpace(c: char) {
    || c == '\t' || c == '\n' || c == '\U{000B}' || c == '\U{000C}' || c == '\r'
    || ('\U{001C}' <= c <= '\U{001F}')
    || c == ' ' || c == '\U{0085}' || c == '\U{00A0}' || c == '\U{1680}'
    || ('\U{2000}' <= c <= '\U{200A}')
    || c == '\U{2028}' || c == '\U{2029}' || c == '\U{202F}' || c == '\U{205F}'
    || c == '\U{3000}'
  }

  /** Every character of `s` is whitespace (in particular, the empty string). */
  predicate AllSpace(s: string, ws: char -> bool) {
    forall i :: 0 <= i < |s| ==> ws(s[i])
  }

  /** `s` neither starts nor ends with whitespace. */
  predicate Trimmed(s: string, ws: char -> bool) {
    s == [] || (!ws(s[0]) && !ws(s[|s| - 1]))
  }

  /** Drops the leading whitespace. */
  function TrimStart(s: string, ws: char -> bool): (r: string)
    ensures |r| <= |s| && r == s[|s| - |r|..]
    ensures AllSpace(s[..|s| - |r|], ws)
    ensures r == [] || !ws(r[0])
  {
    if |s| > 0 && ws(s[0]) then TrimStart(s[1..], ws) else s
  }

  /** Drops the trailing whitespace. */
  function TrimEnd(s: string, ws: char -> bool): (r: string)
    ensures |r| <= |s| && r == s[..|r|]
    ensures AllSpace(s[|r|..], ws)
    ensures r == [] || !ws(r[|r| - 1])
  {
    if |s| > 0 && ws(s[|s| - 1]) then TrimEnd(s[..|s| - 1], ws) else s
  }

  /** `r` is the run of `s` that starts at `a`, with only whitespace before and after it. */
  predicate RunBetweenSpace(s: string, r: string, a: int, ws: char -> bool) {
    && 0 <= a && a + |r| <= |s| && r == s[a..a + |r|]
    && AllSpace(s[..a], ws) && AllSpace(s[a + |r|..], ws)
  }

  /** Drops whitespace at both ends: the result is the contiguous run of `s`
      between its leading and trailing whitespace, it is trimmed, and it is
      empty exactly when `s` is all whitespace. */
  function Trim(s: string, ws: char -> bool): (r: string)
    ensures Trimmed(r, ws)
    ensures exists a :: RunBetweenSpace(s, r, a, ws)
    ensures |r| <= |s|
    ensures forall i :: 0 <= i < |r| ==> r[i] in s
    ensures r == [] <==> AllSpace(s, ws)
  {
    var a := TrimStart(s, ws);
    var r := TrimEnd(a, ws);
    TrimBothEnds(s, a, r, ws);
    r
  }

  /** What is left after trimming the start, then the end. */
  lemma TrimBothEnds(s: string, a: string, r: string, ws: char -> bool)
    requires |a| <= |s| && a == s[|s| - |a|..] && AllSpace(s[..|s| - |a|], ws)
    requires a == [] || !ws(a[0])
    requires |r| <= |a| && r == a[..|r|] && AllSpace(a[|r|..], ws)
    requires r == [] || !ws(r[|r| - 1])
    ensures Trimmed(r, ws)
    ensures RunBetweenSpace(s, r, |s| - |a|, ws)
    ensures forall i :: 0 <= i < |r| ==> r[i] in s
    ensures r == [] <==> AllSpace(s, ws)
  {
    var off := |s| - |a|;
    assert s[off..off + |r|] == r;
    assert s[off + |r|..] == a[|r|..];
    forall i | 0 <= i < |r| ensures r[i] in s {
      assert r[i] == a[i] == s[|s| - |a| + i];
    }
    if r == [] {
      assert a == [];
      assert s == s[..|s| - |a|];
    } else {
      assert r[0] == a[0];
      assert !ws(s[|s| - |a|]);
    }
  }

  function JsTrim(s: string): string { Trim(s, IsJsSpace) }

  function PyStrip(s: string): string { Trim(s, IsPySpace) }

  /** A trimmed string is a fixed point of trimming. */
  lemma TrimOfTrimmed(s: string, ws: char -> bool)
    requires Trimmed(s, ws)
    ensures Trim(s, ws) == s
  {
  }

  /** Whitespace in front of a trimmed string is exactly what trimming removes. */
  lemma {:induction false} TrimSpacePrefix(p: string, t: string, ws: char -> bool)
    requires AllSpace(p, ws)
    requires Trimmed(t, ws)
    ensures Trim(p + t, ws) == t
  {
    if p == [] {
      assert p + t == t;
    } else {
      assert (p + t)[1..] == p[1..] + t;
      TrimSpacePrefix(p[1..], t, ws);
      if t == [] {
        assert p + t == p;
      }
    }
  }

  /** `parts` joined with `sep` between consecutive parts (JavaScript `Array.prototype.join`,
      Python `str.join`). */
  function Join(parts: seq<string>, sep: string): string {
    if |parts| == 0 then ""
    else if |parts| == 1 then parts[0]
    else parts[0] + sep + Join(parts[1..], sep)
  }

  /** The pieces of `s` between occurrences of `sep` (JavaScript `split` and
      Python `split` with a one-character separator): never empty, and the empty
      string gives one empty piece. */
  function Split(s: string, sep: char): (r: seq<string>)
    ensures |r| >= 1
    ensures forall i :: 0 <= i < |r| ==> sep !in r[i]
    ensures Join(r, [sep]) == s
  {
    if |s| == 0 then [""]
    else
      var rest := Split(s[1..], sep);
      if s[0] == sep then
        assert s == [sep] + s[1..];
        [""] + rest
      else
        var r := [[s[0]] + rest[0]] + rest[1..];
        assert r[1..] == rest[1..];
        assert s == [s[0]] + s[1..];
        r
  }

  /** A separator-free string splits into itself. */
  lemma SplitWithoutSep(a: string, sep: char)
    requires sep !in a
    ensures Split(a, sep) == [a]
  {
    if a != [] {
      assert a[1..] + [] == a[1..];
    }
  }

  /** Splitting at the first separator peels off the separator-free prefix. */
  lemma {:induction false} SplitAtFirstSep(a: string, b: string, sep: char)
    requires sep !in a
    ensures Split(a + [sep] + b, sep) == [a] + Split(b, sep)
  {
    if a == [] {
      assert a + [sep] + b == [sep] + b;
      assert ([sep] + b)[1..] == b;
    } else {
      assert (a + [sep] + b)[1..] == a[1..] + [sep] + b;
      SplitAtFirstSep(a[1..], b, sep);
      assert a == [a[0]] + a[1..];
    }
  }

  /** Splitting undoes joining, when no part holds the separator. */
  lemma {:induction false} SplitOfJoin(parts: seq<string>, sep: char)
    requires |parts| >= 1
    requires forall i :: 0 <= i < |parts| ==> sep !in parts[i]
    ensures Split(Join(parts, [sep]), sep) == parts
  {
    if |parts| == 1 {
      SplitWithoutSep(parts[0], sep);
    } else {
      SplitOfJoin(parts[1..], sep);
      SplitAtFirstSep(parts[0], Join(parts[1..], [sep]), sep);
      assert parts == [parts[0]] + parts[1..];
    }
  }

  predicate StartsWith(s: string, prefix: string) {
    |prefix| <= |s| && s[..|prefix|] == prefix
  }

  predicate EndsWith(s: string, suffix: string) {
    |suffix| <= |s| && s[|s| - |suffix|..] == suffix
  }

  /** Substring test (Python's `in` on strings, JavaScript `includes`). */
  function Contains(s: string, sub: string): (r: bool)
    ensures r <==> exists i :: 0 <= i <= |s| - |sub| && StartsWith(s[i..], sub)
  {
    if StartsWith(s, sub) then
      assert StartsWith(s[0..], sub);
      true
    else if |s| == 0 then false
    else
      var r := Contains(s[1..], sub);
      assert forall i :: 1 <= i <= |s| ==> s[i..] == s[1..][i - 1..];
      if r then
        var j :| 0 <= j <= |s| - 1 - |sub| && StartsWith(s[1..][j..], sub);
        assert StartsWith(s[j + 1..], sub);
        r
      else r
  }

  /** ASCII lower-casing of one character; every other character is unchanged. */
  function LowerChar(c: char): char {
    if 'A' <= c <= 'Z' then (c as int - 'A' as int + 'a' as int) as char else c
  }

  /** ASCII lower-casing of a string, character by character. */
  function Lower(s: string): (r: string)
    ensures |r| == |s|
    ensures forall i :: 0 <= i < |s| ==> r[i] == LowerChar(s[i])
  {
    if s == [] then [] else [LowerChar(s[0])] + Lower(s[1..])
  }
}
