/**
 * The JavaScript string operations the catalog code relies on, over `seq<char>`:
 * `startsWith`, `includes`, `indexOf`, `lastIndexOf`, `replace` with a string or a
 * global literal pattern, `trim`, `toLowerCase` and `split('/').pop()`.
 */
module Strings {
  import opened Wrappers

  predicate StartsWith(s: string, prefix: string) {
    |prefix| <= |s| && s[..|prefix|] == prefix
  }

  /** A string whose first character differs from the prefix's does not start with it. */
  lemma NotStartsWith(s: string, prefix: string)
    requires prefix != [] && (s == [] || s[0] != prefix[0])
    ensures !StartsWith(s, prefix)
  {
    if |prefix| <= |s| {
      assert s[..|prefix|][0] == s[0];
    }
  }

  lemma PrefixCancel(b: string, u: string, v: string)
    requires u != v
    ensures b + u != b + v
  {
    assert (b + u)[|b|..] == u;
    assert (b + v)[|b|..] == v;
  }

  /** `needle` occurs in `s` starting at index `i`. */
  predicate OccursAt(s: string, needle: string, i: nat) {
    i + |needle| <= |s| && s[i..i + |needle|] == needle
  }

  /** `s.includes(needle)` */
  predicate Contains(s: string, needle: string) {
    exists i: nat :: i <= |s| && OccursAt(s, needle, i)
  }

  lemma ContainsAt(s: string, needle: string, i: nat)
    requires OccursAt(s, needle, i)
    ensures Contains(s, needle)
  {
  }

  /** The first index at or after `from` where `needle` occurs (`s.indexOf(needle, from)`). */
  function IndexOfFrom(s: string, needle: string, from: nat): (r: Option<nat>)
    decreases |s| - from
    ensures r.Some? ==> from <= r.value && OccursAt(s, needle, r.value)
    ensures r.Some? ==> forall j: nat :: from <= j < r.value ==> !OccursAt(s, needle, j)
    ensures r.None? ==> forall j: nat :: from <= j ==> !OccursAt(s, needle, j)
  {
    if from + |needle| > |s| then None
    else if OccursAt(s, needle, from) then Some(from)
    else IndexOfFrom(s, needle, from + 1)
  }

  function IndexOf(s: string, needle: string): (r: Option<nat>)
    ensures r.Some? <==> Contains(s, needle)
    ensures r.Some? ==> OccursAt(s, needle, r.value)
    ensures r.Some? ==> forall j: nat :: j < r.value ==> !OccursAt(s, needle, j)
  {
    IndexOfFrom(s, needle, 0)
  }

  /** `s.replace(pattern, replacement)` with a string pattern: only the first occurrence. */
  function ReplaceFirst(s: string, pattern: string, replacement: string): (r: string)
    ensures !Contains(s, pattern) ==> r == s
    ensures Contains(s, pattern) ==>
      exists i: nat :: OccursAt(s, pattern, i) && r == s[..i] + replacement + s[i + |pattern|..]
  {
    match IndexOf(s, pattern)
    case None => s
    case Some(i) => s[..i] + replacement + s[i + |pattern|..]
  }

  /**
   * `s.replace(/pattern/g, replacement)` for a literal, non-empty pattern: occurrences are
   * replaced left to right and never overlap.
   */
  function ReplaceAllLiteral(s: string, pattern: string, replacement: string): (r: string)
    requires pattern != []
    decreases |s|
  {
    if s == [] then []
    else if StartsWith(s, pattern) then replacement + ReplaceAllLiteral(s[|pattern|..], pattern, replacement)
    else [s[0]] + ReplaceAllLiteral(s[1..], pattern, replacement)
  }

  lemma {:induction false} ReplaceAllAbsent(s: string, pattern: string, replacement: string)
    requires pattern != []
    requires !Contains(s, pattern)
    ensures ReplaceAllLiteral(s, pattern, replacement) == s
    decreases |s|
  {
    if s != [] {
      assert !OccursAt(s, pattern, 0);
      forall i: nat ensures !OccursAt(s[1..], pattern, i) {
        if OccursAt(s[1..], pattern, i) {
          assert s[1..][i..i + |pattern|] == s[i + 1..i + 1 + |pattern|];
          assert OccursAt(s, pattern, i + 1);
        }
      }
      ReplaceAllAbsent(s[1..], pattern, replacement);
    }
  }

  /** A character found neither in `s` nor in the replacement is not in the result either. */
  lemma {:induction false} ReplaceAllKeepsAbsent(s: string, pattern: string, replacement: string, c: char)
    requires pattern != [] && c !in s && c !in replacement
    ensures c !in ReplaceAllLiteral(s, pattern, replacement)
    decreases |s|
  {
    if s != [] {
      if StartsWith(s, pattern) {
        ReplaceAllKeepsAbsent(s[|pattern|..], pattern, replacement, c);
      } else {
        assert s[0] in s;
        ReplaceAllKeepsAbsent(s[1..], pattern, replacement, c);
      }
    }
  }

  /** Characters that cannot begin the pattern are copied as they are. */
  lemma {:induction false} ReplaceAllSkipsPrefix(a: string, rest: string, pattern: string, replacement: string)
    requires pattern != [] && pattern[0] !in a
    ensures ReplaceAllLiteral(a + rest, pattern, replacement) == a + ReplaceAllLiteral(rest, pattern, replacement)
    decreases |a|
  {
    if a == [] {
      assert a + rest == rest;
    } else {
      assert a[0] in a;
      NotStartsWith(a + rest, pattern);
      assert (a + rest)[1..] == a[1..] + rest;
      ReplaceAllSkipsPrefix(a[1..], rest, pattern, replacement);
      assert [a[0]] + (a[1..] + ReplaceAllLiteral(rest, pattern, replacement))
          == a + ReplaceAllLiteral(rest, pattern, replacement);
    }
  }

  /**
   * When the replacement begins like the pattern, a prefix of the result free of that first
   * character was copied from the input.
   */
  lemma {:induction false} ReplaceAllCopiesPrefix(s: string, t: string, pattern: string, replacement: string)
    requires pattern != [] && replacement != [] && replacement[0] == pattern[0] && pattern[0] !in t
    requires StartsWith(ReplaceAllLiteral(s, pattern, replacement), t)
    ensures StartsWith(s, t)
    decreases |t|
  {
    if t != [] {
      var r := ReplaceAllLiteral(s, pattern, replacement);
      assert t[0] in t;
      assert r[0] == t[0];
      if !StartsWith(s, pattern) {
        var r' := ReplaceAllLiteral(s[1..], pattern, replacement);
        assert r == [s[0]] + r';
        assert r'[..|t| - 1] == r[1..|t|];
        assert r[1..|t|] == t[1..];
        ReplaceAllCopiesPrefix(s[1..], t[1..], pattern, replacement);
        assert s[..|t|] == [s[0]] + s[1..][..|t| - 1];
      }
    }
  }

  /** `s.replace(/^\.\//, '')`: removes one leading `./`. */
  function StripDotSlash(s: string): string {
    if StartsWith(s, "./") then s[2..] else s
  }

  /** The white space that `String.prototype.trim` removes and the regular expression `\s` matches. */
  predicate IsJsWhitespace(c: char) {
    c == ' ' || c == '\t' || c == '\n' || c == '\r' || c == '\U{B}' || c == '\U{C}'
    || c == '\U{A0}' || c == '\U{1680}' || ('\U{2000}' <= c <= '\U{200A}')
    || c == '\U{2028}' || c == '\U{2029}' || c == '\U{202F}' || c == '\U{205F}'
    || c == '\U{3000}' || c == '\U{FEFF}'
  }

  function TrimStart(s: string): (r: string)
    ensures |r| <= |s| && r == s[|s| - |r|..]
    ensures r == [] || !IsJsWhitespace(r[0])
    ensures forall i :: 0 <= i < |s| - |r| ==> IsJsWhitespace(s[i])
  {
    if s != [] && IsJsWhitespace(s[0]) then TrimStart(s[1..]) else s
  }

  function TrimEnd(s: string): (r: string)
    ensures |r| <= |s| && r == s[..|r|]
    ensures r == [] || !IsJsWhitespace(r[|r| - 1])
    ensures forall i :: |r| <= i < |s| ==> IsJsWhitespace(s[i])
  {
    if s != [] && IsJsWhitespace(s[|s| - 1]) then TrimEnd(s[..|s| - 1]) else s
  }

  /** `s.trim()` */
  function Trim(s: string): string {
    TrimEnd(TrimStart(s))
  }

  /** Text with no white space at either end is left as it is by `trim`. */
  lemma TrimUnpadded(s: string)
    requires s == [] || (!IsJsWhitespace(s[0]) && !IsJsWhitespace(s[|s| - 1]))
    ensures Trim(s) == s
  {
  }

  /** `toLowerCase` on one character; see README for why ASCII suffices here. */
  function LowerChar(c: char): char {
    if 'A' <= c <= 'Z' then (c as int + 32) as char else c
  }

  function Lower(s: string): (r: string)
    ensures |r| == |s|
    ensures forall i :: 0 <= i < |s| ==> r[i] == LowerChar(s[i])
  {
    seq(|s|, i requires 0 <= i < |s| => LowerChar(s[i]))
  }

  /** The index of the last `c` in `s`, if any (`s.lastIndexOf(c)` when it is not -1). */
  function LastIndexOf(s: string, c: char): (r: Option<nat>)
    ensures r.None? <==> c !in s
    ensures r.Some? ==> r.value < |s| && s[r.value] == c
    ensures r.Some? ==> forall j :: r.value < j < |s| ==> s[j] != c
  {
    if s == [] then None
    else if s[|s| - 1] == c then Some(|s| - 1)
    else LastIndexOf(s[..|s| - 1], c)
  }

  /** `s.split('/').pop()`: the text after the last `/`, or all of `s`. */
  function LastSegment(s: string): (r: string)
    ensures '/' !in r
    ensures |r| <= |s| && r == s[|s| - |r|..]
    ensures |r| < |s| ==> s[|s| - |r| - 1] == '/'
  {
    match LastIndexOf(s, '/')
    case None => s
    case Some(k) => s[k + 1..]
  }
}
