/**
 * The `openPDFViewer('<path>', '<title>')` directives embedded in the catalog's onclick
 * attributes, and the regular expression `/openPDFViewer\('([^']+)',\s*'([^']+)'\)/` the
 * script matches them with, written as a deterministic scanner and proved equal to the
 * pattern's meaning.
 */
module ViewerCall {
  import opened Strings
  import opened Wrappers

  const Opening: string := "openPDFViewer('"

  /** One match: the two captured groups and the index just past the match. */
  datatype Match = Match(path: string, title: string, end: nat)

  predicate NoQuote(s: string) {
    '\'' !in s
  }

  predicate AllWhitespace(w: string) {
    forall k :: 0 <= k < |w| ==> IsJsWhitespace(w[k])
  }

  /** The text a match of the pattern spans: the groups `p` and `t`, with the white space `w` after the comma. */
  function Instance(p: string, w: string, t: string): string {
    Opening + p + "'," + w + "'" + t + "')"
  }

  /** The pattern matches `s` at index `i` with groups `p` and `t` (and white space `w`). */
  predicate PatternAt(s: string, i: nat, p: string, w: string, t: string) {
    p != "" && t != "" && NoQuote(p) && NoQuote(t) && AllWhitespace(w) && OccursAt(s, Instance(p, w, t), i)
  }

  /** The text the script writes back: `openPDFViewer('<path>', '<title>')`. */
  function Directive(path: string, title: string): string {
    Instance(path, " ", title)
  }

  /** The first `'` at or after `j`. */
  function QuoteFrom(s: string, j: nat): (r: Option<nat>)
    requires j <= |s|
    decreases |s| - j
    ensures r.Some? ==> j <= r.value < |s| && s[r.value] == '\''
  {
    if j == |s| then None
    else if s[j] == '\'' then Some(j)
    else QuoteFrom(s, j + 1)
  }

  /** The end of the white-space run starting at `j` (what a greedy `\s*` consumes). */
  function SkipWhitespace(s: string, j: nat): (r: nat)
    requires j <= |s|
    decreases |s| - j
    ensures j <= r <= |s|
  {
    if j < |s| && IsJsWhitespace(s[j]) then SkipWhitespace(s, j + 1) else j
  }

  /** Tries the pattern at index `i` only. */
  function MatchAt(s: string, i: nat): Option<Match>
    requires i <= |s|
  {
    if StartsWith(s[i..], Opening) then PathFrom(s, i + |Opening|) else None
  }

  /** `([^']+)',\s*'` from index `j`: the path group, then the comma and the opening quote of the title. */
  function PathFrom(s: string, j: nat): Option<Match>
    requires j <= |s|
  {
    match QuoteFrom(s, j)
    case None => None
    case Some(k1) =>
      if k1 == j || k1 + 1 >= |s| || s[k1 + 1] != ',' then None
      else
        var b := SkipWhitespace(s, k1 + 2);
        if b >= |s| || s[b] != '\'' then None else TitleFrom(s, s[j..k1], b + 1)
  }

  /** `([^']+)'\)` from index `j`: the title group and the closing `')`. */
  function TitleFrom(s: string, path: string, j: nat): Option<Match>
    requires j <= |s|
  {
    match QuoteFrom(s, j)
    case None => None
    case Some(k2) =>
      if k2 == j || k2 + 1 >= |s| || s[k2 + 1] != ')' then None
      else Some(Match(path, s[j..k2], k2 + 2))
  }

  /** The leftmost match at or after `i`. */
  function FirstMatchFrom(s: string, i: nat): Option<Match>
    requires i <= |s|
    decreases |s| - i
  {
    if MatchAt(s, i).Some? then MatchAt(s, i)
    else if i == |s| then None
    else FirstMatchFrom(s, i + 1)
  }

  /** `onclick.match(pattern)`: the leftmost match, if any. */
  function Parse(s: string): Option<Match> {
    FirstMatchFrom(s, 0)
  }

  /** `QuoteFrom` finds the first quote: none lies between `j` and the index it returns. */
  lemma {:induction false} QuoteFromScan(s: string, j: nat)
    requires j <= |s|
    ensures QuoteFrom(s, j).Some? ==> forall k :: j <= k < QuoteFrom(s, j).value ==> s[k] != '\''
    ensures QuoteFrom(s, j).None? ==> forall k :: j <= k < |s| ==> s[k] != '\''
    decreases |s| - j
  {
    if j < |s| && s[j] != '\'' {
      QuoteFromScan(s, j + 1);
    }
  }

  /** `SkipWhitespace` stops at the first character that is not white space. */
  lemma {:induction false} SkipWhitespaceScan(s: string, j: nat)
    requires j <= |s|
    ensures forall k :: j <= k < SkipWhitespace(s, j) ==> IsJsWhitespace(s[k])
    ensures SkipWhitespace(s, j) < |s| ==> !IsJsWhitespace(s[SkipWhitespace(s, j)])
    decreases |s| - j
  {
    if j < |s| && IsJsWhitespace(s[j]) {
      SkipWhitespaceScan(s, j + 1);
    }
  }

  lemma {:induction false} QuoteFromIs(s: string, j: nat, k: nat)
    requires j <= k < |s| && s[k] == '\''
    requires forall x :: j <= x < k ==> s[x] != '\''
    ensures QuoteFrom(s, j) == Some(k)
    decreases k - j
  {
    if j < k {
      QuoteFromIs(s, j + 1, k);
    }
  }

  lemma {:induction false} SkipWhitespaceIs(s: string, j: nat, m: nat)
    requires j <= m < |s| && !IsJsWhitespace(s[m])
    requires forall x :: j <= x < m ==> IsJsWhitespace(s[x])
    ensures SkipWhitespace(s, j) == m
    decreases m - j
  {
    if j < m {
      SkipWhitespaceIs(s, j + 1, m);
    }
  }

  /** Where the pieces of an instance sit inside the string it occurs in. */
  lemma InstanceLayout(s: string, i: nat, p: string, w: string, t: string)
    requires OccursAt(s, Instance(p, w, t), i)
    ensures var a := i + |Opening|; var b := a + |p| + 2 + |w|; var c := b + 1 + |t|;
      && c + 2 == i + |Instance(p, w, t)| && c + 2 <= |s|
      && StartsWith(s[i..], Opening)
      && s[a..a + |p|] == p && s[a + |p|] == '\'' && s[a + |p| + 1] == ','
      && s[a + |p| + 2..b] == w && s[b] == '\''
      && s[b + 1..c] == t && s[c] == '\'' && s[c + 1] == ')'
  {
    var head := Opening + p + "'," + w + "'";
    var tail := t + "')";
    InstanceHalves(p, w, t);
    var j := i + |head|;
    assert s[i..j] == head && s[j..j + |tail|] == tail by {
      SliceOfSlice(s, i, |head| + |tail|, 0, |head|);
      SliceOfSlice(s, i, |head| + |tail|, |head|, |head| + |tail|);
    }
    HeadLayout(s, i, p, w);
    TailLayout(s, j, t);
  }

  lemma HeadLayout(s: string, i: nat, p: string, w: string)
    requires OccursAt(s, Opening + p + "'," + w + "'", i)
    ensures var a := i + |Opening|; var b := a + |p| + 2 + |w|;
      && StartsWith(s[i..], Opening)
      && s[a..a + |p|] == p && s[a + |p|] == '\'' && s[a + |p| + 1] == ','
      && s[a + |p| + 2..b] == w && s[b] == '\''
  {
    var head := Opening + p + "'," + w + "'";
    var o, x1, x2 := |Opening|, |Opening| + |p|, |Opening| + |p| + 2 + |w|;
    HeadPieces(p, w);
    var u := s[i..i + |head|];
    assert s[i..][..o] == u[..o];
    SliceOfSlice(s, i, |head|, o, x1);
    SliceOfSlice(s, i, |head|, x1 + 2, x2);
    assert s[i + x1] == u[x1] && s[i + x1 + 1] == u[x1 + 1] && s[i + x2] == u[x2];
  }

  lemma HeadPieces(p: string, w: string)
    ensures var head := Opening + p + "'," + w + "'";
      var o, x1, x2 := |Opening|, |Opening| + |p|, |Opening| + |p| + 2 + |w|;
      && |head| == x2 + 1
      && head[..o] == Opening && head[o..x1] == p && head[x1] == '\'' && head[x1 + 1] == ','
      && head[x1 + 2..x2] == w && head[x2] == '\''
  {
    var head := Opening + p + "'," + w + "'";
    var o, x1, x2 := |Opening|, |Opening| + |p|, |Opening| + |p| + 2 + |w|;
    assert head[..o] == Opening;
    assert head[o..x1] == p;
    assert head[x1 + 2..x2] == w;
  }

  lemma TailLayout(s: string, j: nat, t: string)
    requires OccursAt(s, t + "')", j)
    ensures var c := j + |t|; c + 2 <= |s| && s[j..c] == t && s[c] == '\'' && s[c + 1] == ')'
  {
    var tail := t + "')";
    var u := s[j..j + |tail|];
    assert u == tail;
    assert tail[..|t|] == t;
    SliceOfSlice(s, j, |tail|, 0, |t|);
    assert s[j + |t|] == u[|t|] && s[j + |t| + 1] == u[|t| + 1];
  }

  /** Completeness and uniqueness: wherever the pattern matches, the scanner finds exactly those groups. */
  lemma MatchAtComplete(s: string, i: nat, p: string, w: string, t: string)
    requires PatternAt(s, i, p, w, t)
    ensures MatchAt(s, i) == Some(Match(p, t, i + |Instance(p, w, t)|))
  {
    InstanceLayout(s, i, p, w, t);
    var a := i + |Opening|;
    var k1 := a + |p|;
    var b := k1 + 2 + |w|;
    var k2 := b + 1 + |t|;
    TitleFromIs(s, p, b + 1, k2);
    PathFromIs(s, a, k1, b, Match(p, t, k2 + 2));
  }

  lemma TitleFromIs(s: string, path: string, j: nat, k2: nat)
    requires j < k2 && k2 + 2 <= |s| && NoQuote(s[j..k2]) && s[k2] == '\'' && s[k2 + 1] == ')'
    ensures TitleFrom(s, path, j) == Some(Match(path, s[j..k2], k2 + 2))
  {
    NoQuoteRun(s, j, k2);
    QuoteFromIs(s, j, k2);
  }

  lemma PathFromIs(s: string, j: nat, k1: nat, b: nat, m: Match)
    requires j < k1 && k1 + 2 <= b < |s| && NoQuote(s[j..k1]) && s[k1] == '\'' && s[k1 + 1] == ','
    requires AllWhitespace(s[k1 + 2..b]) && s[b] == '\''
    requires TitleFrom(s, s[j..k1], b + 1) == Some(m)
    ensures PathFrom(s, j) == Some(m)
  {
    NoQuoteRun(s, j, k1);
    QuoteFromIs(s, j, k1);
    WhitespaceRun(s, k1 + 2, b);
    SkipWhitespaceIs(s, k1 + 2, b);
  }

  lemma SliceOfSlice(s: string, i: nat, n: nat, x: nat, y: nat)
    requires i + n <= |s| && x <= y <= n
    ensures s[i..i + n][x..y] == s[i + x..i + y]
  {
    var u, v := s[i..i + n][x..y], s[i + x..i + y];
    assert |u| == |v|;
    forall k | 0 <= k < |u| ensures u[k] == v[k] {
      assert u[k] == s[i..i + n][x + k] == s[i + x + k];
    }
  }

  lemma NoQuoteRun(s: string, x: nat, y: nat)
    requires x <= y <= |s| && NoQuote(s[x..y])
    ensures forall k :: x <= k < y ==> s[k] != '\''
  {
    forall k | x <= k < y ensures s[k] != '\'' {
      assert s[k] == s[x..y][k - x];
    }
  }

  lemma WhitespaceRun(s: string, x: nat, y: nat)
    requires x <= y <= |s| && AllWhitespace(s[x..y])
    ensures forall k :: x <= k < y ==> IsJsWhitespace(s[k])
  {
    forall k | x <= k < y ensures IsJsWhitespace(s[k]) {
      assert s[k] == s[x..y][k - x];
    }
  }

  lemma Split(s: string, x: nat, y: nat, z: nat)
    requires x <= y <= z <= |s|
    ensures s[x..z] == s[x..y] + s[y..z]
  {
  }

  /** Glues the scanned pieces back into one instance of the pattern. */
  lemma Assemble(s: string, i: nat, j: nat, k1: nat, b: nat, k2: nat)
    requires j == i + |Opening| && j <= k1 && k1 + 2 <= b < k2 && k2 + 2 <= |s|
    requires s[i..j] == Opening && s[k1] == '\'' && s[k1 + 1] == ',' && s[b] == '\''
    requires s[k2] == '\'' && s[k2 + 1] == ')'
    ensures s[i..k2 + 2] == Instance(s[j..k1], s[k1 + 2..b], s[b + 1..k2])
  {
    var p, w, t := s[j..k1], s[k1 + 2..b], s[b + 1..k2];
    AssembleHead(s, i, j, k1, b);
    AssembleTail(s, b, k2);
    Split(s, i, b + 1, k2 + 2);
    InstanceHalves(p, w, t);
  }

  lemma AssembleHead(s: string, i: nat, j: nat, k1: nat, b: nat)
    requires j == i + |Opening| && j <= k1 && k1 + 2 <= b < |s|
    requires s[i..j] == Opening && s[k1] == '\'' && s[k1 + 1] == ',' && s[b] == '\''
    ensures s[i..b + 1] == Opening + s[j..k1] + "'," + s[k1 + 2..b] + "'"
  {
    Split(s, i, j, b + 1);
    Split(s, j, k1, b + 1);
    Split(s, k1, k1 + 2, b + 1);
    Split(s, k1 + 2, b, b + 1);
    assert s[k1..k1 + 2] == "',";
    assert s[b..b + 1] == "'";
  }

  lemma AssembleTail(s: string, b: nat, k2: nat)
    requires b < k2 && k2 + 2 <= |s| && s[k2] == '\'' && s[k2 + 1] == ')'
    ensures s[b + 1..k2 + 2] == s[b + 1..k2] + "')"
  {
    Split(s, b + 1, k2, k2 + 2);
    assert s[k2..k2 + 2] == "')";
  }

  lemma InstanceHalves(p: string, w: string, t: string)
    ensures Instance(p, w, t) == (Opening + p + "'," + w + "'") + (t + "')")
  {
  }

  /** A run of non-quote characters, read back as a slice. */
  lemma RunNoQuote(s: string, x: nat, y: nat)
    requires x <= y <= |s| && forall k :: x <= k < y ==> s[k] != '\''
    ensures NoQuote(s[x..y])
  {
    forall k | 0 <= k < y - x ensures s[x..y][k] != '\'' {
      assert s[x..y][k] == s[x + k];
    }
  }

  /** A run of white space, read back as a slice. */
  lemma RunWhitespace(s: string, x: nat, y: nat)
    requires x <= y <= |s| && forall k :: x <= k < y ==> IsJsWhitespace(s[k])
    ensures AllWhitespace(s[x..y])
  {
    forall k | 0 <= k < y - x ensures IsJsWhitespace(s[x..y][k]) {
      assert s[x..y][k] == s[x + k];
    }
  }

  /** The pieces the scanner delimits form a match of the pattern. */
  lemma PiecesMatch(s: string, i: nat, j: nat, k1: nat, b: nat, k2: nat)
    requires j == i + |Opening| && j < k1 && k1 + 2 <= b && b + 1 < k2 && k2 + 2 <= |s|
    requires s[i..j] == Opening && s[k1] == '\'' && s[k1 + 1] == ',' && s[b] == '\''
    requires s[k2] == '\'' && s[k2 + 1] == ')'
    requires forall k :: j <= k < k1 ==> s[k] != '\''
    requires forall k :: b + 1 <= k < k2 ==> s[k] != '\''
    requires forall k :: k1 + 2 <= k < b ==> IsJsWhitespace(s[k])
    ensures PatternAt(s, i, s[j..k1], s[k1 + 2..b], s[b + 1..k2])
    ensures k2 + 2 == i + |Instance(s[j..k1], s[k1 + 2..b], s[b + 1..k2])|
  {
    Assemble(s, i, j, k1, b, k2);
    RunNoQuote(s, j, k1);
    RunNoQuote(s, b + 1, k2);
    RunWhitespace(s, k1 + 2, b);
  }

  /** Soundness: what the scanner returns is a match of the pattern at that index. */
  lemma MatchAtSound(s: string, i: nat)
    requires i <= |s| && MatchAt(s, i).Some?
    ensures var m := MatchAt(s, i).value;
      exists w :: PatternAt(s, i, m.path, w, m.title) && m.end == i + |Instance(m.path, w, m.title)|
  {
    var m := MatchAt(s, i).value;
    var j := i + |Opening|;
    assert PathFrom(s, j).Some?;
    var k1 := QuoteFrom(s, j).value;
    var b := SkipWhitespace(s, k1 + 2);
    assert TitleFrom(s, s[j..k1], b + 1).Some?;
    var k2 := QuoteFrom(s, b + 1).value;
    QuoteFromScan(s, j);
    QuoteFromScan(s, b + 1);
    SkipWhitespaceScan(s, k1 + 2);
    assert m == Match(s[j..k1], s[b + 1..k2], k2 + 2);
    assert s[i..j] == s[i..][..|Opening|];
    PiecesMatch(s, i, j, k1, b, k2);
    var w := s[k1 + 2..b];
    assert PatternAt(s, i, m.path, w, m.title);
  }

  /** `Parse` finds the leftmost index at which the pattern matches. */
  lemma {:induction false} FirstMatchFromLeftmost(s: string, i: nat, j: nat, p: string, w: string, t: string)
    requires i <= j <= |s| && PatternAt(s, j, p, w, t)
    ensures FirstMatchFrom(s, i).Some?
    decreases j - i
  {
    if MatchAt(s, i).None? {
      if i == j {
        MatchAtComplete(s, j, p, w, t);
      } else {
        FirstMatchFromLeftmost(s, i + 1, j, p, w, t);
      }
    }
  }

  lemma {:induction false} FirstMatchFromSound(s: string, i: nat)
    requires i <= |s| && FirstMatchFrom(s, i).Some?
    ensures exists k :: i <= k <= |s| && MatchAt(s, k) == FirstMatchFrom(s, i)
                        && forall x :: i <= x < k ==> MatchAt(s, x).None?
    decreases |s| - i
  {
    if MatchAt(s, i).None? {
      FirstMatchFromSound(s, i + 1);
      var k :| i + 1 <= k <= |s| && MatchAt(s, k) == FirstMatchFrom(s, i + 1)
               && forall x :: i + 1 <= x < k ==> MatchAt(s, x).None?;
      assert forall x :: i <= x < k ==> MatchAt(s, x).None?;
    }
  }

  /**
   * A string parses exactly when the pattern matches somewhere in it; the result then comes
   * from a match of the pattern with non-empty, quote-free groups, and no match starts
   * further left.
   */
  lemma ParseMeaning(s: string)
    ensures Parse(s).Some? <==> exists i: nat, p, w, t :: i <= |s| && PatternAt(s, i, p, w, t)
    ensures Parse(s).Some? ==>
      var m := Parse(s).value;
      && m.path != "" && m.title != "" && NoQuote(m.path) && NoQuote(m.title)
      && exists i: nat, w :: i <= |s| && PatternAt(s, i, m.path, w, m.title)
                            && forall x :: 0 <= x < i ==> MatchAt(s, x).None?
  {
    if Parse(s).Some? {
      FirstMatchFromSound(s, 0);
      var k :| 0 <= k <= |s| && MatchAt(s, k) == Parse(s) && forall x :: 0 <= x < k ==> MatchAt(s, x).None?;
      MatchAtSound(s, k);
    }
    if exists i: nat, p, w, t :: i <= |s| && PatternAt(s, i, p, w, t) {
      var i: nat, p, w, t :| i <= |s| && PatternAt(s, i, p, w, t);
      FirstMatchFromLeftmost(s, 0, i, p, w, t);
    }
  }

  /** Round trip: the directive written back for a path and a title parses to that path and title. */
  lemma ParseDirective(path: string, title: string)
    requires path != "" && title != "" && NoQuote(path) && NoQuote(title)
    ensures Parse(Directive(path, title)) == Some(Match(path, title, |Directive(path, title)|))
  {
    var s := Directive(path, title);
    assert AllWhitespace(" ");
    assert OccursAt(s, Instance(path, " ", title), 0);
    MatchAtComplete(s, 0, path, " ", title);
  }
}
