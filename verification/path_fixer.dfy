/**
 * The two passes that rewrite the `openPDFViewer('<path>', '<title>')` directives held in
 * the onclick attributes of a page: `AutoPathFixer.fixAllOnClickHandlers`, which repairs
 * hand-written paths, and `UI.fixAllPDFPaths`, which replaces every path by its normalised
 * URL. Both run once when the page has loaded, the first before the second. The page's
 * elements are an array of optional onclick attributes, rewritten in place.
 */
module PathFixer {
  import opened Strings
  import opened Uri
  import opened Wrappers
  import opened PathUtil
  import opened ViewerCall

  const Marker: string := "openPDFViewer"
  const SpacedFolder: string := "Old Is Gold"
  const EscapedFolder: string := "Old%20Is%20Gold"

  /** The elements the selector `[onclick*="openPDFViewer"]` picks. */
  predicate Selected(attr: Option<string>) {
    attr.Some? && Contains(attr.value, Marker)
  }

  // ---------------------------------------------------------------- fixAllOnClickHandlers

  /**
   * The path repair as the script writes it: drop one leading `./`, write every
   * `Old Is Gold` as `Old%20Is%20Gold`, and under GitHub Pages prepend `/` unless the path
   * starts with `/` or `http`.
   */
  function FixPathAsWritten(mode: Mode, p: string): string {
    var stripped := StripDotSlash(p);
    var spaced := ReplaceAllLiteral(stripped, SpacedFolder, EscapedFolder);
    if mode == GitHubPages && !StartsWith(spaced, "/") && !StartsWith(spaced, "http") then "/" + spaced else spaced
  }

  /**
   * The path repair with the escape of `Old Is Gold` restricted to local development: under
   * GitHub Pages `normalizePath` percent-encodes the path afterwards, so an escape written
   * here would be encoded a second time.
   */
  function FixPath(mode: Mode, p: string): string {
    var stripped := StripDotSlash(p);
    var spaced := if mode == LocalDevelopment then ReplaceAllLiteral(stripped, SpacedFolder, EscapedFolder) else stripped;
    if mode == GitHubPages && !StartsWith(spaced, "/") && !StartsWith(spaced, "http") then "/" + spaced else spaced
  }

  /** The repair the script applies, or the corrected one. */
  datatype Repair = AsWritten | Corrected

  function RepairPath(fix: Repair, mode: Mode, p: string): string {
    match fix
    case AsWritten => FixPathAsWritten(mode, p)
    case Corrected => FixPath(mode, p)
  }

  /**
   * The new onclick attribute for one element: the first directive's path is repaired and,
   * when that changes it, the whole attribute becomes a fresh directive with the same title.
   * `None` leaves the attribute as it is.
   */
  function FixOnClick(fix: Repair, mode: Mode, onclick: string): Option<string> {
    match Parse(onclick)
    case None => None
    case Some(m) =>
      var newPath := RepairPath(fix, mode, m.path);
      if newPath != m.path then Some(Directive(newPath, m.title)) else None
  }

  /** What the repair pass leaves in one attribute. */
  function RepairedAttribute(fix: Repair, mode: Mode, attr: Option<string>): Option<string> {
    if Selected(attr) && attr.value != "" && FixOnClick(fix, mode, attr.value).Some? then FixOnClick(fix, mode, attr.value)
    else attr
  }

  /** `AutoPathFixer.fixAllOnClickHandlers`, element by element in document order. */
  method FixAllOnClickHandlers(mode: Mode, attrs: array<Option<string>>)
    modifies attrs
    ensures forall k :: 0 <= k < attrs.Length ==> attrs[k] == RepairedAttribute(AsWritten, mode, old(attrs[k]))
  {
    for k := 0 to attrs.Length
      invariant forall x :: 0 <= x < k ==> attrs[x] == RepairedAttribute(AsWritten, mode, old(attrs[x]))
      invariant forall x :: k <= x < attrs.Length ==> attrs[x] == old(attrs[x])
    {
      RepairElement(mode, attrs, k);
    }
  }

  /** The body of the `forEach` of `AutoPathFixer.fixAllOnClickHandlers` for the element at `k`. */
  method RepairElement(mode: Mode, attrs: array<Option<string>>, k: nat)
    requires k < attrs.Length
    modifies attrs
    ensures attrs[k] == RepairedAttribute(AsWritten, mode, old(attrs[k]))
    ensures forall x :: 0 <= x < attrs.Length && x != k ==> attrs[x] == old(attrs[x])
  {
    var attr := attrs[k];
    if Selected(attr) && attr.value != "" {
      match Parse(attr.value)
      case None =>
      case Some(m) =>
        var newPath := FixPathAsWritten(mode, m.path);
        if newPath != m.path {
          attrs[k] := Some(Directive(newPath, m.title));
        }
    }
  }

  // ---------------------------------------------------------------- fixAllPDFPaths

  lemma MatchAtBounds(s: string, i: nat)
    requires i <= |s| && MatchAt(s, i).Some?
    ensures i < MatchAt(s, i).value.end <= |s|
  {
    MatchAtSound(s, i);
  }

  /**
   * `onclick.replace(/openPDFViewer\('([^']+)',\s*'([^']+)'\)/g, ...)` from index `i`: each
   * match, tried left to right and resumed after the previous one, becomes a directive with
   * the normalised path and the same title; every other character is copied.
   */
  function RewriteFrom(mode: Mode, s: string, i: nat): string
    decreases |s| - i
  {
    if i >= |s| then []
    else
      match MatchAt(s, i)
      case None => [s[i]] + RewriteFrom(mode, s, i + 1)
      case Some(m) =>
        MatchAtBounds(s, i);
        Directive(NormalizePath(mode, m.path), m.title) + RewriteFrom(mode, s, m.end)
  }

  function Rewrite(mode: Mode, s: string): string {
    RewriteFrom(mode, s, 0)
  }

  /** What the normalising pass leaves in one attribute. */
  function NormalizedAttribute(mode: Mode, attr: Option<string>): Option<string> {
    if Selected(attr) && attr.value != "" then Some(Rewrite(mode, attr.value)) else attr
  }

  /** `UI.fixAllPDFPaths`, element by element in document order. */
  method FixAllPDFPaths(mode: Mode, attrs: array<Option<string>>)
    modifies attrs
    ensures forall k :: 0 <= k < attrs.Length ==> attrs[k] == NormalizedAttribute(mode, old(attrs[k]))
  {
    for k := 0 to attrs.Length
      invariant forall x :: 0 <= x < k ==> attrs[x] == NormalizedAttribute(mode, old(attrs[x]))
      invariant forall x :: k <= x < attrs.Length ==> attrs[x] == old(attrs[x])
    {
      NormalizeElement(mode, attrs, k);
    }
  }

  /** The body of the `forEach` of `UI.fixAllPDFPaths` for the element at `k`. */
  method NormalizeElement(mode: Mode, attrs: array<Option<string>>, k: nat)
    requires k < attrs.Length
    modifies attrs
    ensures attrs[k] == NormalizedAttribute(mode, old(attrs[k]))
    ensures forall x :: 0 <= x < attrs.Length && x != k ==> attrs[x] == old(attrs[x])
  {
    var attr := attrs[k];
    if Selected(attr) && attr.value != "" {
      attrs[k] := Some(Rewrite(mode, attr.value));
    }
  }

  // ---------------------------------------------------------------- properties of the repair

  lemma StartsWithSlashOrHttp(p: string)
    requires StartsWith(p, "/") || StartsWith(p, "http")
    ensures !StartsWith(p, "./") && StripDotSlash(p) == p
  {
    NotStartsWith(p, "./");
  }

  /** Under GitHub Pages the repaired path starts with `/` or `http`, so it is never empty. */
  lemma FixPathGitHubShape(fix: Repair, p: string)
    ensures StartsWith(RepairPath(fix, GitHubPages, p), "/") || StartsWith(RepairPath(fix, GitHubPages, p), "http")
    ensures RepairPath(fix, GitHubPages, p) != ""
  {
  }

  /**
   * Under GitHub Pages the repair is idempotent: a repaired path is left alone. As written,
   * this rests on the escape leaving no `Old Is Gold` behind.
   */
  lemma FixPathGitHubIdempotent(fix: Repair, p: string)
    ensures RepairPath(fix, GitHubPages, RepairPath(fix, GitHubPages, p)) == RepairPath(fix, GitHubPages, p)
  {
    var q := RepairPath(fix, GitHubPages, p);
    FixPathGitHubShape(fix, p);
    StartsWithSlashOrHttp(q);
    if fix == AsWritten {
      var spaced := ReplaceAllLiteral(StripDotSlash(p), SpacedFolder, EscapedFolder);
      EscapeLeavesNoFolder(StripDotSlash(p));
      if q != spaced {
        NoFolderAfterSlash(spaced);
      }
      ReplaceAllAbsent(q, SpacedFolder, EscapedFolder);
    }
  }

  /** No `Old Is Gold` starts inside the escaped folder name, whatever follows it. */
  lemma NoFolderInEscape(u: string, k: nat)
    requires k < |EscapedFolder|
    ensures !OccursAt(EscapedFolder + u, SpacedFolder, k)
  {
    var e := EscapedFolder + u;
    if k + |SpacedFolder| <= |e| {
      var w := e[k..k + |SpacedFolder|];
      if k == 0 {
        assert w[3] == EscapedFolder[3] != SpacedFolder[3];
      } else {
        assert w[0] == EscapedFolder[k] != SpacedFolder[0];
      }
    }
  }

  /** The escape of `Old Is Gold` leaves no `Old Is Gold` in its result. */
  lemma {:induction false} EscapeLeavesNoFolder(s: string)
    ensures !Contains(ReplaceAllLiteral(s, SpacedFolder, EscapedFolder), SpacedFolder)
    decreases |s|
  {
    if s != [] {
      if StartsWith(s, SpacedFolder) {
        EscapeLeavesNoFolder(s[|SpacedFolder|..]);
        NoFolderAfterEscape(ReplaceAllLiteral(s[|SpacedFolder|..], SpacedFolder, EscapedFolder));
      } else {
        EscapeLeavesNoFolder(s[1..]);
        NoFolderAfterCopy(s);
      }
    }
  }

  lemma NoFolderAfterEscape(u: string)
    requires !Contains(u, SpacedFolder)
    ensures !Contains(EscapedFolder + u, SpacedFolder)
  {
    var r := EscapedFolder + u;
    forall k: nat | k <= |r| ensures !OccursAt(r, SpacedFolder, k) {
      if k < |EscapedFolder| {
        NoFolderInEscape(u, k);
      } else if k + |SpacedFolder| <= |r| {
        assert u[k - |EscapedFolder|..k - |EscapedFolder| + |SpacedFolder|] == r[k..k + |SpacedFolder|];
        assert !OccursAt(u, SpacedFolder, k - |EscapedFolder|);
      }
    }
  }

  /** A character copied in front of an escaped rest starts no `Old Is Gold`. */
  lemma NoFolderAfterCopy(s: string)
    requires s != [] && !StartsWith(s, SpacedFolder)
    requires !Contains(ReplaceAllLiteral(s[1..], SpacedFolder, EscapedFolder), SpacedFolder)
    ensures !Contains([s[0]] + ReplaceAllLiteral(s[1..], SpacedFolder, EscapedFolder), SpacedFolder)
  {
    var u := ReplaceAllLiteral(s[1..], SpacedFolder, EscapedFolder);
    var r := [s[0]] + u;
    forall k: nat | k <= |r| ensures !OccursAt(r, SpacedFolder, k) {
      if k == 0 {
        NoFolderAtCopy(s);
      } else if k + |SpacedFolder| <= |r| {
        assert u[k - 1..k - 1 + |SpacedFolder|] == r[k..k + |SpacedFolder|];
        assert !OccursAt(u, SpacedFolder, k - 1);
      }
    }
  }

  lemma NoFolderAtCopy(s: string)
    requires s != [] && !StartsWith(s, SpacedFolder)
    ensures !OccursAt([s[0]] + ReplaceAllLiteral(s[1..], SpacedFolder, EscapedFolder), SpacedFolder, 0)
  {
    var u := ReplaceAllLiteral(s[1..], SpacedFolder, EscapedFolder);
    var r := [s[0]] + u;
    var tail := SpacedFolder[1..];
    if |SpacedFolder| <= |r| && r[1..|SpacedFolder|] == tail {
      assert u[..|tail|] == tail;
      ReplaceAllCopiesPrefix(s[1..], tail, SpacedFolder, EscapedFolder);
      assert s[..|SpacedFolder|] == [s[0]] + tail;
    }
  }

  /** A `/` in front of a string without `Old Is Gold` adds none. */
  lemma NoFolderAfterSlash(s: string)
    requires !Contains(s, SpacedFolder)
    ensures !Contains("/" + s, SpacedFolder)
  {
    var r := "/" + s;
    forall k: nat | k <= |r| ensures !OccursAt(r, SpacedFolder, k) {
      if k > 0 && k + |SpacedFolder| <= |r| {
        assert s[k - 1..k - 1 + |SpacedFolder|] == r[k..k + |SpacedFolder|];
        assert !OccursAt(s, SpacedFolder, k - 1);
      } else if k == 0 && |SpacedFolder| <= |r| {
        assert r[..|SpacedFolder|][0] == '/' != SpacedFolder[0];
      }
    }
  }

  /**
   * Locally the repair is not idempotent: `././x` loses one `./` per pass, just as
   * `normalizePath` does.
   */
  lemma FixPathLocalNotIdempotent(fix: Repair)
    ensures RepairPath(fix, LocalDevelopment, "././x") == "./x"
    ensures RepairPath(fix, LocalDevelopment, "./x") == "x"
  {
    assert "././x"[..2] == "./";
    assert "./x"[..2] == "./";
    assert !Contains("./x", SpacedFolder);
    assert !Contains("x", SpacedFolder);
    ReplaceAllAbsent("./x", SpacedFolder, EscapedFolder);
    ReplaceAllAbsent("x", SpacedFolder, EscapedFolder);
  }

  /** A path with nothing to repair is kept, and then the element is not touched. */
  lemma FixPathKeeps(mode: Mode, p: string)
    requires !StartsWith(p, "./") && !Contains(p, SpacedFolder)
    requires mode == LocalDevelopment || StartsWith(p, "/") || StartsWith(p, "http")
    ensures FixPath(mode, p) == p
    ensures FixPathAsWritten(mode, p) == p
  {
    ReplaceAllAbsent(p, SpacedFolder, EscapedFolder);
  }

  /** The repair adds no `'`, so a repaired directive still parses. */
  lemma FixPathQuoteFree(fix: Repair, mode: Mode, p: string)
    requires NoQuote(p)
    ensures NoQuote(RepairPath(fix, mode, p))
  {
    var stripped := StripDotSlash(p);
    assert NoQuote(stripped) by {
      if StartsWith(p, "./") {
        forall k | 0 <= k < |stripped| ensures stripped[k] != '\'' {
          assert stripped[k] == p[k + 2];
        }
      }
    }
    if fix == AsWritten || mode == LocalDevelopment {
      assert '\'' !in EscapedFolder;
      ReplaceAllKeepsAbsent(stripped, SpacedFolder, EscapedFolder, '\'');
    }
  }

  /**
   * When the repaired path is non-empty, the attribute written back holds exactly one call: it
   * parses to the repaired path and the title of the directive it replaces, kept verbatim.
   */
  lemma FixOnClickReparses(fix: Repair, mode: Mode, onclick: string)
    requires FixOnClick(fix, mode, onclick).Some?
    requires Parse(onclick).Some? ==> RepairPath(fix, mode, Parse(onclick).value.path) != ""
    ensures Parse(onclick).Some?
    ensures var m := Parse(onclick).value;
      var q := RepairPath(fix, mode, m.path);
      Parse(FixOnClick(fix, mode, onclick).value) == Some(Match(q, m.title, |Directive(q, m.title)|))
  {
    var m := Parse(onclick).value;
    ParseMeaning(onclick);
    FixPathQuoteFree(fix, mode, m.path);
    ParseDirective(RepairPath(fix, mode, m.path), m.title);
  }

  /**
   * The repaired path can be empty: locally `openPDFViewer('./', 'T')` is rewritten to
   * `openPDFViewer('', 'T')`, which the pattern no longer matches.
   */
  lemma FixOnClickEmptiesPath(fix: Repair)
    ensures FixOnClick(fix, LocalDevelopment, Directive("./", "T")) == Some(Directive("", "T"))
    ensures Parse(Directive("", "T")).None?
  {
    assert "./"[..2] == "./";
    assert !Contains("", SpacedFolder);
    ReplaceAllAbsent("", SpacedFolder, EscapedFolder);
    assert RepairPath(fix, LocalDevelopment, "./") == "";
    ParseDirective("./", "T");
    var s := Directive("", "T");
    forall i: nat, p, w, t | i <= |s| ensures !PatternAt(s, i, p, w, t) {
      NoPatternInEmptied(i, p, w, t);
    }
    ParseMeaning(s);
  }

  lemma NoPatternInEmptied(i: nat, p: string, w: string, t: string)
    ensures !PatternAt(Directive("", "T"), i, p, w, t)
  {
    var s := Directive("", "T");
    var inst := Instance(p, w, t);
    assert s == "openPDFViewer('', 'T')";
    if p != "" && i + |inst| <= |s| {
      assert inst[0] == 'o' && inst[|Opening|] == p[0];
      var seg := s[i..i + |inst|];
      assert seg[0] == s[i] && seg[|Opening|] == s[i + |Opening|];
      if i == 0 {
        assert s[|Opening|] == '\'';
      } else {
        assert s[i] != 'o';
      }
    }
  }

  // ---------------------------------------------------------------- properties of the normalising pass

  /** Text without any directive is copied unchanged. */
  lemma {:induction false} RewriteFromNoMatch(mode: Mode, s: string, i: nat)
    requires i <= |s| && FirstMatchFrom(s, i).None?
    ensures RewriteFrom(mode, s, i) == s[i..]
    decreases |s| - i
  {
    if i < |s| {
      RewriteFromNoMatch(mode, s, i + 1);
      assert s[i..] == [s[i]] + s[i + 1..];
    }
  }

  /** An attribute that holds no directive is left as it is. */
  lemma RewriteNoMatch(mode: Mode, s: string)
    requires Parse(s).None?
    ensures Rewrite(mode, s) == s
  {
    RewriteFromNoMatch(mode, s, 0);
  }

  /** A match at `i` is replaced by the directive with the normalised path, and the scan resumes after it. */
  lemma RewriteFromMatch(mode: Mode, s: string, i: nat, m: Match)
    requires i < |s| && MatchAt(s, i) == Some(m)
    ensures i < m.end <= |s|
    ensures RewriteFrom(mode, s, i) == Directive(NormalizePath(mode, m.path), m.title) + RewriteFrom(mode, s, m.end)
  {
    MatchAtBounds(s, i);
  }

  /** From `i`, the rewrite copies `s[i..k]`, writes the directive for `m` and resumes after `m`. */
  predicate RewritesAt(mode: Mode, s: string, i: nat, k: nat, m: Match) {
    i <= k <= |s|
    && RewriteFrom(mode, s, i) == s[i..k] + Directive(NormalizePath(mode, m.path), m.title) + RewriteFrom(mode, s, m.end)
  }

  /**
   * The text before the leftmost directive at or after `i` is copied, that directive gets the
   * normalised path and keeps its title, and the rewrite resumes just after it.
   */
  lemma {:induction false} RewriteFromFirst(mode: Mode, s: string, i: nat)
    requires i <= |s| && FirstMatchFrom(s, i).Some?
    ensures exists k :: i <= k < |s| && MatchAt(s, k) == FirstMatchFrom(s, i)
                        && RewritesAt(mode, s, i, k, FirstMatchFrom(s, i).value)
    decreases |s| - i
  {
    var m := FirstMatchFrom(s, i).value;
    if MatchAt(s, i).Some? {
      MatchAtBounds(s, i);
      RewritesAtMatch(mode, s, i, m);
    } else {
      assert FirstMatchFrom(s, i + 1) == FirstMatchFrom(s, i);
      RewriteFromFirst(mode, s, i + 1);
      var k :| i + 1 <= k < |s| && MatchAt(s, k) == FirstMatchFrom(s, i + 1) && RewritesAt(mode, s, i + 1, k, m);
      RewritesAtStep(mode, s, i, k, m);
    }
  }

  lemma RewritesAtMatch(mode: Mode, s: string, i: nat, m: Match)
    requires i < |s| && MatchAt(s, i) == Some(m)
    ensures RewritesAt(mode, s, i, i, m)
  {
    RewriteFromMatch(mode, s, i, m);
    var d, rest := Directive(NormalizePath(mode, m.path), m.title), RewriteFrom(mode, s, m.end);
    EmptyPrefix(s[i..i], d);
  }

  lemma EmptyPrefix<T>(e: seq<T>, u: seq<T>)
    requires e == []
    ensures e + u == u
  {
  }

  lemma RewritesAtStep(mode: Mode, s: string, i: nat, k: nat, m: Match)
    requires i < k <= |s| && MatchAt(s, i).None? && RewritesAt(mode, s, i + 1, k, m)
    ensures RewritesAt(mode, s, i, k, m)
  {
    var d, rest := Directive(NormalizePath(mode, m.path), m.title), RewriteFrom(mode, s, m.end);
    var x := s[i..k];
    assert x[0] == s[i] && x[1..] == s[i + 1..k];
    assert RewriteFrom(mode, s, i) == [s[i]] + RewriteFrom(mode, s, i + 1);
    Reassociate(x[1..], d, rest);
    ConsSplit(x, d + rest);
    Reassociate(x, d, rest);
  }

  /** A single directive gets the normalised path and keeps its title. */
  lemma RewriteDirective(mode: Mode, p: string, t: string)
    requires p != "" && t != "" && NoQuote(p) && NoQuote(t)
    ensures Rewrite(mode, Directive(p, t)) == Directive(NormalizePath(mode, p), t)
  {
    var s := Directive(p, t);
    assert AllWhitespace(" ");
    assert OccursAt(s, Instance(p, " ", t), 0);
    MatchAtComplete(s, 0, p, " ", t);
    RewriteFromMatch(mode, s, 0, Match(p, t, |s|));
  }

  // ---------------------------------------------------------------- the two passes together

  /**
   * Under GitHub Pages the repaired path normalises to the same URL as the path as authored,
   * for every non-empty path except a `data:` or `blob:` URL, which the repair roots, and a
   * path whose `./` hides an absolute URL.
   */
  lemma FixThenNormalize(p: string)
    requires p != "" && (StartsWith(p, "http") || !IsAbsoluteUrl(StripDotSlash(p)))
    ensures NormalizePath(GitHubPages, FixPath(GitHubPages, p)) == NormalizePath(GitHubPages, p)
  {
    var stripped := StripDotSlash(p);
    var q := FixPath(GitHubPages, p);
    FixPathGitHubShape(Corrected, p);
    StartsWithSlashOrHttp(q);
    if StartsWith(p, "http") {
      StartsWithSlashOrHttp(p);
      assert q == p;
    } else if !StartsWith(stripped, "/") && !StartsWith(stripped, "http") {
      NotAbsolute(q);
    }
  }

  /**
   * Under GitHub Pages the repair turns a `data:` URL into a rooted path; as written it also
   * escapes any `Old Is Gold` after the scheme.
   */
  lemma FixPathRootsDataUrl(rest: string)
    ensures FixPath(GitHubPages, "data:" + rest) == "/data:" + rest
    ensures FixPathAsWritten(GitHubPages, "data:" + rest)
         == "/data:" + ReplaceAllLiteral(rest, SpacedFolder, EscapedFolder)
  {
    var p := "data:" + rest;
    var tail := ReplaceAllLiteral(rest, SpacedFolder, EscapedFolder);
    NotStartsWith(p, "./");
    NotStartsWith(p, "/");
    NotStartsWith(p, "http");
    assert StripDotSlash(p) == p;
    DataUrlEscaped(rest);
    assert FixPath(GitHubPages, p) == "/" + p;
    assert FixPathAsWritten(GitHubPages, p) == "/" + ("data:" + tail);
    SlashData(rest);
    SlashData(tail);
  }

  lemma SlashData(u: string)
    ensures "/" + ("data:" + u) == "/data:" + u
  {
  }

  lemma DataUrlEscaped(rest: string)
    ensures ReplaceAllLiteral("data:" + rest, SpacedFolder, EscapedFolder)
         == "data:" + ReplaceAllLiteral(rest, SpacedFolder, EscapedFolder)
    ensures !StartsWith("data:" + ReplaceAllLiteral(rest, SpacedFolder, EscapedFolder), "/")
    ensures !StartsWith("data:" + ReplaceAllLiteral(rest, SpacedFolder, EscapedFolder), "http")
  {
    var tail := ReplaceAllLiteral(rest, SpacedFolder, EscapedFolder);
    assert SpacedFolder[0] !in "data:";
    ReplaceAllSkipsPrefix("data:", rest, SpacedFolder, EscapedFolder);
    NotStartsWith("data:" + tail, "/");
    NotStartsWith("data:" + tail, "http");
  }

  /** The repair pass on an attribute holding one directive. */
  lemma RepairDirective(fix: Repair, mode: Mode, p: string, t: string)
    requires p != "" && t != "" && NoQuote(p) && NoQuote(t)
    ensures var q := RepairPath(fix, mode, p);
      RepairedAttribute(fix, mode, Some(Directive(p, t))) == Some(if q != p then Directive(q, t) else Directive(p, t))
  {
    ParseDirective(p, t);
    DirectiveSelected(p, t);
  }

  /** Both passes pick an element holding a directive. */
  lemma DirectiveSelected(p: string, t: string)
    ensures Selected(Some(Directive(p, t))) && Directive(p, t) != ""
  {
    assert OccursAt(Directive(p, t), Marker, 0);
  }

  /** The normalising pass on an attribute holding one directive. */
  lemma NormalizeDirective(mode: Mode, p: string, t: string)
    requires p != "" && t != "" && NoQuote(p) && NoQuote(t)
    ensures NormalizedAttribute(mode, Some(Directive(p, t))) == Some(Directive(NormalizePath(mode, p), t))
  {
    DirectiveSelected(p, t);
    RewriteDirective(mode, p, t);
  }

  /**
   * Under GitHub Pages, running the corrected repair before the normalising pass changes nothing:
   * a directive ends up exactly as if only the normalising pass had run.
   */
  lemma PassesCommute(p: string, t: string)
    requires p != "" && t != "" && NoQuote(p) && NoQuote(t)
    requires StartsWith(p, "http") || !IsAbsoluteUrl(StripDotSlash(p))
    ensures NormalizedAttribute(GitHubPages, RepairedAttribute(Corrected, GitHubPages, Some(Directive(p, t))))
         == NormalizedAttribute(GitHubPages, Some(Directive(p, t)))
  {
    var q := FixPath(GitHubPages, p);
    RepairDirective(Corrected, GitHubPages, p, t);
    NormalizeDirective(GitHubPages, p, t);
    if q != p {
      FixPathGitHubShape(Corrected, p);
      FixPathQuoteFree(Corrected, GitHubPages, p);
      NormalizeDirective(GitHubPages, q, t);
      FixThenNormalize(p);
    }
  }

  /**
   * The repair as written spoils a folder with spaces under GitHub Pages: it writes
   * `Old%20Is%20Gold`, whose `%` `normalizePath` then encodes again as `%25`, so the URL no
   * longer names the folder the author wrote, whatever follows the folder name.
   */
  lemma FixPathAsWrittenDoubleEncodes(rest: string)
    ensures FixPathAsWritten(GitHubPages, SpacedFolder + rest)
         == "/" + EscapedFolder + ReplaceAllLiteral(rest, SpacedFolder, EscapedFolder)
    ensures NormalizePath(GitHubPages, FixPathAsWritten(GitHubPages, SpacedFolder + rest))
         != NormalizePath(GitHubPages, SpacedFolder + rest)
  {
    var tail := ReplaceAllLiteral(rest, SpacedFolder, EscapedFolder);
    EscapeLeadingFolder(rest);
    EscapedFolderDiffers(rest, tail);
  }

  /**
   * The two passes as written, on a directive into `Old Is Gold`: under GitHub Pages the
   * attribute ends up different from what the normalising pass alone would write.
   */
  lemma PassesDisagreeAsWritten(rest: string, t: string)
    requires t != "" && NoQuote(rest) && NoQuote(t)
    ensures NormalizedAttribute(GitHubPages, RepairedAttribute(AsWritten, GitHubPages, Some(Directive(SpacedFolder + rest, t))))
         != NormalizedAttribute(GitHubPages, Some(Directive(SpacedFolder + rest, t)))
  {
    var p := SpacedFolder + rest;
    var q := FixPathAsWritten(GitHubPages, p);
    assert NoQuote(p) by {
      assert '\'' !in SpacedFolder;
    }
    FixPathAsWrittenDoubleEncodes(rest);
    FixPathGitHubShape(AsWritten, p);
    assert q[0] == '/' != p[0];
    RepairDirective(AsWritten, GitHubPages, p, t);
    FixPathQuoteFree(AsWritten, GitHubPages, p);
    NormalizeDirective(GitHubPages, p, t);
    NormalizeDirective(GitHubPages, q, t);
    DirectivePathsDiffer(NormalizePath(GitHubPages, q), NormalizePath(GitHubPages, p), t);
  }

  /** Directives with the same title and different paths differ. */
  lemma DirectivePathsDiffer(p: string, q: string, t: string)
    requires p != q
    ensures Directive(p, t) != Directive(q, t)
  {
    if |p| == |q| {
      var k := |Opening|;
      assert Directive(p, t)[k..k + |p|] == p;
      assert Directive(q, t)[k..k + |q|] == q;
    }
  }

  lemma EscapeLeadingFolder(rest: string)
    ensures FixPathAsWritten(GitHubPages, SpacedFolder + rest)
         == "/" + EscapedFolder + ReplaceAllLiteral(rest, SpacedFolder, EscapedFolder)
  {
    var p := SpacedFolder + rest;
    var tail := ReplaceAllLiteral(rest, SpacedFolder, EscapedFolder);
    NotStartsWith(p, "./");
    assert StartsWith(p, SpacedFolder);
    assert p[|SpacedFolder|..] == rest;
    NotStartsWith(EscapedFolder + tail, "/");
    NotStartsWith(EscapedFolder + tail, "http");
  }

  lemma EscapedFolderDiffers(rest: string, tail: string)
    ensures NormalizePath(GitHubPages, "/" + EscapedFolder + tail) != NormalizePath(GitHubPages, SpacedFolder + rest)
  {
    FolderShapes(rest, tail);
    FolderEncodingsDiffer(rest, tail);
    PrefixCancel(BaseUrl, EncodeURI("/" + SpacedFolder + rest), EncodeURI("/" + EscapedFolder + tail));
  }

  lemma FolderShapes(rest: string, tail: string)
    ensures NormalizePath(GitHubPages, SpacedFolder + rest) == BaseUrl + EncodeURI("/" + SpacedFolder + rest)
    ensures NormalizePath(GitHubPages, "/" + EscapedFolder + tail) == BaseUrl + EncodeURI("/" + EscapedFolder + tail)
  {
    var p := SpacedFolder + rest;
    var q := "/" + EscapedFolder + tail;
    PlainRelative(p);
    NotAbsolute(q);
    StartsWithSlashOrHttp(q);
    assert "/" + p == "/" + SpacedFolder + rest;
  }

  lemma FolderEncodingsDiffer(rest: string, tail: string)
    ensures EncodeURI("/" + SpacedFolder + rest) != EncodeURI("/" + EscapedFolder + tail)
  {
    assert "/" + SpacedFolder + rest == "/Old" + [' '] + ("Is Gold" + rest);
    assert "/" + EscapedFolder + tail == "/Old" + ['%'] + ("20Is%20Gold" + tail);
    EncodedSpaceVersusPercent("/Old", "Is Gold" + rest, "20Is%20Gold" + tail);
  }
}
