/**
 * `PathUtil`: turns the hand-written file references found in the catalog pages into the
 * URL the browser loads, for the two deployments the site knows (GitHub Pages under a
 * fixed base URL, or a local development server), and builds the viewer page URL.
 */
module PathUtil {
  import opened Strings
  import opened Uri
  import opened Wrappers

  /** `GITHUB_CONFIG.isGitHubPages`, fixed once when the script loads. */
  datatype Mode = GitHubPages | LocalDevelopment

  /** `GITHUB_CONFIG.baseUrl` */
  const BaseUrl: string := "https://nabinrawal1.github.io/notePokhraUniversity"
  const ViewerPage: string := "viewer.html"
  const DefaultFileName: string := "document.pdf"

  /** Already a full URL, a data URL or a blob URL. */
  predicate IsAbsoluteUrl(p: string) {
    StartsWith(p, "http://") || StartsWith(p, "https://") || StartsWith(p, "data:") || StartsWith(p, "blob:")
  }

  /** A path whose first character is not `h`, `d` or `b` is not an absolute URL. */
  lemma NotAbsolute(p: string)
    requires p == [] || (p[0] != 'h' && p[0] != 'd' && p[0] != 'b')
    ensures !IsAbsoluteUrl(p)
  {
    NotStartsWith(p, "http://");
    NotStartsWith(p, "https://");
    NotStartsWith(p, "data:");
    NotStartsWith(p, "blob:");
  }

  /** Adds a leading `/` unless there is one. */
  function Rooted(p: string): (r: string)
    ensures StartsWith(r, "/")
  {
    if StartsWith(p, "/") then p else "/" + p
  }

  /**
   * `PathUtil.normalizePath`. Under GitHub Pages every non-empty result is an absolute URL;
   * locally a relative path loses exactly its leading `./`, if it has one, and nothing else.
   */
  function NormalizePath(mode: Mode, path: string): (r: string)
    ensures path == "" ==> r == ""
    ensures IsAbsoluteUrl(path) ==> r == path
    ensures mode == GitHubPages && r != "" ==> IsAbsoluteUrl(r)
    ensures mode == LocalDevelopment ==> |path| - 2 <= |r| <= |path| && r == path[|path| - |r|..]
    ensures mode == LocalDevelopment && !IsAbsoluteUrl(path) ==>
      (StartsWith(path, "./") ==> r == path[2..]) && (!StartsWith(path, "./") ==> r == path)
  {
    if path == "" then ""
    else if IsAbsoluteUrl(path) then path
    else if mode == GitHubPages then
      BaseIsHttps(EncodeURI(Rooted(StripDotSlash(path))));
      BaseUrl + EncodeURI(Rooted(StripDotSlash(path)))
    else StripDotSlash(path)
  }

  lemma BaseIsHttps(tail: string)
    ensures StartsWith(BaseUrl + tail, "https://")
  {
    forall i | 0 <= i < 8 ensures (BaseUrl + tail)[i] == "https://"[i] {
    }
  }

  /**
   * Under GitHub Pages a relative path becomes the base URL followed by `/`, contains no
   * raw space after the base URL, and its part after the base URL percent-decodes to the UTF-8 bytes of the
   * path with one leading `./` removed and a leading `/` ensured.
   */
  lemma {:induction false} NormalizeGitHubShape(path: string)
    requires path != "" && !IsAbsoluteUrl(path)
    ensures StartsWith(NormalizePath(GitHubPages, path), BaseUrl + "/")
    ensures ' ' !in NormalizePath(GitHubPages, path)[|BaseUrl|..]
    ensures PercentDecode(NormalizePath(GitHubPages, path)[|BaseUrl|..]) == Some(Utf8Of(Rooted(StripDotSlash(path))))
  {
    var rooted := Rooted(StripDotSlash(path));
    var enc := EncodeURI(rooted);
    assert NormalizePath(GitHubPages, path) == BaseUrl + enc;
    RootedEncoding(rooted);
    DecodeEncode(WholeUri, rooted);
    EncodeHasNoSpace(WholeUri, rooted);
    assert (BaseUrl + enc)[|BaseUrl|..] == enc;
    assert (BaseUrl + enc)[..|BaseUrl| + 1] == BaseUrl + "/";
  }

  /** The encoding of a rooted path starts with `/`. */
  lemma RootedEncoding(rooted: string)
    requires StartsWith(rooted, "/")
    ensures StartsWith(EncodeURI(rooted), "/")
  {
    assert rooted == "/" + rooted[1..];
    EncodeAppend(WholeUri, "/", rooted[1..]);
    assert EncodeURI("/") == "/";
  }

  /** Under GitHub Pages normalising twice is the same as normalising once. */
  lemma NormalizeIdempotentGitHub(path: string)
    ensures NormalizePath(GitHubPages, NormalizePath(GitHubPages, path)) == NormalizePath(GitHubPages, path)
  {
  }

  /**
   * Locally nothing is rooted or encoded and only one `./` is removed, so normalising is not
   * idempotent: `././x` becomes `./x`, which becomes `x`.
   */
  lemma NormalizeLocalNotIdempotent()
    ensures NormalizePath(LocalDevelopment, "././x") == "./x"
    ensures NormalizePath(LocalDevelopment, NormalizePath(LocalDevelopment, "././x")) == "x"
  {
    NotAbsolute("././x");
    NotAbsolute("./x");
    assert "././x"[..2] == "./";
    assert "./x"[..2] == "./";
  }

  /**
   * Under GitHub Pages two ASCII paths whose rooted forms differ never normalise to the same
   * URL: percent-decoding tells them apart.
   */
  lemma NormalizeGitHubDistinguishes(p: string, q: string)
    requires p != "" && !IsAbsoluteUrl(p) && q != "" && !IsAbsoluteUrl(q)
    requires forall i :: 0 <= i < |p| ==> p[i] as int < 0x80
    requires forall i :: 0 <= i < |q| ==> q[i] as int < 0x80
    requires Rooted(StripDotSlash(p)) != Rooted(StripDotSlash(q))
    ensures NormalizePath(GitHubPages, p) != NormalizePath(GitHubPages, q)
  {
    var rp, rq := Rooted(StripDotSlash(p)), Rooted(StripDotSlash(q));
    NormalizeGitHubShape(p);
    NormalizeGitHubShape(q);
    AsciiRooted(p);
    AsciiRooted(q);
    Utf8OfAscii(rp);
    Utf8OfAscii(rq);
    if NormalizePath(GitHubPages, p) == NormalizePath(GitHubPages, q) {
      assert Utf8Of(rp) == Utf8Of(rq);
      assert |rp| == |rq|;
      forall i | 0 <= i < |rp| ensures rp[i] == rq[i] {
        assert rp[i] as int == Utf8Of(rp)[i] == rq[i] as int;
      }
    }
  }

  lemma AsciiRooted(p: string)
    requires forall i :: 0 <= i < |p| ==> p[i] as int < 0x80
    ensures var r := Rooted(StripDotSlash(p)); forall i :: 0 <= i < |r| ==> r[i] as int < 0x80
  {
    var s := StripDotSlash(p);
    assert forall i :: 0 <= i < |s| ==> s[i] == p[i + |p| - |s|];
  }

  /**
   * A folder name written with a space and the same name written with `%20` do NOT normalise
   * to the same URL: `encodeURI` escapes the `%` of `%20` as `%25`.
   */
  lemma OldIsGoldSpellingsDiffer()
    ensures NormalizePath(GitHubPages, "Old Is Gold/x.pdf") != NormalizePath(GitHubPages, "Old%20Is%20Gold/x.pdf")
    ensures NormalizePath(LocalDevelopment, "Old Is Gold/x.pdf") != NormalizePath(LocalDevelopment, "Old%20Is%20Gold/x.pdf")
  {
    assert "Old Is Gold/x.pdf" == "Old" + " " + "Is Gold/x.pdf";
    assert "Old%20Is%20Gold/x.pdf" == "Old" + "%" + "20Is%20Gold/x.pdf";
    SpaceVersusEscape("Old", "Is Gold/x.pdf", "20Is%20Gold/x.pdf");
  }

  /**
   * A space and a `%` at the same place give different URLs under GitHub Pages, and
   * different strings locally.
   */
  lemma SpaceVersusEscape(head: string, tp: string, tq: string)
    requires head != [] && head[0] == 'O'
    ensures NormalizePath(GitHubPages, head + " " + tp) != NormalizePath(GitHubPages, head + "%" + tq)
    ensures NormalizePath(LocalDevelopment, head + " " + tp) != NormalizePath(LocalDevelopment, head + "%" + tq)
  {
    var p, q := head + " " + tp, head + "%" + tq;
    PlainRelative(p);
    PlainRelative(q);
    NormalizeGitHubRelative(p);
    NormalizeGitHubRelative(q);
    assert "/" + p == ("/" + head) + [' '] + tp;
    assert "/" + q == ("/" + head) + ['%'] + tq;
    EscapesDiffer("/" + head, tp, tq);
    assert p[|head|] != q[|head|];
  }

  lemma NormalizeGitHubRelative(p: string)
    requires p != "" && !IsAbsoluteUrl(p)
    ensures NormalizePath(GitHubPages, p) == BaseUrl + EncodeURI(Rooted(StripDotSlash(p)))
  {
  }

  lemma EscapesDiffer(a: string, tp: string, tq: string)
    ensures BaseUrl + EncodeURI(a + [' '] + tp) != BaseUrl + EncodeURI(a + ['%'] + tq)
  {
    EncodedSpaceVersusPercent(a, tp, tq);
    PrefixCancel(BaseUrl, EncodeURI(a + [' '] + tp), EncodeURI(a + ['%'] + tq));
  }

  lemma EncodedSpaceVersusPercent(a: string, tp: string, tq: string)
    ensures EncodeURI(a + [' '] + tp) != EncodeURI(a + ['%'] + tq)
  {
    EncodeURIPercent();
    EncodeAround(a, ' ', tp);
    EncodeAround(a, '%', tq);
    var k := |EncodeURI(a)| + 2;
    assert EncodeURI(a + [' '] + tp)[k] == '0';
    assert EncodeURI(a + ['%'] + tq)[k] == '5';
  }

  /** A path starting with `O` is relative, has no `./` and gets a `/` prepended. */
  lemma PlainRelative(p: string)
    requires p != [] && p[0] == 'O'
    ensures !IsAbsoluteUrl(p) && Rooted(StripDotSlash(p)) == "/" + p
  {
    NotAbsolute(p);
    NotStartsWith(p, "./");
    NotStartsWith(p, "/");
  }

  lemma EncodeAround(a: string, c: char, b: string)
    ensures EncodeURI(a + [c] + b) == EncodeURI(a) + EncodeURI([c]) + EncodeURI(b)
  {
    EncodeAppend(WholeUri, a, [c]);
    EncodeAppend(WholeUri, a + [c], b);
  }

  /** `PathUtil.getViewerUrl`: the viewer page with the encoded file and title parameters. */
  function GetViewerUrl(mode: Mode, pdfPath: string, fileName: string): string {
    ViewerPage + "?file=" + EncodeURIComponent(NormalizePath(mode, pdfPath))
      + "&title=" + EncodeURIComponent(if fileName == "" then DefaultFileName else fileName)
  }

  /**
   * The viewer URL carries the normalised path and the title (or `document.pdf`) as two
   * parameters that contain no `&`, so the query splits back into exactly these values, and
   * each percent-decodes to the UTF-8 bytes of what was encoded.
   */
  lemma ViewerUrlCarriesFileAndTitle(mode: Mode, pdfPath: string, fileName: string)
    ensures exists file: string, title: string ::
      && GetViewerUrl(mode, pdfPath, fileName) == ViewerPage + "?file=" + file + "&title=" + title
      && '&' !in file && '&' !in title
      && PercentDecode(file) == Some(Utf8Of(NormalizePath(mode, pdfPath)))
      && PercentDecode(title) == Some(Utf8Of(if fileName == "" then DefaultFileName else fileName))
  {
    var file := EncodeURIComponent(NormalizePath(mode, pdfPath));
    var title := EncodeURIComponent(if fileName == "" then DefaultFileName else fileName);
    DecodeEncode(Component, NormalizePath(mode, pdfPath));
    DecodeEncode(Component, if fileName == "" then DefaultFileName else fileName);
    ComponentHasNoAmpersand(NormalizePath(mode, pdfPath));
    ComponentHasNoAmpersand(if fileName == "" then DefaultFileName else fileName);
    assert GetViewerUrl(mode, pdfPath, fileName) == ViewerPage + "?file=" + file + "&title=" + title;
  }
}
