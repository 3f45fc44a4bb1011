/**
 * `PDFViewerModule.openViewer`: the checks on the requested path, the search of the page's
 * catalog for the semester and category of the document, the hand-off record written to
 * `localStorage` for the viewer page, and the navigation to `viewer.html`.
 *
 * The method is specified by `Plan`, a function of the inputs that says which of the
 * outcomes the call reaches; the storage writes that may throw decide the rest.
 */
module Viewer {
  import opened Strings
  import opened Wrappers
  import opened Uri
  import opened PathUtil
  import opened Classify
  import opened Collector
  import opened Browser

  /** `CONFIG.pdf.supportedFileTypes` */
  const SupportedFileTypes: seq<string> := [".pdf", ".PDF"]

  const ReferrerKey: string := "pdfReferrer"
  const ViewerDataKey: string := "viewer_page_data"
  const DefaultSemester: string := "sem1"

  /**
   * How `this` is bound inside `openViewer`. Every inline handler calls it through the
   * global `openPDFViewer`, a reference to the bare static method, so `this` is undefined
   * there (`Unbound`); a call written `PDFViewerModule.openViewer(...)` has it bound.
   */
  datatype Receiver = Bound | Unbound

  /**
   * The lower-cased text from the last `.` to the end; the whole path when it has no `.`
   * (`lastIndexOf` answers -1 and `substring(-1)` starts at 0).
   */
  function FileExtension(path: string): (r: string)
    ensures |r| <= |path| && r == Lower(path[|path| - |r|..])
    ensures '.' !in path ==> |r| == |path|
    ensures '.' in path ==> |r| >= 1 && path[|path| - |r|] == '.' && '.' !in path[|path| - |r| + 1..]
  {
    var start := match LastIndexOf(path, '.') case Some(i) => i case None => 0;
    Lower(path[start..])
  }

  predicate IsSupported(path: string) {
    FileExtension(path) in SupportedFileTypes
  }

  /**
   * The extension test accepts exactly the paths that end in `.pdf` in any letter case:
   * the upper-case entry of the list is never compared, as the extension is lower-cased first.
   */
  lemma {:induction false} SupportedIffPdfSuffix(path: string)
    ensures IsSupported(path) <==> |path| >= 4 && Lower(path[|path| - 4..]) == ".pdf"
  {
    var ext := FileExtension(path);
    var start := match LastIndexOf(path, '.') case Some(i) => i case None => 0;
    assert ext == Lower(path[start..]);
    if IsSupported(path) {
      assert ext != ".PDF" by {
        if ext == ".PDF" {
          assert false;
        }
      }
      assert |path[start..]| == 4;
    }
    if |path| >= 4 && Lower(path[|path| - 4..]) == ".pdf" {
      var n := |path| - 4;
      var tail := path[n..];
      assert LowerChar(tail[0]) == '.' && LowerChar(tail[1]) == 'p';
      assert LowerChar(tail[2]) == 'd' && LowerChar(tail[3]) == 'f';
      assert path[n] == '.';
      assert path[n + 1] != '.' && path[n + 2] != '.' && path[n + 3] != '.';
      assert LastIndexOf(path, '.') == Some(n);
    }
  }

  /** `semesterData.pdfs.find(...)`: the first record filed under the normalised or the raw path. */
  function FirstMatch(pdfs: seq<PdfRecord>, normalized: string, raw: string): (r: Option<PdfRecord>)
    ensures r.Some? ==> r.value in pdfs && (r.value.file == normalized || r.value.file == raw)
    ensures r.None? <==> forall k :: 0 <= k < |pdfs| ==> pdfs[k].file != normalized && pdfs[k].file != raw
  {
    if pdfs == [] then None
    else if pdfs[0].file == normalized || pdfs[0].file == raw then Some(pdfs[0])
    else FirstMatch(pdfs[1..], normalized, raw)
  }

  /** The semester id and record the search loop stops at, in catalog order. */
  function FindInCatalog(c: Catalog, normalized: string, raw: string): Option<(string, PdfRecord)> {
    if c == [] then None
    else match FirstMatch(c[0].1.pdfs, normalized, raw)
      case Some(rec) => Some((c[0].0, rec))
      case None => FindInCatalog(c[1..], normalized, raw)
  }

  /** The loop stops at entry `i`: it holds the document and no earlier entry does. */
  predicate StopsAt(c: Catalog, normalized: string, raw: string, i: int) {
    && 0 <= i < |c|
    && FirstMatch(c[i].1.pdfs, normalized, raw).Some?
    && forall j :: 0 <= j < i ==> FirstMatch(c[j].1.pdfs, normalized, raw).None?
  }

  /** The search finds the first semester in catalog order that holds the document, or none when no semester does. */
  lemma {:induction false} FindInCatalogFirst(c: Catalog, normalized: string, raw: string)
    ensures FindInCatalog(c, normalized, raw).None? <==>
              forall i :: 0 <= i < |c| ==> FirstMatch(c[i].1.pdfs, normalized, raw).None?
    ensures FindInCatalog(c, normalized, raw).Some? ==>
              exists i :: StopsAt(c, normalized, raw, i) &&
                FindInCatalog(c, normalized, raw) == Some((c[i].0, FirstMatch(c[i].1.pdfs, normalized, raw).value))
  {
    if c != [] {
      FindInCatalogFirst(c[1..], normalized, raw);
      if FirstMatch(c[0].1.pdfs, normalized, raw).Some? {
        assert StopsAt(c, normalized, raw, 0);
      } else if FindInCatalog(c, normalized, raw).Some? {
        var i :| StopsAt(c[1..], normalized, raw, i) &&
          FindInCatalog(c[1..], normalized, raw) == Some((c[1..][i].0, FirstMatch(c[1..][i].1.pdfs, normalized, raw).value));
        assert c[i + 1] == c[1..][i];
        forall j | 0 <= j < i + 1
          ensures FirstMatch(c[j].1.pdfs, normalized, raw).None?
        {
          if j > 0 {
            assert c[j] == c[1..][j - 1];
          }
        }
        assert StopsAt(c, normalized, raw, i + 1);
      } else {
        forall i | 0 <= i < |c|
          ensures FirstMatch(c[i].1.pdfs, normalized, raw).None?
        {
          if i > 0 {
            assert c[i] == c[1..][i - 1];
          }
        }
      }
    }
  }

  /** The semester and category key the loop settles on: `sem1` and `notes` when nothing is found. */
  function Located(c: Catalog, normalized: string, raw: string): (string, string) {
    match FindInCatalog(c, normalized, raw)
    case Some((id, rec)) => (id, rec.pdfType.Key())
    case None => (DefaultSemester, Notes.Key())
  }

  /** `allPDFs[semester]?.pdfs.some(pdf => pdf.file === normalized)` */
  predicate HoldsFile(c: Catalog, semester: string, normalized: string) {
    Lookup(c, semester).Some? &&
    exists k :: 0 <= k < |Lookup(c, semester).value.pdfs| && Lookup(c, semester).value.pdfs[k].file == normalized
  }

  /** The URL `openViewer` navigates to. */
  function ViewerUrl(normalized: string, fileName: string, pdfType: string, semester: string): string {
    ViewerPage + "?file=" + EncodeURIComponent(normalized)
      + "&title=" + EncodeURIComponent(if fileName == "" then DefaultFileName else fileName)
      + "&type=" + pdfType + "&semester=" + semester
  }

  /**
   * The navigation URL is `getViewerUrl` of the same path and title followed by the
   * category and the semester, which are not encoded.
   */
  lemma ViewerUrlExtends(mode: Mode, pdfPath: string, fileName: string, pdfType: string, semester: string)
    ensures ViewerUrl(NormalizePath(mode, pdfPath), fileName, pdfType, semester)
              == GetViewerUrl(mode, pdfPath, fileName) + "&type=" + pdfType + "&semester=" + semester
  {
  }

  /** Which way a call goes once its inputs are fixed. */
  datatype Plan =
    | Reject(message: string)
    | Throws
    | Proceed(referrer: string, data: ViewerData, url: string)

  /** The category sent to the viewer: the record's, unless the semester does not hold the normalised path. */
  function ResolvedType(c: Catalog, normalized: string, raw: string): string {
    var (semester, pdfType) := Located(c, normalized, raw);
    if HoldsFile(c, semester, normalized) then pdfType else DetectTypeFromPath(normalized).Key()
  }

  /**
   * The part of the call after the checks, on the page's catalog `c`: the semester and
   * category found, and the step that throws when `this` is unbound and the category has
   * to be read from the path.
   */
  function Handoff(c: Catalog, pathname: string, normalized: string, raw: string, fileName: string,
                   now: int, receiver: Receiver): Plan {
    var semester := Located(c, normalized, raw).0;
    if !HoldsFile(c, semester, normalized) && receiver == Unbound then Throws
    else
      var pdfType := ResolvedType(c, normalized, raw);
      Proceed(LastSegment(pathname),
              ViewerData(c, semester, normalized, fileName, pdfType, pdfType, now, pathname),
              ViewerUrl(normalized, fileName, pdfType, semester))
  }

  /** The whole call: the two checks, then the hand-off on the catalog of the page. */
  function PlanOf(mode: Mode, page: Page, pdfPath: string, fileName: string, now: int, receiver: Receiver): Plan {
    if pdfPath == "" then Reject("PDF file not found")
    else
      var normalized := NormalizePath(mode, pdfPath);
      if !IsSupported(normalized) then Reject("Only PDF files are supported")
      else Handoff(CollectPage(mode, page).allPDFs, page.pathname, normalized, pdfPath, fileName, now, receiver)
  }

  /**
   * With `this` bound the hand-off always happens: the record names the path, the whole
   * catalog and one of the five category keys, the semester is the first holding the
   * document (`sem1` otherwise), and the URL carries that category and semester.
   */
  lemma BoundHandoff(c: Catalog, pathname: string, normalized: string, raw: string, fileName: string, now: int)
    ensures var plan := Handoff(c, pathname, normalized, raw, fileName, now, Bound);
            && plan.Proceed?
            && plan.data.currentFile == normalized
            && plan.data.allPDFs == c
            && plan.data.currentTitle == fileName
            && plan.data.pageType == plan.data.pdfType
            && TypeOfKey(plan.data.pdfType).Some?
            && plan.data.currentSemester == (match FindInCatalog(c, normalized, raw)
                                              case Some((id, _)) => id
                                              case None => DefaultSemester)
            && plan.data.sourcePage == pathname
            && plan.referrer == LastSegment(pathname)
            && plan.url == ViewerUrl(normalized, fileName, plan.data.pdfType, plan.data.currentSemester)
  {
    match FindInCatalog(c, normalized, raw)
    case Some((id, rec)) => KeyRoundTrip(rec.pdfType, rec.pdfType.Key());
    case None =>
    KeyRoundTrip(DetectTypeFromPath(normalized), DetectTypeFromPath(normalized).Key());
  }

  /** A call is refused, with the source's two messages, exactly when the path is empty or not a PDF. */
  lemma PlanRejects(mode: Mode, page: Page, pdfPath: string, fileName: string, now: int, receiver: Receiver)
    ensures PlanOf(mode, page, pdfPath, fileName, now, receiver).Reject? <==>
              pdfPath == "" || !IsSupported(NormalizePath(mode, pdfPath))
    ensures pdfPath == "" ==> PlanOf(mode, page, pdfPath, fileName, now, receiver) == Reject("PDF file not found")
    ensures pdfPath != "" && !IsSupported(NormalizePath(mode, pdfPath)) ==>
              PlanOf(mode, page, pdfPath, fileName, now, receiver) == Reject("Only PDF files are supported")
  {
  }

  /**
   * With `this` bound, an accepted call always hands over on the page's catalog, and the
   * URL is `getViewerUrl` of the path and title extended by the category and semester.
   */
  lemma BoundPlanProceeds(mode: Mode, page: Page, pdfPath: string, fileName: string, now: int)
    requires pdfPath != "" && IsSupported(NormalizePath(mode, pdfPath))
    ensures var plan := PlanOf(mode, page, pdfPath, fileName, now, Bound);
            && plan == Handoff(CollectPage(mode, page).allPDFs, page.pathname, NormalizePath(mode, pdfPath),
                               pdfPath, fileName, now, Bound)
            && plan.Proceed?
            && plan.url == GetViewerUrl(mode, pdfPath, fileName) + "&type=" + plan.data.pdfType
                             + "&semester=" + plan.data.currentSemester
  {
    var normalized := NormalizePath(mode, pdfPath);
    var c := CollectPage(mode, page).allPDFs;
    BoundHandoff(c, page.pathname, normalized, pdfPath, fileName, now);
    var plan := Handoff(c, page.pathname, normalized, pdfPath, fileName, now, Bound);
    ViewerUrlExtends(mode, pdfPath, fileName, plan.data.pdfType, plan.data.currentSemester);
  }

  /**
   * The category comes from the catalog when the semester found holds the normalised path,
   * and from the folder names in the path otherwise.
   */
  lemma ResolvedTypeSource(c: Catalog, normalized: string, raw: string)
    ensures var semester := Located(c, normalized, raw).0;
            HoldsFile(c, semester, normalized) ==>
              FindInCatalog(c, normalized, raw).Some? &&
              ResolvedType(c, normalized, raw) == FindInCatalog(c, normalized, raw).value.1.pdfType.Key()
    ensures !HoldsFile(c, Located(c, normalized, raw).0, normalized) ==>
              ResolvedType(c, normalized, raw) == DetectTypeFromPath(normalized).Key()
  {
    var semester := Located(c, normalized, raw).0;
    if HoldsFile(c, semester, normalized) && FindInCatalog(c, normalized, raw).None? {
      FindInCatalogFirst(c, normalized, raw);
      LookupFound(c, semester);
      assert false;
    }
  }

  lemma {:induction false} LookupFound(c: Catalog, key: string)
    requires Lookup(c, key).Some?
    ensures exists i :: 0 <= i < |c| && c[i].0 == key && c[i].1 == Lookup(c, key).value
  {
    if c[0].0 != key {
      LookupFound(c[1..], key);
      var i :| 0 <= i < |c[1..]| && c[1..][i].0 == key && c[1..][i].1 == Lookup(c[1..], key).value;
      assert c[i + 1] == c[1..][i];
    }
  }

  /**
   * Through the global `openPDFViewer` (`this` unbound) an accepted call whose document the
   * page's catalog does not hold throws at `this.detectTypeFromPath` before anything is
   * stored: on a page without semester sections every accepted call ends that way, whereas
   * with `this` bound it hands over with the category read from the path and semester `sem1`.
   */
  lemma UnboundReceiverThrows(mode: Mode, pathname: string, pdfPath: string, fileName: string, now: int)
    requires pdfPath != "" && IsSupported(NormalizePath(mode, pdfPath))
    ensures PlanOf(mode, Page(pathname, []), pdfPath, fileName, now, Unbound) == Throws
    ensures var plan := PlanOf(mode, Page(pathname, []), pdfPath, fileName, now, Bound);
            plan.Proceed? && plan.data.currentSemester == DefaultSemester
            && plan.data.pdfType == DetectTypeFromPath(NormalizePath(mode, pdfPath)).Key()
  {
    NoSectionsNoCatalog(mode, pathname);
    var normalized := NormalizePath(mode, pdfPath);
    EmptyCatalogHandoff(pathname, normalized, pdfPath, fileName, now);
  }

  lemma NoSectionsNoCatalog(mode: Mode, pathname: string)
    ensures CollectPage(mode, Page(pathname, [])).allPDFs == []
  {
    assert Harvests(mode, PageTypeOf(pathname), []) == [];
  }

  /** On an empty catalog the hand-off depends on `this` alone. */
  lemma EmptyCatalogHandoff(pathname: string, normalized: string, raw: string, fileName: string, now: int)
    ensures Handoff([], pathname, normalized, raw, fileName, now, Unbound) == Throws
    ensures var plan := Handoff([], pathname, normalized, raw, fileName, now, Bound);
            plan.Proceed? && plan.data.currentSemester == DefaultSemester
            && plan.data.pdfType == DetectTypeFromPath(normalized).Key()
  {
    assert Located([], normalized, raw) == (DefaultSemester, Notes.Key());
    assert !HoldsFile([], DefaultSemester, normalized);
  }

  /**
   * The search loop of `openViewer`, leaving at the first semester that holds the document:
   * it settles on the semester and category `Located` describes.
   */
  method FindSemester(c: Catalog, normalized: string, raw: string) returns (semester: string, pdfType: string)
    ensures (semester, pdfType) == Located(c, normalized, raw)
  {
    semester := DefaultSemester;
    pdfType := Notes.Key();
    var i := 0;
    while i < |c|
      invariant i <= |c|
      invariant FindInCatalog(c[i..], normalized, raw) == FindInCatalog(c, normalized, raw)
      invariant semester == DefaultSemester && pdfType == Notes.Key()
    {
      var found := FirstMatch(c[i].1.pdfs, normalized, raw);
      if found.Some? {
        semester := c[i].0;
        pdfType := found.value.pdfType.Key();
        break;
      }
      assert c[i..][1..] == c[i + 1..];
      i := i + 1;
    }
  }

  /**
   * `openViewer(pdfPath, fileName)`. `now` stands for `Date.now()`. A refused session write
   * is an uncaught error that ends the call; a refused local write ends it with a toast.
   */
  method OpenViewer(mode: Mode, page: Page, w: Window, pdfPath: string, fileName: string, now: int, receiver: Receiver)
    modifies w
    ensures var plan := PlanOf(mode, page, pdfPath, fileName, now, receiver);
            match plan
            case Reject(message) =>
              && w.toasts == old(w.toasts) + [Toast(message, Error)]
              && w.localStorage == old(w.localStorage) && w.sessionStorage == old(w.sessionStorage)
              && w.location == old(w.location)
            case Throws =>
              && w.toasts == old(w.toasts)
              && w.localStorage == old(w.localStorage) && w.sessionStorage == old(w.sessionStorage)
              && w.location == old(w.location)
            case Proceed(referrer, data, url) =>
              if !old(w.sessionWritable) then
                && w.toasts == old(w.toasts)
                && w.localStorage == old(w.localStorage) && w.sessionStorage == old(w.sessionStorage)
                && w.location == old(w.location)
              else
                && w.sessionStorage == old(w.sessionStorage)[ReferrerKey := Text(referrer)]
                && if !old(w.localWritable) then
                     && w.toasts == old(w.toasts) + [Toast("Error preparing PDF viewer", Error)]
                     && w.localStorage == old(w.localStorage) && w.location == old(w.location)
                   else
                     && w.toasts == old(w.toasts) + [Toast("Opening " + fileName + "...", Info)]
                     && w.localStorage == old(w.localStorage)[ViewerDataKey := Data(data)]
                     && w.location == Some(url)
    ensures w.localWritable == old(w.localWritable) && w.sessionWritable == old(w.sessionWritable)
  {
    if pdfPath == "" {
      w.ShowToast("PDF file not found", Error);
      return;
    }
    var normalized := NormalizePath(mode, pdfPath);
    var extension := FileExtension(normalized);
    if extension !in SupportedFileTypes {
      w.ShowToast("Only PDF files are supported", Error);
      return;
    }
    var pageData := CollectPagePDFs(mode, page);
    var semester, pdfType := FindSemester(pageData.allPDFs, normalized, pdfPath);
    if !HoldsFile(pageData.allPDFs, semester, normalized) {
      if receiver == Unbound {
        return;
      }
      pdfType := DetectTypeFromPath(normalized).Key();
    }
    var ok := w.SetSession(ReferrerKey, Text(LastSegment(page.pathname)));
    if !ok {
      return;
    }
    var data := ViewerData(pageData.allPDFs, semester, normalized, fileName, pdfType, pdfType, now, page.pathname);
    ok := w.SetLocal(ViewerDataKey, Data(data));
    if !ok {
      w.ShowToast("Error preparing PDF viewer", Error);
      return;
    }
    w.Navigate(ViewerUrl(normalized, fileName, pdfType, semester));
    w.ShowToast("Opening " + fileName + "...", Info);
  }
}
