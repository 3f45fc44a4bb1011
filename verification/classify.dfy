/**
 * The document categories and the first-match heuristics that assign them: the column
 * switch and page type of `PDFDataCollector.collectPagePDFs`, `detectPDFType`,
 * `PDFTypeFilter.extractTypeFromRow` / `extractTypeFromItem` and
 * `PDFViewerModule.detectTypeFromPath`.
 */
module Classify {
  import opened Strings
  import opened Wrappers

  /** The five categories of `CONFIG.pdf.types`. */
  datatype PdfType = Notes | Syllabus | OldIsGold | RecentPaper | InternalPaper {

    /** The key the script stores and compares. */
    function Key(): string {
      match this
      case Notes => "notes"
      case Syllabus => "syllabus"
      case OldIsGold => "oldisgold"
      case RecentPaper => "recentpaper"
      case InternalPaper => "internalpaper"
    }

    /** The display name in `CONFIG.pdf.types`. */
    function Label(): string {
      match this
      case Notes => "Notes"
      case Syllabus => "Syllabus"
      case OldIsGold => "Old Is Gold"
      case RecentPaper => "Recent Papers"
      case InternalPaper => "College Papers"
    }
  }

  /** The category whose key is `key`, if any (a lookup in `CONFIG.pdf.types`). */
  function TypeOfKey(key: string): Option<PdfType> {
    if key == "notes" then Some(Notes)
    else if key == "syllabus" then Some(Syllabus)
    else if key == "oldisgold" then Some(OldIsGold)
    else if key == "recentpaper" then Some(RecentPaper)
    else if key == "internalpaper" then Some(InternalPaper)
    else None
  }

  /** Keys and categories are in one-to-one correspondence. */
  lemma KeyRoundTrip(t: PdfType, key: string)
    ensures TypeOfKey(t.Key()) == Some(t)
    ensures TypeOfKey(key) == Some(t) ==> key == t.Key()
  {
  }

  /**
   * The page type: the last segment of the page's path is searched for `syllabus`,
   * `oldisgold` and `internalpaper` in that order; anything else is `notes`.
   */
  function PageTypeOf(pathname: string): PdfType {
    var page := LastSegment(pathname);
    if Contains(page, "syllabus") then Syllabus
    else if Contains(page, "oldisgold") then OldIsGold
    else if Contains(page, "internalpaper") then InternalPaper
    else Notes
  }

  /** Only the file name of the page decides its type, never the directories above it. */
  lemma PageTypeIgnoresDirectories(dir: string, page: string)
    requires '/' !in page
    ensures PageTypeOf(dir + "/" + page) == PageTypeOf(page)
  {
    var s := dir + "/" + page;
    var r := LastSegment(s);
    assert s[|dir|] == '/';
    assert s[|s| - |page|..] == page;
    assert r == page;
    assert LastSegment(page) == page;
  }

  /** The button-index switch: columns 0 to 4 are the five categories, any other falls back to the page type. */
  function TypeForIndex(index: nat, pageType: PdfType): PdfType {
    if index == 0 then Notes
    else if index == 1 then Syllabus
    else if index == 2 then OldIsGold
    else if index == 3 then RecentPaper
    else if index == 4 then InternalPaper
    else pageType
  }

  /** The column each category occupies in a catalog row. */
  function ColumnOf(t: PdfType): (r: nat)
    ensures r < 5
  {
    match t
    case Notes => 0
    case Syllabus => 1
    case OldIsGold => 2
    case RecentPaper => 3
    case InternalPaper => 4
  }

  /**
   * The switch is a bijection between columns 0..4 and the categories, and ignores the
   * page type there; beyond column 4 only the page type counts.
   */
  lemma TypeForIndexColumns(index: nat, pageType: PdfType, t: PdfType)
    ensures TypeForIndex(ColumnOf(t), pageType) == t
    ensures index < 5 ==> ColumnOf(TypeForIndex(index, pageType)) == index
    ensures index < 5 ==> TypeForIndex(index, pageType) == [Notes, Syllabus, OldIsGold, RecentPaper, InternalPaper][index]
    ensures index >= 5 ==> TypeForIndex(index, pageType) == pageType
  {
  }

  /** The case-sensitive folder names tested on a view button's onclick text, in order. */
  function FolderType(onclick: string): Option<PdfType> {
    if Contains(onclick, "Files/notes/") then Some(Notes)
    else if Contains(onclick, "Files/Syllabus/") then Some(Syllabus)
    else if Contains(onclick, "Files/Old Is Gold/") then Some(OldIsGold)
    else if Contains(onclick, "Files/recentpaper/") then Some(RecentPaper)
    else if Contains(onclick, "Files/Internal_Paper/") then Some(InternalPaper)
    else None
  }

  /**
   * `extractTypeFromRow`: `viewButton` is the onclick text of the row's first `.view-btn`
   * (empty when it has no onclick attribute), `None` when the row has no such button.
   */
  function ExtractTypeFromRow(viewButton: Option<string>): Option<PdfType> {
    match viewButton
    case None => None
    case Some(onclick) => FolderType(onclick)
  }

  /** `PDFDataCollector.detectPDFType`: the same folder test, falling back to the page type. */
  function DetectPDFType(viewButton: Option<string>, pageType: PdfType): (r: PdfType)
    ensures viewButton.None? ==> r == pageType
    ensures ExtractTypeFromRow(viewButton).Some? ==> Some(r) == ExtractTypeFromRow(viewButton)
    ensures r != pageType ==> ExtractTypeFromRow(viewButton) == Some(r)
  {
    match ExtractTypeFromRow(viewButton)
    case Some(t) => t
    case None => pageType
  }

  /**
   * `extractTypeFromItem`: keywords in the lower-cased text of the item, in the order
   * notes (or the `notes-item` class), syllabus, old/gold, recent/paper, internal.
   */
  function ExtractTypeFromItem(text: string, isNotesItem: bool): Option<PdfType> {
    var lower := Lower(text);
    if Contains(lower, "notes") || isNotesItem then Some(Notes)
    else if Contains(lower, "syllabus") then Some(Syllabus)
    else if Contains(lower, "old") || Contains(lower, "gold") then Some(OldIsGold)
    else if Contains(lower, "recent") || Contains(lower, "paper") then Some(RecentPaper)
    else if Contains(lower, "internal") then Some(InternalPaper)
    else None
  }

  /**
   * `extractTypeFromItem` can never answer `internalpaper` for a text whose lower-cased form
   * contains "internal paper": "paper" is tested first.
   */
  lemma InternalShadowedByPaper(text: string, isNotesItem: bool)
    requires Contains(Lower(text), "paper")
    ensures ExtractTypeFromItem(text, isNotesItem) != Some(InternalPaper)
  {
  }

  /** `detectTypeFromPath`: lower-cased folder names, both spellings of two of them; `notes` by default. */
  function DetectTypeFromPath(path: string): PdfType {
    if path == "" then Notes
    else
      var p := Lower(path);
      if Contains(p, "files/notes/") then Notes
      else if Contains(p, "files/syllabus/") then Syllabus
      else if Contains(p, "files/old is gold/") || Contains(p, "files/old_is_gold/") then OldIsGold
      else if Contains(p, "files/recentpaper/") then RecentPaper
      else if Contains(p, "files/internal_paper/") || Contains(p, "files/internalpaper/") then InternalPaper
      else Notes
  }

  lemma {:induction false} LowerIdempotent(s: string)
    ensures Lower(Lower(s)) == Lower(s)
  {
    var l := Lower(s);
    forall i | 0 <= i < |s| ensures Lower(l)[i] == l[i] {
      assert l[i] == LowerChar(s[i]);
    }
  }

  /** `detectTypeFromPath` ignores letter case: a path and its lower-case form get the same category. */
  lemma DetectTypeFromPathIgnoresCase(path: string)
    ensures DetectTypeFromPath(Lower(path)) == DetectTypeFromPath(path)
  {
    LowerIdempotent(path);
  }

  /** A lower-case folder name anywhere in the path decides the category when no earlier test matches. */
  lemma DetectTypeFromPathFolder(a: string, b: string)
    ensures DetectTypeFromPath(a + "files/notes/" + b) == Notes
  {
    var p := a + "files/notes/" + b;
    assert Lower("files/notes/") == "files/notes/";
    assert Lower(p) == Lower(a) + "files/notes/" + Lower(b);
    assert OccursAt(Lower(p), "files/notes/", |a|);
  }
}
