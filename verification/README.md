# PDF catalog pages of a course-notes site, modelled in Dafny

The site is a set of static catalog pages. Each page lists the documents of a course by
semester: a table row per subject, and one "view" button per category of document (notes,
syllabus, "Old Is Gold", recent papers, college papers). Each button's `onclick` holds a
directive `openPDFViewer('<path>', '<title>')`. The script `script.js` does four things:

- it repairs and normalises the paths inside those directives;
- it collects the page's catalog from the tables;
- it filters the listed documents by category, remembering the choice in `localStorage`;
- it hands a document over to `viewer.html`, through a record in `localStorage` and a URL.

The model covers those four parts.

- **Modes.** The deployment mode (`GitHubPages` or `LocalDevelopment`) is a parameter. It
  replaces `GITHUB_CONFIG.isGitHubPages`, which the script reads from the host name.
- **The page as data.** The DOM is given as data:
  - a `Page` (its pathname and its `.semester-section` elements, with their rows and buttons);
  - an array of `onclick` attributes for the two repair passes;
  - a list of `Item`s (category data, view button, text, notes-item flag, section) for the filter.
- **The browser.** `Browser.Window` is a class holding `localStorage` and `sessionStorage`
  (maps whose writes may be refused), the toasts shown and the location navigated to.

| file | module | what it models |
|---|---|---|
| `wrappers.dfy` | `Wrappers` | `Option` |
| `strings.dfy` | `Strings` | the string operations the script uses: prefix tests, `indexOf`, literal and first-occurrence `replace`, `trim`, ASCII `toLowerCase`, `lastIndexOf`, `split('/').pop()` |
| `uri.dfy` | `Uri` | `encodeURI` and `encodeURIComponent` (UTF-8, upper-case hex), with percent-decoding as their inverse |
| `path_util.dfy` | `PathUtil` | `PathUtil.normalizePath` and `PathUtil.getViewerUrl` |
| `directive.dfy` | `ViewerCall` | the regular expression `openPDFViewer\('([^']+)',\s*'([^']+)'\)`, as a leftmost scanner with its meaning proved |
| `classify.dfy` | `Classify` | the category keys and labels of `CONFIG.pdf.types`, the page type, the column rule, `detectPDFType`, `extractTypeFromRow`, `extractTypeFromItem`, `detectTypeFromPath` |
| `collector.dfy` | `Collector` | `PDFDataCollector.collectPagePDFs`, as nested loops over sections, rows and buttons, against a functional specification |
| `path_fixer.dfy` | `PathFixer` | `AutoPathFixer.fixAllOnClickHandlers` and `UI.fixAllPDFPaths`, each in place on an array of attributes |
| `type_filter.dfy` | `TypeFilter` | the class `PDFTypeFilter` |
| `browser.dfy` | `Browser` | the window: both storages, toasts, navigation |
| `viewer.dfy` | `Viewer` | `PDFViewerModule.openViewer` |

Every operation that changes state is a method proved against a function of its inputs. The
lemmas then state what the script promises about those functions.

Some of the code differs from the documented behaviour of the site. The model follows the code.
Where the code is evidently wrong, the corrected behaviour is modelled beside it under its own
name (see Findings); the operations themselves run the code as written:

- **The two folder spellings.** The two spellings `Old Is Gold/…` and `Old%20Is%20Gold/…`
  are documented as normalising to the same URL. `normalizePath` does not do that
  (`PathUtil.OldIsGoldSpellingsDiffer`). Under GitHub Pages the space becomes `%20` and the
  `%` becomes `%25`. In local development nothing is encoded.
- **Local development paths.** Local development is documented as producing a rooted path.
  `normalizePath` only removes one leading `./` there.
- **The URL parameter.** The viewer URL's category parameter is named `type`, not `category`.
- **Escaped folder names.** Only the spaced spelling `Old Is Gold` (and `old_is_gold` in
  `detectTypeFromPath`) is recognised as the Old-Is-Gold folder. The escaped
  `Old%20Is%20Gold` is not.

## Model

| member | source | states |
|---|---|---|
| `Strings.IndexOf` | script.js:683 | `indexOf`: the position found is the first occurrence of the needle, and there is one exactly when the needle occurs |
| `Strings.ReplaceFirst` | script.js:683 | a string `replace` with a string pattern: with no occurrence the text is unchanged, otherwise the first occurrence is replaced and the rest kept |
| `Strings.ReplaceAllAbsent` | script.js:118 | the global replacement of `Old Is Gold` leaves a text without that folder name unchanged |
| `Strings.ReplaceAllKeepsAbsent` | script.js:118 | the global replacement introduces no character that is in neither the text nor the replacement (so no quote enters a path) |
| `Strings.TrimStart` | script.js:689-690 | the result is a suffix of the input, does not start with white space, and everything removed is white space |
| `Strings.TrimEnd` | script.js:689-690 | the result is a prefix of the input, does not end with white space, and everything removed is white space |
| `Strings.TrimUnpadded` | script.js:689-690 | `trim` leaves a text without leading or trailing white space unchanged |
| `Strings.Lower` | script.js:900 | ASCII `toLowerCase`: same length, each character lower-cased in place |
| `Strings.LastIndexOf` | script.js:813 | `lastIndexOf`: absent exactly when the character does not occur, otherwise the last position holding it |
| `Strings.LastSegment` | script.js:852 | `split('/').pop()`: a slash-free suffix of the path, preceded by `/` whenever it is not the whole path |
| `Uri.Escape` | script.js:64 | byte k becomes the three characters at 3k: `%` and the byte's two upper-case hex digits |
| `Uri.Encode` | script.js:64 | `encodeURI`/`encodeURIComponent` output holds only kept characters and `%` |
| `Uri.EncodeHasNoSpace` | script.js:64 | an encoded path never contains a space |
| `Uri.EncodeQuoteFree` | script.js:64 | `encodeURI` of a text without `'` contains no `'`, so the directive stays well formed |
| `Uri.DecodeEncode` | script.js:64 | round trip: percent-decoding the encoding gives back the UTF-8 bytes of the text |
| `Uri.EncodeAppend` | script.js:64 | encoding distributes over concatenation |
| `Uri.EncodeKeptString` | script.js:64 | a text of kept characters is encoded as itself |
| `Uri.ComponentHasNoAmpersand` | script.js:74-80 | `encodeURIComponent` output contains no `&`, so it stays one query parameter |
| `Uri.EncodeURIPercent` | script.js:64 | `encodeURI` turns `%` into `%25` and a space into `%20` |
| `PathUtil.NormalizePath` | script.js:42-72 | the empty path and absolute URLs come back unchanged; under GitHub Pages every non-empty result is an absolute URL; in local development a relative path loses exactly its leading `./`, if it has one, and nothing else |
| `PathUtil.NormalizeGitHubShape` | script.js:53-67 | under GitHub Pages a relative path becomes the base URL plus `/` plus a space-free tail that percent-decodes to the rooted path with one `./` removed |
| `PathUtil.NormalizeIdempotentGitHub` | script.js:42-72 | under GitHub Pages normalising twice is normalising once |
| `PathUtil.NormalizeLocalNotIdempotent` | script.js:70-71 | in local development a second pass strips a second `./`, so normalising is not idempotent there |
| `PathUtil.NormalizeGitHubDistinguishes` | script.js:53-67 | under GitHub Pages two ASCII relative paths with different rooted forms give different URLs |
| `PathUtil.OldIsGoldSpellingsDiffer` | script.js:42-72 | `Old Is Gold/x.pdf` and `Old%20Is%20Gold/x.pdf` normalise differently in both modes |
| `PathUtil.SpaceVersusEscape` | script.js:42-72 | a space and a `%` at the same place of a relative path normalise differently in both modes |
| `PathUtil.ViewerUrlCarriesFileAndTitle` | script.js:74-80 | the viewer URL has exactly two `&`-free parameters, which decode to the normalised path and to the title (or `document.pdf`) |
| `ViewerCall.ParseMeaning` | script.js:1186 | the scanner finds a match exactly when the pattern occurs somewhere; its path and title are non-empty and quote-free and form an occurrence before which no position matches (the leftmost one) |
| `ViewerCall.ParseDirective` | script.js:127 | a directive written with a quote-free non-empty path and title parses back to that path and title |
| `ViewerCall.MatchAtComplete` | script.js:1186 | every occurrence of the pattern at a position is found there, with its path, title and end |
| `ViewerCall.MatchAtSound` | script.js:1186 | what the scanner reports at a position is an occurrence of the pattern |
| `ViewerCall.FirstMatchFromLeftmost` | script.js:1186 | scanning from a position finds a match no later than any occurrence after it |
| `ViewerCall.FirstMatchFromSound` | script.js:1186 | a match found from a position is the match at some position after it |
| `Classify.KeyRoundTrip` | script.js:30-36 | category keys and categories correspond one to one |
| `Classify.PageTypeIgnoresDirectories` | script.js:670-676 | the page type depends only on the last path segment |
| `Classify.ColumnOf` | script.js:714-732 | each category has one of the five button columns |
| `Classify.TypeForIndexColumns` | script.js:714-732 | columns 0 to 4 give the five categories in order and back; any other column gives the page type |
| `Classify.DetectPDFType` | script.js:784-797 | with no view button, the page type; a category read from the button's folder wins; a result other than the page type was read from the folder |
| `Classify.InternalShadowedByPaper` | script.js:625-635 | an item whose text mentions "paper" is never classed as an internal paper (the "paper" test comes first) |
| `Classify.LowerIdempotent` | script.js:900 | lower-casing twice is lower-casing once |
| `Classify.DetectTypeFromPathIgnoresCase` | script.js:897-909 | path detection ignores letter case |
| `Classify.DetectTypeFromPathFolder` | script.js:897-909 | a path through `files/notes/` is detected as notes |
| `Collector.PutLookup` | script.js:753-760 | storing a semester answers its key with the new value and every other key as before |
| `Collector.PutKeys` | script.js:753-760 | storing a semester keeps the key order, appending a key that is new |
| `Collector.PutEntries` | script.js:753-760 | storing keeps every entry's count equal to its record count and its page type |
| `Collector.PutUnique` | script.js:753-760 | storing keeps the keys distinct |
| `Collector.CollectPagePDFs` | script.js:667-782 | the loops over sections build exactly the catalog `CollectPage` specifies, with the page type |
| `Collector.CollectRows` | script.js:685-750 | the loop over rows yields the records of every row in order |
| `Collector.CollectButtons` | script.js:702-750 | the loop over buttons keeps, for each button whose `onclick` matches, one record whose column is the button's index |
| `Collector.ButtonRecordsSound` | script.js:702-750 | each record comes from a matching button: its path is that button's normalised path, its title that button's title, its category that of its column |
| `Collector.ButtonRecordsOrdered` | script.js:702-750 | records keep the order of their buttons |
| `Collector.ButtonRecordsComplete` | script.js:702-750 | every matching button yields a record |
| `Collector.ButtonRecordsAll` | script.js:702-750 | when every button matches, record i is the record of button i |
| `Collector.CallOfDirective` | script.js:706 | a button holding a well-formed directive yields its path and title |
| `Collector.CallOfNoMatch` | script.js:703-707 | a button without `onclick`, or whose `onclick` never matches, yields nothing |
| `Collector.AssembleWellFormed` | script.js:753-760 | every semester in the catalog has records, a count equal to their number, the page type, and distinct ids |
| `Collector.CollectSectionsWellFormed` | script.js:678-760 | the collected catalog is well formed |
| `Collector.CollectSectionsKeys` | script.js:753-760 | a semester id is in the catalog exactly when some section with that id yields records |
| `Collector.CollectSectionsLastWins` | script.js:753-760 | for a repeated id, the last section with records decides the entry |
| `Collector.ExampleSemesterName` | script.js:681-683 | a section without a heading is named after its id (`sem1` gives `Semester 1`) |
| `Collector.FiveButtonRecords` | script.js:702-750 | five well-formed buttons give five records, in column order |
| `Collector.ExampleSectionRecords` | script.js:678-750 | one row with five well-formed buttons gives the five records of the example |
| `Collector.FiveColumnRow` | script.js:667-782 | a page with that one section yields one semester `sem1` with the five records, named `Semester 1`, with count 5 |
| `PathFixer.FixAllOnClickHandlers` | script.js:98-139 | every attribute becomes its form after the repair as the script writes it (escape included in both modes), and nothing else changes |
| `PathFixer.RepairElement` | script.js:104-134 | one element: its attribute is repaired as written, the others are untouched |
| `PathFixer.FixAllPDFPaths` | script.js:1179-1195 | every attribute becomes its normalised form: each match rewritten with the normalised path, in order, resuming after each match |
| `PathFixer.NormalizeElement` | script.js:1181-1193 | one element: its attribute is normalised, the others are untouched |
| `PathFixer.FixPathGitHubShape` | script.js:112-123 | under GitHub Pages a repaired path, as written and corrected, is non-empty and starts with `/` or `http` |
| `PathFixer.FixPathGitHubIdempotent` | script.js:112-123 | under GitHub Pages repairing twice is repairing once, as written and corrected |
| `PathFixer.FixPathLocalNotIdempotent` | script.js:115 | in local development each pass of either repair strips one more `./` |
| `PathFixer.FixPathKeeps` | script.js:112-126 | a path that needs no repair is unchanged, both as written and corrected |
| `PathFixer.EscapeLeavesNoFolder` | script.js:118 | the global replace leaves no `Old Is Gold` in its result |
| `PathFixer.FixPathQuoteFree` | script.js:112-123 | neither repair introduces a quote |
| `PathFixer.FixOnClickReparses` | script.js:104-128 | for either repair, when the repaired path is non-empty, a rewritten attribute parses back to the repaired path and the original title |
| `PathFixer.FixOnClickEmptiesPath` | script.js:112-127 | the repaired path can be empty: locally `openPDFViewer('./', 'T')` is rewritten to `openPDFViewer('', 'T')`, which the pattern no longer matches |
| `PathFixer.RewriteNoMatch` | script.js:1185-1191 | an attribute without a match is left unchanged by the normalising pass |
| `PathFixer.RewriteFromMatch` | script.js:1185-1191 | at a match, the normalising pass writes the directive with the normalised path and continues after the match |
| `PathFixer.RewriteFromFirst` | script.js:1185-1191 | text before the first match is kept as it is and the first match is rewritten |
| `PathFixer.RewriteDirective` | script.js:1185-1191 | a single directive is rewritten with its normalised path and the same title |
| `PathFixer.FixThenNormalize` | script.js:112-123 | (corrected) under GitHub Pages normalising a path after the corrected repair equals normalising the original |
| `PathFixer.FixPathRootsDataUrl` | script.js:112-123 | under GitHub Pages both repairs root a `data:` path, since only `/` and `http` are exempt; as written the part after the scheme also has `Old Is Gold` escaped |
| `PathFixer.RepairDirective` | script.js:104-128 | for either repair, a selected directive is replaced by the directive with the repaired path when that differs, and kept otherwise |
| `PathFixer.NormalizeDirective` | script.js:1181-1193 | a directive attribute is normalised to the directive with the normalised path |
| `PathFixer.PassesCommute` | script.js:1443-1466 | under GitHub Pages, running the corrected repair before normalisation ends with the same attribute as normalisation alone |
| `PathFixer.FixPathAsWrittenDoubleEncodes` | script.js:118-123 | as written, a path under `Old Is Gold` is escaped by the repair and then, under GitHub Pages, normalised to a different URL than the path itself |
| `PathFixer.PassesDisagreeAsWritten` | script.js:118-123 | as written, under GitHub Pages, a directive into `Old Is Gold` ends the two passes with a different attribute than the normalising pass alone writes |
| `PathFixer.FolderEncodingsDiffer` | script.js:64 | `encodeURI` of the spaced and of the escaped folder differ |
| `TypeFilter.KeyOf` | script.js:30-36 | a category's key maps back to that category |
| `TypeFilter.DerivedTypeIsKnown` | script.js:593-595 | a category derived from the button or the text is one of the five keys |
| `TypeFilter.FiltersPartition` | script.js:597-603 | for a category filter, an item is shown exactly when its category is the filter; an item without a category is hidden |
| `TypeFilter.ButtonBeatsText` | script.js:593-595 | without a category attribute, the category read from the view button decides, whatever the text says |
| `TypeFilter.FilterName` | script.js:577 | the toast names the category's label, or "All Types" for any other key |
| `TypeFilter.HiddenFor` | script.js:581-603 | an item is hidden exactly when the filter does not show it |
| `TypeFilter.VisibleCountPositive` | script.js:640-648 | the visible count of a section is positive exactly when it has a visible item |
| `TypeFilter.SectionFlags` | script.js:637-651 | a section is hidden exactly when it has no visible item |
| `TypeFilter.ActiveFlags` | script.js:562-571 | a button is active exactly when its key is the filter |
| `TypeFilter.FilterKeysDistinct` | script.js:507-525 | the six filter buttons have distinct keys |
| `TypeFilter.OneActiveButton` | script.js:562-571 | at most one button is active, one is when the filter has a button, and none otherwise |
| `TypeFilter.SavedFilter` | script.js:657-662 | a restored filter is the non-empty text stored under `pdf_filter_type` |
| `TypeFilter.SaveRestore` | script.js:653-662 | saving then restoring gives back a non-empty filter, and writes under other keys do not disturb it |
| `TypeFilter.AllLeavesSectionHidden` | script.js:584-590 | as written, after `notes` then `all` a section stays hidden although its item is shown |
| `TypeFilter.SectionFlagsAgree` | script.js:637-651 | recomputing the section flags always makes them agree with the items |
| `TypeFilter.PDFTypeFilter.constructor` | script.js:486-497 | starts on `all` with the `all` button active and, when a sidebar exists, the six buttons |
| `TypeFilter.PDFTypeFilter.SetFilter` | script.js:559-579 | sets the filter, exactly one matching button active, items hidden exactly when not shown, and one toast naming the filter; sections are recomputed to agree with their items for every filter but `all`, which leaves their flags as they were |
| `TypeFilter.PDFTypeFilter.UpdateButtons` | script.js:562-571 | each button is active exactly when its key is the filter; nothing else changes |
| `TypeFilter.PDFTypeFilter.FilterPDFItems` | script.js:581-608 | items hidden exactly when not shown, then the sections recomputed for every filter (corrected) |
| `TypeFilter.PDFTypeFilter.FilterPDFItemsAsWritten` | script.js:581-608 | as written: for `all`, the items are shown but the section flags are left as they were |
| `TypeFilter.PDFTypeFilter.ShowAll` | script.js:584-589 | every item is shown |
| `TypeFilter.PDFTypeFilter.HideOthers` | script.js:592-604 | each item is hidden exactly when its category is not the filter |
| `TypeFilter.PDFTypeFilter.UpdateSemesterVisibility` | script.js:637-651 | every section is hidden exactly when it has no visible item |
| `TypeFilter.PDFTypeFilter.CountVisible` | script.js:640-644 | the loop counts the visible items of a section |
| `TypeFilter.PDFTypeFilter.SaveFilterState` | script.js:653-655 | the filter is written under `pdf_filter_type` when storage accepts the write; nothing else changes |
| `TypeFilter.PDFTypeFilter.Select` | script.js:547-557 | a click applies the filter as `setFilter` does, section flags after `all` included, and then remembers it |
| `TypeFilter.PDFTypeFilter.RestoreFilterState` | script.js:657-662 | a remembered non-empty filter is applied as `setFilter` does; otherwise nothing changes; storage is only read |
| `Browser.Window.constructor` | script.js:874-881 | the window starts with the given storages, no toasts and no navigation |
| `Browser.Window.SetLocal` | script.js:874-881 | a `localStorage` write succeeds exactly when storage is writable, and then updates that key only |
| `Browser.Window.SetSession` | script.js:852 | a `sessionStorage` write succeeds exactly when storage is writable, and then updates that key only |
| `Browser.Window.ShowToast` | script.js:1033 | a toast is appended and nothing else changes |
| `Browser.Window.Navigate` | script.js:891 | the location is set and nothing else changes |
| `Viewer.FileExtension` | script.js:813 | the extension is the lower-cased tail of the path from its last `.`, or the whole path lower-cased when it has no `.` |
| `Viewer.SupportedIffPdfSuffix` | script.js:813-817 | a path is accepted exactly when it ends in `.pdf` in any letter case (the `.PDF` entry can never match a lower-cased extension) |
| `Viewer.FirstMatch` | script.js:834-836 | the record found is in the semester and has the normalised or the raw path; none is found exactly when no record has either |
| `Viewer.FindInCatalogFirst` | script.js:833-843 | the search stops at the first semester with a matching record, or finds nothing when no semester has one |
| `Viewer.FindSemester` | script.js:828-843 | the loop with `break` settles on the semester and category `Located` describes (`sem1` and `notes` when nothing is found) |
| `Viewer.ViewerUrlExtends` | script.js:884-886 | the navigation URL is `getViewerUrl` of the same path and title followed by the category and the semester |
| `Viewer.ResolvedTypeSource` | script.js:846-849 | the category is the record's when the semester found holds the normalised path, and read from the path otherwise |
| `Viewer.BoundHandoff` | script.js:826-886 | with `this` bound: the record names the path, the whole catalog, the title, one of the five keys, the first semester holding the document (or `sem1`) and the page; the referrer is the page's last segment |
| `Viewer.PlanRejects` | script.js:805-817 | a call is refused exactly when the path is empty or not a PDF, with the two messages of the source |
| `Viewer.BoundPlanProceeds` | script.js:804-886 | with `this` bound, an accepted call always hands over, and its URL is `getViewerUrl` plus category and semester |
| `Viewer.UnboundReceiverThrows` | script.js:846-847 | through the global `openPDFViewer`, on a page without sections, every accepted call throws before storing anything |
| `Viewer.OpenViewer` | script.js:804-895 | refusals show an error toast; a throw or a failed `sessionStorage` write changes nothing; a failed `localStorage` write shows the error toast; otherwise the referrer and the record are stored, the toast `Opening …` is shown and the viewer URL is navigated to |

## Left out

- The DOM is input data: the page's sections, rows, buttons and filter items are given, not
  queried. `createFilterButtons` is reduced to the list of button keys, present exactly when
  a sidebar exists. The `filtered-out` class is tracked by the same flag as `display: none`.
- The initial hidden flags of items and sections are whatever the page holds. Only the inline
  `display: none` that the filter writes counts as hidden.
- The event wiring (`setupEventListeners`, `DOMContentLoaded`) is modelled by the methods it
  calls (`Select`), not by listeners.
- The 100 ms delay of `restoreFilterState` and the other `setTimeout` calls are not modelled:
  the deferred call is made directly.
- `Date.now()` is the parameter `now`.
- The contents of the console, `gtag` analytics and `trackPDFView` have no effect on the
  modelled state and are not modelled.
- The debug button is not modelled.
- `fetch` and the rest of the script outside these parts are not part of this model.
- `JSON.stringify` of the hand-off record is not modelled: the record is stored as a value.
- How a toast is drawn is not modelled: a toast is its message and kind.
- `toLowerCase` is modelled on ASCII letters only. The only non-ASCII characters that lower-case
  into ASCII are `İ` (to `i` followed by U+0307) and the Kelvin sign (to `k`). No searched
  needle contains `k`, and every needle has a letter after each `i`, so every result the
  script computes is the same.
- `Classify.DetectPDFType`: keys of `Object.prototype` (such as `constructor`) looked up in
  `CONFIG.pdf.types` are not modelled; only the five category keys exist.
- `Collector.CollectPagePDFs`: the insertion order of object keys is modelled; the special
  ordering of integer-like keys is not.
- `Viewer.OpenViewer`: a `fileName` of `undefined` (the toast would read `Opening undefined...`) is
  not modelled; a missing title is the empty string, which `getViewerUrl` replaces with
  `document.pdf`.
- `openEmbedded` is not modelled: it only forwards to `openViewer`.
- `maxFileSize` is configured but never checked by the script, so it is not modelled.
- `TypeFilter.FilterName`: the lookup `CONFIG.pdf.types[type]` (script.js:577) also finds keys of
  `Object.prototype`, so a stored filter such as `constructor` would put a function's text in
  the toast; only the five category keys are modelled.
- `Collector.CollectButtons`: the test `btn.onclick` (script.js:703) is modelled as the attribute
  being present; an attribute that fails to compile leaves `btn.onclick` null and the button
  skipped, which is not modelled.
- `Uri.Encode`: `encodeURI` throws a `URIError` on a lone surrogate; Dafny strings hold only
  Unicode scalar values, so that case is not modelled.
- `PathUtil.NormalizeGitHubShape`: the no-space guarantee covers the part after the base URL;
  the base URL itself is a constant without spaces.

## Findings

| source | as written | input that shows it | evidently intended | confidence | as-written member | corrected member |
|---|---|---|---|---|---|---|
| script.js:118-123 | under GitHub Pages the repair pass writes `Old Is Gold` as `Old%20Is%20Gold`, and `fixAllPDFPaths` then runs `normalizePath`, whose `encodeURI` turns that `%` into `%25` | the path `Old Is Gold/a.pdf` under GitHub Pages: repaired to `/Old%20Is%20Gold/a.pdf`, then normalised to a URL with `Old%2520Is%2520Gold` | the folder is reached at `Old%20Is%20Gold`: escape the spaces only where no encoding follows | not executed | `PathFixer.PassesDisagreeAsWritten` | `PathFixer.PassesCommute` |
| script.js:584-590 | `filterPDFItems('all')` returns before `updateSemesterVisibility` | one syllabus item in section 0: `notes` hides the item and the section; `all` shows the item but the section stays hidden (`TypeFilter.AllLeavesSectionHidden`) | sections are recomputed after every filter, `all` included | not executed | `TypeFilter.PDFTypeFilter.FilterPDFItemsAsWritten` | `TypeFilter.PDFTypeFilter.FilterPDFItems` |
| script.js:846-847 | `this.detectTypeFromPath` is called, but the inline handlers reach `openViewer` through `window.openPDFViewer = PDFViewerModule.openViewer` (script.js:1510), so `this` is undefined in the class's strict code | any `.pdf` path not in the page's catalog, e.g. on a page without semester sections: the call throws a `TypeError` before anything is stored or navigated | the category is read from the path and the viewer opens | not executed | `Viewer.UnboundReceiverThrows` | `Viewer.BoundPlanProceeds` |
