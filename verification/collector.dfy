/**
 * `PDFDataCollector`: walks the semester sections of a catalog page and builds, per
 * semester, the list of documents its view buttons open. The page arrives as a value: the
 * DOM queries of the script become the fields of `Page`, `Section`, `Row` and `Button`.
 */
module Collector {
  import opened Strings
  import opened Wrappers
  import opened PathUtil
  import opened ViewerCall
  import opened Classify

  /** A `.view-btn`: its `onclick` attribute, `None` when it has none. */
  datatype Button = Button(onclick: Option<string>)

  /**
   * A `table tbody tr` of a section: the text of its second and third cells (`None` when the
   * row has no such cell) and its `.view-btn` elements in document order.
   */
  datatype Row = Row(codeCell: Option<string>, nameCell: Option<string>, viewButtons: seq<Button>)

  /** A `.semester-section`: its `id`, the text of its `.semester-header h2` if any, and its rows. */
  datatype Section = Section(id: string, heading: Option<string>, rows: seq<Row>)

  /** The page: `window.location.pathname` and the semester sections in document order. */
  datatype Page = Page(pathname: string, sections: seq<Section>)

  /** One collected document. */
  datatype PdfRecord = PdfRecord(
    file: string, title: string, code: string, name: string,
    semester: string, semesterName: string, pdfType: PdfType, buttonIndex: nat)

  /** The value stored under a semester id. */
  datatype SemesterData = SemesterData(pdfs: seq<PdfRecord>, pageType: PdfType, name: string, totalPDFs: nat)

  /**
   * `allPDFs`: a plain object keyed by semester id, as (key, value) pairs in the order the
   * keys were first added.
   */
  type Catalog = seq<(string, SemesterData)>

  datatype Collected = Collected(allPDFs: Catalog, pageType: PdfType)

  function Keys(c: Catalog): (r: seq<string>)
    ensures |r| == |c| && forall i :: 0 <= i < |c| ==> r[i] == c[i].0
  {
    if c == [] then [] else [c[0].0] + Keys(c[1..])
  }

  /** `allPDFs[key]`. */
  function Lookup(c: Catalog, key: string): Option<SemesterData> {
    if c == [] then None
    else if c[0].0 == key then Some(c[0].1)
    else Lookup(c[1..], key)
  }

  /** No key occurs twice. */
  predicate UniqueKeys(c: Catalog) {
    forall i, j :: 0 <= i < j < |c| ==> c[i].0 != c[j].0
  }

  /** `allPDFs[key] = value` on a plain object. */
  function Put(c: Catalog, key: string, value: SemesterData): Catalog {
    if c == [] then [(key, value)]
    else if c[0].0 == key then [(key, value)] + c[1..]
    else [c[0]] + Put(c[1..], key, value)
  }

  /** After `allPDFs[key] = value` the key holds the value and every other key what it held. */
  lemma {:induction false} PutLookup(c: Catalog, key: string, value: SemesterData, k: string)
    ensures Lookup(Put(c, key, value), k) == if k == key then Some(value) else Lookup(c, k)
    decreases |c|
  {
    if c != [] && c[0].0 != key {
      PutLookup(c[1..], key, value, k);
      assert Put(c, key, value)[1..] == Put(c[1..], key, value);
    }
  }

  /** An existing key keeps its place; a new key goes last. */
  lemma {:induction false} PutKeys(c: Catalog, key: string, value: SemesterData)
    ensures Keys(Put(c, key, value)) == if key in Keys(c) then Keys(c) else Keys(c) + [key]
    decreases |c|
  {
    if c != [] {
      assert Keys(c) == [c[0].0] + Keys(c[1..]);
      if c[0].0 != key {
        PutKeys(c[1..], key, value);
        assert Keys(Put(c, key, value)) == [c[0].0] + Keys(Put(c[1..], key, value));
      } else {
        assert Keys(Put(c, key, value)) == [key] + Keys(c[1..]);
      }
    }
  }

  /** A semester entry as the collector stores it: records present, counted, of the page's type. */
  predicate EntryOk(e: (string, SemesterData), pageType: PdfType) {
    |e.1.pdfs| > 0 && e.1.totalPDFs == |e.1.pdfs| && e.1.pageType == pageType
  }

  /** A `Put` of a proper entry into a catalog of proper entries leaves only proper entries. */
  lemma {:induction false} PutEntries(c: Catalog, key: string, value: SemesterData, pageType: PdfType)
    requires EntryOk((key, value), pageType)
    requires forall i :: 0 <= i < |c| ==> EntryOk(c[i], pageType)
    ensures forall i :: 0 <= i < |Put(c, key, value)| ==> EntryOk(Put(c, key, value)[i], pageType)
    decreases |c|
  {
    if c != [] && c[0].0 != key {
      PutEntries(c[1..], key, value, pageType);
      var r := Put(c, key, value);
      var tail := Put(c[1..], key, value);
      assert r == [c[0]] + tail;
      forall i | 1 <= i < |r| ensures EntryOk(r[i], pageType) {
        assert r[i] == tail[i - 1];
      }
    }
  }

  /** A `Put` keeps the keys distinct. */
  lemma PutUnique(c: Catalog, key: string, value: SemesterData)
    requires UniqueKeys(c)
    ensures UniqueKeys(Put(c, key, value))
  {
    var r := Put(c, key, value);
    var kc, kr := Keys(c), Keys(r);
    PutKeys(c, key, value);
    forall i, j | 0 <= i < j < |r| ensures r[i].0 != r[j].0 {
      assert kr[i] == r[i].0 && kr[j] == r[j].0;
      if j < |c| {
        assert kr[i] == kc[i] && kr[j] == kc[j];
      }
    }
  }

  /**
   * What every record of one section shares; `resolve` is the deployment's path normaliser,
   * `PathUtil.normalizePath` under the current mode.
   */
  datatype Context = Context(resolve: string -> string, pageType: PdfType, semester: string, semesterName: string)

  /** The text of an optional cell, trimmed; the empty string when the cell is missing. */
  function CellText(cell: Option<string>): string {
    match cell
    case None => ""
    case Some(text) => Trim(text)
  }

  /** The heading text, or `Semester ` followed by the id with its first `sem` removed. */
  function SemesterName(section: Section): string {
    match section.heading
    case Some(h) => h
    case None => "Semester " + ReplaceFirst(section.id, "sem", "")
  }

  function ContextOf(mode: Mode, pageType: PdfType, section: Section): Context {
    Context(p => NormalizePath(mode, p), pageType, section.id, SemesterName(section))
  }

  /** The viewer call a view button's onclick text holds, if any (`onclickAttr.match(...)`). */
  function CallOf(button: Button): Option<Match> {
    match button.onclick
    case None => None
    case Some(text) => Parse(text)
  }

  /** The calls of the buttons, position by position. */
  function Calls(buttons: seq<Button>): (r: seq<Option<Match>>)
    ensures |r| == |buttons| && forall i :: 0 <= i < |buttons| ==> r[i] == CallOf(buttons[i])
  {
    seq(|buttons|, i requires 0 <= i < |buttons| => CallOf(buttons[i]))
  }

  /** The record built for the call found on the view button at position `index` of a row. */
  function RecordFor(ctx: Context, code: string, name: string, m: Match, index: nat): PdfRecord {
    PdfRecord(ctx.resolve(m.path), m.title, code, name, ctx.semester, ctx.semesterName,
              TypeForIndex(index, ctx.pageType), index)
  }

  function AsSeq(r: Option<PdfRecord>): seq<PdfRecord> {
    match r
    case None => []
    case Some(x) => [x]
  }

  function RecordOf(ctx: Context, code: string, name: string, call: Option<Match>, index: nat): Option<PdfRecord> {
    match call
    case None => None
    case Some(m) => Some(RecordFor(ctx, code, name, m, index))
  }

  /** The records of the first `|calls|` view buttons of a row, given the calls they hold. */
  function ButtonRecords(ctx: Context, code: string, name: string, calls: seq<Option<Match>>): seq<PdfRecord>
    decreases |calls|
  {
    if calls == [] then []
    else
      var k := |calls| - 1;
      ButtonRecords(ctx, code, name, calls[..k]) + AsSeq(RecordOf(ctx, code, name, calls[k], k))
  }

  function RowRecords(ctx: Context, row: Row): seq<PdfRecord> {
    ButtonRecords(ctx, CellText(row.codeCell), CellText(row.nameCell), Calls(row.viewButtons))
  }

  /** The records of the rows `rows`, which are the first rows of their section. */
  function RowsRecords(ctx: Context, rows: seq<Row>): seq<PdfRecord>
    decreases |rows|
  {
    if rows == [] then []
    else RowsRecords(ctx, rows[..|rows| - 1]) + RowRecords(ctx, rows[|rows| - 1])
  }

  function SectionRecords(mode: Mode, pageType: PdfType, section: Section): seq<PdfRecord> {
    RowsRecords(ContextOf(mode, pageType, section), section.rows)
  }

  /** What one section contributes: its id, its name and its records. */
  datatype Harvest = Harvest(id: string, name: string, pdfs: seq<PdfRecord>)

  function HarvestOf(mode: Mode, pageType: PdfType, section: Section): Harvest {
    Harvest(section.id, SemesterName(section), SectionRecords(mode, pageType, section))
  }

  /** The catalog after the harvests `hs`, in order: a harvest with records sets its id. */
  function Assemble(pageType: PdfType, hs: seq<Harvest>): Catalog
    decreases |hs|
  {
    if hs == [] then []
    else
      var h := hs[|hs| - 1];
      var c := Assemble(pageType, hs[..|hs| - 1]);
      if |h.pdfs| > 0 then Put(c, h.id, SemesterData(h.pdfs, pageType, h.name, |h.pdfs|)) else c
  }

  /** One more harvest: `Assemble` over a prefix one longer. */
  lemma AssembleStep(pageType: PdfType, hs: seq<Harvest>, s: nat)
    requires s < |hs|
    ensures Assemble(pageType, hs[..s + 1])
         == if |hs[s].pdfs| > 0 then Put(Assemble(pageType, hs[..s]), hs[s].id, SemesterData(hs[s].pdfs, pageType, hs[s].name, |hs[s].pdfs|))
            else Assemble(pageType, hs[..s])
  {
    assert hs[..s + 1][..s] == hs[..s];
  }

  function Harvests(mode: Mode, pageType: PdfType, sections: seq<Section>): (r: seq<Harvest>)
    ensures |r| == |sections| && forall i :: 0 <= i < |sections| ==> r[i] == HarvestOf(mode, pageType, sections[i])
  {
    seq(|sections|, i requires 0 <= i < |sections| => HarvestOf(mode, pageType, sections[i]))
  }

  function CollectSections(mode: Mode, pageType: PdfType, sections: seq<Section>): Catalog {
    Assemble(pageType, Harvests(mode, pageType, sections))
  }

  /** One more section: the catalog of a prefix one longer. */
  lemma CollectSectionsStep(mode: Mode, pageType: PdfType, sections: seq<Section>, s: nat)
    requires s < |sections|
    ensures var ctx := ContextOf(mode, pageType, sections[s]);
            var pdfs := RowsRecords(ctx, sections[s].rows);
            CollectSections(mode, pageType, sections[..s + 1])
              == if |pdfs| > 0 then Put(CollectSections(mode, pageType, sections[..s]), sections[s].id,
                                        SemesterData(pdfs, pageType, ctx.semesterName, |pdfs|))
                 else CollectSections(mode, pageType, sections[..s])
  {
    var hs := Harvests(mode, pageType, sections[..s + 1]);
    assert hs[..s] == Harvests(mode, pageType, sections[..s]);
    AssembleStep(pageType, hs, s);
    assert hs[..s + 1] == hs;
  }

  /** What `collectPagePDFs` returns for the page. */
  function CollectPage(mode: Mode, page: Page): Collected {
    var pageType := PageTypeOf(page.pathname);
    Collected(CollectSections(mode, pageType, page.sections), pageType)
  }

  /** `PDFDataCollector.collectPagePDFs`: the loop over the semester sections. */
  method CollectPagePDFs(mode: Mode, page: Page) returns (result: Collected)
    ensures result == CollectPage(mode, page)
  {
    var pageType := PageTypeOf(page.pathname);
    var allPDFs: Catalog := [];
    var s := 0;
    assert page.sections[..0] == [];
    while s < |page.sections|
      invariant s <= |page.sections|
      invariant allPDFs == CollectSections(mode, pageType, page.sections[..s])
    {
      var section := page.sections[s];
      var ctx := ContextOf(mode, pageType, section);
      var pdfs := CollectRows(ctx, section.rows);
      CollectSectionsStep(mode, pageType, page.sections, s);
      if |pdfs| > 0 {
        allPDFs := Put(allPDFs, section.id, SemesterData(pdfs, pageType, ctx.semesterName, |pdfs|));
      }
      s := s + 1;
    }
    assert page.sections[..s] == page.sections;
    return Collected(allPDFs, pageType);
  }

  /** The rows of one section, in document order. */
  method CollectRows(ctx: Context, rows: seq<Row>) returns (pdfs: seq<PdfRecord>)
    ensures pdfs == RowsRecords(ctx, rows)
  {
    pdfs := [];
    var r := 0;
    while r < |rows|
      invariant r <= |rows|
      invariant pdfs == RowsRecords(ctx, rows[..r])
    {
      var row := rows[r];
      var code := CellText(row.codeCell);
      var name := CellText(row.nameCell);
      var found := CollectButtons(ctx, code, name, row.viewButtons);
      pdfs := pdfs + found;
      assert rows[..r + 1][..r] == rows[..r];
      r := r + 1;
    }
    assert rows[..r] == rows;
  }

  /** The view buttons of one row, in document order; `b` is the button's index in the row. */
  method CollectButtons(ctx: Context, code: string, name: string, buttons: seq<Button>) returns (pdfs: seq<PdfRecord>)
    ensures pdfs == ButtonRecords(ctx, code, name, Calls(buttons))
  {
    ghost var calls := Calls(buttons);
    pdfs := [];
    var b := 0;
    while b < |buttons|
      invariant b <= |buttons|
      invariant pdfs == ButtonRecords(ctx, code, name, calls[..b])
    {
      var btn := buttons[b];
      ButtonRecordsStep(ctx, code, name, calls, b);
      if btn.onclick.Some? {
        var found := Parse(btn.onclick.value);
        if found.Some? {
          var file := ctx.resolve(found.value.path);
          pdfs := pdfs + [PdfRecord(file, found.value.title, code, name, ctx.semester, ctx.semesterName,
                                    TypeForIndex(b, ctx.pageType), b)];
        }
      }
      b := b + 1;
    }
    assert calls[..b] == calls;
  }

  /** One more button: `ButtonRecords` over a prefix one longer. */
  lemma ButtonRecordsStep(ctx: Context, code: string, name: string, calls: seq<Option<Match>>, b: nat)
    requires b < |calls|
    ensures ButtonRecords(ctx, code, name, calls[..b + 1])
         == ButtonRecords(ctx, code, name, calls[..b]) + AsSeq(RecordOf(ctx, code, name, calls[b], b))
  {
    assert calls[..b + 1][..b] == calls[..b];
  }

  // ---------------------------------------------------------------- properties

  /** Every record of a row comes from a view button holding a call: the record built from that call and the button's position. */
  lemma {:induction false} ButtonRecordsSound(ctx: Context, code: string, name: string, calls: seq<Option<Match>>)
    ensures forall k :: 0 <= k < |ButtonRecords(ctx, code, name, calls)| ==>
      var rec := ButtonRecords(ctx, code, name, calls)[k];
      rec.buttonIndex < |calls| && calls[rec.buttonIndex].Some?
      && rec == RecordFor(ctx, code, name, calls[rec.buttonIndex].value, rec.buttonIndex)
    decreases |calls|
  {
    if calls != [] {
      var n := |calls| - 1;
      var front := calls[..n];
      ButtonRecordsSound(ctx, code, name, front);
      var before := ButtonRecords(ctx, code, name, front);
      var recs := ButtonRecords(ctx, code, name, calls);
      assert recs == before + AsSeq(RecordOf(ctx, code, name, calls[n], n));
      forall k | 0 <= k < |recs|
        ensures recs[k].buttonIndex < |calls| && calls[recs[k].buttonIndex].Some?
             && recs[k] == RecordFor(ctx, code, name, calls[recs[k].buttonIndex].value, recs[k].buttonIndex)
      {
        if k < |before| {
          assert recs[k] == before[k];
          assert front[before[k].buttonIndex] == calls[before[k].buttonIndex];
        }
      }
    }
  }

  /** The records keep the order of the buttons: their indices strictly increase. */
  lemma {:induction false} ButtonRecordsOrdered(ctx: Context, code: string, name: string, calls: seq<Option<Match>>)
    ensures forall k, l :: 0 <= k < l < |ButtonRecords(ctx, code, name, calls)| ==>
      ButtonRecords(ctx, code, name, calls)[k].buttonIndex < ButtonRecords(ctx, code, name, calls)[l].buttonIndex
    decreases |calls|
  {
    if calls != [] {
      var n := |calls| - 1;
      var front := calls[..n];
      ButtonRecordsOrdered(ctx, code, name, front);
      ButtonRecordsSound(ctx, code, name, front);
      var before := ButtonRecords(ctx, code, name, front);
      var recs := ButtonRecords(ctx, code, name, calls);
      assert recs == before + AsSeq(RecordOf(ctx, code, name, calls[n], n));
      forall k | 0 <= k < |before| ensures recs[k] == before[k] && before[k].buttonIndex < n {
      }
    }
  }

  /** Some record among `recs` comes from the view button at position `j`. */
  predicate HasIndex(recs: seq<PdfRecord>, j: nat) {
    exists k :: 0 <= k < |recs| && recs[k].buttonIndex == j
  }

  /** Every button holding a call yields a record. */
  lemma {:induction false} ButtonRecordsComplete(ctx: Context, code: string, name: string, calls: seq<Option<Match>>)
    ensures forall j :: 0 <= j < |calls| && calls[j].Some? ==> HasIndex(ButtonRecords(ctx, code, name, calls), j)
    decreases |calls|
  {
    if calls != [] {
      var n := |calls| - 1;
      var front := calls[..n];
      ButtonRecordsComplete(ctx, code, name, front);
      var before := ButtonRecords(ctx, code, name, front);
      var recs := ButtonRecords(ctx, code, name, calls);
      assert recs == before + AsSeq(RecordOf(ctx, code, name, calls[n], n));
      forall j | 0 <= j < |calls| && calls[j].Some? ensures HasIndex(recs, j) {
        if j < n {
          assert calls[j] == front[j];
          var k :| 0 <= k < |before| && before[k].buttonIndex == j;
          assert recs[k] == before[k];
        } else {
          var rec := RecordFor(ctx, code, name, calls[n].value, n);
          assert recs == before + [rec];
          assert recs[|before|] == rec;
        }
      }
    }
  }

  /** The call the site writes, with a non-empty path and title free of quotes, is read back unchanged. */
  lemma CallOfDirective(path: string, title: string)
    requires path != "" && title != "" && NoQuote(path) && NoQuote(title)
    ensures CallOf(Button(Some(Directive(path, title)))) == Some(Match(path, title, |Directive(path, title)|))
  {
    ParseDirective(path, title);
  }

  /** A button without an onclick attribute, or with one where the pattern never matches, holds no call. */
  lemma CallOfNoMatch(text: string)
    requires forall i: nat, p, w, t :: i <= |text| ==> !PatternAt(text, i, p, w, t)
    ensures CallOf(Button(None)) == None
    ensures CallOf(Button(Some(text))) == None
  {
    ParseMeaning(text);
  }

  /** When every button holds a call, the row's records are one per button, in button order. */
  lemma {:induction false} ButtonRecordsAll(ctx: Context, code: string, name: string, ms: seq<Match>)
    ensures ButtonRecords(ctx, code, name, seq(|ms|, i requires 0 <= i < |ms| => Some(ms[i])))
         == seq(|ms|, i requires 0 <= i < |ms| => RecordFor(ctx, code, name, ms[i], i))
    decreases |ms|
  {
    if ms != [] {
      var n := |ms| - 1;
      var calls := seq(|ms|, i requires 0 <= i < |ms| => Some(ms[i]));
      ButtonRecordsAll(ctx, code, name, ms[..n]);
      assert calls[..n] == seq(n, i requires 0 <= i < n => Some(ms[..n][i]));
    }
  }

  /** The collected catalog: distinct keys, no empty semester, counts that match, one page type. */
  predicate WellFormed(c: Catalog, pageType: PdfType) {
    UniqueKeys(c) && forall i :: 0 <= i < |c| ==> EntryOk(c[i], pageType)
  }

  lemma {:induction false} AssembleWellFormed(pageType: PdfType, hs: seq<Harvest>)
    ensures WellFormed(Assemble(pageType, hs), pageType)
    decreases |hs|
  {
    if hs != [] {
      var h := hs[|hs| - 1];
      var c := Assemble(pageType, hs[..|hs| - 1]);
      AssembleWellFormed(pageType, hs[..|hs| - 1]);
      if |h.pdfs| > 0 {
        PutEntries(c, h.id, SemesterData(h.pdfs, pageType, h.name, |h.pdfs|), pageType);
        PutUnique(c, h.id, SemesterData(h.pdfs, pageType, h.name, |h.pdfs|));
      }
    }
  }

  /** An id is a key exactly when some harvest with that id has records. */
  lemma {:induction false} AssembleKeys(pageType: PdfType, hs: seq<Harvest>, id: string)
    ensures id in Keys(Assemble(pageType, hs)) <==> Harvested(hs, id)
    decreases |hs|
  {
    if hs != [] {
      var n := |hs| - 1;
      var h := hs[n];
      AssembleKeys(pageType, hs[..n], id);
      if h.pdfs != [] {
        PutKeys(Assemble(pageType, hs[..n]), h.id, SemesterData(h.pdfs, pageType, h.name, |h.pdfs|));
      }
      HarvestedSnoc(hs, id);
    }
  }

  /** Some harvest with records carries `id`. */
  predicate Harvested(hs: seq<Harvest>, id: string) {
    exists i :: 0 <= i < |hs| && hs[i].id == id && hs[i].pdfs != []
  }

  /** Some harvest sets `id` exactly when an earlier one does or the last one does. */
  lemma HarvestedSnoc(hs: seq<Harvest>, id: string)
    requires hs != []
    ensures Harvested(hs, id)
        <==> Harvested(hs[..|hs| - 1], id) || (hs[|hs| - 1].id == id && hs[|hs| - 1].pdfs != [])
  {
    var n := |hs| - 1;
    if Harvested(hs[..n], id) {
      var i :| 0 <= i < n && hs[..n][i].id == id && hs[..n][i].pdfs != [];
      assert hs[i] == hs[..n][i];
    }
    if Harvested(hs, id) {
      var i :| 0 <= i < |hs| && hs[i].id == id && hs[i].pdfs != [];
      if i < n {
        assert hs[..n][i] == hs[i];
      }
    }
  }

  /** For an id set more than once, the last harvest with records decides the value. */
  lemma {:induction false} AssembleLastWins(pageType: PdfType, hs: seq<Harvest>, i: nat)
    requires i < |hs| && hs[i].pdfs != []
    requires forall j :: i < j < |hs| && hs[j].id == hs[i].id ==> hs[j].pdfs == []
    ensures Lookup(Assemble(pageType, hs), hs[i].id) == Some(SemesterData(hs[i].pdfs, pageType, hs[i].name, |hs[i].pdfs|))
    decreases |hs|
  {
    var n := |hs| - 1;
    var h := hs[n];
    var c := Assemble(pageType, hs[..n]);
    if i < n {
      forall j | i < j < n && hs[..n][j].id == hs[..n][i].id
        ensures hs[..n][j].pdfs == []
      {
        assert hs[..n][j] == hs[j];
      }
      AssembleLastWins(pageType, hs[..n], i);
      assert hs[..n][i] == hs[i];
      if h.pdfs != [] {
        PutLookup(c, h.id, SemesterData(h.pdfs, pageType, h.name, |h.pdfs|), hs[i].id);
      }
    } else {
      PutLookup(c, h.id, SemesterData(h.pdfs, pageType, h.name, |h.pdfs|), hs[i].id);
    }
  }

  /** The catalog of every page is well formed. */
  lemma CollectSectionsWellFormed(mode: Mode, pageType: PdfType, sections: seq<Section>)
    ensures WellFormed(CollectSections(mode, pageType, sections), pageType)
  {
    AssembleWellFormed(pageType, Harvests(mode, pageType, sections));
  }

  /** A semester id is a key exactly when some section with that id yields at least one record. */
  lemma CollectSectionsKeys(mode: Mode, pageType: PdfType, sections: seq<Section>, id: string)
    ensures id in Keys(CollectSections(mode, pageType, sections))
        <==> exists i :: 0 <= i < |sections| && sections[i].id == id && SectionRecords(mode, pageType, sections[i]) != []
  {
    var hs := Harvests(mode, pageType, sections);
    AssembleKeys(pageType, hs, id);
    if Harvested(hs, id) {
      var i :| 0 <= i < |hs| && hs[i].id == id && hs[i].pdfs != [];
      assert sections[i].id == id && SectionRecords(mode, pageType, sections[i]) != [];
    }
    if exists i :: 0 <= i < |sections| && sections[i].id == id && SectionRecords(mode, pageType, sections[i]) != [] {
      var i :| 0 <= i < |sections| && sections[i].id == id && SectionRecords(mode, pageType, sections[i]) != [];
      assert hs[i].id == id && hs[i].pdfs != [];
    }
  }

  /**
   * When several sections share an id, the one that counts is the last of them with records:
   * its records, its name, and the page type are what the catalog holds for the id.
   */
  lemma CollectSectionsLastWins(mode: Mode, pageType: PdfType, sections: seq<Section>, i: nat)
    requires i < |sections| && SectionRecords(mode, pageType, sections[i]) != []
    requires forall j :: i < j < |sections| && sections[j].id == sections[i].id ==> SectionRecords(mode, pageType, sections[j]) == []
    ensures var pdfs := SectionRecords(mode, pageType, sections[i]);
      Lookup(CollectSections(mode, pageType, sections), sections[i].id)
        == Some(SemesterData(pdfs, pageType, SemesterName(sections[i]), |pdfs|))
  {
    var hs := Harvests(mode, pageType, sections);
    assert forall j :: 0 <= j < |sections| ==> hs[j].id == sections[j].id && hs[j].pdfs == SectionRecords(mode, pageType, sections[j]);
    AssembleLastWins(pageType, hs, i);
  }

  /** The five view buttons of the worked example, one per category folder. */
  function FiveButtons(paths: seq<string>, titles: seq<string>): seq<Button>
    requires |paths| == 5 && |titles| == 5
  {
    seq(5, i requires 0 <= i < 5 => Button(Some(Directive(paths[i], titles[i]))))
  }

  lemma FiveButtonRecords(ctx: Context, code: string, name: string, paths: seq<string>, titles: seq<string>)
    requires |paths| == 5 && |titles| == 5
    requires forall i :: 0 <= i < 5 ==> paths[i] != "" && titles[i] != "" && NoQuote(paths[i]) && NoQuote(titles[i])
    ensures ButtonRecords(ctx, code, name, Calls(FiveButtons(paths, titles)))
         == seq(5, i requires 0 <= i < 5 => RecordFor(ctx, code, name, Match(paths[i], titles[i], |Directive(paths[i], titles[i])|), i))
  {
    var ms := seq(5, i requires 0 <= i < 5 => Match(paths[i], titles[i], |Directive(paths[i], titles[i])|));
    forall i | 0 <= i < 5 ensures Calls(FiveButtons(paths, titles))[i] == Some(ms[i]) {
      CallOfDirective(paths[i], titles[i]);
    }
    assert Calls(FiveButtons(paths, titles)) == seq(5, i requires 0 <= i < 5 => Some(ms[i]));
    ButtonRecordsAll(ctx, code, name, ms);
  }

  /** The section of the worked example: `sem1`, no heading, one row `CSC101` / `Algorithms`. */
  function ExampleSection(paths: seq<string>, titles: seq<string>): Section
    requires |paths| == 5 && |titles| == 5
  {
    Section("sem1", None, [Row(Some("CSC101"), Some("Algorithms"), FiveButtons(paths, titles))])
  }

  /** The five records expected from the worked example, one per column, in column order. */
  function ExampleRecords(mode: Mode, pageType: PdfType, paths: seq<string>, titles: seq<string>): seq<PdfRecord>
    requires |paths| == 5 && |titles| == 5
  {
    seq(5, i requires 0 <= i < 5 =>
      PdfRecord(NormalizePath(mode, paths[i]), titles[i], "CSC101", "Algorithms", "sem1", "Semester 1",
                [Notes, Syllabus, OldIsGold, RecentPaper, InternalPaper][i], i))
  }

  lemma ExampleSemesterName()
    ensures SemesterName(Section("sem1", None, [])) == "Semester 1"
  {
    assert OccursAt("sem1", "sem", 0);
    assert "sem1"[3..] == "1";
  }

  lemma ExampleSectionRecords(mode: Mode, pageType: PdfType, paths: seq<string>, titles: seq<string>)
    requires |paths| == 5 && |titles| == 5
    requires forall i :: 0 <= i < 5 ==> paths[i] != "" && titles[i] != "" && NoQuote(paths[i]) && NoQuote(titles[i])
    ensures SectionRecords(mode, pageType, ExampleSection(paths, titles)) == ExampleRecords(mode, pageType, paths, titles)
  {
    var section := ExampleSection(paths, titles);
    var row := section.rows[0];
    var ctx := ContextOf(mode, pageType, section);
    ExampleSemesterName();
    assert ctx.semesterName == "Semester 1";
    TrimUnpadded("CSC101");
    TrimUnpadded("Algorithms");
    FiveButtonRecords(ctx, "CSC101", "Algorithms", paths, titles);
    assert RowsRecords(ctx, [row]) == RowRecords(ctx, row) by {
      assert [row][..0] == [];
    }
    var recs := RowRecords(ctx, row);
    forall i | 0 <= i < 5 ensures recs[i] == ExampleRecords(mode, pageType, paths, titles)[i] {
      TypeForIndexColumns(i, pageType, Notes);
      assert ctx.resolve(paths[i]) == NormalizePath(mode, paths[i]);
    }
  }

  /**
   * The worked example of a catalog page: one section `sem1` with one row `CSC101` /
   * `Algorithms` whose five view buttons hold the five category folders yields exactly one
   * semester, holding five records categorised notes, syllabus, old-is-gold, recent paper
   * and internal paper in that order.
   */
  lemma FiveColumnRow(mode: Mode, pathname: string, paths: seq<string>, titles: seq<string>)
    requires |paths| == 5 && |titles| == 5
    requires forall i :: 0 <= i < 5 ==> paths[i] != "" && titles[i] != "" && NoQuote(paths[i]) && NoQuote(titles[i])
    ensures CollectPage(mode, Page(pathname, [ExampleSection(paths, titles)])).allPDFs
         == [("sem1", SemesterData(ExampleRecords(mode, PageTypeOf(pathname), paths, titles), PageTypeOf(pathname), "Semester 1", 5))]
  {
    var pageType := PageTypeOf(pathname);
    var section := ExampleSection(paths, titles);
    ExampleSectionRecords(mode, pageType, paths, titles);
    ExampleSemesterName();
    var hs := Harvests(mode, pageType, [section]);
    var recs := ExampleRecords(mode, pageType, paths, titles);
    assert hs == [Harvest("sem1", "Semester 1", recs)];
    assert hs[..0] == [];
    assert Assemble(pageType, hs) == Put([], "sem1", SemesterData(recs, pageType, "Semester 1", 5));
  }
}
