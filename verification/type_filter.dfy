/**
 * `PDFTypeFilter`: the sidebar buttons that show only the documents of one category, the
 * derivation of an item's category, the hiding of semester sections left without a visible
 * item, and the choice remembered in `localStorage` under `pdf_filter_type`.
 *
 * The document is given as data: the filterable items (`.pdf-item` elements and
 * `.notes-table` rows, in document order) with what the filter reads from each, and the
 * number of `.semester-section` elements. Display state is a hidden flag per item and per
 * section; the `filtered-out` class is toggled together with it and is not tracked separately.
 */
module TypeFilter {
  import opened Wrappers
  import opened Classify
  import opened Browser

  /** The `data-type` values of the filter buttons, in the order they are created. */
  const FilterKeys: seq<string> := ["all", "notes", "syllabus", "oldisgold", "recentpaper", "internalpaper"]

  const AllKey: string := "all"

  /** The `localStorage` key of the remembered filter. */
  const StorageKey: string := "pdf_filter_type"

  /**
   * A filterable item: its `data-pdf-type` attribute, the onclick text of its first
   * `.view-btn` (`Some("")` for a button without onclick, `None` when there is no button),
   * its text content, whether it has the `notes-item` class, and the index of the semester
   * section that contains it, if any.
   */
  datatype Item = Item(
    pdfType: Option<string>, viewButton: Option<string>, text: string,
    isNotesItem: bool, section: Option<nat>)

  function KeyOf(t: Option<PdfType>): (r: Option<string>)
    ensures r.Some? <==> t.Some?
    ensures r.Some? ==> TypeOfKey(r.value) == t
  {
    match t
    case Some(x) => KeyRoundTrip(x, x.Key()); Some(x.Key())
    case None => None
  }

  /**
   * The category key of an item: a non-empty `data-pdf-type`, else the folder named in its
   * view button, else a keyword of its text (`None` when all three fail).
   */
  function ItemType(item: Item): Option<string> {
    if item.pdfType.Some? && item.pdfType.value != "" then item.pdfType
    else if ExtractTypeFromRow(item.viewButton).Some? then KeyOf(ExtractTypeFromRow(item.viewButton))
    else KeyOf(ExtractTypeFromItem(item.text, item.isNotesItem))
  }

  /** Whether the filter `filter` shows `item`. */
  predicate Shown(filter: string, item: Item) {
    filter == AllKey || ItemType(item) == Some(filter)
  }

  /** An item without a `data-pdf-type` gets one of the five category keys, or none at all. */
  lemma DerivedTypeIsKnown(item: Item)
    requires item.pdfType.None? || item.pdfType.value == ""
    ensures ItemType(item).Some? ==> TypeOfKey(ItemType(item).value).Some?
  {
  }

  /**
   * Outside `all`, the filters partition the items: an item with category `t` is shown by
   * the filter `t` and by no other, and an item without a category only by `all`.
   */
  lemma FiltersPartition(item: Item, filter: string)
    requires filter != AllKey
    ensures Shown(filter, item) <==> ItemType(item) == Some(filter)
    ensures ItemType(item).None? ==> !Shown(filter, item)
  {
  }

  /** The view button's folder wins over the item's text, whatever the text says. */
  lemma ButtonBeatsText(item: Item, t: PdfType)
    requires item.pdfType.None?
    requires ExtractTypeFromRow(item.viewButton) == Some(t)
    ensures forall filter :: filter != AllKey ==> (Shown(filter, item) <==> filter == t.Key())
  {
  }

  /** The toast text `Showing: <name>`: the category's display name, `All Types` otherwise. */
  function FilterName(filter: string): (r: string)
    ensures TypeOfKey(filter).Some? ==> r == TypeOfKey(filter).value.Label()
    ensures TypeOfKey(filter).None? ==> r == "All Types"
  {
    match TypeOfKey(filter)
    case Some(t) => t.Label()
    case None => "All Types"
  }

  /** The hidden flag of every item under `filter`. */
  function HiddenFor(filter: string, items: seq<Item>): (r: seq<bool>)
    ensures |r| == |items|
    ensures forall k :: 0 <= k < |items| ==> (r[k] <==> !Shown(filter, items[k]))
  {
    if items == [] then [] else [!Shown(filter, items[0])] + HiddenFor(filter, items[1..])
  }

  /** Some item of section `s` is not hidden. */
  predicate SectionHasVisible(items: seq<Item>, hidden: seq<bool>, s: nat)
    requires |hidden| == |items|
  {
    exists k :: 0 <= k < |items| && items[k].section == Some(s) && !hidden[k]
  }

  /** The number of items of section `s` that are not hidden (the `visibleItems.length` of the source). */
  function VisibleCount(items: seq<Item>, hidden: seq<bool>, s: nat): nat
    requires |hidden| == |items|
  {
    if items == [] then 0
    else
      var n := |items| - 1;
      VisibleCount(items[..n], hidden[..n], s) + (if items[n].section == Some(s) && !hidden[n] then 1 else 0)
  }

  lemma {:induction false} VisibleCountPositive(items: seq<Item>, hidden: seq<bool>, s: nat)
    requires |hidden| == |items|
    ensures VisibleCount(items, hidden, s) > 0 <==> SectionHasVisible(items, hidden, s)
  {
    if items != [] {
      var n := |items| - 1;
      VisibleCountPositive(items[..n], hidden[..n], s);
      if SectionHasVisible(items[..n], hidden[..n], s) {
        var k :| 0 <= k < n && items[..n][k].section == Some(s) && !hidden[..n][k];
        assert items[k].section == Some(s) && !hidden[k];
      }
      if SectionHasVisible(items, hidden, s) {
        var k :| 0 <= k < |items| && items[k].section == Some(s) && !hidden[k];
        if k < n {
          assert items[..n][k].section == Some(s) && !hidden[..n][k];
        }
      }
    }
  }

  /** The hidden flag of sections `0 .. n-1`: hidden exactly when no item of theirs is visible. */
  function SectionFlags(items: seq<Item>, hidden: seq<bool>, n: nat): (r: seq<bool>)
    requires |hidden| == |items|
    ensures |r| == n
    ensures forall s :: 0 <= s < n ==> (r[s] <==> !SectionHasVisible(items, hidden, s))
  {
    if n == 0 then []
    else
      VisibleCountPositive(items, hidden, n - 1);
      SectionFlags(items, hidden, n - 1) + [VisibleCount(items, hidden, n - 1) == 0]
  }

  /** The display invariant: a section is hidden exactly when none of its items is visible. */
  predicate SectionsAgree(items: seq<Item>, hidden: seq<bool>, sectionHidden: seq<bool>)
    requires |hidden| == |items|
  {
    forall s :: 0 <= s < |sectionHidden| ==> (sectionHidden[s] <==> !SectionHasVisible(items, hidden, s))
  }

  /** Which buttons carry the `active` class after selecting `filter`. */
  function ActiveFlags(buttons: seq<string>, filter: string): (r: seq<bool>)
    ensures |r| == |buttons|
    ensures forall i :: 0 <= i < |buttons| ==> (r[i] <==> buttons[i] == filter)
  {
    if buttons == [] then [] else [buttons[0] == filter] + ActiveFlags(buttons[1..], filter)
  }

  /** No two buttons share a `data-type`. */
  predicate DistinctKeys(buttons: seq<string>) {
    forall i, j :: 0 <= i < j < |buttons| ==> buttons[i] != buttons[j]
  }

  lemma FilterKeysDistinct()
    ensures DistinctKeys(FilterKeys)
  {
  }

  /**
   * With buttons of distinct keys (as the six filter buttons are), selecting one of their
   * keys makes exactly that button active, and any other value (a stale remembered key,
   * say) leaves none active.
   */
  lemma OneActiveButton(buttons: seq<string>, filter: string)
    requires DistinctKeys(buttons)
    ensures forall i, j :: 0 <= i < j < |buttons| ==> !(ActiveFlags(buttons, filter)[i] && ActiveFlags(buttons, filter)[j])
    ensures filter in buttons ==> exists i :: 0 <= i < |buttons| && ActiveFlags(buttons, filter)[i]
    ensures filter !in buttons ==> forall i :: 0 <= i < |buttons| ==> !ActiveFlags(buttons, filter)[i]
  {
    var r := ActiveFlags(buttons, filter);
    if filter in buttons {
      var i :| 0 <= i < |buttons| && buttons[i] == filter;
      assert r[i];
    }
  }

  /** What `restoreFilterState` finds: a non-empty text under `pdf_filter_type`. */
  function SavedFilter(storage: map<string, Stored>): (r: Option<string>)
    ensures r.Some? ==> StorageKey in storage && storage[StorageKey] == Text(r.value) && r.value != ""
  {
    if StorageKey in storage && storage[StorageKey].Text? && storage[StorageKey].text != ""
    then Some(storage[StorageKey].text)
    else None
  }

  /**
   * Saving a filter and restoring it gives it back, except the empty key, which restoring
   * ignores; writes under other keys do not disturb it.
   */
  lemma SaveRestore(storage: map<string, Stored>, filter: string, key: string, value: Stored)
    requires key != StorageKey
    ensures SavedFilter(storage[StorageKey := Text(filter)]) == if filter == "" then None else Some(filter)
    ensures SavedFilter(storage[key := value]) == SavedFilter(storage)
  {
  }

  /**
   * `filterPDFItems('all')` as written returns before `updateSemesterVisibility`: a section
   * hidden by the previous filter stays hidden although its items are shown again. Here one
   * syllabus item sits in section 0; after `notes` the item and the section are hidden, and
   * `all` shows the item but, as written, not the section.
   */
  lemma AllLeavesSectionHidden()
    ensures var items := [Item(Some("syllabus"), None, "", false, Some(0))];
            var afterNotes := HiddenFor("notes", items);
            var sectionsAfterNotes := SectionFlags(items, afterNotes, 1);
            var afterAll := HiddenFor(AllKey, items);
            SectionsAgree(items, afterNotes, sectionsAfterNotes) &&
            sectionsAfterNotes == [true] && afterAll == [false] &&
            !SectionsAgree(items, afterAll, sectionsAfterNotes)
  {
    var items := [Item(Some("syllabus"), None, "", false, Some(0))];
    var afterAll := HiddenFor(AllKey, items);
    assert !afterAll[0];
    assert SectionHasVisible(items, afterAll, 0);
  }

  /** Recomputing the sections after every filter, `all` included, restores the invariant. */
  lemma SectionFlagsAgree(items: seq<Item>, hidden: seq<bool>, n: nat)
    requires |hidden| == |items|
    ensures SectionsAgree(items, hidden, SectionFlags(items, hidden, n))
  {
  }

  class PDFTypeFilter {
    const items: seq<Item>
    const sectionCount: nat
    /** The `data-type` of each filter button (none when the page has no sidebar). */
    const buttons: seq<string>
    const window: Window

    var currentFilter: string
    var active: seq<bool>
    var hidden: seq<bool>
    var sectionHidden: seq<bool>

    predicate Valid()
      reads this
    {
      |active| == |buttons| && |hidden| == |items| && |sectionHidden| == sectionCount
    }

    /**
     * `new PDFTypeFilter()` up to `restoreFilterState`: the filter is `all` and the `all`
     * button is active; items and sections keep the display state the page gave them.
     */
    constructor(items: seq<Item>, sectionCount: nat, hasSidebar: bool, window: Window,
                hidden: seq<bool>, sectionHidden: seq<bool>)
      requires |hidden| == |items| && |sectionHidden| == sectionCount
      ensures Valid()
      ensures this.items == items && this.sectionCount == sectionCount && this.window == window
      ensures buttons == (if hasSidebar then FilterKeys else [])
      ensures currentFilter == AllKey && active == ActiveFlags(buttons, AllKey)
      ensures this.hidden == hidden && this.sectionHidden == sectionHidden
    {
      this.items := items;
      this.sectionCount := sectionCount;
      this.buttons := if hasSidebar then FilterKeys else [];
      this.window := window;
      currentFilter := AllKey;
      active := ActiveFlags(if hasSidebar then FilterKeys else [], AllKey);
      this.hidden := hidden;
      this.sectionHidden := sectionHidden;
    }

    /**
     * `setFilter`: records the filter, marks its button, filters the items, shows a toast.
     * After `all` the sections keep the flags the previous filter left.
     */
    method SetFilter(filter: string)
      requires Valid()
      modifies this, window
      ensures Valid()
      ensures currentFilter == filter && active == ActiveFlags(buttons, filter)
      ensures hidden == HiddenFor(filter, items)
      ensures sectionHidden == if filter == AllKey then old(sectionHidden) else SectionFlags(items, hidden, sectionCount)
      ensures filter != AllKey ==> SectionsAgree(items, hidden, sectionHidden)
      ensures window.toasts == old(window.toasts) + [Toast("Showing: " + FilterName(filter), Info)]
      ensures window.localStorage == old(window.localStorage) && window.sessionStorage == old(window.sessionStorage)
      ensures window.localWritable == old(window.localWritable) && window.sessionWritable == old(window.sessionWritable)
      ensures window.location == old(window.location)
    {
      currentFilter := filter;
      UpdateButtons(filter);
      FilterPDFItemsAsWritten(filter);
      SectionFlagsAgree(items, hidden, sectionCount);
      window.ShowToast("Showing: " + FilterName(filter), Info);
    }

    /** The button loop of `setFilter`. */
    method UpdateButtons(filter: string)
      requires Valid()
      modifies this
      ensures Valid()
      ensures active == ActiveFlags(buttons, filter)
      ensures currentFilter == old(currentFilter) && hidden == old(hidden) && sectionHidden == old(sectionHidden)
    {
      for i := 0 to |buttons|
        invariant |active| == |buttons|
        invariant forall j :: 0 <= j < i ==> active[j] == (buttons[j] == filter)
        invariant currentFilter == old(currentFilter) && hidden == old(hidden) && sectionHidden == old(sectionHidden)
      {
        if buttons[i] == filter {
          active := active[i := true];
        } else {
          active := active[i := false];
        }
      }
      assert active == ActiveFlags(buttons, filter);
    }

    /** `filterPDFItems`, with the sections recomputed after `all` as well. */
    method FilterPDFItems(filter: string)
      requires Valid()
      modifies this
      ensures Valid()
      ensures hidden == HiddenFor(filter, items)
      ensures sectionHidden == SectionFlags(items, hidden, sectionCount)
      ensures currentFilter == old(currentFilter) && active == old(active)
    {
      if filter == AllKey {
        ShowAll();
      } else {
        HideOthers(filter);
      }
      UpdateSemesterVisibility();
    }

    /** `filterPDFItems` as written: `all` returns before the sections are recomputed. */
    method FilterPDFItemsAsWritten(filter: string)
      requires Valid()
      modifies this
      ensures Valid()
      ensures hidden == HiddenFor(filter, items)
      ensures sectionHidden == if filter == AllKey then old(sectionHidden) else SectionFlags(items, hidden, sectionCount)
      ensures currentFilter == old(currentFilter) && active == old(active)
    {
      if filter == AllKey {
        ShowAll();
        return;
      }
      HideOthers(filter);
      UpdateSemesterVisibility();
    }

    /** The `all` branch: every item is shown. */
    method ShowAll()
      requires Valid()
      modifies this
      ensures Valid()
      ensures hidden == HiddenFor(AllKey, items)
      ensures currentFilter == old(currentFilter) && active == old(active) && sectionHidden == old(sectionHidden)
    {
      for k := 0 to |items|
        invariant |hidden| == |items|
        invariant forall j :: 0 <= j < k ==> !hidden[j]
        invariant currentFilter == old(currentFilter) && active == old(active) && sectionHidden == old(sectionHidden)
      {
        hidden := hidden[k := false];
      }
      assert hidden == HiddenFor(AllKey, items);
    }

    /** The other branch: an item is shown exactly when its category is the filter. */
    method HideOthers(filter: string)
      requires Valid() && filter != AllKey
      modifies this
      ensures Valid()
      ensures hidden == HiddenFor(filter, items)
      ensures currentFilter == old(currentFilter) && active == old(active) && sectionHidden == old(sectionHidden)
    {
      for k := 0 to |items|
        invariant |hidden| == |items|
        invariant forall j :: 0 <= j < k ==> hidden[j] == (ItemType(items[j]) != Some(filter))
        invariant currentFilter == old(currentFilter) && active == old(active) && sectionHidden == old(sectionHidden)
      {
        if ItemType(items[k]) == Some(filter) {
          hidden := hidden[k := false];
        } else {
          hidden := hidden[k := true];
        }
      }
      assert hidden == HiddenFor(filter, items);
    }

    /** `updateSemesterVisibility`: a section is hidden when it has no visible item. */
    method UpdateSemesterVisibility()
      requires Valid()
      modifies this
      ensures Valid()
      ensures sectionHidden == SectionFlags(items, hidden, sectionCount)
      ensures currentFilter == old(currentFilter) && active == old(active) && hidden == old(hidden)
    {
      for s := 0 to sectionCount
        invariant Valid()
        invariant forall t :: 0 <= t < s ==> (sectionHidden[t] <==> !SectionHasVisible(items, hidden, t))
        invariant currentFilter == old(currentFilter) && active == old(active) && hidden == old(hidden)
      {
        var count := CountVisible(s);
        VisibleCountPositive(items, hidden, s);
        if count == 0 {
          sectionHidden := sectionHidden[s := true];
        } else {
          sectionHidden := sectionHidden[s := false];
        }
      }
      assert sectionHidden == SectionFlags(items, hidden, sectionCount);
    }

    /** The number of visible items of section `s`. */
    method CountVisible(s: nat) returns (count: nat)
      requires Valid()
      ensures count == VisibleCount(items, hidden, s)
    {
      count := 0;
      for k := 0 to |items|
        invariant count == VisibleCount(items[..k], hidden[..k], s)
      {
        assert items[..k + 1][..k] == items[..k] && hidden[..k + 1][..k] == hidden[..k];
        if items[k].section == Some(s) && !hidden[k] {
          count := count + 1;
        }
      }
      assert items[..|items|] == items && hidden[..|items|] == hidden;
    }

    /** `saveFilterState`: the write to `localStorage` (a refused write is an uncaught error with no further effect). */
    method SaveFilterState(filter: string)
      modifies window
      ensures window.localStorage == if old(window.localWritable) then old(window.localStorage)[StorageKey := Text(filter)] else old(window.localStorage)
      ensures window.sessionStorage == old(window.sessionStorage) && window.toasts == old(window.toasts)
      ensures window.localWritable == old(window.localWritable) && window.sessionWritable == old(window.sessionWritable)
      ensures window.location == old(window.location)
    {
      var _ := window.SetLocal(StorageKey, Text(filter));
    }

    /** The click handler of a filter button: `setFilter` then `saveFilterState`. */
    method Select(filter: string)
      requires Valid()
      modifies this, window
      ensures Valid()
      ensures currentFilter == filter && active == ActiveFlags(buttons, filter)
      ensures hidden == HiddenFor(filter, items)
      ensures sectionHidden == if filter == AllKey then old(sectionHidden) else SectionFlags(items, hidden, sectionCount)
      ensures filter != AllKey ==> SectionsAgree(items, hidden, sectionHidden)
      ensures window.toasts == old(window.toasts) + [Toast("Showing: " + FilterName(filter), Info)]
      ensures window.localStorage == if old(window.localWritable) then old(window.localStorage)[StorageKey := Text(filter)] else old(window.localStorage)
      ensures window.sessionStorage == old(window.sessionStorage) && window.location == old(window.location)
      ensures window.localWritable == old(window.localWritable) && window.sessionWritable == old(window.sessionWritable)
    {
      SetFilter(filter);
      SaveFilterState(filter);
    }

    /** `restoreFilterState`: a remembered non-empty filter is applied, otherwise nothing changes. */
    method RestoreFilterState()
      requires Valid()
      modifies this, window
      ensures Valid()
      ensures SavedFilter(old(window.localStorage)).None? ==>
                currentFilter == old(currentFilter) && hidden == old(hidden) && sectionHidden == old(sectionHidden)
                && active == old(active) && window.toasts == old(window.toasts)
      ensures SavedFilter(old(window.localStorage)).Some? ==>
                var filter := SavedFilter(old(window.localStorage)).value;
                currentFilter == filter && active == ActiveFlags(buttons, filter)
                && hidden == HiddenFor(filter, items)
                && sectionHidden == (if filter == AllKey then old(sectionHidden) else SectionFlags(items, hidden, sectionCount))
                && (filter != AllKey ==> SectionsAgree(items, hidden, sectionHidden))
                && window.toasts == old(window.toasts) + [Toast("Showing: " + FilterName(filter), Info)]
      ensures window.localStorage == old(window.localStorage)
      ensures window.sessionStorage == old(window.sessionStorage) && window.location == old(window.location)
      ensures window.localWritable == old(window.localWritable) && window.sessionWritable == old(window.sessionWritable)
    {
      var saved := window.GetLocalText(StorageKey);
      if saved.Some? && saved.value != "" {
        SetFilter(saved.value);
      }
    }
  }
}
