/**
 * The parts of the browser window the catalog code touches: `localStorage` and
 * `sessionStorage` (either of which may refuse writes, as a full quota or disabled storage
 * does), the toasts `UI.showToast` shows, and the location it navigates to. The page's own
 * path is part of the page given to the collector. Toasts and
 * navigation are recorded as output events; how a toast is drawn is not modelled.
 */
module Browser {
  import opened Wrappers
  import opened Collector

  datatype ToastKind = Info | Error

  /** One call of `UI.showToast(message, kind)`. */
  datatype Toast = Toast(message: string, kind: ToastKind)

  /** The record `openViewer` stores for the viewer page under `viewer_page_data`. */
  datatype ViewerData = ViewerData(
    allPDFs: Catalog,
    currentSemester: string,
    currentFile: string,
    currentTitle: string,
    pageType: string,
    pdfType: string,
    timestamp: int,
    sourcePage: string)

  /** A stored value: plain text, or the viewer record (whose JSON text is not modelled). */
  datatype Stored = Text(text: string) | Data(data: ViewerData)

  class Window {
    var localStorage: map<string, Stored>
    var localWritable: bool
    var sessionStorage: map<string, Stored>
    var sessionWritable: bool
    var toasts: seq<Toast>
    /** The URL assigned to `window.location.href`, if any. */
    var location: Option<string>

    constructor(localStorage: map<string, Stored>, localWritable: bool,
                sessionStorage: map<string, Stored>, sessionWritable: bool)
      ensures this.localStorage == localStorage && this.localWritable == localWritable
      ensures this.sessionStorage == sessionStorage && this.sessionWritable == sessionWritable
      ensures toasts == [] && location == None
    {
      this.localStorage := localStorage;
      this.localWritable := localWritable;
      this.sessionStorage := sessionStorage;
      this.sessionWritable := sessionWritable;
      toasts := [];
      location := None;
    }

    /** `localStorage.getItem(key)` for a text value. */
    function GetLocalText(key: string): Option<string>
      reads this
    {
      if key in localStorage && localStorage[key].Text? then Some(localStorage[key].text) else None
    }

    /** `localStorage.setItem(key, value)`; `ok` is false when the write throws. */
    method SetLocal(key: string, value: Stored) returns (ok: bool)
      modifies this
      ensures ok == localWritable
      ensures localStorage == if ok then old(localStorage)[key := value] else old(localStorage)
      ensures localWritable == old(localWritable) && sessionStorage == old(sessionStorage)
      ensures sessionWritable == old(sessionWritable) && toasts == old(toasts) && location == old(location)
    {
      ok := localWritable;
      if ok {
        localStorage := localStorage[key := value];
      }
    }

    /** `sessionStorage.setItem(key, value)`; `ok` is false when the write throws. */
    method SetSession(key: string, value: Stored) returns (ok: bool)
      modifies this
      ensures ok == sessionWritable
      ensures sessionStorage == if ok then old(sessionStorage)[key := value] else old(sessionStorage)
      ensures localStorage == old(localStorage) && localWritable == old(localWritable)
      ensures sessionWritable == old(sessionWritable) && toasts == old(toasts) && location == old(location)
    {
      ok := sessionWritable;
      if ok {
        sessionStorage := sessionStorage[key := value];
      }
    }

    /** `UI.showToast(message, kind)` */
    method ShowToast(message: string, kind: ToastKind)
      modifies this
      ensures toasts == old(toasts) + [Toast(message, kind)]
      ensures localStorage == old(localStorage) && localWritable == old(localWritable)
      ensures sessionStorage == old(sessionStorage) && sessionWritable == old(sessionWritable)
      ensures location == old(location)
    {
      toasts := toasts + [Toast(message, kind)];
    }

    /** `window.location.href = url` */
    method Navigate(url: string)
      modifies this
      ensures location == Some(url)
      ensures localStorage == old(localStorage) && localWritable == old(localWritable)
      ensures sessionStorage == old(sessionStorage) && sessionWritable == old(sessionWritable)
      ensures toasts == old(toasts)
    {
      location := Some(url);
    }
  }
}
