/** The parts of the browser the callback page touches, as plain state: the
    status line, the debug element and the console, the spinner, the container
    the manual screen is drawn into, `localStorage`, the labels of the copy
    buttons and the revert timers they have scheduled, and the clipboard. Elements are records; an element
    that does something when clicked says so in its `control`. */
module Dom {
  import opened Common

  /** What an element does when it is clicked. */
  datatype Control =
    | Inert
      /** A copy button: `id` indexes the page's copy-button labels, `copies` is the text it copies. */
    | CopyButton(id: nat, copies: string)
      /** Sets `window.location.href` to `uri`. */
    | ReturnToApp(uri: string)
      /** Shows or hides the debug element. */
    | DebugToggle
      /** The page's own debug element, moved into the container. */
    | DebugOutput

  /** An element: tag, classes, text content, `style.color`, behaviour, children. For a
      copy button `text` is the label it was created with; the label it shows after
      clicks is `PageView.copyLabels[id]`. */
  datatype Element = Element(tag: string, classes: seq<string>, text: string, color: string,
                             control: Control, children: seq<Element>)

  /** Everything about the page the script can change. The `has...` flags say whether
      `getElementById` found the status element, the debug element and the container.
      `copyLabels[id]` is the label copy button `id` shows now, and `reverts` lists the
      buttons whose pending 2000 ms timers will reset their labels. */
  datatype PageView = PageView(
    hasStatus: bool, status: string,
    hasDebug: bool, debugLog: seq<string>, debugDisplay: string,
    console: seq<string>,
    spinnerHidden: bool,
    hasContainer: bool, container: seq<Element>,
    storage: map<string, string>,
    copyLabels: seq<string>, reverts: seq<nat>,
    clipboard: Option<string>)

  /** What the model leaves abstract about the browser. */
  datatype Host = Host(
    /** percent-decoding and UTF-8 decoding inside `URLSearchParams` */
    decode: string -> string,
    /** `Date.prototype.toISOString` on a time value in milliseconds */
    iso: int -> string,
    /** `Date.prototype.toLocaleString` on a time value in milliseconds */
    locale: int -> string,
    /** `String(e)` for the RangeError `toISOString` throws on an invalid date */
    invalidTimeError: string)

  /** The document and window state, updated in place by the page script. */
  class Page {
    const hasStatus: bool
    var status: string
    const hasDebug: bool
    var debugLog: seq<string>
    var debugDisplay: string
    var console: seq<string>
    var spinnerHidden: bool
    const hasContainer: bool
    var container: seq<Element>
    var storage: map<string, string>
    var copyLabels: seq<string>
    var reverts: seq<nat>
    var clipboard: Option<string>

    function View(): (v: PageView)
      reads this
    {
      PageView(hasStatus, status, hasDebug, debugLog, debugDisplay, console, spinnerHidden,
               hasContainer, container, storage, copyLabels, reverts, clipboard)
    }

    /** The page as loaded: nothing logged, no copy button, spinner showing. */
    constructor (hasStatus: bool, status: string, hasDebug: bool, debugDisplay: string,
                 hasContainer: bool, container: seq<Element>, storage: map<string, string>)
      ensures View() == PageView(hasStatus, status, hasDebug, [], debugDisplay, [], false,
                                 hasContainer, container, storage, [], [], None)
    {
      this.hasStatus := hasStatus;
      this.status := status;
      this.hasDebug := hasDebug;
      this.debugLog := [];
      this.debugDisplay := debugDisplay;
      this.console := [];
      this.spinnerHidden := false;
      this.hasContainer := hasContainer;
      this.container := container;
      this.storage := storage;
      this.copyLabels := [];
      this.reverts := [];
      this.clipboard := None;
    }
  }
}
