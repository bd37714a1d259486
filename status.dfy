/** `updateStatus`, `logDebug` and the debug toggle of script.js: a status line
    where the last write wins, and a debug log that only grows, mirrored to the
    console, made visible by every write. */
module Status {
  import opened Dom

  /** `updateStatus(message)`: the status text becomes `message` if the element exists. */
  function WithStatus(v: PageView, message: string): PageView
  {
    if v.hasStatus then v.(status := message) else v
  }

  /** `logDebug(message)`: to the console always; to the debug element, which is then
      displayed, when it exists. */
  function WithLog(v: PageView, message: string): PageView
  {
    var v' := v.(console := v.console + [message]);
    if v.hasDebug then v'.(debugLog := v.debugLog + [message], debugDisplay := "block") else v'
  }

  /** Several `logDebug` calls in order. */
  function WithLogs(v: PageView, messages: seq<string>): PageView
    decreases |messages|
  {
    if messages == [] then v else WithLogs(WithLog(v, messages[0]), messages[1..])
  }

  /** The click handler of the "Show debug info" toggle. */
  function Toggled(display: string): string
  {
    if display == "none" then "block" else "none"
  }

  /** Clicking the toggle; without a debug element the handler throws and nothing changes. */
  function WithToggle(v: PageView): PageView
  {
    if v.hasDebug then v.(debugDisplay := Toggled(v.debugDisplay)) else v
  }

  /** Logging appends exactly the messages, to the console and (if present) the debug
      element, shows the debug element, and changes nothing else on the page. */
  lemma {:induction false} WithLogsEffect(v: PageView, messages: seq<string>)
    ensures WithLogs(v, messages) ==
      v.(console := v.console + messages,
         debugLog := if v.hasDebug then v.debugLog + messages else v.debugLog,
         debugDisplay := if v.hasDebug && messages != [] then "block" else v.debugDisplay)
    decreases |messages|
  {
    if messages != [] {
      var m := messages[0];
      var rest := messages[1..];
      var w := WithLog(v, m);
      WithLogsEffect(w, rest);
      assert messages == [m] + rest;
      assert v.console + [m] + rest == v.console + messages;
      if v.hasDebug {
        assert v.debugLog + [m] + rest == v.debugLog + messages;
      }
    }
  }

  /** Logging in two batches is logging the concatenation. */
  lemma {:induction false} WithLogsAppend(v: PageView, a: seq<string>, b: seq<string>)
    ensures WithLogs(WithLogs(v, a), b) == WithLogs(v, a + b)
    decreases |a|
  {
    if a == [] {
      assert a + b == b;
    } else {
      WithLogsAppend(WithLog(v, a[0]), a[1..], b);
      assert (a + b)[0] == a[0] && (a + b)[1..] == a[1..] + b;
    }
  }

  /** The status line holds only the last message written. */
  lemma LastStatusWins(v: PageView, first: string, second: string)
    ensures WithStatus(WithStatus(v, first), second) == WithStatus(v, second)
  {
  }

  /** Toggling twice restores a display of "none" or "block"; any other initial
      value (such as the empty inline style) becomes "block" after two clicks. */
  lemma ToggleTwice(display: string)
    ensures Toggled(Toggled(display)) == if display == "none" then "none" else "block"
  {
  }

  method UpdateStatus(page: Page, message: string)
    modifies page
    ensures page.View() == WithStatus(old(page.View()), message)
  {
    if page.hasStatus {
      page.status := message;
    }
  }

  method LogDebug(page: Page, message: string)
    modifies page
    ensures page.View() == WithLog(old(page.View()), message)
  {
    page.console := page.console + [message];
    if page.hasDebug {
      page.debugLog := page.debugLog + [message];
      page.debugDisplay := "block";
    }
  }

  method ToggleDebug(page: Page)
    modifies page
    ensures page.View() == WithToggle(old(page.View()))
  {
    if page.hasDebug {
      page.debugDisplay := if page.debugDisplay == "none" then "block" else "none";
    }
  }
}
