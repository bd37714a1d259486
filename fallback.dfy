/** `showManualInstructions` and `copyToClipboard` of script.js: the screen the page
    falls back to when no app scheme took over, and the copy buttons on it. The
    screen is a value computed from the old container, the auth response and the
    page; the page methods apply it in place, step by step as the script does. */
module Fallback {
  import opened Common
  import opened Dom
  import Status
  import JsNumber
  import opened Extraction
  import Redirect

  const WaitingStatus := "Please copy this code to the app"
  const ManualHeader := "Manual Authentication"
  const CodeInstructions := "Please return to RateMe app and enter this authorization code manually:"
  const TokenInstructions := "Please return to RateMe app and enter this access token manually:"
  const CodeNote := "Note: This code will expire in 10 minutes. Complete authentication in the app promptly."
  const ErrorInstructions := "Authentication error. Please try again in the app."
  const UnknownError := "Unknown error"
  const ReturnLabel := "Return to RateMe App"
  const ToggleLabel := "Show debug info"
  const CopiedLabel := "Copied!"

  // ---------------------------------------------------------------------------
  // Document order

  /** Every element of `nodes` and of their subtrees, in document order. */
  function Preorder(nodes: seq<Element>): seq<Element>
    decreases nodes
  {
    if nodes == [] then [] else [nodes[0]] + Preorder(nodes[0].children) + Preorder(nodes[1..])
  }

  /** The first element of a flat list with the given tag. */
  function FirstTagged(list: seq<Element>, tag: string): (r: Option<Element>)
    ensures r.None? <==> forall i :: 0 <= i < |list| ==> list[i].tag != tag
    ensures r.Some? ==> exists i :: 0 <= i < |list| && list[i] == r.value && r.value.tag == tag &&
                                    forall j :: 0 <= j < i ==> list[j].tag != tag
  {
    if list == [] then None
    else if list[0].tag == tag then Some(list[0])
    else
      var r := FirstTagged(list[1..], tag);
      if r.Some? then
        var i :| 0 <= i < |list[1..]| && list[1..][i] == r.value && r.value.tag == tag &&
                 forall j :: 0 <= j < i ==> list[1..][j].tag != tag;
        assert list[i + 1] == r.value;
        r
      else r
  }

  /** `container.querySelector('h1')`: a depth-first search for the first `h1`. */
  function FirstH1(nodes: seq<Element>): (r: Option<Element>)
    ensures r.Some? ==> r.value.tag == "h1"
    decreases nodes
  {
    if nodes == [] then None
    else if nodes[0].tag == "h1" then Some(nodes[0])
    else match FirstH1(nodes[0].children)
         case Some(h) => Some(h)
         case None => FirstH1(nodes[1..])
  }

  lemma {:induction false} PreorderAppend(a: seq<Element>, b: seq<Element>)
    ensures Preorder(a + b) == Preorder(a) + Preorder(b)
    decreases a
  {
    if a != [] {
      assert (a + b)[1..] == a[1..] + b;
      PreorderAppend(a[1..], b);
    } else {
      assert a + b == b;
    }
  }

  lemma {:induction false} FirstTaggedAppend(a: seq<Element>, b: seq<Element>, tag: string)
    ensures FirstTagged(a + b, tag) == if FirstTagged(a, tag).Some? then FirstTagged(a, tag)
                                       else FirstTagged(b, tag)
    decreases a
  {
    if a != [] {
      assert (a + b)[1..] == a[1..] + b;
      FirstTaggedAppend(a[1..], b, tag);
    } else {
      assert a + b == b;
    }
  }

  /** The recursive search finds exactly the first `h1` in document order. */
  lemma {:induction false} FirstH1IsFirstInDocumentOrder(nodes: seq<Element>)
    ensures FirstH1(nodes) == FirstTagged(Preorder(nodes), "h1")
    decreases nodes
  {
    if nodes != [] {
      var n := nodes[0];
      FirstH1IsFirstInDocumentOrder(n.children);
      FirstH1IsFirstInDocumentOrder(nodes[1..]);
      assert Preorder(nodes) == [n] + (Preorder(n.children) + Preorder(nodes[1..]));
      FirstTaggedAppend([n], Preorder(n.children) + Preorder(nodes[1..]), "h1");
      FirstTaggedAppend(Preorder(n.children), Preorder(nodes[1..]), "h1");
    }
  }

  lemma {:induction false} FirstH1Append(a: seq<Element>, b: seq<Element>)
    ensures FirstH1(a + b) == if FirstH1(a).Some? then FirstH1(a) else FirstH1(b)
  {
    FirstH1IsFirstInDocumentOrder(a + b);
    FirstH1IsFirstInDocumentOrder(a);
    FirstH1IsFirstInDocumentOrder(b);
    PreorderAppend(a, b);
    FirstTaggedAppend(Preorder(a), Preorder(b), "h1");
  }

  /** A subtree of an element found in document order is itself in document order. */
  lemma {:induction false} SubtreeInPreorder(nodes: seq<Element>, x: Element)
    requires x in Preorder(nodes)
    ensures forall e :: e in Preorder(x.children) ==> e in Preorder(nodes)
    decreases nodes
  {
    var n := nodes[0];
    if x != n {
      if x in Preorder(n.children) {
        SubtreeInPreorder(n.children, x);
      } else {
        SubtreeInPreorder(nodes[1..], x);
      }
    }
  }

  // ---------------------------------------------------------------------------
  // The manual screen

  function Plain(tag: string, classes: seq<string>, text: string): Element
  {
    Element(tag, classes, text, "", Inert, [])
  }

  /** What a copy button copies: the code or the access token. */
  function Secret(r: AuthResponse): string
    requires !r.Error?
  {
    if r.Code? then r.code else r.accessToken
  }

  /** The label a copy button is created with. */
  function CopyLabel(r: AuthResponse): string
    requires !r.Error?
  {
    if r.Code? then "Copy Code" else "Copy Token"
  }

  /** The text of the token screen's expiry note. */
  function TokenExpiryNote(expiresIn: string, expiryTime: int, host: Host): string
  {
    "Token expires in approximately " + JsNumber.HoursText(expiresIn) + " hours (" +
    host.locale(expiryTime) + ")"
  }

  /** The instructions, display and (for a code or token) copy button and note. */
  function Body(r: AuthResponse, id: nat, host: Host): seq<Element>
  {
    match r
    case Code(code, _) =>
      [Plain("p", [], CodeInstructions),
       Plain("div", ["token-display"], code),
       Element("button", ["copy-button"], "Copy Code", "", CopyButton(id, code), []),
       Plain("p", ["expiry-info"], CodeNote)]
    case Token(token, expiresIn, _, expiryTime) =>
      [Plain("p", [], TokenInstructions),
       Plain("div", ["token-display"], token),
       Element("button", ["copy-button"], "Copy Token", "", CopyButton(id, token), []),
       Plain("p", ["expiry-info"], TokenExpiryNote(expiresIn, expiryTime, host))]
    case Error(error) =>
      [Element("p", [], ErrorInstructions, "red", Inert, []),
       Plain("div", ["error-display"], if error == "" then UnknownError else error)]
  }

  /** The page's own debug element, as moved into the container. */
  const DebugElement := Element("div", [], "", "", DebugOutput, [])

  /** The return button, the debug toggle, and the debug element when it exists. */
  function Footer(withDebug: bool): seq<Element>
  {
    [Element("div", ["return-buttons"], "", "", Inert,
             [Element("button", ["return-button"], ReturnLabel, "", ReturnToApp(Redirect.AppCallback), [])]),
     Element("div", ["debug-toggle"], ToggleLabel, "", DebugToggle, [])] +
    (if withDebug then [DebugElement] else [])
  }

  /** What survives of the old content: its first `h1`, if any. */
  function Kept(container: seq<Element>): seq<Element>
  {
    match FirstH1(container)
    case Some(h) => [h]
    case None => []
  }

  /** The new content of the container; `id` is the index the copy button's label gets. */
  function ManualScreen(container: seq<Element>, r: AuthResponse, id: nat, host: Host,
                        withDebug: bool): seq<Element>
  {
    Kept(container) + [Plain("h2", [], ManualHeader)] + Body(r, id, host) + Footer(withDebug)
  }

  /** The label list a copy button adds to. */
  function NewLabels(r: AuthResponse): seq<string>
  {
    if r.Error? then [] else [CopyLabel(r)]
  }

  /** The page after `showManualInstructions(r)`; the spinner is assumed present. */
  function Present(v: PageView, r: AuthResponse, host: Host): PageView
  {
    var v1 := Status.WithStatus(v, WaitingStatus).(spinnerHidden := true);
    if v.hasContainer then
      v1.(container := ManualScreen(v.container, r, |v.copyLabels|, host, v.hasDebug),
          copyLabels := v.copyLabels + NewLabels(r))
    else v1
  }

  // ---------------------------------------------------------------------------
  // Properties of the screen

  /** The old content survives only as its first `h1`, which came from it. */
  lemma KeptIsFirstHeading(container: seq<Element>)
    ensures |Kept(container)| <= 1
    ensures forall h :: h in Kept(container) ==>
      h.tag == "h1" && h in Preorder(container) &&
      FirstTagged(Preorder(container), "h1") == Some(h)
    ensures Kept(container) == [] <==> forall e :: e in Preorder(container) ==> e.tag != "h1"
  {
    FirstH1IsFirstInDocumentOrder(container);
    var p := Preorder(container);
    if Kept(container) != [] {
      var h := Kept(container)[0];
      var i :| 0 <= i < |p| && p[i] == h && h.tag == "h1";
      assert h in p;
    } else {
      forall e | e in p ensures e.tag != "h1" {
        var i :| 0 <= i < |p| && p[i] == e;
      }
    }
  }

  /** No `h1` at the top and none below: none at all. */
  lemma {:induction false} FirstH1Absent(nodes: seq<Element>)
    requires forall i :: 0 <= i < |nodes| ==> nodes[i].tag != "h1" && FirstH1(nodes[i].children) == None
    ensures FirstH1(nodes) == None
    decreases nodes
  {
    if nodes != [] {
      FirstH1Absent(nodes[1..]);
    }
  }

  lemma BodyHasNoHeading(r: AuthResponse, id: nat, host: Host)
    ensures FirstH1(Body(r, id, host)) == None
  {
    FirstH1Absent(Body(r, id, host));
  }

  lemma FooterHasNoHeading(withDebug: bool)
    ensures FirstH1(Footer(withDebug)) == None
  {
    var f := Footer(withDebug);
    FirstH1Absent(f[0].children);
    FirstH1Absent(f);
  }

  lemma NewContentHasNoHeading(r: AuthResponse, id: nat, host: Host, withDebug: bool)
    ensures FirstH1([Plain("h2", [], ManualHeader)] + Body(r, id, host) + Footer(withDebug)) == None
  {
    var h := [Plain("h2", [], ManualHeader)];
    FirstH1Absent(h);
    BodyHasNoHeading(r, id, host);
    FooterHasNoHeading(withDebug);
    FirstH1Append(h, Body(r, id, host));
    FirstH1Append(h + Body(r, id, host), Footer(withDebug));
  }

  /** Showing the manual screen again, for any response, gives the screen a single
      call would: the heading is kept once, and nothing of the first screen stays. */
  lemma RenderAgain(container: seq<Element>, r1: AuthResponse, id1: nat, r2: AuthResponse, id2: nat,
                    host: Host, withDebug: bool)
    ensures ManualScreen(ManualScreen(container, r1, id1, host, withDebug), r2, id2, host, withDebug)
         == ManualScreen(container, r2, id2, host, withDebug)
  {
    var rest := [Plain("h2", [], ManualHeader)] + Body(r1, id1, host) + Footer(withDebug);
    NewContentHasNoHeading(r1, id1, host, withDebug);
    var k := Kept(container);
    ScreenLayout(container, r1, id1, host, withDebug);
    FirstH1Append(k, rest);
    if FirstH1(container).Some? {
      assert FirstH1(k) == FirstH1(container) by {
        assert k[1..] == [];
      }
    }
  }

  lemma ScreenLayout(container: seq<Element>, r: AuthResponse, id: nat, host: Host, withDebug: bool)
    ensures ManualScreen(container, r, id, host, withDebug) ==
            Kept(container) + ([Plain("h2", [], ManualHeader)] + Body(r, id, host) + Footer(withDebug))
  {
    Associative(Kept(container), [Plain("h2", [], ManualHeader)], Body(r, id, host), Footer(withDebug));
  }

  lemma Associative(a: seq<Element>, b: seq<Element>, c: seq<Element>, d: seq<Element>)
    ensures a + b + c + d == a + (b + c + d)
  {
  }

  lemma MiddleIndex(h: seq<Element>, b: seq<Element>, f: seq<Element>, i: nat)
    requires i < |b|
    ensures |h + b + f| > |h| + i && (h + b + f)[|h| + i] == b[i]
  {
  }

  /** The copy part of a code or token body. */
  lemma BodyCopy(r: AuthResponse, id: nat, host: Host)
    requires !r.Error?
    ensures var b := Body(r, id, host);
      |b| == 4 && "token-display" in b[1].classes && b[1].text == Secret(r) &&
      b[2].control == CopyButton(id, Secret(r)) && b[2].text == CopyLabel(r) &&
      forall e :: e in b && e.control.CopyButton? ==> e == b[2]
  {
  }

  /** The return button inside its container. */
  const ReturnButton := Element("button", ["return-button"], ReturnLabel, "", ReturnToApp(Redirect.AppCallback), [])

  /** A code or token screen shows the secret, and its only copy button copies
      exactly that text under the label matching the response type. */
  lemma CopyButtonCopiesDisplayedSecret(r: AuthResponse, id: nat, host: Host, withDebug: bool)
    requires !r.Error?
    ensures var s := ManualScreen([], r, id, host, withDebug);
      (exists i :: 0 <= i < |s| && "token-display" in s[i].classes && s[i].text == Secret(r)) &&
      (exists i :: 0 <= i < |s| && s[i].control == CopyButton(id, Secret(r)) && s[i].text == CopyLabel(r)) &&
      forall e :: e in Preorder(s) && e.control.CopyButton? ==>
        e.control == CopyButton(id, Secret(r)) && e.text == CopyLabel(r)
  {
    var s := ManualScreen([], r, id, host, withDebug);
    var h := [Plain("h2", [], ManualHeader)];
    var body := Body(r, id, host);
    FreshScreen(r, id, host, withDebug);
    ScreenPreorder(r, id, host, withDebug);
    BodyCopy(r, id, host);
    MiddleIndex(h, body, Footer(withDebug), 1);
    MiddleIndex(h, body, Footer(withDebug), 2);
    forall e | e in Preorder(s) && e.control.CopyButton?
      ensures e.control == CopyButton(id, Secret(r)) && e.text == CopyLabel(r)
    {
      if e in FooterOrder(withDebug) {
        FooterHasNoCopy(withDebug, e);
      }
      assert e in body;
    }
  }

  lemma FooterHasNoCopy(withDebug: bool, e: Element)
    requires e in FooterOrder(withDebug)
    ensures !e.control.CopyButton? && "expiry-info" !in e.classes
  {
  }

  /** An error screen offers no copy button and no expiry note, and shows the error or
      "Unknown error". */
  lemma ErrorScreenOffersNoCopy(error: string, id: nat, host: Host, withDebug: bool)
    ensures var s := ManualScreen([], Error(error), id, host, withDebug);
      (forall e :: e in Preorder(s) ==> !e.control.CopyButton? && "expiry-info" !in e.classes) &&
      (exists i :: 0 <= i < |s| && "error-display" in s[i].classes &&
                   s[i].text == (if error == "" then UnknownError else error))
  {
    var s := ManualScreen([], Error(error), id, host, withDebug);
    ScreenPreorder(Error(error), id, host, withDebug);
    assert "error-display" in s[2].classes;
    forall e | e in Preorder(s)
      ensures !e.control.CopyButton? && "expiry-info" !in e.classes
    {
      if e in FooterOrder(withDebug) {
        FooterHasNoCopy(withDebug, e);
      }
    }
  }

  /** The footer in document order. */
  function FooterOrder(withDebug: bool): seq<Element>
  {
    [Footer(withDebug)[0], ReturnButton, Footer(withDebug)[1]] + (if withDebug then [DebugElement] else [])
  }

  /** Document order of a fresh screen: the heading and body, then the footer with the
      return button after its container. */
  lemma ScreenPreorder(r: AuthResponse, id: nat, host: Host, withDebug: bool)
    ensures Preorder(ManualScreen([], r, id, host, withDebug)) ==
            [Plain("h2", [], ManualHeader)] + Body(r, id, host) + FooterOrder(withDebug)
  {
    var h := [Plain("h2", [], ManualHeader)];
    var b := Body(r, id, host);
    var f := Footer(withDebug);
    FreshScreen(r, id, host, withDebug);
    FlatPreorder(h);
    BodyPreorder(r, id, host);
    FooterPreorder(withDebug);
    PreorderThree(h, b, f);
  }

  lemma FreshScreen(r: AuthResponse, id: nat, host: Host, withDebug: bool)
    ensures ManualScreen([], r, id, host, withDebug) ==
            [Plain("h2", [], ManualHeader)] + Body(r, id, host) + Footer(withDebug)
  {
    assert Kept([]) == [];
  }

  lemma PreorderThree(a: seq<Element>, b: seq<Element>, c: seq<Element>)
    ensures Preorder(a + b + c) == Preorder(a) + Preorder(b) + Preorder(c)
  {
    PreorderAppend(a, b);
    PreorderAppend(a + b, c);
  }

  lemma BodyPreorder(r: AuthResponse, id: nat, host: Host)
    ensures Preorder(Body(r, id, host)) == Body(r, id, host)
  {
    FlatPreorder(Body(r, id, host));
  }

  lemma FooterPreorder(withDebug: bool)
    ensures Preorder(Footer(withDebug)) == FooterOrder(withDebug)
  {
    var f := Footer(withDebug);
    FlatPreorder(f[1..]);
    FlatPreorder(f[0].children);
    assert Preorder(f) == [f[0]] + Preorder(f[0].children) + Preorder(f[1..]);
  }

  /** Document order of elements without children is the list itself. */
  lemma {:induction false} FlatPreorder(nodes: seq<Element>)
    requires forall i :: 0 <= i < |nodes| ==> nodes[i].children == []
    ensures Preorder(nodes) == nodes
    decreases nodes
  {
    if nodes != [] {
      FlatPreorder(nodes[1..]);
      assert Preorder(nodes[0].children) == [];
    }
  }

  /** Every screen ends with a way back to the app and the debug toggle, then the
      debug element exactly when the page has one. */
  lemma ScreenFooter(container: seq<Element>, r: AuthResponse, id: nat, host: Host, withDebug: bool)
    ensures var s := ManualScreen(container, r, id, host, withDebug);
      |s| >= 4 &&
      (withDebug <==> s[|s| - 1] == DebugElement) &&
      (exists i, j :: 0 <= i < |s| && 0 <= j < |s[i].children| &&
                   s[i].children[j].control == ReturnToApp(Redirect.AppCallback)) &&
      (exists i :: 0 <= i < |s| && s[i].control == DebugToggle)
  {
    var s := ManualScreen(container, r, id, host, withDebug);
    var n := |Footer(withDebug)|;
    assert s[|s| - n] == Footer(withDebug)[0];
    assert s[|s| - n + 1] == Footer(withDebug)[1];
    assert s[|s| - n].children[0].control == ReturnToApp(Redirect.AppCallback);
  }

  /** For a whole number of seconds the token note shows the nearest whole hour. */
  lemma TokenNoteHours(token: string, n: nat, state: Option<string>, expiryTime: int, id: nat,
                       host: Host, withDebug: bool)
    ensures var s := ManualScreen([], Token(token, NatToString(n), state, expiryTime), id, host, withDebug);
      exists i :: 0 <= i < |s| && "expiry-info" in s[i].classes &&
        s[i].text == "Token expires in approximately " + NatToString((2 * n + 3600) / 7200) +
                     " hours (" + host.locale(expiryTime) + ")"
  {
    var r := Token(token, NatToString(n), state, expiryTime);
    var body := Body(r, id, host);
    FreshScreen(r, id, host, withDebug);
    MiddleIndex([Plain("h2", [], ManualHeader)], body, Footer(withDebug), 3);
    JsNumber.HoursTextOfSeconds(n);
    assert "expiry-info" in body[3].classes;
  }

  // ---------------------------------------------------------------------------
  // Copying

  /** What `document.execCommand('copy')` did on the legacy path. */
  datatype LegacyCopy = Copied | NotCopied | Threw(message: string)

  /** What the click's call of `navigator.clipboard.writeText` came to: the promise
      resolved, the promise was rejected (and the legacy path then did `legacy`), or
      `navigator.clipboard` is undefined, so the call throws before either path is
      attached (`legacy` is what the legacy path would have done). */
  datatype ClipboardWrite =
    | Written
    | Rejected(reason: string, legacy: LegacyCopy)
    | Unavailable(legacy: LegacyCopy)

  /** Whether the button ends up saying "Copied!". */
  predicate Acknowledges(w: ClipboardWrite)
  {
    w.Written? || (w.Rejected? && !w.legacy.Threw?)
  }

  /** The button says "Copied!" and a revert is scheduled for it. */
  function Acknowledged(v: PageView, id: nat): PageView
    requires id < |v.copyLabels|
  {
    v.(copyLabels := v.copyLabels[id := CopiedLabel], reverts := v.reverts + [id])
  }

  /** The `catch` handler's textarea path; the result of `execCommand` is ignored. */
  function LegacyPath(v: PageView, id: nat, text: string, legacy: LegacyCopy): PageView
    requires id < |v.copyLabels|
  {
    match legacy
    case Copied => Acknowledged(v.(clipboard := Some(text)), id)
    case NotCopied => Acknowledged(v, id)
    case Threw(message) => Status.WithLog(v, "Fallback copy method failed: " + message)
  }

  /** The page after `copyToClipboard(text, button)` has settled; `id` is the button's
      label. Without `navigator.clipboard` the click handler throws and nothing changes. */
  function Copy(v: PageView, id: nat, text: string, w: ClipboardWrite): PageView
    requires id < |v.copyLabels|
  {
    match w
    case Written => Acknowledged(v.(clipboard := Some(text)), id)
    case Rejected(reason, legacy) => LegacyPath(Status.WithLog(v, "Failed to copy: " + reason), id, text, legacy)
    case Unavailable(_) => v
  }

  /** The evidently intended copy: a browser without the clipboard API goes to the
      textarea fallback its comment announces. */
  function IntendedCopy(v: PageView, id: nat, text: string, w: ClipboardWrite): PageView
    requires id < |v.copyLabels|
  {
    match w
    case Unavailable(legacy) => LegacyPath(v, id, text, legacy)
    case _ => Copy(v, id, text, w)
  }

  /** The label a revert timer sets, from the label the button shows when it fires. */
  function RevertedLabel(shown: string): string
  {
    if Includes(shown, "Code") then "Copy Code" else "Copy Token"
  }

  /** The oldest pending revert timer fires (all are 2000 ms long, so they fire in order). */
  function Revert(v: PageView): PageView
    requires v.reverts != [] && v.reverts[0] < |v.copyLabels|
  {
    var id := v.reverts[0];
    v.(copyLabels := v.copyLabels[id := RevertedLabel(v.copyLabels[id])], reverts := v.reverts[1..])
  }

  /** Every copy button on the screen and every pending revert names an existing label. */
  predicate Consistent(v: PageView)
  {
    (forall e :: e in Preorder(v.container) && e.control.CopyButton? ==> e.control.id < |v.copyLabels|) &&
    (forall k :: 0 <= k < |v.reverts| ==> v.reverts[k] < |v.copyLabels|)
  }

  lemma CopiedMentionsNoCode()
    ensures !Includes(CopiedLabel, "Code")
  {
    var s0 := CopiedLabel;
    var s1 := s0[1..];
    var s2 := s1[1..];
    var s3 := s2[1..];
    assert |s3[1..]| < 4;
    assert s3[..4][0] == 'i';
    assert !Includes(s3, "Code");
    assert s2[..4][0] == 'p';
    assert !Includes(s2, "Code");
    assert s1[..4][0] == 'o';
    assert !Includes(s1, "Code");
    assert s0[..4][2] == 'p';
  }

  /** The copy is acknowledged unless `writeText` threw, or it was rejected and
      `execCommand` threw; the clipboard holds the text exactly when one of the two
      wrote it; the console grows exactly when the promise was rejected. */
  lemma CopyOutcome(v: PageView, id: nat, text: string, w: ClipboardWrite)
    requires id < |v.copyLabels|
    ensures var v' := Copy(v, id, text, w);
      |v'.copyLabels| == |v.copyLabels| && v'.container == v.container &&
      (Acknowledges(w) ==> v'.copyLabels == v.copyLabels[id := CopiedLabel] && v'.reverts == v.reverts + [id]) &&
      (!Acknowledges(w) ==> v'.copyLabels == v.copyLabels && v'.reverts == v.reverts) &&
      (v'.clipboard == if w.Written? || (w.Rejected? && w.legacy.Copied?) then Some(text) else v.clipboard) &&
      (w.Rejected? <==> v'.console != v.console)
  {
    match w {
      case Written =>
      case Unavailable(_) =>
      case Rejected(reason, legacy) =>
        var v1 := Status.WithLog(v, "Failed to copy: " + reason);
        assert |v1.console| == |v.console| + 1;
        match legacy {
          case Copied =>
          case NotCopied =>
          case Threw(message) =>
            assert |Status.WithLog(v1, "Fallback copy method failed: " + message).console| == |v.console| + 2;
        }
    }
  }

  /** Without the clipboard API a click copies nothing, even where the textarea
      fallback would have worked. */
  lemma UnavailableCopiesNothing(v: PageView, id: nat, text: string)
    requires id < |v.copyLabels| && v.clipboard != Some(text)
    ensures Copy(v, id, text, Unavailable(Copied)).clipboard != Some(text)
    ensures Copy(v, id, text, Unavailable(Copied)).copyLabels == v.copyLabels
  {
  }

  /** In the intended copy, a browser without the clipboard API is served by the
      textarea fallback: the text is copied when `execCommand` copies, the button is
      acknowledged unless it throws, and nothing about a rejection is logged; every
      other outcome is the one the script produces. */
  lemma IntendedFallbackRuns(v: PageView, id: nat, text: string, w: ClipboardWrite)
    requires id < |v.copyLabels|
    ensures var v' := IntendedCopy(v, id, text, w);
      (!w.Unavailable? ==> v' == Copy(v, id, text, w)) &&
      (w.Unavailable? ==>
        && v'.container == v.container
        && v'.clipboard == (if w.legacy.Copied? then Some(text) else v.clipboard)
        && (!w.legacy.Threw? ==> v'.copyLabels == v.copyLabels[id := CopiedLabel] && v'.reverts == v.reverts + [id])
        && (w.legacy.Threw? ==> v'.copyLabels == v.copyLabels && v'.console == v.console + ["Fallback copy method failed: " + w.legacy.message]))
  {
  }

  /** The label reverts to "Copy Token" whenever it still says "Copied!" when the timer
      fires, so a code button comes back labelled "Copy Token". */
  lemma RevertAfterCopyShowsCopyToken(v: PageView, id: nat, text: string, w: ClipboardWrite)
    requires id < |v.copyLabels| && v.reverts == []
    requires Acknowledges(w)
    ensures Revert(Copy(v, id, text, w)).copyLabels == v.copyLabels[id := "Copy Token"]
    ensures Revert(Copy(v, id, text, w)).reverts == []
  {
    var v1 := Copy(v, id, text, w);
    CopyOutcome(v, id, text, w);
    assert v1.reverts == [id];
    assert v1.copyLabels[id] == CopiedLabel;
    CopiedMentionsNoCode();
    assert RevertedLabel(v1.copyLabels[id]) == "Copy Token";
    assert v1.copyLabels[id := "Copy Token"] == v.copyLabels[id := "Copy Token"];
  }

  lemma CopyKeepsConsistent(v: PageView, id: nat, text: string, w: ClipboardWrite)
    requires Consistent(v) && id < |v.copyLabels|
    ensures Consistent(Copy(v, id, text, w))
  {
    var v' := Copy(v, id, text, w);
    CopyOutcome(v, id, text, w);
    assert v'.reverts == v.reverts || v'.reverts == v.reverts + [id];
  }

  /** The textarea path keeps the screen and the number of labels, and schedules at
      most one revert, for button `id`. */
  lemma LegacyPathShape(v: PageView, id: nat, text: string, legacy: LegacyCopy)
    requires id < |v.copyLabels|
    ensures var v' := LegacyPath(v, id, text, legacy);
      v'.container == v.container && |v'.copyLabels| == |v.copyLabels| &&
      (v'.reverts == v.reverts || v'.reverts == v.reverts + [id])
  {
  }

  lemma IntendedCopyKeepsConsistent(v: PageView, id: nat, text: string, w: ClipboardWrite)
    requires Consistent(v) && id < |v.copyLabels|
    ensures Consistent(IntendedCopy(v, id, text, w))
  {
    if w.Unavailable? {
      LegacyPathShape(v, id, text, w.legacy);
    } else {
      CopyKeepsConsistent(v, id, text, w);
    }
  }

  lemma RevertKeepsConsistent(v: PageView)
    requires Consistent(v) && v.reverts != []
    ensures Consistent(Revert(v))
  {
  }

  /** What survives of the old content was already in it. */
  lemma KeptComesFromContainer(c: seq<Element>)
    ensures forall e :: e in Preorder(Kept(c)) ==> e in Preorder(c)
  {
    if Kept(c) != [] {
      KeptIsFirstHeading(c);
      var h := Kept(c)[0];
      assert Preorder(Kept(c)) == [h] + Preorder(h.children) by {
        assert Kept(c)[1..] == [];
      }
      SubtreeInPreorder(c, h);
    }
  }

  /** The only copy button a fresh screen holds has index `id`. */
  lemma ScreenButtonsIndexed(r: AuthResponse, id: nat, host: Host, withDebug: bool)
    ensures forall e :: e in Preorder(ManualScreen([], r, id, host, withDebug)) && e.control.CopyButton? ==>
      !r.Error? && e.control.id == id
  {
    if r.Error? {
      ErrorScreenOffersNoCopy(r.error, id, host, withDebug);
    } else {
      CopyButtonCopiesDisplayedSecret(r, id, host, withDebug);
    }
  }

  /** Every copy button of `c` names one of `n` labels. */
  predicate ButtonsBelow(c: seq<Element>, n: nat)
  {
    forall e :: e in Preorder(c) && e.control.CopyButton? ==> e.control.id < n
  }

  lemma ButtonsBelowAppend(a: seq<Element>, b: seq<Element>, n: nat)
    requires ButtonsBelow(a, n) && ButtonsBelow(b, n)
    ensures ButtonsBelow(a + b, n)
  {
    PreorderAppend(a, b);
  }

  /** Redrawing keeps the old buttons' indices valid and adds at most the button `id`. */
  lemma ScreenKeepsButtonsBelow(c: seq<Element>, r: AuthResponse, id: nat, host: Host, withDebug: bool)
    requires ButtonsBelow(c, id)
    ensures ButtonsBelow(ManualScreen(c, r, id, host, withDebug), id + |NewLabels(r)|)
  {
    var n := id + |NewLabels(r)|;
    KeptComesFromContainer(c);
    assert ButtonsBelow(Kept(c), n);
    ScreenButtonsIndexed(r, id, host, withDebug);
    assert ButtonsBelow(ManualScreen([], r, id, host, withDebug), n);
    FreshScreen(r, id, host, withDebug);
    ScreenLayout(c, r, id, host, withDebug);
    ButtonsBelowAppend(Kept(c), ManualScreen([], r, id, host, withDebug), n);
  }

  /** Showing the screen keeps every button's label index valid, and the new copy
      button's label is the last one. */
  lemma PresentKeepsConsistent(v: PageView, r: AuthResponse, host: Host)
    requires Consistent(v)
    ensures Consistent(Present(v, r, host))
    ensures v.hasContainer && !r.Error? ==>
      Present(v, r, host).copyLabels == v.copyLabels + [CopyLabel(r)]
  {
    if v.hasContainer {
      assert ButtonsBelow(v.container, |v.copyLabels|);
      ScreenKeepsButtonsBelow(v.container, r, |v.copyLabels|, host, v.hasDebug);
    }
  }

  // ---------------------------------------------------------------------------
  // The page methods

  /** `showManualInstructions(authResponse)`. */
  method ShowManualInstructions(page: Page, r: AuthResponse, host: Host)
    modifies page
    ensures page.View() == Present(old(page.View()), r, host)
  {
    Status.UpdateStatus(page, WaitingStatus);
    page.spinnerHidden := true;
    if page.hasContainer {
      var content := BuildScreen(page.container, r, |page.copyLabels|, host, page.hasDebug);
      page.container := content;
      page.copyLabels := page.copyLabels + NewLabels(r);
    }
  }

  /** The template `showManualInstructions` writes into the container, after the
      first `h1` it keeps. */
  method BuildScreen(container: seq<Element>, r: AuthResponse, id: nat, host: Host, withDebug: bool)
    returns (content: seq<Element>)
    ensures content == ManualScreen(container, r, id, host, withDebug)
  {
    var heading := FirstH1(container);
    content := [];
    if heading.Some? {
      content := content + [heading.value];
    }
    assert content == Kept(container);
    content := content + [Plain("h2", [], ManualHeader)];
    content := content + Body(r, id, host);
    content := content + Footer(withDebug);
  }

  /** A click on copy button `id`, carrying the text it copies, once its promise settled. */
  method CopyToClipboard(page: Page, id: nat, text: string, w: ClipboardWrite)
    requires id < |page.copyLabels|
    modifies page
    ensures page.View() == Copy(old(page.View()), id, text, w)
  {
    match w {
      case Written =>
        page.clipboard := Some(text);
        page.copyLabels := page.copyLabels[id := CopiedLabel];
        page.reverts := page.reverts + [id];
      case Rejected(reason, legacy) =>
        Status.LogDebug(page, "Failed to copy: " + reason);
        CopyByTextarea(page, id, text, legacy);
      case Unavailable(_) =>
    }
  }

  /** The textarea fallback of the `catch` handler. */
  method CopyByTextarea(page: Page, id: nat, text: string, legacy: LegacyCopy)
    requires id < |page.copyLabels|
    modifies page
    ensures page.View() == LegacyPath(old(page.View()), id, text, legacy)
  {
    match legacy {
      case Copied =>
        page.clipboard := Some(text);
        page.copyLabels := page.copyLabels[id := CopiedLabel];
        page.reverts := page.reverts + [id];
      case NotCopied =>
        page.copyLabels := page.copyLabels[id := CopiedLabel];
        page.reverts := page.reverts + [id];
      case Threw(message) =>
        Status.LogDebug(page, "Fallback copy method failed: " + message);
    }
  }

  /** The oldest pending revert timer of the copy buttons fires. */
  method RevertCopyLabel(page: Page)
    requires page.reverts != [] && page.reverts[0] < |page.copyLabels|
    modifies page
    ensures page.View() == Revert(old(page.View()))
  {
    var id := page.reverts[0];
    page.copyLabels := page.copyLabels[id := RevertedLabel(page.copyLabels[id])];
    page.reverts := page.reverts[1..];
  }
}
