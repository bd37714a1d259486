/** `redirectToApp` and its inner `tryNextScheme` of script.js: a cascade of app-scheme
    attempts driven by timers. Each attempt loads a candidate URI in a hidden iframe;
    the first also schedules a direct navigation 200 ms later; the next attempt follows
    800 ms later; after the three candidates comes the `xdg-open:` URI and, 1000 ms on,
    the manual screen if the page is still visible.

    Time is explicit: the cascade keeps a clock and its pending timers, and a timer
    fires when the model is told so, together with the page's visibility at that
    moment. What the browser does with a URI is recorded as an event on the outgoing
    trace, not modelled. Each step also says what it logs and whether it draws the
    manual screen; `Apply` turns that into the new page. */
module Sequencer {
  import opened Common
  import opened Dom
  import Status
  import opened Extraction
  import Redirect
  import Fallback

  const DirectDelay := 200
  const RetryDelay := 800
  const FallbackDelay := 1000
  const FallbackMessage := "All automatic redirect attempts failed. Showing manual instructions."

  /** What the cascade asks of the browser. */
  datatype Effect =
    | Probe(uri: string)     // a hidden iframe whose `src` is `uri`
    | Navigate(uri: string)  // `window.location.href = uri`
    | ShowManual             // the manual screen is drawn

  datatype Event = Event(at: nat, effect: Effect)

  /** The callback of a pending `setTimeout`. */
  datatype Task = NextScheme | DirectNavigation(uri: string) | FallbackCheck

  datatype Timer = Timer(due: nat, task: Task)

  /** The cascade: the index of the next candidate, the clock, the pending timers in
      firing order, and the events so far. */
  datatype Cascade = Cascade(index: nat, clock: nat, timers: seq<Timer>, events: seq<Event>)

  /** One step: the new cascade, the messages logged in order, and whether the manual
      screen is drawn (always after those messages). */
  datatype Step = Step(next: Cascade, log: seq<string>, manual: bool)

  /** The URIs `redirectToApp` computes once: `redirectSchemes` and `xdgRedirectUrl`. */
  datatype Targets = Targets(schemes: seq<string>, xdg: string)

  function TargetsOf(r: AuthResponse): (targets: Targets)
    ensures |targets.schemes| == 3
  {
    Targets(Redirect.RedirectSchemes(r), Redirect.XdgUri(r))
  }

  function Emit(c: Cascade, e: Effect): Cascade
  {
    c.(events := c.events + [Event(c.clock, e)])
  }

  function Schedule(c: Cascade, delay: nat, task: Task): Cascade
  {
    c.(timers := c.timers + [Timer(c.clock + delay, task)])
  }

  function ProbeMessage(i: nat, n: nat, uri: string): string
  {
    "Attempting redirect with scheme " + NatToString(i + 1) + "/" + NatToString(n) + ": " + uri
  }

  function XdgMessage(xdg: string): string
  {
    "Trying XDG-open method for Linux: " + xdg
  }

  /** One call of `tryNextScheme`. `xdgError` is what assigning the `xdg-open:` URI to
      `window.location.href` threw, if anything. */
  function TryNext(c: Cascade, targets: Targets, xdgError: Option<string>): Step
  {
    var schemes := targets.schemes;
    if c.index < |schemes| then
      var uri := schemes[c.index];
      var c1 := Emit(c, Probe(uri));
      var c2 := if c.index == 0 then Schedule(c1, DirectDelay, DirectNavigation(uri)) else c1;
      Step(Schedule(c2.(index := c.index + 1), RetryDelay, NextScheme),
           [ProbeMessage(c.index, |schemes|, uri)], false)
    else
      match xdgError
      case None =>
        Step(Schedule(Emit(c, Navigate(targets.xdg)), FallbackDelay, FallbackCheck),
             [XdgMessage(targets.xdg)], false)
      case Some(e) =>
        Step(Emit(c, ShowManual), [XdgMessage(targets.xdg), "Error with XDG redirect: " + e], true)
  }

  /** The earliest pending timer fires; `hidden` is `document.visibilityState === 'hidden'`. */
  function Fire(c: Cascade, targets: Targets, hidden: bool, xdgError: Option<string>): Step
    requires c.timers != []
  {
    var timer := c.timers[0];
    var c1 := c.(clock := timer.due, timers := c.timers[1..]);
    match timer.task
    case NextScheme => TryNext(c1, targets, xdgError)
    case DirectNavigation(uri) => Step(if hidden then c1 else Emit(c1, Navigate(uri)), [], false)
    case FallbackCheck =>
      if hidden then Step(c1, [], false) else Step(Emit(c1, ShowManual), [FallbackMessage], true)
  }

  /** `redirectToApp(r)` at time `now`, up to the return of its first `tryNextScheme`. */
  function Start(r: AuthResponse, now: nat, xdgError: Option<string>): Step
  {
    var first := TryNext(Cascade(0, now, [], []), TargetsOf(r), xdgError);
    Step(first.next, Redirect.RedirectLog(r) + first.log, first.manual)
  }

  /** The page after a step. */
  function Apply(v: PageView, step: Step, r: AuthResponse, host: Host): PageView
  {
    var v1 := Status.WithLogs(v, step.log);
    if step.manual then Fallback.Present(v1, r, host) else v1
  }

  /** Timers firing one after another, each with the visibility it sees, until none is left. */
  function Run(c: Cascade, targets: Targets, visibility: seq<bool>, xdgError: Option<string>): Cascade
    decreases |visibility|
  {
    if c.timers == [] || visibility == [] then c
    else Run(Fire(c, targets, visibility[0], xdgError).next, targets, visibility[1..], xdgError)
  }

  /** The probe events of a trace, in order. */
  function Probes(es: seq<Event>): seq<Event>
    decreases |es|
  {
    if es == [] then [] else (if es[0].effect.Probe? then [es[0]] else []) + Probes(es[1..])
  }

  lemma {:induction false} ProbesAppend(a: seq<Event>, b: seq<Event>)
    ensures Probes(a + b) == Probes(a) + Probes(b)
    decreases |a|
  {
    if a != [] {
      assert (a + b)[1..] == a[1..] + b;
      ProbesAppend(a[1..], b);
    } else {
      assert a + b == b;
    }
  }

  // ---------------------------------------------------------------------------
  // Properties

  /** The events the whole cascade produces: a probe per candidate 800 ms apart, the
      direct navigation to the first one unless the page was hidden at 200 ms, the
      `xdg-open:` navigation, and the manual screen once — right away if that
      navigation threw, otherwise 1000 ms later unless the page was hidden then. */
  function Expected(targets: Targets, now: nat, hiddenAtDirect: bool, hiddenAtFallback: bool,
                    xdgError: Option<string>): seq<Event>
    requires |targets.schemes| == 3
  {
    var schemes := targets.schemes;
    [Event(now, Probe(schemes[0]))] +
    (if hiddenAtDirect then [] else [Event(now + 200, Navigate(schemes[0]))]) +
    [Event(now + 800, Probe(schemes[1])), Event(now + 1600, Probe(schemes[2]))] +
    (if xdgError.Some? then [Event(now + 2400, ShowManual)]
     else [Event(now + 2400, Navigate(targets.xdg))] +
          (if hiddenAtFallback then [] else [Event(now + 3400, ShowManual)]))
  }

  /** A step draws the manual screen exactly when it records doing so, and it adds at
      most one effect. */
  lemma FireRecordsManual(c: Cascade, targets: Targets, hidden: bool, xdgError: Option<string>)
    requires c.timers != []
    ensures var step := Fire(c, targets, hidden, xdgError);
      var added := step.next.events[|c.events|..];
      step.next.events[..|c.events|] == c.events && |added| <= 1 &&
      (step.manual <==> added == [Event(c.timers[0].due, ShowManual)])
  {
    if c.timers[0].task == NextScheme {
      FireNext(c, targets, hidden, xdgError);
      TryNextRecordsManual(c.(clock := c.timers[0].due, timers := c.timers[1..]), targets, xdgError);
    }
  }

  lemma TryNextRecordsManual(c: Cascade, targets: Targets, xdgError: Option<string>)
    ensures var step := TryNext(c, targets, xdgError);
      var added := step.next.events[|c.events|..];
      step.next.events[..|c.events|] == c.events && |added| <= 1 &&
      (step.manual <==> added == [Event(c.clock, ShowManual)])
  {
    if c.index >= |targets.schemes| {
      XdgStep(c, targets, xdgError);
    }
  }

  /** `redirectToApp` first logs what it redirects and the candidates, then probes the
      first candidate and schedules the direct navigation to it and the next attempt. */
  lemma StartStep(r: AuthResponse, now: nat, xdgError: Option<string>)
    ensures var step := Start(r, now, xdgError);
      var schemes := TargetsOf(r).schemes;
      step.next == Cascade(1, now, [Timer(now + 200, DirectNavigation(schemes[0])), Timer(now + 800, NextScheme)],
                           [Event(now, Probe(schemes[0]))]) &&
      step.log == Redirect.RedirectLog(r) + [ProbeMessage(0, 3, schemes[0])] && !step.manual
  {
    FirstProbe(TargetsOf(r), now, xdgError);
  }

  /** The first `tryNextScheme`: probe the first candidate, schedule the direct
      navigation to it and the next attempt. */
  lemma FirstProbe(targets: Targets, now: nat, xdgError: Option<string>)
    requires |targets.schemes| == 3
    ensures var schemes := targets.schemes;
      TryNext(Cascade(0, now, [], []), targets, xdgError) ==
      Step(Cascade(1, now, [Timer(now + 200, DirectNavigation(schemes[0])), Timer(now + 800, NextScheme)],
                   [Event(now, Probe(schemes[0]))]),
           [ProbeMessage(0, 3, schemes[0])], false)
  {
  }

  lemma RunStep(c: Cascade, targets: Targets, visibility: seq<bool>, xdgError: Option<string>)
    requires c.timers != [] && visibility != []
    ensures Run(c, targets, visibility, xdgError) ==
            Run(Fire(c, targets, visibility[0], xdgError).next, targets, visibility[1..], xdgError)
  {
  }

  /** After the direct-navigation timer: the first retry is the only timer left. */
  lemma AfterDirect(c: Cascade, targets: Targets, hidden: bool, xdgError: Option<string>, now: nat)
    requires |targets.schemes| == 3
    requires c.index == 1 && c.timers == [Timer(now + 200, DirectNavigation(targets.schemes[0])), Timer(now + 800, NextScheme)]
    ensures var c' := Fire(c, targets, hidden, xdgError).next;
      c'.index == 1 && c'.clock == now + 200 && c'.timers == [Timer(now + 800, NextScheme)] &&
      c'.events == c.events + (if hidden then [] else [Event(now + 200, Navigate(targets.schemes[0]))])
  {
  }

  /** A retry timer for the second or third candidate: probe it, retry 800 ms on. */
  lemma Retry(c: Cascade, targets: Targets, hidden: bool, xdgError: Option<string>, at: nat)
    requires |targets.schemes| == 3
    requires 1 <= c.index < 3 && c.timers == [Timer(at, NextScheme)]
    ensures var c' := Fire(c, targets, hidden, xdgError).next;
      c'.index == c.index + 1 && c'.clock == at && c'.timers == [Timer(at + 800, NextScheme)] &&
      c'.events == c.events + [Event(at, Probe(targets.schemes[c.index]))]
  {
  }

  /** The retry after the last candidate: the `xdg-open:` URI. */
  lemma XdgAttempt(c: Cascade, targets: Targets, hidden: bool, xdgError: Option<string>, at: nat)
    requires |targets.schemes| == 3
    requires c.index == 3 && c.timers == [Timer(at, NextScheme)]
    ensures var c' := Fire(c, targets, hidden, xdgError).next;
      c'.clock == at &&
      (xdgError.None? ==> c'.timers == [Timer(at + 1000, FallbackCheck)] &&
                          c'.events == c.events + [Event(at, Navigate(targets.xdg))]) &&
      (xdgError.Some? ==> c'.timers == [] && c'.events == c.events + [Event(at, ShowManual)])
  {
    FireNext(c, targets, hidden, xdgError);
    XdgStep(c.(clock := c.timers[0].due, timers := c.timers[1..]), targets, xdgError);
    assert c.timers[1..] == [];
  }

  /** A retry timer calls `tryNextScheme` at its due time. */
  lemma FireNext(c: Cascade, targets: Targets, hidden: bool, xdgError: Option<string>)
    requires c.timers != [] && c.timers[0].task == NextScheme
    ensures Fire(c, targets, hidden, xdgError) ==
            TryNext(c.(clock := c.timers[0].due, timers := c.timers[1..]), targets, xdgError)
  {
  }

  /** `tryNextScheme` once the candidates are used up. */
  lemma XdgStep(c: Cascade, targets: Targets, xdgError: Option<string>)
    requires c.index >= |targets.schemes|
    ensures TryNext(c, targets, xdgError) ==
      match xdgError
      case None => Step(Schedule(Emit(c, Navigate(targets.xdg)), FallbackDelay, FallbackCheck), [XdgMessage(targets.xdg)], false)
      case Some(e) => Step(Emit(c, ShowManual), [XdgMessage(targets.xdg), "Error with XDG redirect: " + e], true)
  {
  }

  /** The fallback check. */
  lemma FallbackFires(c: Cascade, targets: Targets, hidden: bool, xdgError: Option<string>, at: nat)
    requires c.timers == [Timer(at, FallbackCheck)]
    ensures var c' := Fire(c, targets, hidden, xdgError).next;
      c'.timers == [] && c'.events == c.events + (if hidden then [] else [Event(at, ShowManual)])
  {
  }

  /** The two retries that probe the second and third candidates. */
  lemma {:induction false} TwoRetries(c1: Cascade, targets: Targets, now: nat,
                                      visibility: seq<bool>, xdgError: Option<string>)
    returns (c3: Cascade)
    requires |targets.schemes| == 3 && |visibility| >= 2
    requires c1.index == 1 && c1.timers == [Timer(now + 800, NextScheme)]
    ensures var schemes := targets.schemes;
      Run(c1, targets, visibility, xdgError) == Run(c3, targets, visibility[2..], xdgError) &&
      c3.index == 3 && c3.timers == [Timer(now + 2400, NextScheme)] &&
      c3.events == c1.events + [Event(now + 800, Probe(schemes[1])), Event(now + 1600, Probe(schemes[2]))]
  {
    var v1 := visibility[1..];
    assert v1[1..] == visibility[2..];
    var c2 := Fire(c1, targets, visibility[0], xdgError).next;
    Retry(c1, targets, visibility[0], xdgError, now + 800);
    RunStep(c1, targets, visibility, xdgError);
    c3 := Fire(c2, targets, v1[0], xdgError).next;
    Retry(c2, targets, v1[0], xdgError, now + 1600);
    RunStep(c2, targets, v1, xdgError);
  }

  /** The first three timers: the direct navigation and the retries that probe the
      second and third candidates. */
  lemma {:induction false} ThreeTimers(c0: Cascade, targets: Targets, now: nat,
                                       visibility: seq<bool>, xdgError: Option<string>)
    returns (c3: Cascade)
    requires |targets.schemes| == 3 && |visibility| >= 3
    requires c0.index == 1 && c0.timers == [Timer(now + 200, DirectNavigation(targets.schemes[0])), Timer(now + 800, NextScheme)]
    ensures var schemes := targets.schemes;
      Run(c0, targets, visibility, xdgError) == Run(c3, targets, visibility[3..], xdgError) &&
      c3.index == 3 && c3.timers == [Timer(now + 2400, NextScheme)] &&
      c3.events == c0.events + (if visibility[0] then [] else [Event(now + 200, Navigate(schemes[0]))]) +
                   [Event(now + 800, Probe(schemes[1])), Event(now + 1600, Probe(schemes[2]))]
  {
    var c1 := Fire(c0, targets, visibility[0], xdgError).next;
    AfterDirect(c0, targets, visibility[0], xdgError, now);
    RunStep(c0, targets, visibility, xdgError);
    c3 := TwoRetries(c1, targets, now, visibility[1..], xdgError);
    assert visibility[1..][2..] == visibility[3..];
  }

  /** The last timers: the `xdg-open:` attempt and the fallback check. */
  lemma {:induction false} LastTimers(c3: Cascade, targets: Targets, at: nat,
                                      visibility: seq<bool>, xdgError: Option<string>)
    requires |targets.schemes| == 3 && |visibility| >= 2
    requires c3.index == 3 && c3.timers == [Timer(at, NextScheme)]
    ensures var c := Run(c3, targets, visibility, xdgError);
      c.timers == [] &&
      c.events == c3.events +
        (if xdgError.Some? then [Event(at, ShowManual)]
         else [Event(at, Navigate(targets.xdg))] +
              (if visibility[1] then [] else [Event(at + 1000, ShowManual)]))
  {
    var c4 := Fire(c3, targets, visibility[0], xdgError).next;
    XdgAttempt(c3, targets, visibility[0], xdgError, at);
    RunStep(c3, targets, visibility, xdgError);
    var v4 := visibility[1..];
    if xdgError.None? {
      var c5 := Fire(c4, targets, v4[0], xdgError).next;
      FallbackFires(c4, targets, v4[0], xdgError, at + 1000);
      RunStep(c4, targets, v4, xdgError);
      assert Run(c5, targets, v4[1..], xdgError) == c5;
    } else {
      assert Run(c4, targets, v4, xdgError) == c4;
    }
  }

  /** The whole cascade, given the visibility at each of the (at most five) timers. */
  lemma Timeline(r: AuthResponse, now: nat, visibility: seq<bool>, xdgError: Option<string>)
    requires |visibility| >= 5
    ensures var c := Run(Start(r, now, xdgError).next, TargetsOf(r), visibility, xdgError);
      c.timers == [] && c.events == Expected(TargetsOf(r), now, visibility[0], visibility[4], xdgError)
  {
    StartStep(r, now, xdgError);
    CascadeTimeline(TargetsOf(r), Start(r, now, xdgError).next, now, visibility, xdgError);
  }

  lemma CascadeTimeline(targets: Targets, c0: Cascade, now: nat, visibility: seq<bool>, xdgError: Option<string>)
    requires |targets.schemes| == 3 && |visibility| >= 5
    requires c0 == Cascade(1, now, [Timer(now + 200, DirectNavigation(targets.schemes[0])), Timer(now + 800, NextScheme)],
                           [Event(now, Probe(targets.schemes[0]))])
    ensures var c := Run(c0, targets, visibility, xdgError);
      c.timers == [] && c.events == Expected(targets, now, visibility[0], visibility[4], xdgError)
  {
    var c3 := ThreeTimers(c0, targets, now, visibility, xdgError);
    LastTimers(c3, targets, now + 2400, visibility[3..], xdgError);
  }

  /** The indices of the events that draw the manual screen. */
  function ManualAt(es: seq<Event>): set<int>
  {
    set i | 0 <= i < |es| && es[i].effect == ShowManual
  }

  /** No event of `es` draws the manual screen. */
  predicate NoManual(es: seq<Event>)
  {
    forall i :: 0 <= i < |es| ==> es[i].effect != ShowManual
  }

  lemma ManualAtEnd(p: seq<Event>, m: Event)
    requires NoManual(p) && m.effect == ShowManual
    ensures ManualAt(p + [m]) == {|p|}
  {
    assert forall i :: 0 <= i < |p| ==> (p + [m])[i] == p[i];
  }

  lemma ManualNowhere(p: seq<Event>)
    requires NoManual(p)
    ensures ManualAt(p) == {}
  {
    assert forall i :: i !in ManualAt(p);
  }

  /** The manual screen is drawn exactly once when the `xdg-open:` navigation threw or
      the page was still visible at the fallback check, and never otherwise. */
  lemma ManualShownOnce(targets: Targets, now: nat, hiddenAtDirect: bool, hiddenAtFallback: bool,
                        xdgError: Option<string>)
    requires |targets.schemes| == 3
    ensures var es := Expected(targets, now, hiddenAtDirect, hiddenAtFallback, xdgError);
      (xdgError.Some? || !hiddenAtFallback ==> |ManualAt(es)| == 1 && es[|es| - 1].effect == ShowManual) &&
      (xdgError.None? && hiddenAtFallback ==> ManualAt(es) == {})
  {
    var schemes := targets.schemes;
    var p := [Event(now, Probe(schemes[0]))] +
             (if hiddenAtDirect then [] else [Event(now + 200, Navigate(schemes[0]))]) +
             [Event(now + 800, Probe(schemes[1])), Event(now + 1600, Probe(schemes[2]))];
    assert NoManual(p);
    var es := Expected(targets, now, hiddenAtDirect, hiddenAtFallback, xdgError);
    if xdgError.Some? {
      assert es == p + [Event(now + 2400, ShowManual)];
      ManualAtEnd(p, Event(now + 2400, ShowManual));
    } else {
      var q := p + [Event(now + 2400, Navigate(targets.xdg))];
      assert NoManual(q);
      if hiddenAtFallback {
        assert es == q;
        ManualNowhere(q);
      } else {
        assert es == q + [Event(now + 3400, ShowManual)];
        ManualAtEnd(q, Event(now + 3400, ShowManual));
      }
    }
  }

  /** The probes are the three candidates in order, each 800 ms after the previous. */
  lemma ProbesInOrder(targets: Targets, now: nat, hiddenAtDirect: bool, hiddenAtFallback: bool,
                      xdgError: Option<string>)
    requires |targets.schemes| == 3
    ensures Probes(Expected(targets, now, hiddenAtDirect, hiddenAtFallback, xdgError)) ==
      [Event(now, Probe(targets.schemes[0])), Event(now + 800, Probe(targets.schemes[1])),
       Event(now + 1600, Probe(targets.schemes[2]))]
  {
    var schemes := targets.schemes;
    var a := [Event(now, Probe(schemes[0]))];
    var d := if hiddenAtDirect then [] else [Event(now + 200, Navigate(schemes[0]))];
    var b := [Event(now + 800, Probe(schemes[1])), Event(now + 1600, Probe(schemes[2]))];
    var c := if xdgError.Some? then [Event(now + 2400, ShowManual)]
             else [Event(now + 2400, Navigate(targets.xdg))] +
                  (if hiddenAtFallback then [] else [Event(now + 3400, ShowManual)]);
    assert Expected(targets, now, hiddenAtDirect, hiddenAtFallback, xdgError) == a + d + b + c;
    ProbesAppend(a + d + b, c);
    ProbesAppend(a + d, b);
    ProbesAppend(a, d);
    assert Probes(d) == [] by {
      if !hiddenAtDirect {
        assert d[1..] == [];
      }
    }
    assert Probes(c) == [] by {
      if xdgError.None? {
        var tail := if hiddenAtFallback then [] else [Event(now + 3400, ShowManual)];
        ProbesAppend([Event(now + 2400, Navigate(targets.xdg))], tail);
        assert [Event(now + 2400, Navigate(targets.xdg))][1..] == [];
        if !hiddenAtFallback {
          assert tail[1..] == [];
        }
      } else {
        assert c[1..] == [];
      }
    }
    assert a[1..] == [];
    assert b[1..][1..] == [];
  }

  // ---------------------------------------------------------------------------
  // The cascade in place

  lemma LogsOne(v: PageView, a: string)
    ensures Status.WithLogs(v, [a]) == Status.WithLog(v, a)
  {
    assert [a][1..] == [];
  }

  lemma LogsTwo(v: PageView, a: string, b: string)
    ensures Status.WithLogs(v, [a, b]) == Status.WithLog(Status.WithLog(v, a), b)
  {
    assert [a, b][1..] == [b];
    LogsOne(Status.WithLog(v, a), b);
  }

  /** The closure `redirectToApp` builds: the response it redirects, the index of the
      next candidate, and the timers it has scheduled. */
  class Redirection {
    const response: AuthResponse
    const host: Host
    const targets: Targets
    var index: nat
    var clock: nat
    var timers: seq<Timer>
    var events: seq<Event>

    function State(): Cascade
      reads this
    {
      Cascade(index, clock, timers, events)
    }

    constructor (response: AuthResponse, host: Host, now: nat)
      ensures this.response == response && this.host == host && targets == TargetsOf(response)
      ensures State() == Cascade(0, now, [], [])
    {
      this.response := response;
      this.host := host;
      targets := TargetsOf(response);
      index := 0;
      clock := now;
      timers := [];
      events := [];
    }

    /** `tryNextScheme()`. */
    method TryNextScheme(page: Page, xdgError: Option<string>)
      modifies this, page
      ensures State() == TryNext(old(State()), targets, xdgError).next
      ensures page.View() == Apply(old(page.View()), TryNext(old(State()), targets, xdgError), response, host)
    {
      if index < |targets.schemes| {
        ProbeCandidate(page, xdgError);
      } else {
        TryXdgOpen(page, xdgError);
      }
    }

    /** The branch of `tryNextScheme` that probes the next candidate. */
    method ProbeCandidate(page: Page, xdgError: Option<string>)
      requires index < |targets.schemes|
      modifies this, page
      ensures State() == TryNext(old(State()), targets, xdgError).next
      ensures page.View() == Apply(old(page.View()), TryNext(old(State()), targets, xdgError), response, host)
    {
      ghost var v0 := page.View();
      ghost var step := TryNext(State(), targets, xdgError);
      var schemes := targets.schemes;
      var uri := schemes[index];
      var message := ProbeMessage(index, |schemes|, uri);
      Status.LogDebug(page, message);
      LogsOne(v0, message);
      events := events + [Event(clock, Probe(uri))];
      if index == 0 {
        timers := timers + [Timer(clock + DirectDelay, DirectNavigation(uri))];
      }
      index := index + 1;
      timers := timers + [Timer(clock + RetryDelay, NextScheme)];
      assert step.log == [message] && !step.manual;
    }

    /** The branch of `tryNextScheme` that tries the `xdg-open:` URI. */
    method TryXdgOpen(page: Page, xdgError: Option<string>)
      requires index >= |targets.schemes|
      modifies this, page
      ensures State() == TryNext(old(State()), targets, xdgError).next
      ensures page.View() == Apply(old(page.View()), TryNext(old(State()), targets, xdgError), response, host)
    {
      XdgStep(State(), targets, xdgError);
      match xdgError {
        case None => XdgNavigation(page);
        case Some(e) => XdgFailed(page, e);
      }
    }

    /** Navigating to the `xdg-open:` URI, with the fallback check 1000 ms on. */
    method XdgNavigation(page: Page)
      modifies this, page
      ensures State() == Schedule(Emit(old(State()), Navigate(targets.xdg)), FallbackDelay, FallbackCheck)
      ensures page.View() == Status.WithLogs(old(page.View()), [XdgMessage(targets.xdg)])
    {
      ghost var v0 := page.View();
      Status.LogDebug(page, XdgMessage(targets.xdg));
      LogsOne(v0, XdgMessage(targets.xdg));
      events := events + [Event(clock, Navigate(targets.xdg))];
      timers := timers + [Timer(clock + FallbackDelay, FallbackCheck)];
    }

    /** The catch block: the navigation threw `e`, so the manual screen is drawn. */
    method XdgFailed(page: Page, e: string)
      modifies this, page
      ensures State() == Emit(old(State()), ShowManual)
      ensures page.View() ==
        Fallback.Present(Status.WithLogs(old(page.View()), [XdgMessage(targets.xdg), "Error with XDG redirect: " + e]),
                         response, host)
    {
      ghost var v0 := page.View();
      Status.LogDebug(page, XdgMessage(targets.xdg));
      Status.LogDebug(page, "Error with XDG redirect: " + e);
      LogsTwo(v0, XdgMessage(targets.xdg), "Error with XDG redirect: " + e);
      Fallback.ShowManualInstructions(page, response, host);
      events := events + [Event(clock, ShowManual)];
    }

    /** The earliest pending timer fires. */
    method FireTimer(page: Page, hidden: bool, xdgError: Option<string>)
      requires timers != []
      modifies this, page
      ensures State() == Fire(old(State()), targets, hidden, xdgError).next
      ensures page.View() == Apply(old(page.View()), Fire(old(State()), targets, hidden, xdgError), response, host)
    {
      ghost var v0 := page.View();
      var t := timers[0];
      clock := t.due;
      timers := timers[1..];
      match t.task {
        case NextScheme =>
          TryNextScheme(page, xdgError);
        case DirectNavigation(uri) =>
          if !hidden {
            events := events + [Event(clock, Navigate(uri))];
          }
        case FallbackCheck =>
          if !hidden {
            Status.LogDebug(page, FallbackMessage);
            LogsOne(v0, FallbackMessage);
            Fallback.ShowManualInstructions(page, response, host);
            events := events + [Event(clock, ShowManual)];
          }
      }
    }
  }

  /** `redirectToApp(r)` at time `now`: the cascade it leaves running. */
  method RedirectToApp(page: Page, r: AuthResponse, host: Host, now: nat, xdgError: Option<string>)
    returns (c: Redirection)
    modifies page
    ensures fresh(c) && c.response == r && c.host == host && c.targets == TargetsOf(r)
    ensures c.State() == Start(r, now, xdgError).next
    ensures page.View() == Apply(old(page.View()), Start(r, now, xdgError), r, host)
  {
    var log := Redirect.RedirectLog(r);
    ghost var v0 := page.View();
    Status.LogDebug(page, log[0]);
    Status.LogDebug(page, log[1]);
    LogsTwo(v0, log[0], log[1]);
    assert log == [log[0], log[1]];
    ghost var v1 := page.View();
    c := new Redirection(r, host, now);
    c.TryNextScheme(page, xdgError);
    ghost var first := TryNext(Cascade(0, now, [], []), TargetsOf(r), xdgError);
    Status.WithLogsAppend(v0, log, first.log);
  }
}
