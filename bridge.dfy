/** `processAuthResult` of script.js, run once when the page has loaded: try the query
    for a code, then the fragment for a token, then (a check that can no longer
    succeed) the query for an error, and hand whatever was found to the redirect
    cascade. */
module Bridge {
  import opened Common
  import opened Form
  import opened Dom
  import Status
  import UriEncoding
  import opened Extraction
  import Redirect
  import Sequencer

  const SuccessStatus := "Authentication successful! Redirecting back to app..."
  const NoDataStatus := "No authentication data found. Please try again."
  const NoDataMessage := "No token or error found in URL"

  function ErrorStatus(error: string): string
  {
    "Authentication error: " + error + ". Please try again."
  }

  /** `message` is the last line of `console`. */
  predicate LoggedLast(console: seq<string>, message: string)
  {
    |console| > 0 && console[|console| - 1] == message
  }

  /** The status line, then `redirectToApp(r)`. */
  function Redirected(v: PageView, r: AuthResponse, now: nat, host: Host, xdgError: Option<string>): PageView
  {
    Sequencer.Apply(Status.WithStatus(v, SuccessStatus), Sequencer.Start(r, now, xdgError), r, host)
  }

  /** The page once `processAuthResult` has returned (the cascade then goes on by timers). */
  function Processed(v: PageView, search: string, hash: string, now: nat, host: Host,
                     xdgError: Option<string>): PageView
  {
    var byCode := HandleAuthCode(search, host.decode);
    var v1 := Status.WithLogs(v, byCode.log);
    if byCode.response.Some? then Redirected(v1, byCode.response.value, now, host, xdgError)
    else
      var byToken := HandleImplicitFlow(hash, now, host);
      var v2 := Status.WithLogs(v1, byToken.log).(storage := Stored(v1.storage, byToken.writes));
      if byToken.response.Some? then Redirected(v2, byToken.response.value, now, host, xdgError)
      else
        var error := Get(Parse(search, host.decode), "error");
        if Truthy(error) then
          var r := Error(error.value);
          var v3 := Status.WithLog(Status.WithStatus(v2, ErrorStatus(error.value)),
                                   "Error from authentication: " + error.value);
          Sequencer.Apply(v3, Sequencer.Start(r, now, xdgError), r, host).(spinnerHidden := true)
        else
          Status.WithLog(Status.WithStatus(v2, NoDataStatus), NoDataMessage).(spinnerHidden := true)
  }

  // ---------------------------------------------------------------------------
  // Properties

  /** Starting the cascade logs but neither draws the manual screen nor touches the
      status line, the spinner or storage. */
  lemma RedirectedKeepsStatus(v: PageView, r: AuthResponse, now: nat, host: Host, xdgError: Option<string>)
    ensures var v' := Redirected(v, r, now, host, xdgError);
      (v.hasStatus ==> v'.status == SuccessStatus) && v'.spinnerHidden == v.spinnerHidden &&
      v'.storage == v.storage && v'.container == v.container
  {
    Sequencer.StartStep(r, now, xdgError);
    Status.WithLogsEffect(Status.WithStatus(v, SuccessStatus), Sequencer.Start(r, now, xdgError).log);
  }

  /** When something was found the page says so and keeps its spinner; when nothing was
      found it says that, hides the spinner and logs why. The error branch is never
      taken, because a non-empty query `error` was already returned by the code step. */
  lemma ProcessedStatus(v: PageView, search: string, hash: string, now: nat, host: Host,
                        xdgError: Option<string>)
    ensures var v' := Processed(v, search, hash, now, host, xdgError);
      var found := Extract(search, hash, now, host);
      (found.Some? ==> (v.hasStatus ==> v'.status == SuccessStatus) && v'.spinnerHidden == v.spinnerHidden) &&
      (found.None? ==> (v.hasStatus ==> v'.status == NoDataStatus) && v'.spinnerHidden &&
                       LoggedLast(v'.console, NoDataMessage))
  {
    ExtractFirstFound(search, hash, now, host);
    if HandleAuthCode(search, host.decode).response.Some? {
      ProcessedByCode(v, search, hash, now, host, xdgError);
    } else {
      ProcessedByFragment(v, search, hash, now, host, xdgError);
    }
  }

  lemma ProcessedByCode(v: PageView, search: string, hash: string, now: nat, host: Host,
                        xdgError: Option<string>)
    requires HandleAuthCode(search, host.decode).response.Some?
    ensures var v' := Processed(v, search, hash, now, host, xdgError);
      (v.hasStatus ==> v'.status == SuccessStatus) && v'.spinnerHidden == v.spinnerHidden
  {
    var byCode := HandleAuthCode(search, host.decode);
    Status.WithLogsEffect(v, byCode.log);
    RedirectedKeepsStatus(Status.WithLogs(v, byCode.log), byCode.response.value, now, host, xdgError);
  }

  lemma ProcessedByFragment(v: PageView, search: string, hash: string, now: nat, host: Host,
                            xdgError: Option<string>)
    requires HandleAuthCode(search, host.decode).response.None?
    ensures var v' := Processed(v, search, hash, now, host, xdgError);
      var found := HandleImplicitFlow(hash, now, host).response;
      (found.Some? ==> (v.hasStatus ==> v'.status == SuccessStatus) && v'.spinnerHidden == v.spinnerHidden) &&
      (found.None? ==> (v.hasStatus ==> v'.status == NoDataStatus) && v'.spinnerHidden &&
                       LoggedLast(v'.console, NoDataMessage))
  {
    var byCode := HandleAuthCode(search, host.decode);
    var v1 := Status.WithLogs(v, byCode.log);
    Status.WithLogsEffect(v, byCode.log);
    ErrorRecheckUnreachable(search, host.decode);
    var byToken := HandleImplicitFlow(hash, now, host);
    var v2 := Status.WithLogs(v1, byToken.log).(storage := Stored(v1.storage, byToken.writes));
    Status.WithLogsEffect(v1, byToken.log);
    if byToken.response.Some? {
      RedirectedKeepsStatus(v2, byToken.response.value, now, host, xdgError);
    }
  }

  /** Storage changes only when the fragment is consulted, that is when the query
      held neither a code nor an error. */
  lemma StorageOnlyFromFragment(v: PageView, search: string, hash: string, now: nat, host: Host,
                                xdgError: Option<string>)
    requires HandleAuthCode(search, host.decode).response.Some?
    ensures Processed(v, search, hash, now, host, xdgError).storage == v.storage
  {
    var byCode := HandleAuthCode(search, host.decode);
    Status.WithLogsEffect(v, byCode.log);
    RedirectedKeepsStatus(Status.WithLogs(v, byCode.log), byCode.response.value, now, host, xdgError);
  }

  /** End to end: whatever the page's visibility, the cascade for the extracted response
      probes the three app schemes in order, each carrying a query from which the app
      reads back exactly the parameters the response holds, whenever a token's
      `expires_in` is unreserved text (otherwise see `Redirect.ExpiresInInjection`). */
  lemma DeliveredToApp(search: string, hash: string, now: nat, host: Host, visibility: seq<bool>,
                       xdgError: Option<string>)
    requires Extract(search, hash, now, host).Some?
    requires var a := Extract(search, hash, now, host).value;
      a.Token? ==> forall i :: 0 <= i < |a.expiresIn| ==> UriEncoding.Unreserved(a.expiresIn[i])
    requires |visibility| >= 5
    ensures var a := Extract(search, hash, now, host).value;
      var c := Sequencer.Run(Sequencer.Start(a, now, xdgError).next, Sequencer.TargetsOf(a), visibility, xdgError);
      var query := Redirect.RedirectParams(a);
      Sequencer.Probes(c.events) ==
        [Sequencer.Event(now, Sequencer.Probe(Redirect.AppCallback + query)),
         Sequencer.Event(now + 800, Sequencer.Probe(Redirect.AltCallback + query)),
         Sequencer.Event(now + 1600, Sequencer.Probe(Redirect.LegacyCallback + query))] &&
      Parse(query, UriEncoding.PercentDecode) == Redirect.Delivered(a)
  {
    var a := Extract(search, hash, now, host).value;
    Sequencer.Timeline(a, now, visibility, xdgError);
    Sequencer.ProbesInOrder(Sequencer.TargetsOf(a), now, visibility[0], visibility[4], xdgError);
    Redirect.ParamsRoundTrip(a);
  }

  /** `Processed` without its dead error branch. */
  lemma ProcessedCases(v: PageView, search: string, hash: string, now: nat, host: Host,
                       xdgError: Option<string>)
    ensures var byCode := HandleAuthCode(search, host.decode);
      var v1 := Status.WithLogs(v, byCode.log);
      var byToken := HandleImplicitFlow(hash, now, host);
      var v2 := Status.WithLogs(v1, byToken.log).(storage := Stored(v1.storage, byToken.writes));
      && Extract(search, hash, now, host) == (if byCode.response.Some? then byCode.response else byToken.response)
      && !(byCode.response.None? && Truthy(Get(Parse(search, host.decode), "error")))
      && Processed(v, search, hash, now, host, xdgError) ==
         if byCode.response.Some? then Redirected(v1, byCode.response.value, now, host, xdgError)
         else if byToken.response.Some? then Redirected(v2, byToken.response.value, now, host, xdgError)
         else Status.WithLog(Status.WithStatus(v2, NoDataStatus), NoDataMessage).(spinnerHidden := true)
  {
    ErrorRecheckUnreachable(search, host.decode);
    ExtractFirstFound(search, hash, now, host);
  }

  // ---------------------------------------------------------------------------
  // The page script

  /** `processAuthResult()` at time `now`; returns the cascade it started, if any. */
  method ProcessAuthResult(page: Page, search: string, hash: string, now: nat, host: Host,
                           xdgError: Option<string>)
    returns (cascade: Option<Sequencer.Redirection>)
    modifies page
    ensures page.View() == Processed(old(page.View()), search, hash, now, host, xdgError)
    ensures cascade.Some? <==> Extract(search, hash, now, host).Some?
    ensures cascade.Some? ==>
      && fresh(cascade.value)
      && cascade.value.response == Extract(search, hash, now, host).value
      && cascade.value.host == host
      && cascade.value.targets == Sequencer.TargetsOf(cascade.value.response)
      && cascade.value.State() == Sequencer.Start(cascade.value.response, now, xdgError).next
  {
    ProcessedCases(page.View(), search, hash, now, host, xdgError);
    var byCode := HandleAuthCodeResponse(page, search, host);
    if byCode.Some? {
      var c := SucceedWith(page, byCode.value, now, host, xdgError);
      return Some(c);
    }
    var byToken := HandleImplicitFlowResponse(page, hash, now, host);
    if byToken.Some? {
      var c := SucceedWith(page, byToken.value, now, host, xdgError);
      return Some(c);
    }
    var error := Get(Parse(search, host.decode), "error");
    if Truthy(error) {
      // A non-empty query `error` was already returned by the code step
      // (Extraction.ErrorRecheckUnreachable), so the script's error branch is dead.
      assert false;
    }
    ReportNoData(page);
    return None;
  }

  /** The success status, then `redirectToApp(r)`. */
  method SucceedWith(page: Page, r: AuthResponse, now: nat, host: Host, xdgError: Option<string>)
    returns (c: Sequencer.Redirection)
    modifies page
    ensures page.View() == Redirected(old(page.View()), r, now, host, xdgError)
    ensures fresh(c) && c.response == r && c.host == host && c.targets == Sequencer.TargetsOf(r)
    ensures c.State() == Sequencer.Start(r, now, xdgError).next
  {
    Status.UpdateStatus(page, SuccessStatus);
    c := Sequencer.RedirectToApp(page, r, host, now, xdgError);
  }

  /** The branch for a URL that carries nothing. */
  method ReportNoData(page: Page)
    modifies page
    ensures page.View() == Status.WithLog(Status.WithStatus(old(page.View()), NoDataStatus), NoDataMessage).(spinnerHidden := true)
  {
    Status.UpdateStatus(page, NoDataStatus);
    Status.LogDebug(page, NoDataMessage);
    page.spinnerHidden := true;
  }
}
