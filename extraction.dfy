/** Response extraction of script.js: `handleAuthCodeResponse` reads the query
    string of an OAuth 2.0 authorization response (RFC 6749, sections 4.1.2 and
    4.1.2.1), `handleImplicitFlowResponse` the fragment of an implicit-grant
    response (RFC 6749, section 4.2.2), and `processAuthResult` picks the first
    that yields something. */
module Extraction {
  import opened Common
  import opened Form
  import JsNumber
  import opened Dom
  import Status

  /** The normalised result handed to the redirect cascade and the manual screen.
      `expiryTime` is the time value (milliseconds since the epoch) of the Date whose
      ISO string the script stores; `new Date(iso)` gives the same value back. */
  datatype AuthResponse =
    | Code(code: string, state: Option<string>)
    | Token(accessToken: string, expiresIn: string, state: Option<string>, expiryTime: int)
    | Error(error: string)

  /** The `responseType` field. */
  function ResponseType(r: AuthResponse): string
  {
    match r
    case Code(_, _) => "code"
    case Token(_, _, _, _) => "token"
    case Error(_) => "error"
  }

  /** What one extractor computes: its result, the messages it logs and the
      `localStorage.setItem` calls it makes, in order. */
  datatype Extracted = Extracted(response: Option<AuthResponse>, log: seq<string>,
                                 writes: seq<(string, string)>)

  /** Largest magnitude of a valid time value (ECMA-262, TimeClip). */
  const MaxTimeValue := 8_640_000_000_000_000

  const AccessTokenKey := "spotify_access_token"
  const TokenExpiryKey := "spotify_token_expiry"
  const DefaultExpiresIn := "3600"

  /** The lifetime string the script uses: the fragment's `expires_in` when non-empty,
      otherwise the default of one hour. */
  function ExpiresIn(raw: Option<string>): (r: string)
    ensures r != ""
    ensures Truthy(raw) ==> r == raw.value
  {
    if Truthy(raw) then raw.value else DefaultExpiresIn
  }

  /** `parseInt` of `ExpiresIn(raw)`, with the default's value written out
      (see `SecondsParsed`). */
  function Seconds(raw: Option<string>): Option<int>
  {
    if Truthy(raw) then JsNumber.ParseInt(raw.value) else Some(3600)
  }

  /** `parseInt(expiresIn)` is what `Seconds` gives. */
  lemma SecondsParsed(raw: Option<string>)
    ensures Seconds(raw) == JsNumber.ParseInt(ExpiresIn(raw))
  {
    if !Truthy(raw) {
      JsNumber.ParseIntNatToString(3600);
      JsNumber.Digits3600();
    }
  }

  /** A Date holding `now`, after `setSeconds(getSeconds() + seconds)`: its new
      time value, or `None` when it is NaN (`seconds` is NaN, or out of range). */
  function ExpiryInstant(now: int, seconds: Option<int>): (t: Option<int>)
    ensures t.Some? <==> seconds.Some? && -MaxTimeValue <= now + 1000 * seconds.value <= MaxTimeValue
    ensures t.Some? ==> t.value == now + 1000 * seconds.value
  {
    match seconds
    case None => None
    case Some(n) =>
      var t := now + 1000 * n;
      if -MaxTimeValue <= t <= MaxTimeValue then Some(t) else None
  }

  /** `handleAuthCodeResponse()` on `window.location.search`. */
  function HandleAuthCode(search: string, decode: string -> string): (e: Extracted)
    ensures e.writes == []
    ensures e.response.Some? ==> match e.response.value
                                 case Code(c, _) => c != ""
                                 case Error(err) => err != ""
                                 case Token(_, _, _, _) => false
  {
    var params := Parse(search, decode);
    var code := Get(params, "code");
    if Truthy(code) then
      Extracted(Some(Code(code.value, Get(params, "state"))),
                ["Found authorization code: " + Prefix(code.value, 10) + "..."], [])
    else
      var error := Get(params, "error");
      if Truthy(error) then
        Extracted(Some(Error(error.value)), ["Error from authorization server: " + error.value], [])
      else
        Extracted(None, [], [])
  }

  /** The part of `handleImplicitFlowResponse` after a non-empty `access_token` has
      been found in the fragment, with its `expires_in` and `state` values. */
  function TokenFound(token: string, raw: Option<string>, state: Option<string>, now: int, host: Host): (e: Extracted)
    requires token != ""
    ensures |e.writes| >= 1 && e.writes[0] == (AccessTokenKey, token)
    ensures |e.writes| <= 2 && (|e.writes| == 2 ==> e.writes[1].0 == TokenExpiryKey)
    ensures e.response.None? <==> ExpiryInstant(now, Seconds(raw)).None?
    ensures e.response.None? ==> e.writes == [(AccessTokenKey, token)]
    ensures e.response.Some? ==>
              && e.response.value.Token?
              && var tok := e.response.value;
              && tok.accessToken != "" && tok.expiresIn != ""
              && tok.expiresIn == ExpiresIn(raw)
              && ExpiryInstant(now, Seconds(raw)) == Some(tok.expiryTime)
              && e.writes == [(AccessTokenKey, tok.accessToken), (TokenExpiryKey, host.iso(tok.expiryTime))]
  {
    var expiresIn := ExpiresIn(raw);
    var found := ["Found access token: " + Prefix(token, 10) + "..."];
    var stored := [(AccessTokenKey, token)];
    match ExpiryInstant(now, Seconds(raw))
    case None =>
      Extracted(None, found + ["Error handling implicit flow response: " + host.invalidTimeError], stored)
    case Some(t) =>
      Extracted(Some(Token(token, expiresIn, state, t)),
                found, stored + [(TokenExpiryKey, host.iso(t))])
  }

  /** `handleImplicitFlowResponse()` on `window.location.hash` at time `now`. When the
      expiry is not a valid date, `toISOString` throws after the token has been stored:
      the catch logs the error and the result is `null`. */
  function HandleImplicitFlow(hash: string, now: int, host: Host): (e: Extracted)
    ensures |hash| == 0 ==> e.response.None? && e.writes == []
    ensures |e.writes| <= 2
    ensures |e.writes| >= 1 ==> e.writes[0].0 == AccessTokenKey
    ensures |e.writes| == 2 ==> e.writes[1].0 == TokenExpiryKey
    ensures e.response.None? ==> |e.writes| <= 1
    ensures e.response.Some? ==>
              && e.response.value.Token?
              && var tok := e.response.value;
              && tok.accessToken != "" && tok.expiresIn != ""
              && ExpiryInstant(now, JsNumber.ParseInt(tok.expiresIn)) == Some(tok.expiryTime)
              && e.writes == [(AccessTokenKey, tok.accessToken), (TokenExpiryKey, host.iso(tok.expiryTime))]
  {
    var checking := ["Checking URL hash: " + hash];
    if |hash| == 0 then Extracted(None, checking, [])
    else
      var params := Parse(hash[1..], host.decode);
      if !Truthy(Get(params, "access_token")) then Extracted(None, checking, [])
      else
        var found := TokenFound(Get(params, "access_token").value, Get(params, "expires_in"),
                                Get(params, "state"), now, host);
        SecondsParsed(Get(params, "expires_in"));
        found.(log := checking + found.log)
  }

  /** The fragment without its leading `#` (`hash.substring(1)`). */
  function Fragment(hash: string): string
  {
    if |hash| == 0 then "" else hash[1..]
  }

  /** The result `processAuthResult` passes to `redirectToApp`, or `None` when it shows
      "No authentication data found". The last alternative is the query `error`
      check of its own, which can never fire (see `ErrorRecheckUnreachable`). */
  function Extract(search: string, hash: string, now: int, host: Host): Option<AuthResponse>
  {
    var byCode := HandleAuthCode(search, host.decode).response;
    if byCode.Some? then byCode
    else
      var byToken := HandleImplicitFlow(hash, now, host).response;
      if byToken.Some? then byToken
      else
        var error := Get(Parse(search, host.decode), "error");
        if Truthy(error) then Some(Error(error.value)) else None
  }

  /** `localStorage` after a sequence of `setItem` calls. */
  function Stored(m: map<string, string>, writes: seq<(string, string)>): map<string, string>
    decreases |writes|
  {
    if writes == [] then m else Stored(m[writes[0].0 := writes[0].1], writes[1..])
  }

  // ---------------------------------------------------------------------
  // Properties

  /** The fixed priority: a non-empty query `code`, then a non-empty query `error`,
      then a fragment `access_token` with a valid expiry, then nothing. */
  lemma ExtractionPriority(search: string, hash: string, now: int, host: Host)
    ensures
      var q := Parse(search, host.decode);
      var f := Parse(Fragment(hash), host.decode);
      var raw := Get(f, "expires_in");
      Extract(search, hash, now, host) ==
        if Truthy(Get(q, "code")) then Some(Code(Get(q, "code").value, Get(q, "state")))
        else if Truthy(Get(q, "error")) then Some(Error(Get(q, "error").value))
        else if |hash| > 0 && Truthy(Get(f, "access_token")) && ExpiryInstant(now, Seconds(raw)).Some? then
          Some(Token(Get(f, "access_token").value, ExpiresIn(raw), Get(f, "state"),
                     ExpiryInstant(now, Seconds(raw)).value))
        else None
  {
  }

  /** The query `error` test of `processAuthResult` (script.js lines 351-358) is dead:
      whenever `handleAuthCodeResponse` found nothing, the query has no `error`. */
  lemma ErrorRecheckUnreachable(search: string, decode: string -> string)
    ensures HandleAuthCode(search, decode).response.None? ==> !Truthy(Get(Parse(search, decode), "error"))
  {
  }

  /** So the extracted response is the code step's, else the fragment's. */
  lemma ExtractFirstFound(search: string, hash: string, now: int, host: Host)
    ensures Extract(search, hash, now, host) ==
      if HandleAuthCode(search, host.decode).response.Some? then HandleAuthCode(search, host.decode).response
      else HandleImplicitFlow(hash, now, host).response
  {
    ErrorRecheckUnreachable(search, host.decode);
  }

  /** Once the query's FIRST `code` pair is non-empty, the result is that code,
      whatever the fragment holds and whatever later `code` pairs say. */
  lemma FirstCodeWins(search: string, hash: string, now: int, host: Host, i: nat)
    requires var q := Parse(search, host.decode);
      && i < |q| && q[i].name == "code" && q[i].value != ""
      && forall j :: 0 <= j < i ==> q[j].name != "code"
    ensures Extract(search, hash, now, host) ==
      Some(Code(Parse(search, host.decode)[i].value, Get(Parse(search, host.decode), "state")))
  {
    GetFirst(Parse(search, host.decode), "code", i);
  }

  /** An empty `code=` (as the first `code` pair) is not a code: the result is then
      decided by `error` and the fragment. */
  lemma EmptyCodeIsNoCode(search: string, hash: string, now: int, host: Host, i: nat)
    requires var q := Parse(search, host.decode);
      && i < |q| && q[i].name == "code" && q[i].value == ""
      && forall j :: 0 <= j < i ==> q[j].name != "code"
    ensures var r := Extract(search, hash, now, host); r.None? || !r.value.Code?
  {
    GetFirst(Parse(search, host.decode), "code", i);
    assert HandleImplicitFlow(hash, now, host).response.None? ||
           HandleImplicitFlow(hash, now, host).response.value.Token?;
  }

  /** A code result does not depend on the fragment or on the clock. */
  lemma CodeIgnoresFragment(search: string, hash1: string, hash2: string, now1: int, now2: int, host: Host)
    requires Truthy(Get(Parse(search, host.decode), "code"))
    ensures Extract(search, hash1, now1, host) == Extract(search, hash2, now2, host)
    ensures Extract(search, hash1, now1, host).value.Code?
  {
  }

  /** The "no data" outcome: neither a non-empty `code` nor a non-empty `error` in the
      query, and no fragment token with a valid expiry. */
  lemma NoDataExactly(search: string, hash: string, now: int, host: Host)
    ensures Extract(search, hash, now, host).None? <==>
      && !Truthy(Get(Parse(search, host.decode), "code"))
      && !Truthy(Get(Parse(search, host.decode), "error"))
      && HandleImplicitFlow(hash, now, host).response.None?
  {
  }

  /** A fragment whose `expires_in` is absent or empty gets the default lifetime of
      one hour, both in the result and in the stored expiry, when now + 1 h is a valid
      time (otherwise `toISOString` throws, as in `ExpiryOutOfRangeStoresTokenOnly`). */
  lemma TokenDefaultLifetime(hash: string, now: int, host: Host)
    requires |hash| > 0
    requires var f := Parse(hash[1..], host.decode);
      Truthy(Get(f, "access_token")) && !Truthy(Get(f, "expires_in"))
    requires -MaxTimeValue <= now + 3_600_000 <= MaxTimeValue
    ensures var r := HandleImplicitFlow(hash, now, host).response;
      r.Some? && r.value.expiresIn == "3600" && r.value.expiryTime == now + 3_600_000
  {
  }

  /** A non-numeric `expires_in` makes the expiry NaN: the token is still written to
      storage, the expiry is not, and the result is `null`. */
  lemma InvalidExpiryStoresTokenOnly(hash: string, now: int, host: Host)
    requires |hash| > 0
    requires var f := Parse(hash[1..], host.decode);
      && Truthy(Get(f, "access_token")) && Truthy(Get(f, "expires_in"))
      && forall k :: 0 <= k < |Get(f, "expires_in").value| ==> !('0' <= Get(f, "expires_in").value[k] <= '9')
    ensures var e := HandleImplicitFlow(hash, now, host);
      && e.response.None?
      && e.writes == [(AccessTokenKey, Get(Parse(hash[1..], host.decode), "access_token").value)]
      && e.log[|e.log| - 1] == "Error handling implicit flow response: " + host.invalidTimeError
  {
    var f := Parse(hash[1..], host.decode);
    JsNumber.ParseIntNoDigit(Get(f, "expires_in").value);
    NoExpiryStoresTokenOnly(hash, now, host);
  }

  /** Whenever the expiry is not a valid date the token alone is stored, the error is
      logged and nothing is returned. */
  lemma NoExpiryStoresTokenOnly(hash: string, now: int, host: Host)
    requires |hash| > 0
    requires var f := Parse(hash[1..], host.decode);
      Truthy(Get(f, "access_token")) && ExpiryInstant(now, Seconds(Get(f, "expires_in"))).None?
    ensures var e := HandleImplicitFlow(hash, now, host);
      && e.response.None?
      && e.writes == [(AccessTokenKey, Get(Parse(hash[1..], host.decode), "access_token").value)]
      && e.log[|e.log| - 1] == "Error handling implicit flow response: " + host.invalidTimeError
  {
  }

  /** An all-digit `expires_in` whose expiry lies beyond the largest time value
      (TimeClip) also makes the date invalid: the token is written, the expiry is not,
      the RangeError is logged and the result is `null`. */
  lemma ExpiryOutOfRangeStoresTokenOnly(hash: string, now: int, host: Host)
    requires |hash| > 0
    requires var f := Parse(hash[1..], host.decode);
      var x := Get(f, "expires_in");
      && Truthy(Get(f, "access_token")) && Truthy(x)
      && (forall k :: 0 <= k < |x.value| ==> '0' <= x.value[k] <= '9')
      && now + 1000 * JsNumber.Value(x.value, 10) > MaxTimeValue
    ensures var e := HandleImplicitFlow(hash, now, host);
      && e.response.None?
      && e.writes == [(AccessTokenKey, Get(Parse(hash[1..], host.decode), "access_token").value)]
      && e.log[|e.log| - 1] == "Error handling implicit flow response: " + host.invalidTimeError
  {
    var f := Parse(hash[1..], host.decode);
    JsNumber.ParseIntDigits(Get(f, "expires_in").value);
    NoExpiryStoresTokenOnly(hash, now, host);
  }

  // ---------------------------------------------------------------------
  // The extractors acting on the page

  method HandleAuthCodeResponse(page: Page, search: string, host: Host) returns (r: Option<AuthResponse>)
    modifies page
    ensures r == HandleAuthCode(search, host.decode).response
    ensures page.View() == Status.WithLogs(old(page.View()), HandleAuthCode(search, host.decode).log)
  {
    var params := Parse(search, host.decode);
    var code := Get(params, "code");
    if Truthy(code) {
      Status.LogDebug(page, "Found authorization code: " + Prefix(code.value, 10) + "...");
      return Some(Code(code.value, Get(params, "state")));
    }
    var error := Get(params, "error");
    if Truthy(error) {
      Status.LogDebug(page, "Error from authorization server: " + error.value);
      return Some(Error(error.value));
    }
    return None;
  }

  method HandleImplicitFlowResponse(page: Page, hash: string, now: int, host: Host)
    returns (r: Option<AuthResponse>)
    modifies page
    ensures var e := HandleImplicitFlow(hash, now, host);
      && r == e.response
      && page.View() == Status.WithLogs(old(page.View()), e.log).(storage := Stored(old(page.storage), e.writes))
  {
    ghost var v0 := page.View();
    var checking := "Checking URL hash: " + hash;
    Status.LogDebug(page, checking);
    assert page.View() == Status.WithLogs(v0, [checking]);
    if |hash| == 0 {
      return None;
    }
    var params := Parse(hash[1..], host.decode);
    var token := Get(params, "access_token");
    if !Truthy(token) {
      return None;
    }
    ghost var v1 := page.View();
    r := StoreFoundToken(page, token.value, Get(params, "expires_in"), Get(params, "state"), now, host);
    ghost var t := TokenFound(token.value, Get(params, "expires_in"), Get(params, "state"), now, host);
    Status.WithLogsAppend(v0, [checking], t.log);
    Status.WithLogsEffect(v0, [checking]);
    assert v1.storage == v0.storage;
  }

  /** What `TokenFound` asks of storage and of the log, step by step. */
  lemma TokenFoundSteps(v: PageView, m: map<string, string>, token: string, raw: Option<string>,
                        state: Option<string>, now: int, host: Host)
    requires token != ""
    ensures var e := TokenFound(token, raw, state, now, host);
      var logged := Status.WithLog(v, "Found access token: " + Prefix(token, 10) + "...");
      match ExpiryInstant(now, Seconds(raw))
      case None =>
        && Stored(m, e.writes) == m[AccessTokenKey := token]
        && Status.WithLogs(v, e.log) ==
           Status.WithLog(logged, "Error handling implicit flow response: " + host.invalidTimeError)
      case Some(t) =>
        && Stored(m, e.writes) == m[AccessTokenKey := token][TokenExpiryKey := host.iso(t)]
        && Status.WithLogs(v, e.log) == logged
  {
    var e := TokenFound(token, raw, state, now, host);
    var m1 := m[AccessTokenKey := token];
    assert Stored(m, e.writes) == Stored(m1, e.writes[1..]);
    var logged := Status.WithLog(v, "Found access token: " + Prefix(token, 10) + "...");
    assert Status.WithLogs(v, e.log) == Status.WithLogs(logged, e.log[1..]);
    if |e.writes| == 2 {
      assert Stored(m1, e.writes[1..]) == Stored(m1[e.writes[1].0 := e.writes[1].1], []);
    }
    if |e.log| == 2 {
      assert Status.WithLogs(logged, e.log[1..]) == Status.WithLogs(Status.WithLog(logged, e.log[1]), []);
    }
  }

  /** Logging the token, storing it and its expiry (`TokenFound`). */
  method StoreFoundToken(page: Page, token: string, raw: Option<string>, state: Option<string>, now: int, host: Host)
    returns (r: Option<AuthResponse>)
    requires token != ""
    modifies page
    ensures var e := TokenFound(token, raw, state, now, host);
      && r == e.response
      && page.View() == Status.WithLogs(old(page.View()), e.log).(storage := Stored(old(page.storage), e.writes))
  {
    TokenFoundSteps(page.View(), page.storage, token, raw, state, now, host);
    Status.LogDebug(page, "Found access token: " + Prefix(token, 10) + "...");
    page.storage := page.storage[AccessTokenKey := token];
    var expiresIn := ExpiresIn(raw);
    var expiry := ExpiryInstant(now, Seconds(raw));
    if expiry.None? {
      Status.LogDebug(page, "Error handling implicit flow response: " + host.invalidTimeError);
      return None;
    }
    page.storage := page.storage[TokenExpiryKey := host.iso(expiry.value)];
    return Some(Token(token, expiresIn, state, expiry.value));
  }
}
