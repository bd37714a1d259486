# RateMe OAuth callback bridge, modelled in Dafny

RateMe is a music-rating app. It signs in with Spotify through a static web page,
`docs/callback/script.js`. The authorization server redirects the browser to that
page. The page then:

- reads the OAuth 2.0 response. This is either an authorization code or an error in
  the query string (RFC 6749, section 4.1.2), or an access token in the fragment
  (RFC 6749, section 4.2.2);
- stores a fragment token in `localStorage`;
- tries to hand the response back to the native app. It loads three custom-scheme
  URIs one after another in hidden iframes, navigates directly to the first one,
  then tries an `xdg-open:` URI;
- if the page is still visible after all that, it draws a manual screen. That screen
  shows the code or token with a copy button.

The model has one Dafny module per concern of the script:

| module | file | what it holds |
|---|---|---|
| `Common` | common.dfy | JavaScript `null` as `Option`, truthiness, `substring`, `includes`, number-to-string |
| `Form` | form.dfy | `URLSearchParams`: the form-urlencoded parser and `get` |
| `UriEncoding` | uri_encoding.dfy | `encodeURIComponent` (UTF-8 escapes) and a percent-decoder |
| `JsNumber` | js_number.dfy | `parseInt` and `ToNumber` on strings, `Math.round(x / 3600)` and its text, all on exact rationals |
| `Dom` | dom.dfy | the page state (`Page` class, with a `PageView` value of it), elements, and the opaque host functions |
| `Status` | status.dfy | `updateStatus`, `logDebug`, the debug toggle |
| `Extraction` | extraction.dfy | `handleAuthCodeResponse`, `handleImplicitFlowResponse`, and the choice `processAuthResult` makes between them |
| `Redirect` | redirect.dfy | `redirectParams`, `redirectSchemes`, `xdgRedirectUrl`, and the JSON text of the logged scheme list |
| `Sequencer` | sequencer.dfy | `redirectToApp` / `tryNextScheme` as a timer-driven cascade (`Redirection` class) with its timeline |
| `Fallback` | fallback.dfy | `showManualInstructions` and `copyToClipboard` |
| `Bridge` | bridge.dfy | `processAuthResult` |

The page is a `Dom.Page` object. Each operation that changes the page is a method
with `modifies page`. Its `ensures` ties `page.View()` to a function of the old view,
and the lemmas beside it prove properties of that function.

Time and the browser's reactions are explicit:

- a cascade keeps a clock and its pending timers;
- `FireTimer` is told when the next timer fires and whether the page is hidden then;
- a probe, a navigation or the drawing of the manual screen is recorded as an event
  on an outgoing trace;
- whether assigning the `xdg-open:` URI throws is a parameter (`xdgError`);
- how a clipboard write settled is a parameter (`ClipboardWrite`).

`Date.prototype.toISOString`, `toLocaleString`, the text of the RangeError thrown
for an invalid date, and the percent-decoder inside `URLSearchParams` are fields of
`Dom.Host`. All source references below are to `docs/callback/script.js`.

## Model

| member | source | states |
|---|---|---|
| Dom.Page.constructor | docs/callback/script.js:1-4 | the page as loaded: whether the status element, the debug element and the container exist; nothing is logged yet; no copy button; the spinner shows |
| Common.Prefix | docs/callback/script.js:31 | `substring(0, n)` is a prefix of the string, of length n or the whole string when it is shorter |
| Status.UpdateStatus | docs/callback/script.js:16-20 | the status text becomes the message only when the status element exists; no other part of the page changes |
| Status.LogDebug | docs/callback/script.js:7-13 | the message goes to the console every time; when the debug element exists it is also appended there and that element is displayed; nothing else changes |
| Status.ToggleDebug | docs/callback/script.js:292-294 | a click flips the debug element's display between `none` and `block` (any other value becomes `none`); without a debug element nothing changes |
| Status.WithLogsEffect | docs/callback/script.js:7-13 | a series of logDebug calls appends exactly those messages, in order, to the console and (when it exists) to the debug element; the debug element is displayed if at least one message was logged; every other part of the page is unchanged |
| Status.WithLogsAppend | docs/callback/script.js:7-13 | logging in two batches gives the same page as logging the concatenated batch |
| Status.LastStatusWins | docs/callback/script.js:16-20 | after two status updates only the second message remains |
| Status.ToggleTwice | docs/callback/script.js:293 | two clicks restore `none` or `block`; any other initial display (such as the empty inline style) becomes `block` |
| Form.Parse | docs/callback/script.js:26 | definition of `new URLSearchParams(init)`: a leading `?` dropped, the text split at `&` with empty pieces skipped, each piece split at its first `=`, `+` read as space, then decoded; specified by Form.ParseSerializeAll and Form.Get |
| Form.SplitJoin | docs/callback/script.js:26 | splitting joined parts on the separator gives the parts back when none contains it |
| Form.ParseSerializeAll | docs/callback/script.js:26 | parsing `?` followed by `name=value&...` gives back the decoded pairs in order, whenever no name holds `&`, `=` or `+` and no value holds `&` or `+` |
| Form.Get | docs/callback/script.js:27-28 | `get` is null exactly when no pair has the name; otherwise it is the value of the first pair with that name |
| Form.GetFirst | docs/callback/script.js:27 | when pair i is the first with a name, `get` returns its value |
| UriEncoding.Encode | docs/callback/script.js:111 | definition of `encodeURIComponent`; specified by UriEncoding.DecodeEncode, UriEncoding.EncodeAlphabet and UriEncoding.EncodeIdentity |
| UriEncoding.DecodeEncode | docs/callback/script.js:111 | percent-decoding with UTF-8 undoes `encodeURIComponent` for every string, including characters that take two, three and four UTF-8 bytes |
| UriEncoding.PercentDecodeEncode | docs/callback/script.js:111 | the receiver's decoder reads an encoded component back as the original text |
| UriEncoding.EncodeAlphabet | docs/callback/script.js:111 | encoded text consists of unreserved characters and `%` only, so it never holds `&`, `=`, `+`, `#` or `?` |
| UriEncoding.EncodeIdentity | docs/callback/script.js:111 | encoding leaves a string unchanged exactly when every character is unreserved (both directions) |
| UriEncoding.PercentDecodePlain | docs/callback/script.js:118 | text without `%` is read back as itself, which is how the unencoded `expires_in` arrives |
| JsNumber.ParseInt | docs/callback/script.js:79 | definition of `parseInt(s)` in base 10; specified by JsNumber.ParseIntNatToString, JsNumber.ParseIntIgnoresTrailingText and JsNumber.ParseIntNoDigit |
| JsNumber.ParseIntNatToString | docs/callback/script.js:79 | `parseInt` of the decimal text of n is n |
| JsNumber.ParseIntIgnoresTrailingText | docs/callback/script.js:79 | `parseInt` reads the leading decimal digits and ignores any text after them that does not start with a digit |
| JsNumber.ParseIntNoDigit | docs/callback/script.js:79 | a string without a decimal digit is NaN to `parseInt` |
| JsNumber.StringToNumber | docs/callback/script.js:259 | definition of `ToNumber` on a string; specified by JsNumber.StringToNumberNatToString and JsNumber.HoursTextRejectsTrailingText |
| JsNumber.StringToNumberNatToString | docs/callback/script.js:259 | `ToNumber` of the decimal text of n is exactly n |
| JsNumber.RoundedHours | docs/callback/script.js:259 | `Math.round(x / 3600)` is an integer whenever it is finite, and NaN exactly when x is; specified further by JsNumber.RoundedHoursIsNearest |
| JsNumber.RoundedHoursIsNearest | docs/callback/script.js:259 | `Math.round(x / 3600)` is the integer k with k - 1/2 <= x/3600 < k + 1/2 |
| JsNumber.HoursText | docs/callback/script.js:259-260 | definition of the hours shown in the token note; specified by JsNumber.HoursTextOfSeconds, JsNumber.HoursTextRejectsTrailingText and JsNumber.DefaultLifetimeIsOneHour |
| JsNumber.HoursTextOfSeconds | docs/callback/script.js:259-260 | for `expires_in` equal to the decimal text of n, the hours shown are round(n / 3600) |
| JsNumber.HoursTextRejectsTrailingText | docs/callback/script.js:259-260 | digits followed by text that cannot continue a numeric literal make `ToNumber` NaN, and the note reads `NaN` hours, even though `parseInt` accepted the same text |
| JsNumber.DefaultLifetimeIsOneHour | docs/callback/script.js:86 | the default lifetime `'3600'` is shown as 1 hour |
| Extraction.HandleAuthCode | docs/callback/script.js:23-55 | the query step writes nothing to storage; a result it returns is a non-empty code or a non-empty error, never a token |
| Extraction.HandleAuthCodeResponse | docs/callback/script.js:23-55 | the method returns what the query step finds and logs exactly that step's messages; nothing else on the page changes |
| Extraction.ExpiresIn | docs/callback/script.js:86 | the lifetime text is never empty, and it is the fragment's own `expires_in` whenever that is non-empty |
| Extraction.SecondsParsed | docs/callback/script.js:79 | the seconds used for the expiry are `parseInt(expiresIn \|\| '3600')` |
| Extraction.TokenFound | docs/callback/script.js:71-97 | the token is always stored first; nothing is returned exactly when the expiry is not a valid date, and then the token is the only write; a returned token carries the lifetime text and the expiry instant whose ISO text was stored second |
| Extraction.HandleImplicitFlow | docs/callback/script.js:58-98 | an empty hash gives nothing and writes nothing; at most the token and then its expiry are written, and at most one write when nothing is returned; a returned token is non-empty, its `expires_in` parses to the stored expiry instant, and both storage writes are its own |
| Extraction.HandleImplicitFlowResponse | docs/callback/script.js:58-98 | the method returns what the fragment step finds, logs its messages and applies its storage writes in order; nothing else changes |
| Extraction.StoreFoundToken | docs/callback/script.js:71-90 | after a non-empty token is found, the page holds exactly the logs and storage writes of the token step, including the catch path when the expiry is not a valid date |
| Extraction.Extract | docs/callback/script.js:333-348 | definition of the response `processAuthResult` passes on; specified by Extraction.ExtractionPriority, Extraction.ExtractFirstFound and Extraction.NoDataExactly |
| Extraction.ExtractionPriority | docs/callback/script.js:333-364 | the findings in priority order: a non-empty query `code` (with its `state`), then a non-empty query `error`, then a non-empty fragment `access_token` with a valid expiry, otherwise nothing |
| Extraction.ErrorRecheckUnreachable | docs/callback/script.js:350-354 | whenever the query step finds nothing, the query's `error` is absent or empty, so the second error check can never succeed |
| Extraction.ExtractFirstFound | docs/callback/script.js:333-348 | the response passed on is the query step's when it found one, else the fragment step's |
| Extraction.FirstCodeWins | docs/callback/script.js:27-38 | when the first `code` pair of the query is non-empty, the result is that code with the query's first `state`, whatever else the URL holds |
| Extraction.EmptyCodeIsNoCode | docs/callback/script.js:30 | when the first `code` pair is empty, the result is never a code, even if a later `code` pair is non-empty |
| Extraction.CodeIgnoresFragment | docs/callback/script.js:335-340 | with a non-empty query `code` the result is a code and does not depend on the fragment or the clock |
| Extraction.NoDataExactly | docs/callback/script.js:359-363 | nothing is found exactly when the query has no non-empty `code` or `error` and the fragment step returns nothing (both directions) |
| Extraction.TokenDefaultLifetime | docs/callback/script.js:79-86 | a fragment token without a non-empty `expires_in` is returned with lifetime `3600` and an expiry one hour after now, when now + 1 h is a valid time (within one hour of the largest time value `toISOString` throws instead) |
| Extraction.InvalidExpiryStoresTokenOnly | docs/callback/script.js:71-97 | a fragment token whose `expires_in` has no digit is stored, then the expiry throws; the error is logged, nothing is returned, and the expiry is not stored |
| Extraction.ExpiryOutOfRangeStoresTokenOnly | docs/callback/script.js:78-97 | a fragment token whose `expires_in` is all digits but puts the expiry past 8.64e15 ms (the largest valid time value) is stored, then `toISOString` throws; the error is logged, nothing is returned, and the expiry is not stored |
| Redirect.RedirectParams | docs/callback/script.js:108-126 | definition of `redirectParams`; specified by Redirect.ParamsRoundTrip and Redirect.ExpiresInInjection |
| Redirect.ParamsRoundTrip | docs/callback/script.js:108-126 | the app parses the query back as exactly the response's fields (`code` and `state`; `access_token`, `expires_in` and `state`; or `error`, with `unknown_error` for an empty error), in order, whenever a token's `expires_in` is unreserved text |
| Redirect.ExpiresInInjection | docs/callback/script.js:118 | because `expires_in` is not encoded, a lifetime of `1&state=evil` reaches the app as `expires_in=1` plus a `state` of `evil` that the server never sent |
| Redirect.RedirectSchemes | docs/callback/script.js:129-133 | there are three candidates; their contents are specified by Redirect.CandidatesShareQuery |
| Redirect.XdgUri | docs/callback/script.js:141 | definition of `xdgRedirectUrl`; specified by Redirect.CandidatesShareQuery |
| Redirect.CandidatesShareQuery | docs/callback/script.js:129-141 | each of the three candidates holds a `?`; before its first `?` it is the app, alternative or legacy callback (in that order) and after it the same form-encoded parameters; the `xdg-open:` URI is `xdg-open:` followed by the first candidate |
| Redirect.RedirectLog | docs/callback/script.js:102-136 | definition of the two messages `redirectToApp` logs first; specified by Redirect.SchemesLogPlain |
| Redirect.JsonArray | docs/callback/script.js:136 | definition of `JSON.stringify` on a list of strings; specified by Redirect.SchemesLogPlain |
| Redirect.SchemesLogPlain | docs/callback/script.js:136 | for a code or error response the logged JSON list shows the three URIs verbatim between quotes, with no escapes |
| Sequencer.TryNext | docs/callback/script.js:143-190 | definition of one `tryNextScheme` call on the cascade; specified by Sequencer.Retry, Sequencer.XdgAttempt and Sequencer.Redirection.TryNextScheme |
| Sequencer.Fire | docs/callback/script.js:158-184 | definition of the earliest timer firing; specified by Sequencer.FireRecordsManual, Sequencer.AfterDirect and Sequencer.FallbackFires |
| Sequencer.Start | docs/callback/script.js:101-193 | definition of `redirectToApp` up to its first `tryNextScheme`; specified by Sequencer.StartStep |
| Sequencer.Apply | docs/callback/script.js:146-187 | definition of a step's effect on the page: its messages logged, then the manual screen when the step draws it; specified by Status.WithLogsEffect and Fallback.ShowManualInstructions |
| Sequencer.Redirection.constructor | docs/callback/script.js:129-141 | the closure starts at candidate 0 at the current time, with no timers and no events, and with the candidates and `xdg-open:` URI computed from the response |
| Sequencer.Redirection.TryNextScheme | docs/callback/script.js:143-190 | one `tryNextScheme` call moves the cascade and the page exactly as the functional step does |
| Sequencer.Redirection.ProbeCandidate | docs/callback/script.js:144-171 | the attempt logs "scheme i/3", probes candidate i, schedules a direct navigation 200 ms later on the first attempt only, and schedules the next attempt 800 ms later |
| Sequencer.Redirection.TryXdgOpen | docs/callback/script.js:172-189 | once the candidates are used up, the call tries the `xdg-open:` URI, by navigation or by the catch path |
| Sequencer.Redirection.XdgNavigation | docs/callback/script.js:174-184 | the call logs the `xdg-open:` attempt, navigates there, and schedules the fallback check 1000 ms later |
| Sequencer.Redirection.XdgFailed | docs/callback/script.js:185-188 | when the navigation throws, the call logs both messages and draws the manual screen right away |
| Sequencer.Redirection.FireTimer | docs/callback/script.js:158-184 | the earliest timer fires at its due time: a retry runs `tryNextScheme`; a direct navigation happens only if the page is visible; the fallback check logs and draws the manual screen only if the page is visible |
| Sequencer.RedirectToApp | docs/callback/script.js:101-194 | `redirectToApp` logs the response type and the scheme list, then runs the first `tryNextScheme`; the new cascade it leaves running belongs to that response, on this page's host, and tries exactly that response's candidates and `xdg-open:` URI |
| Sequencer.StartStep | docs/callback/script.js:101-193 | `redirectToApp` returns after probing the first candidate, with exactly two timers pending: the direct navigation at +200 ms and the retry at +800 ms |
| Sequencer.FireRecordsManual | docs/callback/script.js:178-187 | a timer draws the manual screen exactly when it records doing so; it keeps the earlier events and adds at most one |
| Sequencer.AfterDirect | docs/callback/script.js:158-163 | the direct navigation to the first candidate happens at +200 ms unless the page is hidden; only the retry is left pending |
| Sequencer.Retry | docs/callback/script.js:169-171 | a retry probes the next candidate at its due time and schedules the following attempt 800 ms later |
| Sequencer.XdgAttempt | docs/callback/script.js:174-188 | the retry after the third candidate navigates to the `xdg-open:` URI and schedules the fallback check at +1000 ms, or draws the manual screen at once when the navigation throws |
| Sequencer.FallbackFires | docs/callback/script.js:178-184 | the fallback check draws the manual screen only if the page is still visible, and leaves no timer pending |
| Sequencer.Timeline | docs/callback/script.js:143-193 | whatever the page's visibility at each of the five timers, the cascade ends with no timer pending and produces exactly the expected trace: probes at +0, +800 and +1600 ms, the direct navigation at +200 ms unless hidden, then the `xdg-open:` navigation at +2400 ms and the manual screen at +3400 ms unless hidden, or the manual screen at +2400 ms when the navigation throws |
| Sequencer.ManualShownOnce | docs/callback/script.js:178-188 | the manual screen is drawn exactly once, as the last event, when the `xdg-open:` navigation threw or the page was visible at the fallback check; otherwise it is never drawn |
| Sequencer.ProbesInOrder | docs/callback/script.js:143-171 | the probes of the trace are the three candidates in order, 800 ms apart |
| Fallback.ManualScreen | docs/callback/script.js:204-298 | definition of the container's new content; specified by Fallback.KeptIsFirstHeading, Fallback.CopyButtonCopiesDisplayedSecret, Fallback.ErrorScreenOffersNoCopy, Fallback.ScreenFooter and Fallback.RenderAgain |
| Fallback.Present | docs/callback/script.js:197-300 | definition of `showManualInstructions` on the page; specified by Fallback.ShowManualInstructions and Fallback.PresentKeepsConsistent |
| Fallback.FirstH1IsFirstInDocumentOrder | docs/callback/script.js:205 | the `h1` search finds the first `h1` in document order |
| Fallback.KeptIsFirstHeading | docs/callback/script.js:204-207 | at most one old element survives: the first `h1` of the old content; nothing survives exactly when the old content has no `h1` |
| Fallback.RenderAgain | docs/callback/script.js:204-212 | drawing the manual screen again, for any response, gives the screen a single drawing would: the heading is kept once and nothing else of the first screen remains |
| Fallback.CopyButtonCopiesDisplayedSecret | docs/callback/script.js:217-254 | a code or token screen displays the secret, and every copy button on it copies exactly that secret under the label `Copy Code` or `Copy Token` that matches the response type |
| Fallback.ErrorScreenOffersNoCopy | docs/callback/script.js:262-271 | an error screen has no copy button and no expiry note, and it displays the error, or `Unknown error` when the error is empty |
| Fallback.TokenNoteHours | docs/callback/script.js:256-260 | for a lifetime of n seconds the token note shows round(n / 3600) hours and the local time of the expiry |
| Fallback.ScreenFooter | docs/callback/script.js:274-298 | every screen ends with the return button (which goes to `rateme://spotify-callback`) and the debug toggle, followed by the debug element exactly when the page has one |
| Fallback.ScreenKeepsButtonsBelow | docs/callback/script.js:204-254 | drawing the screen keeps the old copy buttons' label indices valid and adds at most the new button |
| Fallback.PresentKeepsConsistent | docs/callback/script.js:197-300 | drawing the screen keeps every copy button and pending revert pointing at an existing label; a code or token screen adds one label, that of its button |
| Fallback.ShowManualInstructions | docs/callback/script.js:197-300 | the status line says to copy the code and the spinner is hidden; when the container exists it is rebuilt from its first `h1` and the new content, and a new copy button adds its label |
| Fallback.BuildScreen | docs/callback/script.js:202-298 | the content built step by step is the kept heading, the `h2`, the response's body and the footer |
| Fallback.CopyToClipboard | docs/callback/script.js:302-330 | a click ends in the page state the settled copy gives: acknowledged when `writeText` resolved, the logged rejection followed by the textarea path when it rejected, and no change at all when `navigator.clipboard` is missing |
| Fallback.CopyByTextarea | docs/callback/script.js:310-329 | the textarea path copies the text when `execCommand` copies, acknowledges the button unless `execCommand` throws, and otherwise logs the failure |
| Fallback.Copy | docs/callback/script.js:302-330 | definition of a settled click of a copy button; specified by Fallback.CopyOutcome and Fallback.CopyKeepsConsistent |
| Fallback.CopyOutcome | docs/callback/script.js:302-330 | the button says `Copied!` and a revert is scheduled unless `navigator.clipboard` is missing, or the clipboard API rejected and `execCommand` threw; the clipboard holds the text exactly when one of the two paths wrote it; the console changes exactly when the clipboard API rejected; the screen is untouched |
| Fallback.UnavailableCopiesNothing | docs/callback/script.js:302-303 | without `navigator.clipboard` a click leaves the clipboard and the button label as they were, even when the textarea fallback would have copied |
| Fallback.IntendedCopy | docs/callback/script.js:302-330 | definition of the corrected copy; specified by Fallback.IntendedFallbackRuns and Fallback.IntendedCopyKeepsConsistent |
| Fallback.IntendedFallbackRuns | docs/callback/script.js:310-329 | in the corrected copy, a browser without `navigator.clipboard` takes the textarea path: the text is copied when `execCommand` copies, the button is acknowledged unless it throws, no rejection is logged; every other outcome equals the script's |
| Fallback.IntendedCopyKeepsConsistent | docs/callback/script.js:302-330 | the corrected copy keeps every copy button and pending revert pointing at an existing label |
| Fallback.Revert | docs/callback/script.js:306-308 | definition of the oldest revert timer firing; specified by Fallback.RevertAfterCopyShowsCopyToken and Fallback.RevertKeepsConsistent |
| Fallback.RevertCopyLabel | docs/callback/script.js:306-308 | the oldest pending revert fires and resets the label of its own button |
| Fallback.RevertAfterCopyShowsCopyToken | docs/callback/script.js:305-307 | after a copy is acknowledged, the revert sets the label to `Copy Token`, even for a code button, because `Copied!` does not contain `Code` |
| Fallback.CopyKeepsConsistent | docs/callback/script.js:302-330 | a copy keeps every copy button and pending revert pointing at an existing label |
| Fallback.RevertKeepsConsistent | docs/callback/script.js:306-308 | a revert keeps every copy button and pending revert pointing at an existing label |
| Bridge.Processed | docs/callback/script.js:333-364 | definition of the page after `processAuthResult`; specified by Bridge.ProcessedCases, Bridge.ProcessedStatus and Bridge.StorageOnlyFromFragment |
| Bridge.Redirected | docs/callback/script.js:337-338 | definition of a success branch on the page; specified by Bridge.RedirectedKeepsStatus |
| Bridge.ProcessAuthResult | docs/callback/script.js:333-364 | a cascade is started exactly when a response was extracted, and it is a new cascade for that response, on this page's host, with that response's candidates and `xdg-open:` URI; the page ends as `processAuthResult` leaves it |
| Bridge.SucceedWith | docs/callback/script.js:337-338 | the success status, then `redirectToApp` for the response; the returned cascade is new, belongs to that response and host, tries that response's candidates and stands where the first `tryNextScheme` left it |
| Bridge.ReportNoData | docs/callback/script.js:359-363 | the no-data status and message, then the spinner is hidden |
| Bridge.ProcessedCases | docs/callback/script.js:333-364 | the page after `processAuthResult` is the code branch, else the token branch, else the no-data branch; the error branch is never taken |
| Bridge.ProcessedStatus | docs/callback/script.js:333-364 | when something was found the status says success and the spinner keeps its state; when nothing was found the status says so, the spinner is hidden, and the last log line explains why |
| Bridge.StorageOnlyFromFragment | docs/callback/script.js:335-340 | when the query holds a code or an error, storage is untouched |
| Bridge.RedirectedKeepsStatus | docs/callback/script.js:337-338 | starting the cascade keeps the success status, the spinner, the storage and the container as they were |
| Bridge.DeliveredToApp | docs/callback/script.js:333-348 | end to end: for the extracted response, the cascade probes the three app callbacks in order, 800 ms apart, and each carries a query from which the app reads back exactly the response's parameters, whenever a token's `expires_in` is unreserved text; otherwise see Redirect.ExpiresInInjection |

## Left out

- The percent-decoder inside `URLSearchParams` is a parameter of the host (`Host.decode`). The receiving app's decoder is modelled as `UriEncoding.PercentDecode`, which leaves malformed escapes as they are.
- Strings are sequences of Unicode scalar values. UTF-16 code units, lone surrogates and the URIError `encodeURIComponent` throws for them are not modelled.
- `innerHTML` is not parsed. The debug element's log is a list of messages, without the `<br>` markup. So the model does not capture that line 10 parses each message as HTML: the decoded query `error` logged at line 43 (for example `<img src=x onerror=...>`) becomes live markup in the debug element, and its event handlers can run script.
- `Date.prototype.toISOString`, `toLocaleString` and the RangeError's text are opaque host functions. `setSeconds` is modelled as adding 1000 ms per second, exactly; daylight-saving and time-zone effects are left out.
- JavaScript numbers are exact rationals (`JsNumber.Number`). Floating-point rounding and the precision limit of `parseInt` on very long digit strings are not modelled.
- There is no negative zero. Hour counts of 10^21 or more are written as plain integers, whereas JavaScript switches to exponent notation there.
- The `localStorage` quota and security exceptions are not modelled. `setItem` always succeeds.
- The `.spinner` element is assumed present. Without it, lines 199 and 358-362 would throw.
- Navigation unloading the page is not modelled. A cascade keeps running until the model stops firing its timers.
- Interleaving of promises and timers is not modelled. All copy-label revert timers last 2000 ms, so they fire in the order they were scheduled, and `Revert` takes the oldest.
- The direct navigation at line 161 cannot throw in the model, unlike the `xdg-open:` assignment (`xdgError`). A throw there would be uncaught inside the timer and would change nothing on the page.
- Iframes are recorded as probe events. What the browser does with a custom-scheme URI is not modelled.
- Some catch blocks are never entered in the model, because nothing before them can throw: the one at lines 164-166 around `setTimeout`, and the one at lines 51-54 of `handleAuthCodeResponse`.
- When the debug element is missing, `appendChild(null)` at line 298 throws after everything else has been appended. The model draws the same screen without the debug element and does not model the exception that propagates.
- The error branch of `processAuthResult` (lines 350-358) is modelled, but `Extraction.ErrorRecheckUnreachable` proves it can never be taken. `Bridge.ProcessAuthResult` therefore treats it as dead code.
- The temporary `textarea` of the clipboard fallback (lines 313-318 and 328) is not modelled: it is appended, focused, selected and removed again, so the only lasting effects are the focus change and what `execCommand` copies; `LegacyCopy` says what `execCommand` did.
- Without `navigator.clipboard`, the `TypeError` thrown at line 303 escapes the click handler. The model leaves the page unchanged and does not record the browser's report of the uncaught exception.
- `Sequencer.Fire` takes the first pending timer. The model does not state as an invariant that pending timers are ordered by due time; `Sequencer.Timeline` writes out every timer list that arises, and each is in ascending order.
- The revert timer sets `Copy Token` on a code button too, as the code of lines 307 and 323 does. The model follows the code.
- `docs/script.js` and the native platform files `linux/my_application.cc`, `android/.../MainActivity.kt` and `macos/Runner/MainFlutterWindow.swift` are not part of this model.

## Findings

| source | as written | input that shows it | evidently intended | confidence | as-written member | corrected member |
|---|---|---|---|---|---|---|
| docs/callback/script.js:303 | `navigator.clipboard.writeText(text)` is called before any fallback is attached, so where `navigator.clipboard` is undefined the call throws a `TypeError` and the `.catch` handler with the textarea fallback never runs | a click on the copy button in a browser, or an insecure (non-HTTPS) page, without `navigator.clipboard` | the textarea fallback "for browsers that don't support clipboard API" (line 312) runs and copies the text | not executed | Fallback.UnavailableCopiesNothing | Fallback.IntendedFallbackRuns |
