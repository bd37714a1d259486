/** The redirect targets of `redirectToApp` in script.js: the query string carrying
    the response back to the app, the three custom-scheme URIs tried in turn, the
    `xdg-open:` URI tried last, and the JSON text of the URI list that is logged. */
module Redirect {
  import opened Common
  import opened Form
  import UriEncoding
  import opened Extraction

  const AppCallback := "rateme://spotify-callback"
  const AltCallback := "com.ali3nated0.rateme://spotify-callback"
  const LegacyCallback := "com.rateme.app://spotify-callback"

  /** `&state=...` when the response carries a non-empty state. */
  function StateParam(state: Option<string>): string
  {
    if Truthy(state) then "&state=" + UriEncoding.Encode(state.value) else ""
  }

  /** `redirectParams`. The token's `expires_in` goes out exactly as it came in,
      without `encodeURIComponent` (see `ExpiresInInjection`). */
  function RedirectParams(r: AuthResponse): string
  {
    match r
    case Code(code, state) => "?code=" + UriEncoding.Encode(code) + StateParam(state)
    case Token(token, expiresIn, state, _) =>
      "?access_token=" + UriEncoding.Encode(token) + "&expires_in=" + expiresIn + StateParam(state)
    case Error(error) => "?error=" + UriEncoding.Encode(if error != "" then error else "unknown_error")
  }

  /** `redirectSchemes`, in the order they are tried. */
  function RedirectSchemes(r: AuthResponse): (uris: seq<string>)
    ensures |uris| == 3
  {
    var params := RedirectParams(r);
    [AppCallback + params, AltCallback + params, LegacyCallback + params]
  }

  /** `xdgRedirectUrl`. */
  function XdgUri(r: AuthResponse): string
  {
    "xdg-open:" + AppCallback + RedirectParams(r)
  }

  /** The first two messages `redirectToApp` logs. */
  function RedirectLog(r: AuthResponse): seq<string>
  {
    [ "Redirecting to app with auth response type: " + ResponseType(r),
      "Attempting redirects with schemes: " + JsonArray(RedirectSchemes(r)) ]
  }

  // ---------------------------------------------------------------------
  // JSON.stringify of a list of strings (ECMA-262, QuoteJSONString)

  function HexLower(d: nat): char
    requires d < 16
  {
    "0123456789abcdef"[d]
  }

  /** Whether `JSON.stringify` writes `c` as an escape. */
  predicate JsonEscaped(c: char)
  {
    c == '"' || c == '\\' || c < ' '
  }

  function JsonChar(c: char): (r: string)
    ensures !JsonEscaped(c) <==> r == [c]
  {
    if c == '"' then "\\\""
    else if c == '\\' then "\\\\"
    else if c == '\U{8}' then "\\b"
    else if c == '\t' then "\\t"
    else if c == '\n' then "\\n"
    else if c == '\U{C}' then "\\f"
    else if c == '\r' then "\\r"
    else if c < ' ' then "\\u00" + [HexLower(c as int / 16), HexLower(c as int % 16)]
    else [c]
  }

  function JsonChars(s: string): string
  {
    if s == [] then [] else JsonChar(s[0]) + JsonChars(s[1..])
  }

  function JsonString(s: string): string
  {
    "\"" + JsonChars(s) + "\""
  }

  function JsonItems(items: seq<string>): string
  {
    if items == [] then []
    else if |items| == 1 then JsonString(items[0])
    else JsonString(items[0]) + "," + JsonItems(items[1..])
  }

  function JsonArray(items: seq<string>): string
  {
    "[" + JsonItems(items) + "]"
  }

  /** Text without quotes, backslashes or control characters is written verbatim. */
  lemma {:induction false} JsonCharsPlain(s: string)
    requires JsonPlain(s)
    ensures JsonChars(s) == s
  {
    if s != [] {
      JsonCharsPlain(s[1..]);
      assert s == [s[0]] + s[1..];
    }
  }

  // ---------------------------------------------------------------------
  // The query string as the app reads it

  function StatePairs(state: Option<string>): seq<Pair>
  {
    if Truthy(state) then [Pair("state", UriEncoding.Encode(state.value))] else []
  }

  /** The pairs `redirectParams` is made of, before any decoding. */
  function WirePairs(r: AuthResponse): (ps: seq<Pair>)
    ensures |ps| >= 1
  {
    match r
    case Code(code, state) => [Pair("code", UriEncoding.Encode(code))] + StatePairs(state)
    case Token(token, expiresIn, state, _) =>
      [Pair("access_token", UriEncoding.Encode(token)), Pair("expires_in", expiresIn)] + StatePairs(state)
    case Error(error) => [Pair("error", UriEncoding.Encode(if error != "" then error else "unknown_error"))]
  }

  /** What the app should find in the query: the response's own fields. */
  function Delivered(r: AuthResponse): (ps: seq<Pair>)
    ensures |ps| >= 1
  {
    match r
    case Code(code, state) => [Pair("code", code)] + DeliveredState(state)
    case Token(token, expiresIn, state, _) =>
      [Pair("access_token", token), Pair("expires_in", expiresIn)] + DeliveredState(state)
    case Error(error) => [Pair("error", if error != "" then error else "unknown_error")]
  }

  function DeliveredState(state: Option<string>): seq<Pair>
  {
    if Truthy(state) then [Pair("state", state.value)] else []
  }

  lemma SerializeOne(n: string, v: string)
    ensures SerializeAll([Pair(n, v)]) == n + "=" + v
  {
  }

  lemma SerializeTwo(n0: string, v0: string, n1: string, v1: string)
    ensures SerializeAll([Pair(n0, v0), Pair(n1, v1)]) == n0 + "=" + v0 + "&" + n1 + "=" + v1
  {
    var ps := [Pair(n0, v0), Pair(n1, v1)];
    var parts := seq(|ps|, i requires 0 <= i < |ps| => Serialized(ps[i]));
    assert parts == [n0 + "=" + v0, n1 + "=" + v1];
    assert parts[1..] == [n1 + "=" + v1];
    assert Join(parts, '&') == (n0 + "=" + v0) + "&" + (n1 + "=" + v1);
  }

  lemma SerializeThree(n0: string, v0: string, n1: string, v1: string, n2: string, v2: string)
    ensures SerializeAll([Pair(n0, v0), Pair(n1, v1), Pair(n2, v2)]) ==
            n0 + "=" + v0 + "&" + n1 + "=" + v1 + "&" + n2 + "=" + v2
  {
    var ps := [Pair(n0, v0), Pair(n1, v1), Pair(n2, v2)];
    var parts := seq(|ps|, i requires 0 <= i < |ps| => Serialized(ps[i]));
    assert parts == [n0 + "=" + v0, n1 + "=" + v1, n2 + "=" + v2];
    assert parts[1..] == [n1 + "=" + v1, n2 + "=" + v2];
    assert parts[1..][1..] == [n2 + "=" + v2];
    assert Join(parts[1..], '&') == (n1 + "=" + v1) + "&" + (n2 + "=" + v2);
    assert Join(parts, '&') == (n0 + "=" + v0) + "&" + ((n1 + "=" + v1) + "&" + (n2 + "=" + v2));
  }

  /** A query of two pairs, whatever the literal text around the values. */
  lemma QueryOfTwo(n0: string, v0: string, n1: string, v1: string, head: string, mid: string)
    requires head == "?" + n0 + "=" && mid == "&" + n1 + "="
    ensures head + v0 + (mid + v1) == "?" + SerializeAll([Pair(n0, v0), Pair(n1, v1)])
    ensures head + v0 + mid + v1 == "?" + SerializeAll([Pair(n0, v0), Pair(n1, v1)])
  {
    SerializeTwo(n0, v0, n1, v1);
    assert head + v0 + (mid + v1) == "?" + (n0 + "=" + v0 + "&" + n1 + "=" + v1);
    assert head + v0 + mid + v1 == "?" + (n0 + "=" + v0 + "&" + n1 + "=" + v1);
  }

  /** A query of three pairs, whatever the literal text around the values. */
  lemma QueryOfThree(n0: string, v0: string, n1: string, v1: string, n2: string, v2: string,
                     head: string, mid: string, tail: string)
    requires head == "?" + n0 + "=" && mid == "&" + n1 + "=" && tail == "&" + n2 + "="
    ensures head + v0 + mid + v1 + (tail + v2) ==
            "?" + SerializeAll([Pair(n0, v0), Pair(n1, v1), Pair(n2, v2)])
    ensures head + v0 + mid + (v1 + tail + v2) ==
            "?" + SerializeAll([Pair(n0, v0), Pair(n1, v1), Pair(n2, v2)])
  {
    SerializeThree(n0, v0, n1, v1, n2, v2);
    assert head + v0 + mid + v1 + (tail + v2) ==
           "?" + (n0 + "=" + v0 + "&" + n1 + "=" + v1 + "&" + n2 + "=" + v2);
    assert head + v0 + mid + (v1 + tail + v2) ==
           "?" + (n0 + "=" + v0 + "&" + n1 + "=" + v1 + "&" + n2 + "=" + v2);
  }

  lemma CodeWire(code: string, state: Option<string>)
    requires Truthy(state)
    ensures RedirectParams(Code(code, state)) == "?" + SerializeAll(WirePairs(Code(code, state)))
  {
    var c := UriEncoding.Encode(code);
    var st := UriEncoding.Encode(state.value);
    QueryOfTwo("code", c, "state", st, "?code=", "&state=");
    assert RedirectParams(Code(code, state)) == "?code=" + c + ("&state=" + st);
    assert WirePairs(Code(code, state)) == [Pair("code", c), Pair("state", st)];
  }

  lemma CodeWireNoState(code: string, state: Option<string>)
    requires !Truthy(state)
    ensures RedirectParams(Code(code, state)) == "?" + SerializeAll(WirePairs(Code(code, state)))
  {
    var c := UriEncoding.Encode(code);
    SerializeOne("code", c);
    assert WirePairs(Code(code, state)) == [Pair("code", c)];
  }

  lemma TokenQuery(tok: string, expiresIn: string, st: string)
    ensures "?access_token=" + tok + "&expires_in=" + expiresIn + ("&state=" + st) ==
            "?" + SerializeAll([Pair("access_token", tok), Pair("expires_in", expiresIn), Pair("state", st)])
    ensures "?access_token=" + tok + "&expires_in=" + expiresIn ==
            "?" + SerializeAll([Pair("access_token", tok), Pair("expires_in", expiresIn)])
  {
    QueryOfThree("access_token", tok, "expires_in", expiresIn, "state", st,
                 "?access_token=", "&expires_in=", "&state=");
    QueryOfTwo("access_token", tok, "expires_in", expiresIn, "?access_token=", "&expires_in=");
  }

  lemma TokenWire(token: string, expiresIn: string, state: Option<string>, t: int)
    ensures var r := Token(token, expiresIn, state, t);
      RedirectParams(r) == "?" + SerializeAll(WirePairs(r))
  {
    var r := Token(token, expiresIn, state, t);
    var tok := UriEncoding.Encode(token);
    var st := if Truthy(state) then UriEncoding.Encode(state.value) else "";
    TokenQuery(tok, expiresIn, st);
    if Truthy(state) {
      assert RedirectParams(r) == "?access_token=" + tok + "&expires_in=" + expiresIn + ("&state=" + st);
      assert WirePairs(r) == [Pair("access_token", tok), Pair("expires_in", expiresIn), Pair("state", st)];
    } else {
      assert RedirectParams(r) == "?access_token=" + tok + "&expires_in=" + expiresIn;
      assert WirePairs(r) == [Pair("access_token", tok), Pair("expires_in", expiresIn)];
    }
  }

  /** `redirectParams` is the serialisation of `WirePairs`. */
  lemma ParamsSerialize(r: AuthResponse)
    ensures RedirectParams(r) == "?" + SerializeAll(WirePairs(r))
  {
    match r
    case Code(code, state) =>
      if Truthy(state) { CodeWire(code, state); } else { CodeWireNoState(code, state); }
    case Token(token, expiresIn, state, t) =>
      TokenWire(token, expiresIn, state, t);
    case Error(error) =>
      SerializeOne("error", UriEncoding.Encode(if error != "" then error else "unknown_error"));
  }

  /** Anything `encodeURIComponent` produces is safe inside a query pair. */
  lemma EncodedIsWireSafe(s: string)
    ensures '&' !in UriEncoding.Encode(s) && '=' !in UriEncoding.Encode(s) && '+' !in UriEncoding.Encode(s)
  {
    UriEncoding.EncodeAlphabet(s);
    var e := UriEncoding.Encode(s);
    assert forall i :: 0 <= i < |e| ==> e[i] != '&' && e[i] != '=' && e[i] != '+';
  }

  /** `p` survives the form parser and decodes to `q`. */
  predicate ReadsAs(p: Pair, q: Pair)
  {
    WireSafe(p) && q == Pair(UriEncoding.PercentDecode(p.name), UriEncoding.PercentDecode(p.value))
  }

  /** A pair whose value is `encodeURIComponent` output reads back as the raw value. */
  lemma EncodedPairReads(name: string, value: string)
    requires '%' !in name && '&' !in name && '=' !in name && '+' !in name
    ensures ReadsAs(Pair(name, UriEncoding.Encode(value)), Pair(name, value))
  {
    UriEncoding.PercentDecodePlain(name);
    EncodedIsWireSafe(value);
    UriEncoding.PercentDecodeEncode(value);
  }

  /** A pair of plain text reads back as itself. */
  lemma PlainPairReads(name: string, value: string)
    requires '%' !in name && '&' !in name && '=' !in name && '+' !in name
    requires '%' !in value && '&' !in value && '+' !in value
    ensures ReadsAs(Pair(name, value), Pair(name, value))
  {
    UriEncoding.PercentDecodePlain(name);
    UriEncoding.PercentDecodePlain(value);
  }

  /** Serialised pairs read back as `want` when each one reads as its entry. */
  lemma ReadsBackEach(ps: seq<Pair>, want: seq<Pair>)
    requires |ps| >= 1 && AllRead(ps, want)
    ensures Parse("?" + SerializeAll(ps), UriEncoding.PercentDecode) == want
  {
    ParseSerializeAll(ps, UriEncoding.PercentDecode);
  }

  /** Every pair of `ps` reads as the matching entry of `want`. */
  predicate AllRead(ps: seq<Pair>, want: seq<Pair>)
  {
    |ps| == |want| && forall i :: 0 <= i < |ps| ==> ReadsAs(ps[i], want[i])
  }

  lemma AllReadAppend(ps1: seq<Pair>, want1: seq<Pair>, ps2: seq<Pair>, want2: seq<Pair>)
    requires AllRead(ps1, want1) && AllRead(ps2, want2)
    ensures AllRead(ps1 + ps2, want1 + want2)
  {
    forall i | 0 <= i < |ps1 + ps2| ensures ReadsAs((ps1 + ps2)[i], (want1 + want2)[i]) {
      if i >= |ps1| {
        assert (ps1 + ps2)[i] == ps2[i - |ps1|];
        assert (want1 + want2)[i] == want2[i - |ps1|];
      }
    }
  }

  lemma StateReads(state: Option<string>)
    ensures AllRead(StatePairs(state), DeliveredState(state))
  {
    if Truthy(state) {
      EncodedPairReads("state", state.value);
    }
  }

  lemma CodeWireReads(code: string, state: Option<string>)
    ensures AllRead(WirePairs(Code(code, state)), Delivered(Code(code, state)))
  {
    EncodedPairReads("code", code);
    StateReads(state);
    AllReadAppend([Pair("code", UriEncoding.Encode(code))], [Pair("code", code)],
                  StatePairs(state), DeliveredState(state));
  }

  /** Unreserved text is plain to the form parser and to percent-decoding. */
  lemma UnreservedIsPlain(s: string)
    requires forall i :: 0 <= i < |s| ==> UriEncoding.Unreserved(s[i])
    ensures '%' !in s && '&' !in s && '+' !in s
  {
    assert forall k :: 0 <= k < |s| ==> s[k] != '&' && s[k] != '+' && s[k] != '%';
  }

  lemma AllReadTwo(p0: Pair, p1: Pair, q0: Pair, q1: Pair)
    requires ReadsAs(p0, q0) && ReadsAs(p1, q1)
    ensures AllRead([p0, p1], [q0, q1])
  {
  }

  lemma AllReadThree(p0: Pair, p1: Pair, p2: Pair, q0: Pair, q1: Pair, q2: Pair)
    requires ReadsAs(p0, q0) && ReadsAs(p1, q1) && ReadsAs(p2, q2)
    ensures AllRead([p0, p1, p2], [q0, q1, q2])
  {
  }

  /** An encoded pair followed by a plain pair reads back as the raw pairs. */
  lemma EncodedThenPlainRead(n0: string, v0: string, n1: string, v1: string)
    requires '%' !in n0 && '&' !in n0 && '=' !in n0 && '+' !in n0
    requires '%' !in n1 && '&' !in n1 && '=' !in n1 && '+' !in n1
    requires '%' !in v1 && '&' !in v1 && '+' !in v1
    ensures AllRead([Pair(n0, UriEncoding.Encode(v0)), Pair(n1, v1)], [Pair(n0, v0), Pair(n1, v1)])
  {
    EncodedPairReads(n0, v0);
    PlainPairReads(n1, v1);
    AllReadTwo(Pair(n0, UriEncoding.Encode(v0)), Pair(n1, v1), Pair(n0, v0), Pair(n1, v1));
  }

  lemma TokenPairsRead(token: string, expiresIn: string)
    requires '%' !in expiresIn && '&' !in expiresIn && '+' !in expiresIn
    ensures AllRead([Pair("access_token", UriEncoding.Encode(token)), Pair("expires_in", expiresIn)],
                    [Pair("access_token", token), Pair("expires_in", expiresIn)])
  {
    EncodedThenPlainRead("access_token", token, "expires_in", expiresIn);
  }

  lemma TokenWireReads(token: string, expiresIn: string, state: Option<string>, t: int)
    requires '%' !in expiresIn && '&' !in expiresIn && '+' !in expiresIn
    ensures AllRead(WirePairs(Token(token, expiresIn, state, t)), Delivered(Token(token, expiresIn, state, t)))
  {
    var a := Pair("access_token", UriEncoding.Encode(token));
    var e := Pair("expires_in", expiresIn);
    TokenPairsRead(token, expiresIn);
    StateReads(state);
    AllReadAppend([a, e], [Pair("access_token", token), e], StatePairs(state), DeliveredState(state));
  }

  lemma ErrorWireReads(error: string)
    ensures AllRead(WirePairs(Error(error)), Delivered(Error(error)))
  {
    EncodedPairReads("error", if error != "" then error else "unknown_error");
  }

  /** The query string reads back, under form decoding, as exactly the pairs the
      response holds, in order, provided a token response's `expires_in` consists of
      unreserved characters only (as the number the authorization server sends does). */
  lemma ParamsRoundTrip(r: AuthResponse)
    requires r.Token? ==> forall i :: 0 <= i < |r.expiresIn| ==> UriEncoding.Unreserved(r.expiresIn[i])
    ensures Parse(RedirectParams(r), UriEncoding.PercentDecode) == Delivered(r)
  {
    match r {
      case Code(code, state) => CodeWireReads(code, state);
      case Token(token, expiresIn, state, t) =>
        UnreservedIsPlain(expiresIn);
        TokenWireReads(token, expiresIn, state, t);
      case Error(error) => ErrorWireReads(error);
    }
    ParamsSerialize(r);
    ReadsBackEach(WirePairs(r), Delivered(r));
  }

  lemma InjectedWire(tok: string)
    ensures "?access_token=" + tok + "&expires_in=" + "1&state=evil" ==
            "?" + SerializeAll([Pair("access_token", tok), Pair("expires_in", "1"), Pair("state", "evil")])
  {
    QueryOfThree("access_token", tok, "expires_in", "1", "state", "evil",
                 "?access_token=", "&expires_in=", "&state=");
    assert "1&state=evil" == "1" + "&state=" + "evil";
  }

  /** Because `expires_in` is not encoded, a token response whose lifetime text is
      `1&state=evil` reaches the app with `expires_in=1` and a `state` of `evil` that
      the authorization server never sent. */
  lemma InjectedParams(token: string, expiryTime: int)
    ensures RedirectParams(Token(token, "1&state=evil", None, expiryTime)) ==
      "?" + SerializeAll([Pair("access_token", UriEncoding.Encode(token)), Pair("expires_in", "1"), Pair("state", "evil")])
  {
    var tok := UriEncoding.Encode(token);
    InjectedWire(tok);
    assert RedirectParams(Token(token, "1&state=evil", None, expiryTime)) ==
      "?access_token=" + tok + "&expires_in=" + "1&state=evil";
  }

  lemma InjectedPairsRead(token: string)
    ensures AllRead([Pair("access_token", UriEncoding.Encode(token)), Pair("expires_in", "1"), Pair("state", "evil")],
                    [Pair("access_token", token), Pair("expires_in", "1"), Pair("state", "evil")])
  {
    EncodedThenTwoPlainRead("access_token", token, "expires_in", "1", "state", "evil");
  }

  /** An encoded pair followed by two plain pairs reads back as the raw pairs. */
  lemma EncodedThenTwoPlainRead(n0: string, v0: string, n1: string, v1: string, n2: string, v2: string)
    requires '%' !in n0 && '&' !in n0 && '=' !in n0 && '+' !in n0
    requires '%' !in n1 && '&' !in n1 && '=' !in n1 && '+' !in n1
    requires '%' !in v1 && '&' !in v1 && '+' !in v1
    requires '%' !in n2 && '&' !in n2 && '=' !in n2 && '+' !in n2
    requires '%' !in v2 && '&' !in v2 && '+' !in v2
    ensures AllRead([Pair(n0, UriEncoding.Encode(v0)), Pair(n1, v1), Pair(n2, v2)],
                    [Pair(n0, v0), Pair(n1, v1), Pair(n2, v2)])
  {
    EncodedPairReads(n0, v0);
    PlainPairReads(n1, v1);
    PlainPairReads(n2, v2);
    AllReadThree(Pair(n0, UriEncoding.Encode(v0)), Pair(n1, v1), Pair(n2, v2),
                 Pair(n0, v0), Pair(n1, v1), Pair(n2, v2));
  }

  lemma ExpiresInInjection(token: string, expiryTime: int)
    ensures var q := Parse(RedirectParams(Token(token, "1&state=evil", None, expiryTime)), UriEncoding.PercentDecode);
      Get(q, "expires_in") == Some("1") && Get(q, "state") == Some("evil")
  {
    var a := Pair("access_token", UriEncoding.Encode(token));
    var e := Pair("expires_in", "1");
    var st := Pair("state", "evil");
    var q := [Pair("access_token", token), e, st];
    InjectedParams(token, expiryTime);
    InjectedPairsRead(token);
    ReadsBackEach([a, e, st], q);
    GetOfThree(q[0], e, st);
  }

  /** The query always begins with its `?`. */
  lemma ParamsStartWithQuestionMark(r: AuthResponse)
    ensures |RedirectParams(r)| >= 1 && RedirectParams(r)[0] == '?'
  {
  }

  lemma CallbacksHaveNoQuery()
    ensures '?' !in AppCallback && '?' !in AltCallback && '?' !in LegacyCallback
  {
    AppCallbackHasNoQuery();
    AltCallbackHasNoQuery();
    LegacyCallbackHasNoQuery();
  }

  lemma AppCallbackHasNoQuery()
    ensures '?' !in AppCallback
  {
  }

  lemma AltCallbackHasNoQuery()
    ensures '?' !in AltCallback
  {
  }

  lemma LegacyCallbackHasNoQuery()
    ensures '?' !in LegacyCallback
  {
  }

  /** How an app reads a candidate: up to its first `?` is the callback, and the rest is
      the query without its `?`. */
  lemma CandidateSplits(callback: string, query: string)
    requires '?' !in callback && |query| >= 1 && query[0] == '?'
    ensures var u := callback + query;
      '?' in u && u[..IndexOf(u, '?')] == callback && u[IndexOf(u, '?') + 1..] == query[1..]
  {
    var u := callback + query;
    assert u == callback + ['?'] + query[1..];
    IndexOfAfterFree(callback, '?', query[1..]);
    assert u[..|callback|] == callback;
    assert u[|callback| + 1..] == query[1..];
  }

  /** The three candidates built from one query split into their callbacks and it. */
  lemma SchemesSplit(schemes: seq<string>, query: string)
    requires |query| >= 1 && query[0] == '?'
    requires schemes == [AppCallback + query, AltCallback + query, LegacyCallback + query]
    ensures forall i :: 0 <= i < 3 ==>
      var u := schemes[i];
      '?' in u && u[..IndexOf(u, '?')] == [AppCallback, AltCallback, LegacyCallback][i] &&
      u[IndexOf(u, '?') + 1..] == query[1..]
  {
    var callbacks := [AppCallback, AltCallback, LegacyCallback];
    CallbacksHaveNoQuery();
    forall i | 0 <= i < 3
      ensures var u := schemes[i];
        '?' in u && u[..IndexOf(u, '?')] == callbacks[i] && u[IndexOf(u, '?') + 1..] == query[1..]
    {
      assert schemes[i] == callbacks[i] + query;
      CandidateSplits(callbacks[i], query);
    }
  }

  /** Each candidate splits at its first `?` into the app, alternative or legacy
      callback, in that order, and the same query; the `xdg-open:` URI is the first
      candidate behind its prefix. */
  lemma CandidatesShareQuery(r: AuthResponse)
    ensures forall i :: 0 <= i < 3 ==>
      var u := RedirectSchemes(r)[i];
      '?' in u && u[..IndexOf(u, '?')] == [AppCallback, AltCallback, LegacyCallback][i] &&
      u[IndexOf(u, '?') + 1..] == RedirectParams(r)[1..]
    ensures var x := XdgUri(r); |x| >= 9 && x[..9] == "xdg-open:" && x[9..] == RedirectSchemes(r)[0]
  {
    ParamsStartWithQuestionMark(r);
    SchemesSplit(RedirectSchemes(r), RedirectParams(r));
    XdgWrapsFirst(r);
  }

  lemma XdgWrapsFirst(r: AuthResponse)
    ensures var x := XdgUri(r); |x| >= 9 && x[..9] == "xdg-open:" && x[9..] == RedirectSchemes(r)[0]
  {
    XdgParts(RedirectParams(r));
  }

  lemma XdgParts(query: string)
    ensures var x := "xdg-open:" + AppCallback + query;
      |x| >= 9 && x[..9] == "xdg-open:" && x[9..] == AppCallback + query
  {
    var x := "xdg-open:" + AppCallback + query;
    assert x == "xdg-open:" + (AppCallback + query);
  }

  /** No character of `s` needs a JSON escape. */
  predicate JsonPlain(s: string)
  {
    forall i :: 0 <= i < |s| ==> !JsonEscaped(s[i])
  }

  lemma JsonPlainAppend(a: string, b: string)
    requires JsonPlain(a) && JsonPlain(b)
    ensures JsonPlain(a + b)
  {
    forall i | 0 <= i < |a + b| ensures !JsonEscaped((a + b)[i]) {
      if i >= |a| {
        assert (a + b)[i] == b[i - |a|];
      }
    }
  }

  lemma EncodedJsonPlain(s: string)
    ensures JsonPlain(UriEncoding.Encode(s))
  {
    var t := UriEncoding.Encode(s);
    UriEncoding.EncodeAlphabet(s);
    forall i | 0 <= i < |t| ensures !JsonEscaped(t[i]) {
      AlphabetCharPlain(t[i]);
    }
  }

  lemma ParamsJsonPlain(r: AuthResponse)
    requires !r.Token?
    ensures JsonPlain(RedirectParams(r))
  {
    match r {
      case Code(code, state) =>
        assert JsonPlain("?code=");
        EncodedAfterPlain("?code=", code);
        StateParamPlain(state);
        JsonPlainAppend("?code=" + UriEncoding.Encode(code), StateParam(state));
      case Error(error) =>
        assert JsonPlain("?error=");
        EncodedAfterPlain("?error=", if error != "" then error else "unknown_error");
    }
  }

  lemma EncodedAfterPlain(prefix: string, s: string)
    requires JsonPlain(prefix)
    ensures JsonPlain(prefix + UriEncoding.Encode(s))
  {
    EncodedJsonPlain(s);
    JsonPlainAppend(prefix, UriEncoding.Encode(s));
  }

  lemma StateParamPlain(state: Option<string>)
    ensures JsonPlain(StateParam(state))
  {
    if Truthy(state) {
      assert JsonPlain("&state=");
      EncodedAfterPlain("&state=", state.value);
    }
  }

  /** The scheme list is logged verbatim between quotes, since the URIs of a code or
      error response contain no character that JSON has to escape. */
  lemma SchemesLogPlain(r: AuthResponse)
    requires !r.Token?
    ensures var u := RedirectSchemes(r);
      JsonArray(u) == "[" + Quoted(u[0]) + "," + Quoted(u[1]) + "," + Quoted(u[2]) + "]"
  {
    var u := RedirectSchemes(r);
    var params := RedirectParams(r);
    ParamsJsonPlain(r);
    CallbacksPlain();
    JsonPlainAppend(AppCallback, params);
    JsonPlainAppend(AltCallback, params);
    JsonPlainAppend(LegacyCallback, params);
    PlainArrayOfThree(u[0], u[1], u[2]);
    assert u == [u[0], u[1], u[2]];
  }

  lemma CallbacksPlain()
    ensures JsonPlain(AppCallback) && JsonPlain(AltCallback) && JsonPlain(LegacyCallback)
  {
    AppCallbackPlain();
    AltCallbackPlain();
    LegacyCallbackPlain();
  }

  lemma AppCallbackPlain()
    ensures JsonPlain(AppCallback)
  {
  }

  lemma AltCallbackPlain()
    ensures JsonPlain(AltCallback)
  {
  }

  lemma LegacyCallbackPlain()
    ensures JsonPlain(LegacyCallback)
  {
  }

  /** `s` between double quotes. */
  function Quoted(s: string): string
  {
    "\"" + s + "\""
  }

  lemma PlainString(a: string)
    requires JsonPlain(a)
    ensures JsonString(a) == Quoted(a)
  {
    JsonCharsPlain(a);
  }

  /** A list of two or more items is the first, a comma, and the rest. */
  lemma ItemsCons(a: string, rest: seq<string>)
    requires rest != []
    ensures JsonItems([a] + rest) == JsonString(a) + "," + JsonItems(rest)
  {
    assert ([a] + rest)[1..] == rest;
  }

  lemma PlainArrayOfThree(a: string, b: string, c: string)
    requires JsonPlain(a) && JsonPlain(b) && JsonPlain(c)
    ensures JsonArray([a, b, c]) == "[" + Quoted(a) + "," + Quoted(b) + "," + Quoted(c) + "]"
  {
    ArrayOfThree(a, b, c);
    PlainString(a);
    PlainString(b);
    PlainString(c);
  }

  /** `JSON.stringify` of a list of three strings. */
  lemma ArrayOfThree(a: string, b: string, c: string)
    ensures JsonArray([a, b, c]) == "[" + JsonString(a) + "," + JsonString(b) + "," + JsonString(c) + "]"
  {
    var qa, qb, qc := JsonString(a), JsonString(b), JsonString(c);
    assert JsonItems([c]) == qc;
    ItemsCons(b, [c]);
    assert [b] + [c] == [b, c];
    ItemsCons(a, [b, c]);
    assert [a] + [b, c] == [a, b, c];
    FiveParts("[", qa + ",", qb + ",", qc, "]");
  }

  lemma FiveParts(p0: string, p1: string, p2: string, p3: string, p4: string)
    ensures p0 + (p1 + (p2 + p3)) + p4 == p0 + p1 + p2 + p3 + p4
  {
  }

  /** Unreserved characters and `%` need no JSON escape. */
  lemma AlphabetCharPlain(c: char)
    requires UriEncoding.Unreserved(c) || c == '%'
    ensures !JsonEscaped(c)
  {
  }
}
