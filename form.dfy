/** URLSearchParams as the page script uses it: the
    application/x-www-form-urlencoded parser of the WHATWG URL Standard
    (section 5.1) and `get`, which returns the first value under a name.
    Percent-decoding is a parameter: the model splits and replaces `+`
    exactly, and leaves byte-level decoding to the caller's `decode`. */
module Form {
  import opened Common

  /** One name/value pair, in the order the string lists them. */
  datatype Pair = Pair(name: string, value: string)

  /** Splits `s` on every `sep`; `"a&&b"` gives `["a", "", "b"]`. */
  function Split(s: string, sep: char): (parts: seq<string>)
    ensures |parts| >= 1
    ensures forall i :: 0 <= i < |parts| ==> sep !in parts[i]
    decreases |s|
  {
    if sep !in s then [s]
    else
      var k := IndexOf(s, sep);
      [s[..k]] + Split(s[k + 1..], sep)
  }

  /** Glues `parts` together with `sep` between neighbours (the inverse of `Split`). */
  function Join(parts: seq<string>, sep: char): string
    requires |parts| >= 1
  {
    if |parts| == 1 then parts[0] else parts[0] + [sep] + Join(parts[1..], sep)
  }

  lemma IndexOfAfterFree(a: string, sep: char, b: string)
    requires sep !in a
    ensures sep in a + [sep] + b
    ensures IndexOf(a + [sep] + b, sep) == |a|
  {
    var s := a + [sep] + b;
    assert s[|a|] == sep;
    assert s[..|a|] == a;
  }

  /** Splitting at the first separator. */
  lemma SplitAtFirst(a: string, sep: char, b: string)
    requires sep !in a
    ensures Split(a + [sep] + b, sep) == [a] + Split(b, sep)
  {
    var s := a + [sep] + b;
    IndexOfAfterFree(a, sep, b);
    assert s[..|a|] == a;
    assert s[|a| + 1..] == b;
  }

  /** Splitting a joined list gives the list back when no part contains the separator. */
  lemma {:induction false} SplitJoin(parts: seq<string>, sep: char)
    requires |parts| >= 1
    requires forall i :: 0 <= i < |parts| ==> sep !in parts[i]
    ensures Split(Join(parts, sep), sep) == parts
  {
    if |parts| > 1 {
      var tail := parts[1..];
      assert forall i :: 0 <= i < |tail| ==> tail[i] == parts[i + 1];
      SplitJoin(tail, sep);
      SplitAtFirst(parts[0], sep, Join(tail, sep));
      assert parts == [parts[0]] + tail;
    }
  }

  /** Replaces every `+` by a space, as the form parser does before decoding. */
  function ReplacePlus(s: string): (r: string)
    ensures |r| == |s|
    ensures forall i :: 0 <= i < |s| ==> r[i] == if s[i] == '+' then ' ' else s[i]
  {
    if s == [] then [] else [if s[0] == '+' then ' ' else s[0]] + ReplacePlus(s[1..])
  }

  /** The `URLSearchParams` constructor drops one leading `?`. */
  function DropQuestionMark(s: string): string
  {
    if |s| > 0 && s[0] == '?' then s[1..] else s
  }

  /** One non-empty `&`-separated sequence: name before the first `=`, value after it
      (empty when there is no `=`), `+` replaced, then decoded. */
  function ParsePart(part: string, decode: string -> string): Pair
  {
    if '=' in part then
      var k := IndexOf(part, '=');
      Pair(decode(ReplacePlus(part[..k])), decode(ReplacePlus(part[k + 1..])))
    else
      Pair(decode(ReplacePlus(part)), "")
  }

  /** Parses every sequence in order, skipping the empty ones. */
  function ParseParts(parts: seq<string>, decode: string -> string): (pairs: seq<Pair>)
    ensures |pairs| <= |parts|
  {
    if parts == [] then []
    else if parts[0] == "" then ParseParts(parts[1..], decode)
    else [ParsePart(parts[0], decode)] + ParseParts(parts[1..], decode)
  }

  /** `new URLSearchParams(init)`: the list of pairs it holds. */
  function Parse(init: string, decode: string -> string): seq<Pair>
  {
    ParseParts(Split(DropQuestionMark(init), '&'), decode)
  }

  /** `params.get(name)`: the value of the FIRST pair with that name, or `null`. */
  function Get(pairs: seq<Pair>, name: string): (r: Option<string>)
    ensures r.None? <==> forall i :: 0 <= i < |pairs| ==> pairs[i].name != name
    ensures r.Some? ==>
      exists i :: 0 <= i < |pairs| && pairs[i].name == name && pairs[i].value == r.value
        && forall j :: 0 <= j < i ==> pairs[j].name != name
  {
    if pairs == [] then None
    else if pairs[0].name == name then Some(pairs[0].value)
    else
      var r := Get(pairs[1..], name);
      assert forall i :: 1 <= i < |pairs| ==> pairs[i] == pairs[1..][i - 1];
      r
  }

  /** `Get` finds the first pair carrying the name. */
  lemma GetFirst(pairs: seq<Pair>, name: string, i: nat)
    requires i < |pairs| && pairs[i].name == name
    requires forall j :: 0 <= j < i ==> pairs[j].name != name
    ensures Get(pairs, name) == Some(pairs[i].value)
  {
    var k :| 0 <= k < |pairs| && pairs[k].name == name && pairs[k].value == Get(pairs, name).value
             && forall j :: 0 <= j < k ==> pairs[j].name != name;
    assert k == i;
  }

  /** In a list of three pairs with distinct names, `Get` finds the second and the third. */
  lemma GetOfThree(p0: Pair, p1: Pair, p2: Pair)
    requires p0.name != p1.name && p0.name != p2.name && p1.name != p2.name
    ensures Get([p0, p1, p2], p1.name) == Some(p1.value)
    ensures Get([p0, p1, p2], p2.name) == Some(p2.value)
  {
    GetFirst([p0, p1, p2], p1.name, 1);
    GetFirst([p0, p1, p2], p2.name, 2);
  }

  /** What a pair looks like on the wire: `name=value`. */
  function Serialized(p: Pair): string
  {
    p.name + "=" + p.value
  }

  /** `name1=value1&name2=value2&...`. */
  function SerializeAll(pairs: seq<Pair>): string
    requires |pairs| >= 1
  {
    Join(seq(|pairs|, i requires 0 <= i < |pairs| => Serialized(pairs[i])), '&')
  }

  /** A pair that survives a trip through the form parser unchanged apart from decoding. */
  predicate WireSafe(p: Pair)
  {
    '&' !in p.name && '&' !in p.value && '=' !in p.name && '+' !in p.name && '+' !in p.value
  }

  function DecodedPairs(pairs: seq<Pair>, decode: string -> string): (r: seq<Pair>)
    ensures |r| == |pairs|
    ensures forall i :: 0 <= i < |pairs| ==> r[i] == Pair(decode(pairs[i].name), decode(pairs[i].value))
  {
    seq(|pairs|, i requires 0 <= i < |pairs| => Pair(decode(pairs[i].name), decode(pairs[i].value)))
  }

  lemma ReplacePlusFree(s: string)
    requires '+' !in s
    ensures ReplacePlus(s) == s
  {
  }

  lemma ParseSerializedPair(p: Pair, decode: string -> string)
    requires WireSafe(p)
    ensures ParsePart(Serialized(p), decode) == Pair(decode(p.name), decode(p.value))
  {
    var s := Serialized(p);
    IndexOfAfterFree(p.name, '=', p.value);
    assert s == p.name + ['='] + p.value;
    assert s[..|p.name|] == p.name;
    assert s[|p.name| + 1..] == p.value;
    ReplacePlusFree(p.name);
    ReplacePlusFree(p.value);
  }

  lemma {:induction false} ParsePartsSerialized(parts: seq<string>, pairs: seq<Pair>, decode: string -> string)
    requires |parts| == |pairs|
    requires forall i :: 0 <= i < |pairs| ==> WireSafe(pairs[i]) && parts[i] == Serialized(pairs[i])
    ensures ParseParts(parts, decode) == DecodedPairs(pairs, decode)
  {
    if parts != [] {
      assert parts[0] != "" by { assert '=' in parts[0]; }
      ParseSerializedPair(pairs[0], decode);
      ParsePartsSerialized(parts[1..], pairs[1..], decode);
    }
  }

  /** Serialising WIRE-SAFE pairs behind a `?` and parsing the result gives back the
      decoded pairs, in order: the form parser is the inverse of the serialiser. */
  lemma ParseSerializeAll(pairs: seq<Pair>, decode: string -> string)
    requires |pairs| >= 1
    requires forall i :: 0 <= i < |pairs| ==> WireSafe(pairs[i])
    ensures Parse("?" + SerializeAll(pairs), decode) == DecodedPairs(pairs, decode)
  {
    var parts := seq(|pairs|, i requires 0 <= i < |pairs| => Serialized(pairs[i]));
    forall i | 0 <= i < |parts| ensures '&' !in parts[i] {
      assert parts[i] == pairs[i].name + "=" + pairs[i].value;
    }
    SplitJoin(parts, '&');
    assert DropQuestionMark("?" + SerializeAll(pairs)) == SerializeAll(pairs);
    ParsePartsSerialized(parts, pairs, decode);
  }
}
