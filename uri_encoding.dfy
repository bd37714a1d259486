/** `encodeURIComponent` (ECMA-262, section 19.2.6.5, "encodeURIComponent"):
    the characters `A-Z a-z 0-9 - _ . ! ~ * ' ( )` stay as they are, every other
    character becomes the `%XY` escapes of its UTF-8 bytes (RFC 3629) with
    upper-case hex digits. A percent-decoder is given beside it so that the
    encoding can be proved lossless. */
module UriEncoding {
  import opened Common

  type Byte = b: int | 0 <= b < 256

  /** The characters `encodeURIComponent` leaves unescaped. */
  predicate Unreserved(c: char)
  {
    ('A' <= c <= 'Z') || ('a' <= c <= 'z') || ('0' <= c <= '9') || c in "-_.!~*'()"
  }

  /** The UTF-8 bytes of one Unicode scalar value. */
  function Utf8(c: char): (bs: seq<Byte>)
    ensures 1 <= |bs| <= 4
    ensures (|bs| == 1) == (c as int < 0x80)
  {
    var cp := c as int;
    if cp < 0x80 then [cp]
    else if cp < 0x800 then [0xC0 + cp / 64, 0x80 + cp % 64]
    else if cp < 0x10000 then [0xE0 + cp / 4096, 0x80 + (cp / 64) % 64, 0x80 + cp % 64]
    else [0xF0 + cp / 262144, 0x80 + (cp / 4096) % 64, 0x80 + (cp / 64) % 64, 0x80 + cp % 64]
  }

  function HexDigit(d: nat): char
    requires d < 16
  {
    "0123456789ABCDEF"[d]
  }

  /** `%XY` for one byte. */
  function PercentByte(b: Byte): (r: string)
    ensures |r| == 3 && r[0] == '%'
  {
    ['%', HexDigit(b / 16), HexDigit(b % 16)]
  }

  function PercentBytes(bs: seq<Byte>): (r: string)
    ensures |r| == 3 * |bs|
    ensures forall i :: 0 <= i < |r| ==> Unreserved(r[i]) || r[i] == '%'
  {
    if bs == [] then [] else PercentByte(bs[0]) + PercentBytes(bs[1..])
  }

  /** The escape sequence `encodeURIComponent` produces for one character. */
  function EncodeChar(c: char): (r: string)
    ensures |r| >= 1
  {
    if Unreserved(c) then [c] else PercentBytes(Utf8(c))
  }

  /** `encodeURIComponent(s)`. */
  function Encode(s: string): (r: string)
    ensures |r| >= |s|
  {
    if s == [] then [] else EncodeChar(s[0]) + Encode(s[1..])
  }

  /** Every character is unreserved or `%`. */
  predicate InAlphabet(s: string)
  {
    forall i :: 0 <= i < |s| ==> Unreserved(s[i]) || s[i] == '%'
  }

  lemma AlphabetAppend(a: string, b: string)
    requires InAlphabet(a) && InAlphabet(b)
    ensures InAlphabet(a + b)
  {
    forall i | 0 <= i < |a + b| ensures Unreserved((a + b)[i]) || (a + b)[i] == '%' {
      if i >= |a| {
        assert (a + b)[i] == b[i - |a|];
      }
    }
  }

  /** The output consists of unreserved characters and `%` only, so it never
      contains `&`, `=`, `+`, `#` or `?`. */
  lemma {:induction false} EncodeAlphabet(s: string)
    ensures forall i :: 0 <= i < |Encode(s)| ==> Unreserved(Encode(s)[i]) || Encode(s)[i] == '%'
  {
    if s != [] {
      EncodeAlphabet(s[1..]);
      var head := EncodeChar(s[0]);
      assert InAlphabet(head);
      AlphabetAppend(head, Encode(s[1..]));
      assert Encode(s) == head + Encode(s[1..]);
    }
  }

  /** A string is left unchanged by the encoding exactly when every character is unreserved. */
  lemma {:induction false} EncodeIdentity(s: string)
    ensures Encode(s) == s <==> forall i :: 0 <= i < |s| ==> Unreserved(s[i])
  {
    if s == [] {
    } else {
      EncodeIdentity(s[1..]);
      if Unreserved(s[0]) {
        assert Encode(s) == [s[0]] + Encode(s[1..]);
        if Encode(s) == s {
          assert Encode(s[1..]) == s[1..];
        }
        if forall i :: 0 <= i < |s| ==> Unreserved(s[i]) {
          assert forall i :: 0 <= i < |s[1..]| ==> Unreserved(s[1..][i]) by {
            forall i | 0 <= i < |s[1..]| ensures Unreserved(s[1..][i]) {
              assert s[1..][i] == s[i + 1];
            }
          }
          assert s == [s[0]] + s[1..];
        }
      } else {
        var e := PercentBytes(Utf8(s[0]));
        assert Encode(s) == e + Encode(s[1..]);
        assert |Encode(s)| > |s|;
      }
    }
  }

  // ---------------------------------------------------------------------
  // Decoding

  function HexValue(c: char): Option<nat>
  {
    if '0' <= c <= '9' then Some(c as int - '0' as int)
    else if 'A' <= c <= 'F' then Some(c as int - 'A' as int + 10)
    else if 'a' <= c <= 'f' then Some(c as int - 'a' as int + 10)
    else None
  }

  /** The byte written as `%XY` at position `i` of `t`, if there is one. */
  function ByteAt(t: string, i: nat): (r: Option<Byte>)
  {
    if i + 3 <= |t| && t[i] == '%' && HexValue(t[i + 1]).Some? && HexValue(t[i + 2]).Some?
       && HexValue(t[i + 1]).value < 16 && HexValue(t[i + 2]).value < 16
    then Some(16 * HexValue(t[i + 1]).value + HexValue(t[i + 2]).value)
    else None
  }

  /** The six payload bits of a UTF-8 continuation byte written at position `i`. */
  function Continuation(t: string, i: nat): (r: Option<nat>)
    ensures r.Some? ==> r.value < 64
  {
    match ByteAt(t, i)
    case Some(b) => if 0x80 <= b < 0xC0 then Some(b - 0x80) else None
    case None => None
  }

  function Scalar(cp: int, width: nat): Option<(char, nat)>
  {
    if (0 <= cp < 0xD800) || (0xE000 <= cp < 0x110000) then Some((cp as char, width)) else None
  }

  /** Decodes the escaped UTF-8 sequence at the start of `t`: the character and how
      many characters of `t` it used. */
  function DecodeEscape(t: string): (r: Option<(char, nat)>)
    ensures r.Some? ==> 0 < r.value.1 <= |t|
  {
    match ByteAt(t, 0)
    case None => None
    case Some(b0) =>
      if b0 < 0x80 then Some((b0 as char, 3))
      else if 0xC0 <= b0 < 0xE0 then
        match Continuation(t, 3)
        case Some(x1) => if 6 <= |t| then Scalar((b0 - 0xC0) * 64 + x1, 6) else None
        case None => None
      else if 0xE0 <= b0 < 0xF0 then
        match (Continuation(t, 3), Continuation(t, 6))
        case (Some(x1), Some(x2)) =>
          if 9 <= |t| then Scalar((b0 - 0xE0) * 4096 + x1 * 64 + x2, 9) else None
        case _ => None
      else if 0xF0 <= b0 < 0xF8 then
        match (Continuation(t, 3), Continuation(t, 6), Continuation(t, 9))
        case (Some(x1), Some(x2), Some(x3)) =>
          if 12 <= |t| then Scalar((b0 - 0xF0) * 262144 + x1 * 4096 + x2 * 64 + x3, 12) else None
        case _ => None
      else None
  }

  /** Percent-decoding followed by UTF-8 decoding; `None` for malformed input. */
  function Decode(t: string): (r: Option<string>)
    decreases |t|
  {
    if t == [] then Some([])
    else if t[0] != '%' then
      match Decode(t[1..])
      case Some(rest) => Some([t[0]] + rest)
      case None => None
    else
      match DecodeEscape(t)
      case None => None
      case Some((c, n)) =>
        match Decode(t[n..])
        case Some(rest) => Some([c] + rest)
        case None => None
  }

  // ---------------------------------------------------------------------
  // Round trip

  lemma HexRoundTrip(d: nat)
    requires d < 16
    ensures HexValue(HexDigit(d)) == Some(d)
  {
  }

  lemma {:induction false} PercentBytesAt(bs: seq<Byte>, k: nat)
    requires k < |bs|
    ensures PercentBytes(bs)[3 * k..3 * k + 3] == PercentByte(bs[k])
  {
    var p := PercentByte(bs[0]);
    var q := PercentBytes(bs[1..]);
    assert PercentBytes(bs) == p + q;
    if k > 0 {
      PercentBytesAt(bs[1..], k - 1);
      SliceOfSuffix(p, q, 3 * k, 3 * k + 3);
      assert bs[1..][k - 1] == bs[k];
    } else {
      SliceOfPrefix(p, q, 0, 3);
      assert p[0..3] == p;
    }
  }

  lemma SliceOfSuffix(p: string, rest: string, i: nat, j: nat)
    requires |p| <= i <= j <= |p| + |rest|
    ensures (p + rest)[i..j] == rest[i - |p|..j - |p|]
  {
  }

  lemma ByteAtEscape(t: string, i: nat, b: Byte)
    requires i + 3 <= |t| && t[i..i + 3] == PercentByte(b)
    ensures ByteAt(t, i) == Some(b)
  {
    assert t[i] == '%' && t[i + 1] == HexDigit(b / 16) && t[i + 2] == HexDigit(b % 16);
    HexRoundTrip(b / 16);
    HexRoundTrip(b % 16);
  }

  lemma SliceOfPrefix(p: string, rest: string, i: nat, j: nat)
    requires i <= j <= |p|
    ensures (p + rest)[i..j] == p[i..j]
  {
  }

  lemma ByteAtPercent(bs: seq<Byte>, rest: string, k: nat)
    requires k < |bs|
    ensures ByteAt(PercentBytes(bs) + rest, 3 * k) == Some(bs[k])
  {
    var p := PercentBytes(bs);
    PercentBytesAt(bs, k);
    SliceOfPrefix(p, rest, 3 * k, 3 * k + 3);
    ByteAtEscape(p + rest, 3 * k, bs[k]);
  }

  lemma Utf8Two(cp: int)
    requires 0x80 <= cp < 0x800
    ensures 0xC0 <= 0xC0 + cp / 64 < 0xE0
    ensures (cp / 64) * 64 + cp % 64 == cp
  {
  }

  lemma Utf8Three(cp: int)
    requires 0x800 <= cp < 0x10000
    ensures 0xE0 <= 0xE0 + cp / 4096 < 0xF0
    ensures (cp / 4096) * 4096 + ((cp / 64) % 64) * 64 + cp % 64 == cp
  {
    var q := cp / 64;
    assert q * 64 + cp % 64 == cp;
    assert q / 64 == cp / 4096;
    assert (q / 64) * 64 + q % 64 == q;
  }

  lemma Utf8Four(cp: int)
    requires 0x10000 <= cp < 0x110000
    ensures 0xF0 <= 0xF0 + cp / 262144 < 0xF8
    ensures (cp / 262144) * 262144 + ((cp / 4096) % 64) * 4096 + ((cp / 64) % 64) * 64 + cp % 64 == cp
  {
    var q := cp / 64;
    var q2 := q / 64;
    assert q * 64 + cp % 64 == cp;
    assert q2 * 64 + q % 64 == q;
    assert q2 == cp / 4096;
    assert q2 / 64 == cp / 262144;
    assert (q2 / 64) * 64 + q2 % 64 == q2;
  }

  lemma DecodeEscapeOne(c: char, rest: string)
    requires !Unreserved(c) && c as int < 0x80
    ensures DecodeEscape(PercentBytes(Utf8(c)) + rest) == Some((c, 3))
  {
    ByteAtPercent(Utf8(c), rest, 0);
  }

  /** A continuation byte written at `i` carries its low six bits. */
  lemma ContinuationAt(t: string, i: nat, b: Byte)
    requires ByteAt(t, i) == Some(b) && 0x80 <= b < 0xC0
    ensures Continuation(t, i) == Some(b as int - 0x80)
  {
  }

  lemma DecodeTwoEscapes(t: string, b0: Byte, x1: nat)
    requires 6 <= |t| && ByteAt(t, 0) == Some(b0) && 0xC0 <= b0 < 0xE0
    requires Continuation(t, 3) == Some(x1)
    ensures DecodeEscape(t) == Scalar((b0 - 0xC0) * 64 + x1, 6)
  {
  }

  lemma DecodeThreeEscapes(t: string, b0: Byte, x1: nat, x2: nat)
    requires 9 <= |t| && ByteAt(t, 0) == Some(b0) && 0xE0 <= b0 < 0xF0
    requires Continuation(t, 3) == Some(x1) && Continuation(t, 6) == Some(x2)
    ensures DecodeEscape(t) == Scalar((b0 - 0xE0) * 4096 + x1 * 64 + x2, 9)
  {
  }

  lemma DecodeFourEscapes(t: string, b0: Byte, x1: nat, x2: nat, x3: nat)
    requires 12 <= |t| && ByteAt(t, 0) == Some(b0) && 0xF0 <= b0 < 0xF8
    requires Continuation(t, 3) == Some(x1) && Continuation(t, 6) == Some(x2) && Continuation(t, 9) == Some(x3)
    ensures DecodeEscape(t) == Scalar((b0 - 0xF0) * 262144 + x1 * 4096 + x2 * 64 + x3, 12)
  {
  }

  /** The bytes of a two-byte character: a lead byte and a continuation byte spelling it. */
  lemma Utf8TwoBytes(c: char)
    requires 0x80 <= c as int < 0x800
    ensures var bs := Utf8(c);
      |bs| == 2 && 0xC0 <= bs[0] < 0xE0 && 0x80 <= bs[1] < 0xC0 &&
      (bs[0] - 0xC0) * 64 + (bs[1] as int - 0x80) == c as int
  {
    Utf8Two(c as int);
  }

  lemma Utf8ThreeBytes(c: char)
    requires 0x800 <= c as int < 0x10000
    ensures var bs := Utf8(c);
      |bs| == 3 && 0xE0 <= bs[0] < 0xF0 && 0x80 <= bs[1] < 0xC0 && 0x80 <= bs[2] < 0xC0 &&
      (bs[0] - 0xE0) * 4096 + (bs[1] as int - 0x80) * 64 + (bs[2] as int - 0x80) == c as int
  {
    Utf8Three(c as int);
  }

  lemma Utf8FourBytes(c: char)
    requires 0x10000 <= c as int
    ensures var bs := Utf8(c);
      |bs| == 4 && 0xF0 <= bs[0] < 0xF8 && 0x80 <= bs[1] < 0xC0 && 0x80 <= bs[2] < 0xC0 &&
      0x80 <= bs[3] < 0xC0 &&
      (bs[0] - 0xF0) * 262144 + (bs[1] as int - 0x80) * 4096 + (bs[2] as int - 0x80) * 64 +
      (bs[3] as int - 0x80) == c as int
  {
    Utf8Four(c as int);
  }

  /** Two escaped bytes, a lead byte and a continuation byte, decode to their scalar. */
  lemma DecodeTwoAt(t: string, b0: Byte, b1: Byte)
    requires 6 <= |t| && ByteAt(t, 0) == Some(b0) && ByteAt(t, 3) == Some(b1)
    requires 0xC0 <= b0 < 0xE0 && 0x80 <= b1 < 0xC0
    ensures DecodeEscape(t) == Scalar((b0 - 0xC0) * 64 + (b1 as int - 0x80), 6)
  {
    ContinuationAt(t, 3, b1);
    DecodeTwoEscapes(t, b0, b1 as int - 0x80);
  }

  lemma DecodeThreeAt(t: string, b0: Byte, b1: Byte, b2: Byte)
    requires 9 <= |t| && ByteAt(t, 0) == Some(b0) && ByteAt(t, 3) == Some(b1) && ByteAt(t, 6) == Some(b2)
    requires 0xE0 <= b0 < 0xF0 && 0x80 <= b1 < 0xC0 && 0x80 <= b2 < 0xC0
    ensures DecodeEscape(t) == Scalar((b0 - 0xE0) * 4096 + (b1 as int - 0x80) * 64 + (b2 as int - 0x80), 9)
  {
    ContinuationAt(t, 3, b1);
    ContinuationAt(t, 6, b2);
    DecodeThreeEscapes(t, b0, b1 as int - 0x80, b2 as int - 0x80);
  }

  lemma DecodeFourAt(t: string, b0: Byte, b1: Byte, b2: Byte, b3: Byte)
    requires 12 <= |t| && ByteAt(t, 0) == Some(b0) && ByteAt(t, 3) == Some(b1) && ByteAt(t, 6) == Some(b2)
    requires ByteAt(t, 9) == Some(b3)
    requires 0xF0 <= b0 < 0xF8 && 0x80 <= b1 < 0xC0 && 0x80 <= b2 < 0xC0 && 0x80 <= b3 < 0xC0
    ensures DecodeEscape(t) ==
            Scalar((b0 - 0xF0) * 262144 + (b1 as int - 0x80) * 4096 + (b2 as int - 0x80) * 64 + (b3 as int - 0x80), 12)
  {
    ContinuationAt(t, 3, b1);
    ContinuationAt(t, 6, b2);
    ContinuationAt(t, 9, b3);
    DecodeFourEscapes(t, b0, b1 as int - 0x80, b2 as int - 0x80, b3 as int - 0x80);
  }

  /** The leading escapes of a multi-byte sequence each read back as their byte. */
  lemma EscapesOfBytes(bs: seq<Byte>, rest: string)
    requires 2 <= |bs| <= 4
    ensures var t := PercentBytes(bs) + rest;
      ByteAt(t, 0) == Some(bs[0]) && ByteAt(t, 3) == Some(bs[1]) &&
      (|bs| >= 3 ==> ByteAt(t, 6) == Some(bs[2])) && (|bs| == 4 ==> ByteAt(t, 9) == Some(bs[3]))
  {
    ByteAtPercent(bs, rest, 0);
    ByteAtPercent(bs, rest, 1);
    if |bs| >= 3 {
      ByteAtPercent(bs, rest, 2);
    }
    if |bs| == 4 {
      ByteAtPercent(bs, rest, 3);
    }
  }

  lemma DecodeEscapeTwo(c: char, rest: string)
    requires 0x80 <= c as int < 0x800
    ensures DecodeEscape(PercentBytes(Utf8(c)) + rest) == Some((c, 6))
  {
    var bs := Utf8(c);
    Utf8TwoBytes(c);
    EscapesOfBytes(bs, rest);
    DecodeTwoAt(PercentBytes(bs) + rest, bs[0], bs[1]);
  }

  lemma DecodeEscapeThree(c: char, rest: string)
    requires 0x800 <= c as int < 0x10000
    ensures DecodeEscape(PercentBytes(Utf8(c)) + rest) == Some((c, 9))
  {
    var bs := Utf8(c);
    Utf8ThreeBytes(c);
    EscapesOfBytes(bs, rest);
    DecodeThreeAt(PercentBytes(bs) + rest, bs[0], bs[1], bs[2]);
  }

  lemma DecodeEscapeFour(c: char, rest: string)
    requires 0x10000 <= c as int
    ensures DecodeEscape(PercentBytes(Utf8(c)) + rest) == Some((c, 12))
  {
    var bs := Utf8(c);
    Utf8FourBytes(c);
    EscapesOfBytes(bs, rest);
    DecodeFourAt(PercentBytes(bs) + rest, bs[0], bs[1], bs[2], bs[3]);
  }

  lemma DecodeEscapeUtf8(c: char, rest: string)
    requires !Unreserved(c)
    ensures DecodeEscape(PercentBytes(Utf8(c)) + rest) == Some((c, 3 * |Utf8(c)|))
  {
    var cp := c as int;
    if cp < 0x80 {
      DecodeEscapeOne(c, rest);
    } else if cp < 0x800 {
      DecodeEscapeTwo(c, rest);
    } else if cp < 0x10000 {
      DecodeEscapeThree(c, rest);
    } else {
      DecodeEscapeFour(c, rest);
    }
  }

  /** Decoding reads one encoded character back and moves on to what follows it. */
  lemma DecodeEncodeChar(c: char, rest: string, r: string)
    requires Decode(rest) == Some(r)
    ensures Decode(EncodeChar(c) + rest) == Some([c] + r)
  {
    var t := EncodeChar(c) + rest;
    if Unreserved(c) {
      assert t[0] == c && t[1..] == rest;
    } else {
      DecodeEscapeUtf8(c, rest);
      assert t[0] == '%';
      assert t[3 * |Utf8(c)|..] == rest;
    }
  }

  /** Decoding undoes `encodeURIComponent` for every string. */
  lemma {:induction false} DecodeEncode(s: string)
    ensures Decode(Encode(s)) == Some(s)
  {
    if s != [] {
      var c, tl := s[0], s[1..];
      var rest := Encode(tl);
      DecodeEncode(tl);
      DecodeEncodeChar(c, rest, tl);
      assert Encode(s) == EncodeChar(c) + rest;
      assert [c] + tl == s;
    }
  }

  /** How a receiver reads one percent-encoded component: decoded, or left as it
      is when it is not valid UTF-8 escapes. */
  function PercentDecode(t: string): string
  {
    match Decode(t)
    case Some(s) => s
    case None => t
  }

  /** Encoded text reads back as what was encoded. */
  lemma PercentDecodeEncode(s: string)
    ensures PercentDecode(Encode(s)) == s
  {
    DecodeEncode(s);
  }

  /** Text without `%` decodes to itself. */
  lemma {:induction false} DecodeWithoutPercent(t: string)
    requires '%' !in t
    ensures Decode(t) == Some(t)
  {
    if t != [] {
      DecodeWithoutPercent(t[1..]);
      assert t == [t[0]] + t[1..];
    }
  }

  /** Text without `%` reads back as itself. */
  lemma PercentDecodePlain(s: string)
    requires '%' !in s
    ensures PercentDecode(s) == s
  {
    DecodeWithoutPercent(s);
  }
}
