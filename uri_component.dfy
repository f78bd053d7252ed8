/**
 * `encodeURIComponent` and `decodeURIComponent` as ECMAScript defines them:
 * every character outside the unreserved set is written as the `%XY`
 * escapes of its UTF-8 bytes (upper-case hex), and decoding rejects a bad
 * escape, a stray continuation byte, a lead byte announcing more than four
 * bytes, a truncated sequence, an over-long form, a surrogate and a code
 * point above U+10FFFF. Cookie values are written with the first and read
 * back with the second.
 */
module UriComponent {
  import opened Wrappers
  import opened Text

  /** The characters `encodeURIComponent` leaves as they are. */
  predicate IsUnreserved(c: char) {
    || ('A' <= c <= 'Z') || ('a' <= c <= 'z') || ('0' <= c <= '9')
    || c == '-' || c == '_' || c == '.' || c == '!' || c == '~'
    || c == '*' || c == '\'' || c == '(' || c == ')'
  }

  predicate IsHexDigit(c: char) {
    IsDigit(c) || ('a' <= c <= 'f') || ('A' <= c <= 'F')
  }

  function HexValue(c: char): (v: nat)
    requires IsHexDigit(c)
    ensures v < 16
  {
    if IsDigit(c) then DigitValue(c)
    else if 'a' <= c <= 'f' then (c as int) - ('a' as int) + 10
    else (c as int) - ('A' as int) + 10
  }

  /** The upper-case hex digit `encodeURIComponent` writes. */
  function UpperHexDigit(d: nat): (c: char)
    requires d < 16
    ensures IsHexDigit(c) && HexValue(c) == d
  {
    if d < 10 then DigitChar(d) else ((d - 10 + 'A' as int) as char)
  }

  predicate IsByte(b: int) { 0 <= b < 256 }

  function Escape(b: nat): (e: string)
    requires IsByte(b)
    ensures |e| == 3
  {
    ['%', UpperHexDigit(b / 16), UpperHexDigit(b % 16)]
  }

  function EscapeAll(bs: seq<nat>): (e: string)
    requires forall i :: 0 <= i < |bs| ==> IsByte(bs[i])
    ensures |e| == 3 * |bs|
  {
    if bs == [] then [] else Escape(bs[0]) + EscapeAll(bs[1..])
  }

  /** The UTF-8 encoding of a code point. */
  function Utf8(cp: nat): (bs: seq<nat>)
    requires cp < 0x11_0000
    ensures 1 <= |bs| <= 4
    ensures forall i :: 0 <= i < |bs| ==> IsByte(bs[i])
  {
    var q1, r1 := cp / 64, cp % 64;
    var q2, r2 := q1 / 64, q1 % 64;
    var q3, r3 := q2 / 64, q2 % 64;
    if cp < 0x80 then [cp]
    else if cp < 0x800 then [0xC0 + q1, 0x80 + r1]
    else if cp < 0x1_0000 then [0xE0 + q2, 0x80 + r2, 0x80 + r1]
    else [0xF0 + q3, 0x80 + r3, 0x80 + r2, 0x80 + r1]
  }

  function EncodeChar(c: char): (e: string)
    ensures 1 <= |e|
  {
    if IsUnreserved(c) then [c] else EscapeAll(Utf8(c as int))
  }

  /** `encodeURIComponent(s)`. Its output holds only unreserved characters
      and `%`, so never whitespace, `;` or `=`. */
  function Encode(s: string): (e: string)
    ensures forall i :: 0 <= i < |e| ==> IsUnreserved(e[i]) || e[i] == '%'
  {
    if s == [] then []
    else
      var head := EncodeChar(s[0]);
      assert forall i :: 0 <= i < |head| ==> IsUnreserved(head[i]) || head[i] == '%' by {
        if !IsUnreserved(s[0]) { EscapeAllShape(Utf8(s[0] as int)); }
      }
      head + Encode(s[1..])
  }

  /** Text made of unreserved characters is its own encoding. */
  lemma {:induction false} EncodeUnreserved(s: string)
    requires forall i :: 0 <= i < |s| ==> IsUnreserved(s[i])
    ensures Encode(s) == s
  {
    if s != [] {
      EncodeUnreserved(s[1..]);
      assert [s[0]] + s[1..] == s;
    }
  }

  /** Encoded text never holds whitespace, `;` or `=`, so it survives being
      trimmed and split as part of a cookie header. */
  lemma EncodeIsCookieSafe(s: string)
    ensures forall i :: 0 <= i < |Encode(s)| ==>
      Encode(s)[i] != ';' && Encode(s)[i] != '=' && !IsWhitespace(Encode(s)[i])
  {
    var e := Encode(s);
    forall i | 0 <= i < |e|
      ensures e[i] != ';' && e[i] != '=' && !IsWhitespace(e[i])
    {
      assert IsUnreserved(e[i]) || e[i] == '%';
    }
  }

  lemma {:induction false} EscapeAllShape(bs: seq<nat>)
    requires forall i :: 0 <= i < |bs| ==> IsByte(bs[i])
    ensures forall i :: 0 <= i < |EscapeAll(bs)| ==> IsUnreserved(EscapeAll(bs)[i]) || EscapeAll(bs)[i] == '%'
  {
    if bs != [] {
      EscapeAllShape(bs[1..]);
    }
  }

  /** The byte escaped as `%XY` at position `i` of `s`, if `s` has one there. */
  function EscapedByteAt(s: string, i: nat): (b: Option<nat>)
    ensures b.Some? ==> IsByte(b.value)
  {
    if i + 2 < |s| && s[i] == '%' && IsHexDigit(s[i + 1]) && IsHexDigit(s[i + 2])
    then Some(HexValue(s[i + 1]) * 16 + HexValue(s[i + 2]))
    else None
  }

  /** The six payload bits of a continuation byte escaped at position `i`. */
  function ContinuationAt(s: string, i: nat): (p: Option<nat>)
    ensures p.Some? ==> p.value < 64
  {
    match EscapedByteAt(s, i)
    case Some(b) => if 0x80 <= b < 0xC0 then Some(b - 0x80) else None
    case None => None
  }

  /** Decodes the escape sequence that `s` starts with into one character,
      returning it with the number of input characters it used. */
  function DecodeEscape(s: string): (r: Option<(char, nat)>)
    ensures r.Some? ==> 3 <= r.value.1 <= |s|
  {
    match EscapedByteAt(s, 0)
    case None => None
    case Some(b0) =>
      if b0 < 0x80 then Some(((b0 as char), 3))
      else if b0 < 0xC0 then None
      else if b0 < 0xE0 then DecodeTwo(s, b0)
      else if b0 < 0xF0 then DecodeThree(s, b0)
      else if b0 < 0xF8 then DecodeFour(s, b0)
      else None
  }

  function DecodeTwo(s: string, b0: nat): (r: Option<(char, nat)>)
    requires 0xC0 <= b0 < 0xE0
    ensures r.Some? ==> r.value.1 == 6 <= |s|
  {
    match ContinuationAt(s, 3)
    case None => None
    case Some(p1) =>
      var cp := (b0 - 0xC0) * 64 + p1;
      if cp < 0x80 then None else Some(((cp as char), 6))
  }

  function DecodeThree(s: string, b0: nat): (r: Option<(char, nat)>)
    requires 0xE0 <= b0 < 0xF0
    ensures r.Some? ==> r.value.1 == 9 <= |s|
  {
    match (ContinuationAt(s, 3), ContinuationAt(s, 6))
    case (Some(p1), Some(p2)) =>
      var cp := (b0 - 0xE0) * 4096 + p1 * 64 + p2;
      if cp < 0x800 || (0xD800 <= cp < 0xE000) then None else Some(((cp as char), 9))
    case _ => None
  }

  function DecodeFour(s: string, b0: nat): (r: Option<(char, nat)>)
    requires 0xF0 <= b0 < 0xF8
    ensures r.Some? ==> r.value.1 == 12 <= |s|
  {
    match (ContinuationAt(s, 3), ContinuationAt(s, 6), ContinuationAt(s, 9))
    case (Some(p1), Some(p2), Some(p3)) =>
      var cp := (b0 - 0xF0) * 262144 + p1 * 4096 + p2 * 64 + p3;
      if cp < 0x1_0000 || cp >= 0x11_0000 then None else Some(((cp as char), 12))
    case _ => None
  }

  /** `decodeURIComponent(s)`; `None` is the URIError it throws. */
  function Decode(s: string): (r: Option<string>)
    ensures r.Some? ==> |r.value| <= |s|
    ensures '%' !in s ==> r == Some(s)
    decreases |s|
  {
    if s == [] then Some([])
    else if s[0] != '%' then
      assert s == [s[0]] + s[1..];
      match Decode(s[1..])
      case Some(t) => Some([s[0]] + t)
      case None => None
    else
      match DecodeEscape(s)
      case None => None
      case Some((c, n)) =>
        match Decode(s[n..])
        case Some(t) => Some([c] + t)
        case None => None
  }

  lemma HexRoundTrip(b: nat)
    requires IsByte(b)
    ensures HexValue(UpperHexDigit(b / 16)) * 16 + HexValue(UpperHexDigit(b % 16)) == b
  {
  }

  /** The `k`-th escape of `EscapeAll(bs)` sits at position `3 * k`. */
  lemma {:induction false} EscapeAllAt(bs: seq<nat>, k: nat)
    requires forall i :: 0 <= i < |bs| ==> IsByte(bs[i])
    requires k < |bs|
    ensures EscapeAll(bs)[3 * k] == '%'
    ensures EscapeAll(bs)[3 * k + 1] == UpperHexDigit(bs[k] / 16)
    ensures EscapeAll(bs)[3 * k + 2] == UpperHexDigit(bs[k] % 16)
  {
    if k > 0 {
      EscapeAllAt(bs[1..], k - 1);
      var t := EscapeAll(bs[1..]);
      assert EscapeAll(bs) == Escape(bs[0]) + t;
      assert EscapeAll(bs)[3 * k] == t[3 * (k - 1)];
      assert EscapeAll(bs)[3 * k + 1] == t[3 * (k - 1) + 1];
      assert EscapeAll(bs)[3 * k + 2] == t[3 * (k - 1) + 2];
    }
  }

  /** Reading back the `k`-th escape of `EscapeAll(bs)`, whatever follows. */
  lemma EscapedByteOfEscapeAll(bs: seq<nat>, rest: string, k: nat)
    requires forall i :: 0 <= i < |bs| ==> IsByte(bs[i])
    requires k < |bs|
    ensures EscapedByteAt(EscapeAll(bs) + rest, 3 * k) == Some(bs[k])
  {
    var e := EscapeAll(bs);
    var i := 3 * k;
    EscapeAllAt(bs, k);
    assert i + 2 < |e|;
    EscapedByteOfChars(e + rest, i, bs[k]);
  }

  lemma EscapedByteOfChars(s: string, i: nat, b: nat)
    requires IsByte(b) && i + 2 < |s|
    requires s[i] == '%' && s[i + 1] == UpperHexDigit(b / 16) && s[i + 2] == UpperHexDigit(b % 16)
    ensures EscapedByteAt(s, i) == Some(b)
  {
    HexRoundTrip(b);
  }

  lemma ContinuationOfEscapeAll(bs: seq<nat>, rest: string, k: nat)
    requires forall i :: 0 <= i < |bs| ==> IsByte(bs[i])
    requires k < |bs| && 0x80 <= bs[k] < 0xC0
    ensures ContinuationAt(EscapeAll(bs) + rest, 3 * k) == Some(bs[k] - 0x80)
  {
    EscapedByteOfEscapeAll(bs, rest, k);
    ContinuationOfByte(EscapeAll(bs) + rest, 3 * k, bs[k]);
  }

  lemma ContinuationOfByte(s: string, i: nat, b: nat)
    requires EscapedByteAt(s, i) == Some(b) && 0x80 <= b < 0xC0
    ensures ContinuationAt(s, i) == Some(b - 0x80)
  {
  }

  /** An escaped character decodes back to itself, consuming exactly its
      escapes. */
  lemma DecodeEscapeOfEncodeChar(c: char, rest: string)
    requires !IsUnreserved(c)
    ensures DecodeEscape(EncodeChar(c) + rest) == Some((c, |EncodeChar(c)|))
  {
    var cp := c as int;
    var bs := Utf8(cp);
    var s := EncodeChar(c) + rest;
    assert s == EscapeAll(bs) + rest;
    EscapedByteOfEscapeAll(bs, rest, 0);
    if cp < 0x80 {
    } else if cp < 0x800 {
      DecodeTwoOfUtf8(c, rest);
    } else if cp < 0x1_0000 {
      DecodeThreeOfUtf8(c, rest);
    } else {
      DecodeFourOfUtf8(c, rest);
    }
  }

  lemma DecodeTwoOfUtf8(c: char, rest: string)
    requires 0x80 <= c as int < 0x800
    ensures Utf8(c as int)[0] >= 0xC0
    ensures DecodeTwo(EscapeAll(Utf8(c as int)) + rest, Utf8(c as int)[0]) == Some((c, 6))
  {
    var cp := c as int;
    var bs := Utf8(cp);
    var q1, r1 := cp / 64, cp % 64;
    assert bs == [0xC0 + q1, 0x80 + r1];
    ContinuationOfEscapeAll(bs, rest, 1);
  }

  lemma DecodeThreeOfUtf8(c: char, rest: string)
    requires 0x800 <= c as int < 0x1_0000
    ensures 0xE0 <= Utf8(c as int)[0] < 0xF0
    ensures DecodeThree(EscapeAll(Utf8(c as int)) + rest, Utf8(c as int)[0]) == Some((c, 9))
  {
    var cp := c as int;
    var bs := Utf8(cp);
    var q1, r1 := cp / 64, cp % 64;
    var q2, r2 := q1 / 64, q1 % 64;
    assert bs == [0xE0 + q2, 0x80 + r2, 0x80 + r1];
    ContinuationOfEscapeAll(bs, rest, 1);
    ContinuationOfEscapeAll(bs, rest, 2);
    assert q2 * 4096 + r2 * 64 + r1 == (q2 * 64 + r2) * 64 + r1 == cp;
  }

  lemma DecodeFourOfUtf8(c: char, rest: string)
    requires 0x1_0000 <= c as int
    ensures 0xF0 <= Utf8(c as int)[0] < 0xF8
    ensures DecodeFour(EscapeAll(Utf8(c as int)) + rest, Utf8(c as int)[0]) == Some((c, 12))
  {
    var cp := c as int;
    var bs := Utf8(cp);
    FourByteDigits(cp);
    ContinuationOfEscapeAll(bs, rest, 1);
    ContinuationOfEscapeAll(bs, rest, 2);
    ContinuationOfEscapeAll(bs, rest, 3);
  }

  /** The four bytes of a supplementary code point, and the sum that
      reassembles it from their payloads. */
  lemma FourByteDigits(cp: nat)
    requires 0x1_0000 <= cp < 0x11_0000
    ensures var bs := Utf8(cp);
      && 0xF0 <= bs[0] < 0xF8 && |bs| == 4
      && (forall i :: 1 <= i < 4 ==> 0x80 <= bs[i] < 0xC0)
      && (bs[0] - 0xF0) * 262144 + (bs[1] - 0x80) * 4096 + (bs[2] - 0x80) * 64 + (bs[3] - 0x80) == cp
  {
    var q1, r1 := cp / 64, cp % 64;
    var q2, r2 := q1 / 64, q1 % 64;
    var q3, r3 := q2 / 64, q2 % 64;
    assert Utf8(cp) == [0xF0 + q3, 0x80 + r3, 0x80 + r2, 0x80 + r1];
    assert q3 < 8;
    assert q3 * 262144 + r3 * 4096 + r2 * 64 + r1 == ((q3 * 64 + r3) * 64 + r2) * 64 + r1;
  }

  /** decodeURIComponent(encodeURIComponent(s)) == s for every string. */
  lemma {:induction false} DecodeEncode(s: string)
    ensures Decode(Encode(s)) == Some(s)
    decreases |s|
  {
    if s != [] {
      var tail := Encode(s[1..]);
      assert Encode(s) == EncodeChar(s[0]) + tail;
      DecodeEncode(s[1..]);
      DecodeEncodedHead(s[0], tail, s[1..]);
      assert [s[0]] + s[1..] == s;
    }
  }

  /** One encoded character in front of text that decodes to `t`. */
  lemma DecodeEncodedHead(c: char, tail: string, t: string)
    requires Decode(tail) == Some(t)
    ensures Decode(EncodeChar(c) + tail) == Some([c] + t)
  {
    var head := EncodeChar(c);
    if IsUnreserved(c) {
      assert (head + tail)[1..] == tail;
    } else {
      DecodeEscapeOfEncodeChar(c, tail);
      EscapedHeadDecodes(head, tail, c, t);
    }
  }

  lemma EscapedHeadDecodes(head: string, tail: string, c: char, t: string)
    requires head != [] && head[0] == '%'
    requires DecodeEscape(head + tail) == Some((c, |head|))
    requires Decode(tail) == Some(t)
    ensures Decode(head + tail) == Some([c] + t)
  {
    assert (head + tail)[0] == '%';
    assert (head + tail)[|head|..] == tail;
  }

  /** A lone `%` (as in a value such as `100%`) makes decoding fail. */
  lemma {:induction false} DecodeRejectsBareEscape(s: string)
    requires |s| >= 1 && s[|s| - 1] == '%'
    ensures Decode(s).None?
    decreases |s|
  {
    if s[0] != '%' {
      DecodeRejectsBareEscape(s[1..]);
    } else if |s| > 1 {
      match DecodeEscape(s)
      case None =>
      case Some((c, n)) =>
        assert n < |s|;
        DecodeRejectsBareEscape(s[n..]);
    }
  }
}
