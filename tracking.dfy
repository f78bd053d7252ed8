/**
 * The tracking middleware: for a request worth counting, make sure the
 * `visits` table exists, find or issue the visitor id kept in the `vid`
 * cookie, and record one visit with the (truncated) path. The random bytes
 * of a new id, the schema query's outcome and the insert itself are I/O:
 * the bytes and the outcome are inputs, and the insert is returned as the
 * row the middleware hands to the database.
 */
module Tracking {
  import opened Wrappers
  import opened Text
  import UriComponent
  import Cookies
  import TrackFilter
  import VisitsTable

  const VidCookie: string := "vid"
  /** A stored id shorter than this is replaced. */
  const MinVidLength: nat := 16
  const IdBytes: nat := 16
  const MaxPathLength: nat := 512
  /** `60 * 60 * 24 * 365` seconds. */
  const OneYear: int := 31536000

  /** The options the `vid` cookie is written with. */
  const VidOptions: Cookies.CookieOptions := Cookies.CookieOptions(Some(OneYear), "/", true, "Lax", true)

  predicate IsLowerHexDigit(c: char) {
    ('0' <= c <= '9') || ('a' <= c <= 'f')
  }

  function LowerHexDigit(d: nat): (c: char)
    requires d < 16
    ensures IsLowerHexDigit(c)
  {
    if d < 10 then DigitChar(d) else ((d - 10 + 'a' as int) as char)
  }

  /** `buffer.toString("hex")`: two lower-case hex digits per byte, high
      nibble first. */
  function HexEncode(bytes: seq<nat>): (hex: string)
    requires forall i :: 0 <= i < |bytes| ==> UriComponent.IsByte(bytes[i])
    ensures |hex| == 2 * |bytes|
    ensures forall i :: 0 <= i < |hex| ==> IsLowerHexDigit(hex[i])
  {
    if bytes == [] then [] else HexByte(bytes[0]) + HexEncode(bytes[1..])
  }

  function HexByte(b: nat): (hex: string)
    requires UriComponent.IsByte(b)
    ensures |hex| == 2 && IsLowerHexDigit(hex[0]) && IsLowerHexDigit(hex[1])
  {
    [LowerHexDigit(b / 16), LowerHexDigit(b % 16)]
  }

  /** Whether the stored id is kept: `vid` is present and has at least 16
      characters (an empty id is falsy and short). */
  predicate KeepsVid(cookies: Cookies.CookieJar) {
    VidCookie in cookies && |cookies[VidCookie]| >= MinVidLength
  }

  /** The visitor id the middleware records: the stored one when it is kept,
      the freshly generated one otherwise. */
  function VisitorId(cookies: Cookies.CookieJar, generated: string): (id: string)
    ensures KeepsVid(cookies) ==> id == cookies[VidCookie]
    ensures !KeepsVid(cookies) ==> id == generated
    ensures |generated| >= MinVidLength ==> |id| >= MinVidLength
  {
    if VidCookie in cookies && |cookies[VidCookie]| >= MinVidLength then cookies[VidCookie] else generated
  }

  /** `(req.path || "/").slice(0, 512)`. */
  function VisitPath(path: string): (p: string)
    ensures 1 <= |p| <= MaxPathLength
    ensures StartsWith(TrackFilter.EffectivePath(path), p)
    ensures path != "" && |path| <= MaxPathLength ==> p == path
    ensures |path| > MaxPathLength ==> p == path[..MaxPathLength]
  {
    Truncate(TrackFilter.EffectivePath(path), MaxPathLength)
  }

  /** The `Set-Cookie` line issued for a new id. */
  function VidSetCookie(id: string): (line: string)
    ensures StartsWith(line, "vid=")
  {
    var parts := Cookies.CookieParts(VidCookie, id, VidOptions);
    var pair := Cookies.CookiePair(VidCookie, id);
    assert parts[0] == pair;
    assert pair[..4] == "vid=";
    Join(parts, "; ")
  }

  /** The row inserted into `visits`. */
  datatype Visit = Visit(visitorId: string, path: string)

  /** One pass of the middleware, with the latch of the server, what the
      schema query would do, the request's method, path and `Cookie`
      header, and the 16 random bytes a new id would be made of. The
      insert's own failure is swallowed, so it is not part of the answer. */
  method TrackRequest(latch: VisitsTable.SchemaLatch, outcome: VisitsTable.QueryOutcome,
                      httpMethod: string, path: string, cookieHeader: Option<string>, freshBytes: seq<nat>)
    returns (setCookie: Option<string>, insert: Option<Visit>)
    requires latch.Valid()
    requires |freshBytes| == IdBytes && forall i :: 0 <= i < |freshBytes| ==> UriComponent.IsByte(freshBytes[i])
    modifies latch
    ensures latch.Valid()
    ensures !latch.poolConfigured || !TrackFilter.ShouldTrack(httpMethod, path) ==>
              setCookie.None? && insert.None? && unchanged(latch)
    ensures latch.poolConfigured && TrackFilter.ShouldTrack(httpMethod, path) ==>
              var cookies := Cookies.ParsedCookies(cookieHeader);
              var id := VisitorId(cookies, HexEncode(freshBytes));
              && insert == Some(Visit(id, VisitPath(path)))
              && setCookie == (if KeepsVid(cookies) then None else Some(VidSetCookie(id)))
              && latch.State() == VisitsTable.AfterEnsure(true, old(latch.State()), outcome).0
              && latch.queries <= old(latch.queries) + 1
              && (old(latch.ready) ==> latch.ready)
  {
    if !latch.poolConfigured { return None, None; }
    if !TrackFilter.ShouldTrack(httpMethod, path) { return None, None; }
    var _ := latch.Ensure(outcome);   // awaited, but its answer is not looked at
    var cookies := Cookies.ParseCookies(cookieHeader);
    setCookie := None;
    var vid: string;
    if VidCookie !in cookies || |cookies[VidCookie]| < MinVidLength {
      vid := HexEncode(freshBytes);
      var line := Cookies.SetCookie(VidCookie, vid, VidOptions);
      setCookie := Some(line);
    } else {
      vid := cookies[VidCookie];
    }
    var visitPath := Truncate(TrackFilter.EffectivePath(path), MaxPathLength);
    insert := Some(Visit(vid, visitPath));
  }

  lemma PrintsOneYear()
    ensures IntToString(OneYear) == "31536000"
  {
    assert NatToString(31) == NatToString(3) + [DigitChar(1)];
    assert NatToString(315) == NatToString(31) + [DigitChar(5)];
    assert NatToString(3153) == NatToString(315) + [DigitChar(3)];
    assert NatToString(31536) == NatToString(3153) + [DigitChar(6)];
    assert NatToString(315360) == NatToString(31536) + [DigitChar(0)];
    assert NatToString(3153600) == NatToString(315360) + [DigitChar(0)];
    assert NatToString(31536000) == NatToString(3153600) + [DigitChar(0)];
  }

  lemma HexIsUnreserved(id: string)
    requires forall i :: 0 <= i < |id| ==> IsLowerHexDigit(id[i])
    ensures UriComponent.Encode(id) == id
  {
    UriComponent.EncodeUnreserved(id);
  }

  lemma VidMaxAge()
    ensures Cookies.Pushed(VidOptions, Cookies.MaxAge) == ["Max-Age=31536000"]
  {
    PrintsOneYear();
    assert "Max-Age=" + "31536000" == "Max-Age=31536000";
  }

  lemma VidPath()
    ensures Cookies.Pushed(VidOptions, Cookies.Path) == ["Path=/"]
  {
    assert "Path=" + "/" == "Path=/";
  }

  lemma VidSameSite()
    ensures Cookies.Pushed(VidOptions, Cookies.SameSite) == ["SameSite=Lax"]
  {
    assert "SameSite=" + "Lax" == "SameSite=Lax";
  }

  /** The attributes of the `vid` cookie, in the order they are written. */
  lemma VidParts(id: string)
    requires forall i :: 0 <= i < |id| ==> IsLowerHexDigit(id[i])
    ensures Cookies.CookieParts(VidCookie, id, VidOptions)
         == ["vid=" + id, "Max-Age=31536000", "Path=/", "HttpOnly", "SameSite=Lax", "Secure"]
  {
    HexIsUnreserved(id);
    VidMaxAge();
    VidPath();
    VidSameSite();
    assert Cookies.CookiePair(VidCookie, id) == "vid=" + id;
  }

  lemma JoinCons(p: string, rest: seq<string>, sep: string)
    requires rest != []
    ensures Join([p] + rest, sep) == p + sep + Join(rest, sep)
  {
    assert ([p] + rest)[1..] == rest;
  }

  /** Joining the pair and five attributes. */
  lemma JoinSix(a: string, b: string, c: string, d: string, e: string, f: string, sep: string)
    ensures Join([a, b, c, d, e, f], sep) == a + (sep + b + sep + c + sep + d + sep + e + sep + f)
  {
    JoinCons(e, [f], sep);
    assert [e] + [f] == [e, f];
    JoinCons(d, [e, f], sep);
    assert [d] + [e, f] == [d, e, f];
    JoinCons(c, [d, e, f], sep);
    assert [c] + [d, e, f] == [c, d, e, f];
    JoinCons(b, [c, d, e, f], sep);
    assert [b] + [c, d, e, f] == [b, c, d, e, f];
    JoinCons(a, [b, c, d, e, f], sep);
    assert [a] + [b, c, d, e, f] == [a, b, c, d, e, f];
    Cookies.ConcatAssoc(a, sep, b + sep + c + sep + d + sep + e + sep + f);
  }

  /** The text after the pair in the `vid` cookie line. */
  const VidAttributeText: string := "; Max-Age=31536000; Path=/; HttpOnly; SameSite=Lax; Secure"

  lemma VidAttributesText()
    ensures "; " + "Max-Age=31536000" + "; " + "Path=/" + "; " + "HttpOnly" + "; " + "SameSite=Lax" + "; " + "Secure"
         == VidAttributeText
  {
    VidAttributesHead();
    assert "; Max-Age=31536000; Path=/; " + "HttpOnly" == "; Max-Age=31536000; Path=/; HttpOnly";
    assert "; Max-Age=31536000; Path=/; HttpOnly" + "; " == "; Max-Age=31536000; Path=/; HttpOnly; ";
    assert "; Max-Age=31536000; Path=/; HttpOnly; " + "SameSite=Lax" == "; Max-Age=31536000; Path=/; HttpOnly; SameSite=Lax";
    assert "; Max-Age=31536000; Path=/; HttpOnly; SameSite=Lax" + "; " == "; Max-Age=31536000; Path=/; HttpOnly; SameSite=Lax; ";
  }

  lemma VidAttributesHead()
    ensures "; " + "Max-Age=31536000" + "; " + "Path=/" + "; " == "; Max-Age=31536000; Path=/; "
  {
    assert "; " + "Max-Age=31536000" == "; Max-Age=31536000";
    assert "; Max-Age=31536000" + "; " == "; Max-Age=31536000; ";
    assert "; Max-Age=31536000; " + "Path=/" == "; Max-Age=31536000; Path=/";
  }

  /** The cookie issued for a new id: a year-long, host-wide, script-hidden,
      same-site-lax, secure-only `vid` holding the id as is. */
  lemma VidCookieLine(id: string)
    requires forall i :: 0 <= i < |id| ==> IsLowerHexDigit(id[i])
    ensures VidSetCookie(id) == "vid=" + id + VidAttributeText
  {
    VidParts(id);
    JoinSix("vid=" + id, "Max-Age=31536000", "Path=/", "HttpOnly", "SameSite=Lax", "Secure", "; ");
    VidAttributesText();
  }

  lemma VidIsCookieName()
    ensures Cookies.IsCookieName(VidCookie)
  {
  }

  lemma LastWinsSnoc(others: seq<(string, string)>, name: string, value: string)
    ensures Cookies.LastWins(others + [(name, value)]) == Cookies.LastWins(others)[name := value]
  {
    assert (others + [(name, value)])[..|others|] == others;
  }

  /** An issued id comes back: when the browser returns the `vid` cookie
      after any other cookies, the next tracked request records the same
      id and issues no new cookie, whatever random bytes it draws. */
  lemma IssuedIdIsReused(others: seq<(string, string)>, id: string, generated: string)
    requires forall i :: 0 <= i < |others| ==> Cookies.IsCookieName(others[i].0)
    requires |id| >= MinVidLength
    ensures var cookies := Cookies.ParsedCookies(Some(Cookies.CookieHeader(others + [(VidCookie, id)])));
      KeepsVid(cookies) && VisitorId(cookies, generated) == id
  {
    var pairs := others + [(VidCookie, id)];
    VidIsCookieName();
    assert forall i :: 0 <= i < |pairs| ==> Cookies.IsCookieName(pairs[i].0) by {
      forall i | 0 <= i < |pairs| ensures Cookies.IsCookieName(pairs[i].0) {
        if i < |others| { assert pairs[i] == others[i]; }
      }
    }
    Cookies.ParseCookieHeader(pairs);
    LastWinsSnoc(others, VidCookie, id);
  }

  /** Every new id is 32 lower-case hex digits, so it is always kept when
      it comes back. */
  lemma FreshIdIsKept(freshBytes: seq<nat>)
    requires |freshBytes| == IdBytes && forall i :: 0 <= i < |freshBytes| ==> UriComponent.IsByte(freshBytes[i])
    ensures |HexEncode(freshBytes)| == 32 >= MinVidLength
    ensures KeepsVid(map[VidCookie := HexEncode(freshBytes)])
  {
  }
}
