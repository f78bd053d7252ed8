/**
 * Reading the `Cookie` request header and writing a `Set-Cookie` response
 * header, in the loose form of the cookie syntax of section 4.1.1 of
 * RFC 6265 that the server uses.
 *
 * `ParseCookies` is the loop that fills the cookie dictionary; `Jar` is the
 * function that says what the dictionary holds after a given list of
 * segments, and the lemmas below characterise it: which segments are
 * skipped, that the last occurrence of a name wins, and that a header
 * written from name/value pairs with `encodeURIComponent` reads back as
 * those pairs.
 */
module Cookies {
  import opened Wrappers
  import opened Text
  import UriComponent

  type CookieJar = map<string, string>

  /** The text of an optional header; an absent header reads as "". */
  function HeaderText(header: Option<string>): string {
    match header
    case Some(h) => h
    case None => ""
  }

  /** A cookie value as stored: URI-decoded, or as written when decoding
      throws. */
  function DecodedOrRaw(v: string): string {
    match UriComponent.Decode(v)
    case Some(d) => d
    case None => v
  }

  /** What one `;`-separated segment contributes to the dictionary: nothing
      when it has no `=` or its trimmed name is empty, otherwise the trimmed
      name and the decoded trimmed value. */
  function Segment(part: string): (entry: Option<(string, string)>)
    ensures '=' !in part ==> entry.None?
    ensures '=' in part && Trim(part[..IndexOf(part, '=')]) != "" ==> entry.Some?
    ensures entry.Some? ==> IsStoredName(entry.value.0)
    ensures entry.Some? ==> forall c :: c in entry.value.0 ==> c in part
  {
    var idx := IndexOf(part, '=');
    if idx < 0 then None
    else
      var k := Trim(part[..idx]);
      var v := Trim(part[idx + 1..]);
      NameOfSegment(part, idx);
      if k == "" then None else Some((k, DecodedOrRaw(v)))
  }

  /** The trimmed text before the first `=` is made of characters of the
      segment, none of them `=`. */
  lemma NameOfSegment(part: string, idx: int)
    requires 0 <= idx < |part| && IndexOf(part, '=') == idx
    ensures '=' !in Trim(part[..idx])
    ensures forall c :: c in Trim(part[..idx]) ==> c in part
  {
    var name := part[..idx];
    TrimKeepsChars(name);
    SliceChars(part, idx);
  }

  lemma SliceChars(s: string, n: nat)
    requires n <= |s|
    ensures forall c :: c in s[..n] ==> c in s
  {
    forall c | c in s[..n]
      ensures c in s
    {
      var i :| 0 <= i < n && s[..n][i] == c;
      assert s[i] == c;
    }
  }

  /** A name a segment can store: non-empty, no `=`, and no whitespace at
      either end. */
  predicate IsStoredName(k: string) {
    && k != ""
    && '=' !in k
    && !IsWhitespace(k[0]) && !IsWhitespace(k[|k| - 1])
  }

  /** The names the dictionary can hold: non-empty, no `;` or `=`, and no
      whitespace at either end. */
  predicate IsCookieName(k: string) {
    && k != ""
    && ';' !in k && '=' !in k
    && !IsWhitespace(k[0]) && !IsWhitespace(k[|k| - 1])
  }

  /** The dictionary after storing `entries` in order, where `None` is a
      skipped segment and a later name overwrites an earlier one. */
  function Fill(entries: seq<Option<(string, string)>>): CookieJar {
    if entries == [] then map[]
    else
      var before := Fill(entries[..|entries| - 1]);
      match entries[|entries| - 1]
      case None => before
      case Some((k, v)) => before[k := v]
  }

  /** What each segment of `parts` contributes. */
  function Segments(parts: seq<string>): (es: seq<Option<(string, string)>>)
    ensures |es| == |parts|
  {
    if parts == [] then [] else Segments(parts[..|parts| - 1]) + [Segment(parts[|parts| - 1])]
  }

  /** The dictionary `out` after reading one more segment. */
  function AddSegment(out: CookieJar, part: string): CookieJar {
    match Segment(part)
    case None => out
    case Some((k, v)) => out[k := v]
  }

  /** Every name `jar` holds is a cookie name. */
  predicate NamesAreCookieNames(jar: CookieJar) {
    forall k :: k in jar ==> IsCookieName(k)
  }

  /** The dictionary after reading `parts` in order. */
  function Jar(parts: seq<string>): (jar: CookieJar)
    ensures forall k :: k in jar ==> IsStoredName(k)
    ensures (forall i :: 0 <= i < |parts| ==> ';' !in parts[i]) ==> forall k :: k in jar ==> ';' !in k
  {
    if parts == [] then map[]
    else AddSegment(Jar(parts[..|parts| - 1]), parts[|parts| - 1])
  }

  /** The result of `parseCookies(header)`: every name it holds is a
      cookie name. */
  function ParsedCookies(header: Option<string>): (jar: CookieJar)
    ensures NamesAreCookieNames(jar)
  {
    Jar(Split(HeaderText(header), ';'))
  }

  /** `parseCookies`: split on `;` and, segment by segment, store the
      decoded (or raw) trimmed value under the trimmed name, skipping
      segments that `Segment` rejects. */
  method ParseCookies(header: Option<string>) returns (out: CookieJar)
    ensures out == ParsedCookies(header)
  {
    out := map[];
    var s := HeaderText(header);
    var parts := Split(s, ';');
    var i := 0;
    while i < |parts|
      invariant 0 <= i <= |parts|
      invariant out == Jar(parts[..i])
    {
      var part := parts[i];
      JarStep(parts, i, out);
      match Segment(part) {
        case None =>            // no `=`, or an empty name: skipped
        case Some((k, v)) =>
          out := out[k := v];   // a later segment overwrites an earlier one
      }
      i := i + 1;
    }
    assert parts[..|parts|] == parts;
  }

  /** Entry `e` stores name `k`. */
  predicate Stores(e: Option<(string, string)>, k: string) {
    e.Some? && e.value.0 == k
  }

  /** Reference description of the dictionary: a name is present exactly
      when some entry stores it, and its value is the one given by the LAST
      entry that stores it. */
  lemma {:induction false} FillCharacterisation(entries: seq<Option<(string, string)>>, k: string)
    ensures k in Fill(entries) <==> exists i :: 0 <= i < |entries| && Stores(entries[i], k)
    ensures forall j :: 0 <= j < |entries| && Stores(entries[j], k)
                        && (forall i :: j < i < |entries| ==> !Stores(entries[i], k))
                     ==> k in Fill(entries) && Fill(entries)[k] == entries[j].value.1
  {
    FillMembers(entries, k);
    forall j | 0 <= j < |entries| && Stores(entries[j], k)
               && (forall i :: j < i < |entries| ==> !Stores(entries[i], k))
      ensures k in Fill(entries) && Fill(entries)[k] == entries[j].value.1
    {
      FillLast(entries, k, j);
    }
  }

  lemma {:induction false} FillMembers(entries: seq<Option<(string, string)>>, k: string)
    ensures k in Fill(entries) <==> exists i :: 0 <= i < |entries| && Stores(entries[i], k)
    decreases |entries|
  {
    if entries != [] {
      var n := |entries| - 1;
      var init := entries[..n];
      FillMembers(init, k);
      assert forall i :: 0 <= i < n ==> init[i] == entries[i];
      if !Stores(entries[n], k) && k in Fill(entries) {
        var i :| 0 <= i < n && Stores(init[i], k);
        assert Stores(entries[i], k);
      }
    }
  }

  lemma {:induction false} FillLast(entries: seq<Option<(string, string)>>, k: string, j: nat)
    requires j < |entries| && Stores(entries[j], k)
    requires forall i :: j < i < |entries| ==> !Stores(entries[i], k)
    ensures k in Fill(entries) && Fill(entries)[k] == entries[j].value.1
    decreases |entries|
  {
    var n := |entries| - 1;
    if j < n {
      var init := entries[..n];
      assert init[j] == entries[j];
      assert forall i :: j < i < n ==> init[i] == entries[i];
      FillLast(init, k, j);
    }
  }

  /** Reading segment by segment is filling in their entries. */
  lemma {:induction false} JarIsFill(parts: seq<string>)
    ensures Jar(parts) == Fill(Segments(parts))
    decreases |parts|
  {
    if parts != [] {
      var n := |parts| - 1;
      JarIsFill(parts[..n]);
      var es := Segments(parts);
      assert es[..n] == Segments(parts[..n]);
    }
  }

  /** The dictionary of `header + ";" + p` is that of `header` with `p` read
      last. */
  lemma JarAppend(header: string, p: string)
    requires ';' !in p
    ensures ParsedCookies(Some(header + ";" + p)) == AddSegment(ParsedCookies(Some(header)), p)
  {
    var ps := Split(header, ';');
    SplitAppend(header, p);
    JarSnoc(ps, p);
  }

  /** One more segment read by the loop of `ParseCookies`. */
  lemma JarStep(parts: seq<string>, i: nat, out: CookieJar)
    requires i < |parts| && out == Jar(parts[..i])
    ensures Segment(parts[i]).None? ==> Jar(parts[..i + 1]) == out
    ensures Segment(parts[i]).Some? ==>
              Jar(parts[..i + 1]) == out[Segment(parts[i]).value.0 := Segment(parts[i]).value.1]
  {
    JarPrefix(parts, i);
  }

  lemma JarPrefix(parts: seq<string>, i: nat)
    requires i < |parts|
    ensures Jar(parts[..i + 1]) == AddSegment(Jar(parts[..i]), parts[i])
  {
    assert parts[..i + 1][..i] == parts[..i];
  }

  lemma JarSnoc(ps: seq<string>, p: string)
    ensures Jar(ps + [p]) == AddSegment(Jar(ps), p)
  {
    assert (ps + [p])[..|ps|] == ps;
  }

  /** A segment without `=`, or whose name trims to nothing, changes nothing. */
  lemma MalformedSegmentSkipped(header: string, p: string)
    requires ';' !in p
    requires '=' !in p || Trim(p[..IndexOf(p, '=')]) == ""
    ensures ParsedCookies(Some(header + ";" + p)) == ParsedCookies(Some(header))
  {
    JarAppend(header, p);
  }

  /** A later `k=v` overrides every earlier value of `k`, whatever it was;
      the value is trimmed and decoded, and an undecodable value is kept as
      written. */
  lemma LastOccurrenceWins(header: string, k: string, v: string)
    requires IsCookieName(k) && ';' !in v
    ensures k in ParsedCookies(Some(header + ";" + k + "=" + v))
    ensures ParsedCookies(Some(header + ";" + k + "=" + v))[k] == DecodedOrRaw(Trim(v))
    ensures UriComponent.Decode(Trim(v)).None? ==>
              ParsedCookies(Some(header + ";" + k + "=" + v))[k] == Trim(v)
  {
    var p := k + "=" + v;
    assert header + ";" + k + "=" + v == header + ";" + p;
    JarAppend(header, p);
    SegmentOfPair("", k, v);
    assert "" + k == k;
  }

  /** The segment `k=v`, possibly after one space, stores the trimmed,
      decoded value under `k`. */
  lemma SegmentOfPair(lead: string, k: string, v: string)
    requires IsCookieName(k)
    requires lead == "" || lead == " "
    ensures Segment(lead + k + "=" + v) == Some((k, DecodedOrRaw(Trim(v))))
  {
    PairFacts(lead, k, v);
    SegmentWithEquals(lead + k + "=" + v, |lead| + |k|, k, v);
  }

  /** Whitespace around the name, before the `=`, is trimmed away: the
      segment stores the bare name with the trimmed, decoded value. */
  lemma SegmentOfPaddedPair(w1: string, k: string, w2: string, v: string)
    requires AllWhitespace(w1) && AllWhitespace(w2)
    requires IsCookieName(k)
    ensures Segment(w1 + k + w2 + "=" + v) == Some((k, DecodedOrRaw(Trim(v))))
  {
    var name := w1 + k + w2;
    NoEqualsInWhitespace(w1);
    NoEqualsInWhitespace(w2);
    NoEqualsInPadded(w1, k, w2);
    EqualsAfterName(name, v);
    TrimOfPadded(w1, k, w2);
    SegmentWithEquals(name + "=" + v, |name|, k, v);
  }

  lemma NoEqualsInWhitespace(w: string)
    requires AllWhitespace(w)
    ensures '=' !in w
  {
  }

  lemma NoEqualsInPadded(w1: string, k: string, w2: string)
    requires '=' !in w1 && '=' !in k && '=' !in w2
    ensures '=' !in w1 + k + w2
  {
  }

  /** In `name=v` with no `=` in the name, the first `=` ends the name. */
  lemma EqualsAfterName(name: string, v: string)
    requires '=' !in name
    ensures var p := name + "=" + v;
      IndexOf(p, '=') == |name| && p[..|name|] == name && p[|name| + 1..] == v
  {
    var p := name + "=" + v;
    assert p[|name|] == '=';
    assert p[..|name|] == name;
    assert p[|name| + 1..] == v;
  }

  /** Where the `=` of a written pair is, and what lies on either side. */
  lemma PairFacts(lead: string, k: string, v: string)
    requires IsCookieName(k)
    requires lead == "" || lead == " "
    ensures var p := lead + k + "=" + v;
      && IndexOf(p, '=') == |lead| + |k|
      && Trim(p[..|lead| + |k|]) == k
      && p[|lead| + |k| + 1..] == v
  {
    NameBeforeEquals(k, v, lead);
    PairSlices(lead, k, v);
    NameSliceTrim(lead, k, v);
  }

  lemma NameSliceTrim(lead: string, k: string, v: string)
    requires IsCookieName(k)
    requires lead == "" || lead == " "
    ensures Trim((lead + k + "=" + v)[..|lead| + |k|]) == k
  {
    PairSlices(lead, k, v);
    TrimOfLeadAndName(lead, k);
  }

  /** Unfolding `Segment` once the position of `=` and the two trimmed
      halves are known. */
  lemma SegmentWithEquals(part: string, idx: int, k: string, v: string)
    requires 0 <= idx < |part| && IndexOf(part, '=') == idx
    requires Trim(part[..idx]) == k != "" && part[idx + 1..] == v
    ensures Segment(part) == Some((k, DecodedOrRaw(Trim(v))))
  {
  }

  lemma PairSlices(lead: string, k: string, v: string)
    ensures var p := lead + k + "=" + v;
      p[..|lead| + |k|] == lead + k && p[|lead| + |k| + 1..] == v
  {
  }

  lemma TrimOfLeadAndName(lead: string, k: string)
    requires IsCookieName(k)
    requires lead == "" || lead == " "
    ensures Trim(lead + k) == k
  {
    TrimOfTrimmed(k);
    if lead == " " {
      TrimLeadingSpace(k);
      assert lead + k == [' '] + k;
    } else {
      assert lead + k == k;
    }
  }

  lemma NameBeforeEquals(k: string, v: string, lead: string)
    requires '=' !in k && '=' !in lead
    ensures IndexOf(lead + k + "=" + v, '=') == |lead| + |k|
  {
    var p := lead + k + "=" + v;
    var i := IndexOf(p, '=');
    assert p[|lead| + |k|] == '=';
    assert p[..|lead| + |k|] == lead + k;
  }

  lemma ConcatAssoc<T>(x: seq<T>, y: seq<T>, z: seq<T>)
    ensures x + (y + z) == x + y + z
  {
  }

  // ---------------------------------------------------------------------
  // Writing cookies

  /** `name=encodeURIComponent(value)`, the pair a `Set-Cookie` line starts
      with and a browser later sends back. */
  function CookiePair(name: string, value: string): string {
    name + "=" + UriComponent.Encode(value)
  }

  /** The `Cookie` header a browser sends for the stored `pairs`, oldest
      first, separated by "; " (section 5.4 of RFC 6265). */
  function CookieHeader(pairs: seq<(string, string)>): string {
    if pairs == [] then ""
    else if |pairs| == 1 then CookiePair(pairs[0].0, pairs[0].1)
    else CookieHeader(pairs[..|pairs| - 1]) + "; " + CookiePair(pairs[|pairs| - 1].0, pairs[|pairs| - 1].1)
  }

  /** The dictionary of `pairs` when a later pair overrides an earlier one. */
  function LastWins(pairs: seq<(string, string)>): CookieJar {
    if pairs == [] then map[]
    else LastWins(pairs[..|pairs| - 1])[pairs[|pairs| - 1].0 := pairs[|pairs| - 1].1]
  }

  lemma {:induction false} JoinAppend(ps: seq<string>, b: string, sep: string)
    requires |ps| >= 1
    ensures Join(ps + [b], sep) == Join(ps, sep) + sep + b
    decreases |ps|
  {
    if |ps| > 1 {
      assert (ps + [b])[1..] == ps[1..] + [b];
      JoinAppend(ps[1..], b, sep);
    }
  }

  /** Splitting `a;b` gives the pieces of `a` followed by `b`. */
  lemma SplitAppend(a: string, b: string)
    requires ';' !in b
    ensures Split(a + ";" + b, ';') == Split(a, ';') + [b]
  {
    var ps := Split(a, ';');
    JoinAppend(ps, b, ";");
    SplitJoin(ps + [b], ';');
  }

  lemma PairSegment(name: string, value: string, lead: string)
    requires IsCookieName(name)
    requires lead == "" || lead == " "
    ensures ';' !in lead + CookiePair(name, value)
    ensures Segment(lead + CookiePair(name, value)) == Some((name, value))
  {
    EncodedValueIntact(value);
    PairSegmentOf(name, UriComponent.Encode(value), value, lead);
  }

  lemma PairSegmentOf(name: string, e: string, value: string, lead: string)
    requires IsCookieName(name)
    requires lead == "" || lead == " "
    requires ';' !in e && Trim(e) == e && DecodedOrRaw(e) == value
    ensures ';' !in lead + (name + "=" + e)
    ensures Segment(lead + (name + "=" + e)) == Some((name, value))
  {
    PairText(name, e, lead);
    SegmentOfPair(lead, name, e);
  }

  lemma PairText(name: string, e: string, lead: string)
    requires ';' !in name && ';' !in e && ';' !in lead
    ensures lead + (name + "=" + e) == lead + name + "=" + e
    ensures ';' !in lead + (name + "=" + e)
  {
    ConcatAssoc(lead, name + "=", e);
    ConcatAssoc(lead, name, "=");
  }

  /** An encoded value has no `;`, is its own trim and decodes back. */
  lemma EncodedValueIntact(value: string)
    ensures ';' !in UriComponent.Encode(value)
    ensures Trim(UriComponent.Encode(value)) == UriComponent.Encode(value)
    ensures DecodedOrRaw(UriComponent.Encode(value)) == value
  {
    var e := UriComponent.Encode(value);
    UriComponent.EncodeIsCookieSafe(value);
    assert e == [] || (!IsWhitespace(e[0]) && !IsWhitespace(e[|e| - 1]));
    TrimOfTrimmed(e);
    UriComponent.DecodeEncode(value);
  }

  /** Round trip: parsing the header that carries `pairs` gives back every
      name with its original (unencoded) value, the last pair of a name
      winning. */
  lemma {:induction false} ParseCookieHeader(pairs: seq<(string, string)>)
    requires forall i :: 0 <= i < |pairs| ==> IsCookieName(pairs[i].0)
    ensures ParsedCookies(Some(CookieHeader(pairs))) == LastWins(pairs)
    decreases |pairs|
  {
    if pairs == [] {
      assert Split("", ';') == [""];
      assert Segment("") == None;
      assert [""][..0] == [];
    } else {
      var n := |pairs| - 1;
      var init := pairs[..n];
      assert pairs == init + [pairs[n]];
      if n == 0 {
        SinglePairHeader(pairs[0].0, pairs[0].1);
      } else {
        assert forall i :: 0 <= i < |init| ==> init[i] == pairs[i];
        ParseCookieHeader(init);
        AppendPairHeader(init, pairs[n].0, pairs[n].1);
      }
    }
  }

  lemma SinglePairHeader(name: string, value: string)
    requires IsCookieName(name)
    ensures ParsedCookies(Some(CookieHeader([(name, value)]))) == LastWins([(name, value)])
  {
    var t := CookiePair(name, value);
    PairSegment(name, value, "");
    assert "" + t == t;
    assert Split(t, ';') == [t];
    JarSingle(t);
    assert [(name, value)][..0] == [];
  }

  lemma JarSingle(t: string)
    ensures Jar([t]) == AddSegment(map[], t)
  {
    assert [t][..0] == [];
  }

  lemma AppendPairHeader(init: seq<(string, string)>, name: string, value: string)
    requires init != [] && IsCookieName(name)
    ensures ParsedCookies(Some(CookieHeader(init + [(name, value)])))
         == ParsedCookies(Some(CookieHeader(init)))[name := value]
  {
    var c := CookiePair(name, value);
    var h := CookieHeader(init);
    PairSegment(name, value, " ");
    CookieHeaderSnoc(init, (name, value));
    SpaceAfterSemicolon(h, c);
    JarAppend(h, " " + c);
  }

  lemma CookieHeaderSnoc(init: seq<(string, string)>, pair: (string, string))
    requires init != []
    ensures CookieHeader(init + [pair]) == CookieHeader(init) + "; " + CookiePair(pair.0, pair.1)
  {
    assert (init + [pair])[..|init|] == init;
  }

  lemma SpaceAfterSemicolon(h: string, c: string)
    ensures h + "; " + c == h + ";" + (" " + c)
  {
    assert "; " + c == ";" + (" " + c);
    ConcatAssoc(h, "; ", c);
    ConcatAssoc(h, ";", " " + c);
  }

  /** The options `setCookie` understands. */
  datatype CookieOptions = CookieOptions(
    maxAge: Option<int>,  // `maxAge != null`
    path: string,         // "" is unset
    httpOnly: bool,
    sameSite: string,     // "" is unset
    secure: bool)

  /** The attributes `setCookie` can write, in the order it writes them. */
  datatype AttributeKind = MaxAge | Path | HttpOnly | SameSite | Secure

  const WriteOrder: seq<AttributeKind> := [MaxAge, Path, HttpOnly, SameSite, Secure]

  function Rank(k: AttributeKind): nat {
    match k
    case MaxAge => 0
    case Path => 1
    case HttpOnly => 2
    case SameSite => 3
    case Secure => 4
  }

  /** Whether `opts` asks for attribute `k`: `maxAge != null`, the other
      options by truthiness. */
  predicate IsSet(opts: CookieOptions, k: AttributeKind) {
    match k
    case MaxAge => opts.maxAge.Some?
    case Path => opts.path != ""
    case HttpOnly => opts.httpOnly
    case SameSite => opts.sameSite != ""
    case Secure => opts.secure
  }

  /** The text of attribute `k`. */
  function Render(opts: CookieOptions, k: AttributeKind): string
    requires IsSet(opts, k)
  {
    match k
    case MaxAge => "Max-Age=" + IntToString(opts.maxAge.value)
    case Path => "Path=" + opts.path
    case HttpOnly => "HttpOnly"
    case SameSite => "SameSite=" + opts.sameSite
    case Secure => "Secure"
  }

  /** The kinds of `ks` that `opts` asks for, in the order of `ks`. */
  function Selected(ks: seq<AttributeKind>, opts: CookieOptions): (r: seq<AttributeKind>)
    ensures forall i :: 0 <= i < |r| ==> IsSet(opts, r[i])
  {
    if ks == [] then []
    else
      var before := Selected(ks[..|ks| - 1], opts);
      var k := ks[|ks| - 1];
      if IsSet(opts, k) then before + [k] else before
  }

  /** The attributes `setCookie` writes after the pair. */
  function Attributes(opts: CookieOptions): seq<AttributeKind> {
    Selected(WriteOrder, opts)
  }

  predicate RankSorted(ks: seq<AttributeKind>) {
    forall i, j :: 0 <= i < j < |ks| ==> Rank(ks[i]) < Rank(ks[j])
  }

  lemma {:induction false} SelectedMembers(ks: seq<AttributeKind>, opts: CookieOptions, k: AttributeKind)
    ensures k in Selected(ks, opts) <==> k in ks && IsSet(opts, k)
  {
    if ks != [] {
      var n := |ks| - 1;
      SelectedMembers(ks[..n], opts, k);
      assert ks == ks[..n] + [ks[n]];
    }
  }

  lemma {:induction false} SelectedSorted(ks: seq<AttributeKind>, opts: CookieOptions)
    requires RankSorted(ks)
    ensures RankSorted(Selected(ks, opts))
  {
    if ks != [] {
      var n := |ks| - 1;
      var before := Selected(ks[..n], opts);
      SelectedSorted(ks[..n], opts);
      if IsSet(opts, ks[n]) {
        forall i | 0 <= i < |before| ensures Rank(before[i]) < Rank(ks[n]) {
          SelectedMembers(ks[..n], opts, before[i]);
          var m :| 0 <= m < n && ks[..n][m] == before[i];
          assert ks[m] == before[i];
        }
      }
    }
  }

  /** The attributes come in the order Max-Age, Path, HttpOnly, SameSite,
      Secure, each at most once. */
  lemma AttributesInOrder(opts: CookieOptions)
    ensures RankSorted(Attributes(opts))
  {
    SelectedSorted(WriteOrder, opts);
  }

  /** An attribute is written exactly when its option asks for it. */
  lemma AttributesPresent(opts: CookieOptions, k: AttributeKind)
    ensures k in Attributes(opts) <==> IsSet(opts, k)
  {
    SelectedMembers(WriteOrder, opts, k);
  }

  /** The texts of the attributes `ks`, in order. */
  function RenderAll(opts: CookieOptions, ks: seq<AttributeKind>): (texts: seq<string>)
    requires forall i :: 0 <= i < |ks| ==> IsSet(opts, ks[i])
    ensures |texts| == |ks|
  {
    if ks == [] then []
    else RenderAll(opts, ks[..|ks| - 1]) + [Render(opts, ks[|ks| - 1])]
  }

  /** What considering attribute `k` pushes: its text when it is set,
      nothing otherwise. */
  function Pushed(opts: CookieOptions, k: AttributeKind): seq<string> {
    if IsSet(opts, k) then [Render(opts, k)] else []
  }

  /** The list `setCookie` joins with "; ": the pair, then each attribute of
      the write order that is set. */
  function CookieParts(name: string, value: string, opts: CookieOptions): seq<string> {
    [CookiePair(name, value)] + Pushed(opts, MaxAge) + Pushed(opts, Path) + Pushed(opts, HttpOnly)
    + Pushed(opts, SameSite) + Pushed(opts, Secure)
  }

  /** The list holds the pair followed by the texts of `Attributes(opts)`. */
  lemma CookiePartsAreAttributes(name: string, value: string, opts: CookieOptions)
    ensures CookieParts(name, value, opts) == [CookiePair(name, value)] + RenderAll(opts, Attributes(opts))
  {
    var pair := CookiePair(name, value);
    assert PartsSoFar(pair, opts, 1) == [pair] + Pushed(opts, MaxAge);
    assert PartsSoFar(pair, opts, 2) == [pair] + Pushed(opts, MaxAge) + Pushed(opts, Path);
    assert PartsSoFar(pair, opts, 3) == [pair] + Pushed(opts, MaxAge) + Pushed(opts, Path) + Pushed(opts, HttpOnly);
    assert PartsSoFar(pair, opts, 4) == [pair] + Pushed(opts, MaxAge) + Pushed(opts, Path) + Pushed(opts, HttpOnly)
      + Pushed(opts, SameSite);
    assert PartsSoFar(pair, opts, 5) == CookieParts(name, value, opts);
    PartsRendered(pair, opts, 5);
    assert WriteOrder[..5] == WriteOrder;
  }

  /** The list once the first `j` attributes of the write order have been
      considered. */
  function PartsSoFar(pair: string, opts: CookieOptions, j: nat): seq<string>
    requires j <= |WriteOrder|
  {
    if j == 0 then [pair] else PartsSoFar(pair, opts, j - 1) + Pushed(opts, WriteOrder[j - 1])
  }

  lemma {:induction false} PartsRendered(pair: string, opts: CookieOptions, j: nat)
    requires j <= |WriteOrder|
    ensures PartsSoFar(pair, opts, j) == [pair] + RenderAll(opts, Selected(WriteOrder[..j], opts))
  {
    if j > 0 {
      PartsRendered(pair, opts, j - 1);
      var k := WriteOrder[j - 1];
      assert WriteOrder[..j] == WriteOrder[..j - 1] + [k];
      SelectedSnoc(WriteOrder[..j - 1], k, opts);
      var before := Selected(WriteOrder[..j - 1], opts);
      if IsSet(opts, k) {
        RenderAllSnoc(opts, before, k);
        ConcatAssoc([pair], RenderAll(opts, before), [Render(opts, k)]);
      }
    }
  }

  lemma SelectedSnoc(ks: seq<AttributeKind>, k: AttributeKind, opts: CookieOptions)
    ensures Selected(ks + [k], opts) == Selected(ks, opts) + (if IsSet(opts, k) then [k] else [])
  {
    assert (ks + [k])[..|ks|] == ks;
  }

  lemma RenderAllSnoc(opts: CookieOptions, ks: seq<AttributeKind>, k: AttributeKind)
    requires forall i :: 0 <= i < |ks| ==> IsSet(opts, ks[i])
    requires IsSet(opts, k)
    ensures RenderAll(opts, ks + [k]) == RenderAll(opts, ks) + [Render(opts, k)]
  {
    assert (ks + [k])[..|ks|] == ks;
  }

  /** `setCookie`: the `Set-Cookie` line, built by pushing the pair and then
      each requested attribute onto a list joined with "; ". */
  method SetCookie(name: string, value: string, opts: CookieOptions) returns (line: string)
    ensures line == Join(CookieParts(name, value, opts), "; ")
  {
    var parts := [name + "=" + UriComponent.Encode(value)];
    if opts.maxAge.Some? { parts := parts + ["Max-Age=" + IntToString(opts.maxAge.value)]; }
    assert parts == [CookiePair(name, value)] + Pushed(opts, MaxAge);
    if opts.path != "" { parts := parts + ["Path=" + opts.path]; }
    assert parts == [CookiePair(name, value)] + Pushed(opts, MaxAge) + Pushed(opts, Path);
    if opts.httpOnly { parts := parts + ["HttpOnly"]; }
    assert parts == [CookiePair(name, value)] + Pushed(opts, MaxAge) + Pushed(opts, Path) + Pushed(opts, HttpOnly);
    if opts.sameSite != "" { parts := parts + ["SameSite=" + opts.sameSite]; }
    assert parts == [CookiePair(name, value)] + Pushed(opts, MaxAge) + Pushed(opts, Path) + Pushed(opts, HttpOnly)
      + Pushed(opts, SameSite);
    if opts.secure { parts := parts + ["Secure"]; }
    assert parts == CookieParts(name, value, opts);
    line := Join(parts, "; ");
  }
}
