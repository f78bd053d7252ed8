/**
 * `shouldTrack`: which requests the tracking middleware records. Only GET
 * requests count, and neither the health check, the admin area nor requests
 * for obvious static assets (a path ending in `.js`, `.css`, `.png`, ... in
 * any letter case).
 */
module TrackFilter {
  import opened Wrappers
  import opened Text

  /** The extensions of the static-asset test, as its alternation lists them. */
  const StaticExtensions: seq<string> :=
    ["js", "css", "map", "png", "jpg", "jpeg", "gif", "webp", "svg", "ico", "txt", "xml"]

  /** `req.path || "/"`: an empty path reads as the root. */
  function EffectivePath(path: string): (p: string)
    ensures p != ""
    ensures path != "" ==> p == path
  {
    if path == "" then "/" else path
  }

  /** `/\.(js|css|...|xml)$/i.test(p)`: the path ends with a dot and one of
      the extensions. Without the `u` flag, a case-insensitive match folds
      only the ASCII letters onto the (lower-case ASCII) extensions. */
  predicate IsStaticAsset(p: string)
    ensures IsStaticAsset(p) ==> '.' in p
  {
    DotBeforeExtension(p);
    exists e :: e in StaticExtensions && EndsWith(LowerAsciiString(p), "." + e)
  }

  /** A path whose lower-case form ends with a dot and an extension has a
      dot: folding the letters leaves the dot where it is. */
  lemma DotBeforeExtension(p: string)
    ensures (exists e :: e in StaticExtensions && EndsWith(LowerAsciiString(p), "." + e)) ==> '.' in p
  {
    var lower := LowerAsciiString(p);
    if e :| e in StaticExtensions && EndsWith(lower, "." + e) {
      var i := |p| - |e| - 1;
      assert lower[i] == ("." + e)[0];
      assert p[i] == '.';
    }
  }

  /** `shouldTrack(req)`, with the request reduced to its method and path:
      only a GET outside the health check and the admin area can be
      tracked. */
  function ShouldTrack(httpMethod: string, path: string): (tracked: bool)
    ensures tracked ==> httpMethod == "GET" && path != "/healthz" && !StartsWith(path, "/admin")
  {
    if httpMethod != "GET" then false
    else
      var p := EffectivePath(path);
      if p == "/healthz" then false
      else if StartsWith(p, "/admin") then false
      else if IsStaticAsset(p) then false
      else true
  }

  /** The extension of a path: the text after its last dot, if it has one. */
  function Extension(p: string): (ext: Option<string>)
    ensures ext.Some? ==> '.' !in ext.value && EndsWith(p, "." + ext.value)
  {
    var i := LastIndexOf(p, '.');
    if i < 0 then None
    else
      assert p[i..] == "." + p[i + 1..];
      Some(p[i + 1..])
  }

  /** An independent reading of the asset test: the path has an extension,
      and in lower case it is one of the listed ones. */
  predicate HasAssetExtension(p: string) {
    match Extension(p)
    case None => false
    case Some(ext) => LowerAsciiString(ext) in StaticExtensions
  }

  /** The two readings of the asset test agree on every path. */
  lemma StaticAssetByExtension(p: string)
    ensures IsStaticAsset(p) <==> HasAssetExtension(p)
  {
    if IsStaticAsset(p) {
      var e :| e in StaticExtensions && EndsWith(LowerAsciiString(p), "." + e);
      AssetSuffixIsExtension(p, e);
    }
    if HasAssetExtension(p) {
      ExtensionIsAssetSuffix(p);
    }
  }

  lemma ExtensionIsAssetSuffix(p: string)
    requires HasAssetExtension(p)
    ensures IsStaticAsset(p)
  {
    var ext := Extension(p).value;
    var e := LowerAsciiString(ext);
    LowerSuffix(p, "." + ext);
    assert LowerAsciiString("." + ext) == "." + e;
  }

  /** When the lower-cased path ends with `.e` and `e` has no dot, the
      path's extension folds to `e`. */
  lemma AssetSuffixIsExtension(p: string, e: string)
    requires '.' !in e
    requires EndsWith(LowerAsciiString(p), "." + e)
    ensures Extension(p).Some? && LowerAsciiString(Extension(p).value) == e
  {
    var d := |p| - |e| - 1;
    var tail := LowerAsciiString(p)[d..];
    assert tail == "." + e;
    LowerSlice(p, d);
    DotsOfLowered(p[d..], e);
    LastIndexOfAt(p, '.', d);
    ExtensionAt(p, d, e);
  }

  lemma ExtensionAt(p: string, d: nat, e: string)
    requires d < |p| && LastIndexOf(p, '.') == d
    requires LowerAsciiString(p)[d..] == "." + e
    ensures Extension(p) == Some(p[d + 1..])
    ensures LowerAsciiString(p[d + 1..]) == e
  {
    LowerSlice(p, d + 1);
    assert LowerAsciiString(p)[d + 1..] == LowerAsciiString(p)[d..][1..];
  }

  /** A string that lowers to `.e`, where `e` has no dot, starts with the
      only dot it has. */
  lemma DotsOfLowered(t: string, e: string)
    requires '.' !in e && LowerAsciiString(t) == "." + e
    ensures t[0] == '.' && '.' !in t[1..]
  {
    forall j | 1 <= j < |t| ensures t[j] != '.' {
      assert LowerAsciiString(t)[j] == e[j - 1];
    }
  }

  /** Lower-casing commutes with dropping a prefix. */
  lemma LowerSlice(p: string, a: nat)
    requires a <= |p|
    ensures LowerAsciiString(p[a..]) == LowerAsciiString(p)[a..]
  {
  }

  /** A character's last position is the one after which it no longer
      occurs. */
  lemma LastIndexOfAt(s: string, c: char, d: nat)
    requires d < |s| && s[d..][0] == c && c !in s[d..][1..]
    ensures LastIndexOf(s, c) == d
  {
    assert s[d] == c;
  }

  /** Lower-casing commutes with taking a suffix. */
  lemma LowerSuffix(p: string, suffix: string)
    requires EndsWith(p, suffix)
    ensures EndsWith(LowerAsciiString(p), LowerAsciiString(suffix))
  {
    var a := |p| - |suffix|;
    assert p[a..] == suffix;
    LowerSlice(p, a);
  }

  /** `shouldTrack` is false exactly for a method other than GET, the health
      check, anything under `/admin` and a path whose extension is a
      static-asset one in any letter case; an empty path is the root. */
  lemma ShouldTrackExactly(httpMethod: string, path: string)
    ensures var p := if path == "" then "/" else path;
      ShouldTrack(httpMethod, path) <==>
        && httpMethod == "GET"
        && p != "/healthz"
        && !StartsWith(p, "/admin")
        && !HasAssetExtension(p)
  {
    StaticAssetByExtension(EffectivePath(path));
  }
}
