/**
 * `requireAdminAuth`: the guard in front of the admin pages, a loose
 * reading of the HTTP Basic scheme of section 2 of RFC 7617. Only the
 * password part of the credential is checked, against the trimmed
 * `ADMIN_TOKEN`; the user name is ignored. Base64 decoding is a foreign
 * call, so the decoder is a parameter.
 */
module AdminAuth {
  import opened Wrappers
  import opened Text

  /** A response the guard sends instead of passing the request on. */
  datatype Response = Response(status: nat, challenge: Option<string>, body: string)

  datatype AuthOutcome = Reject(response: Response) | Next

  const TokenMissing: string := "ADMIN_TOKEN is not set. Set it in Railway Variables before using /admin."
  /** The `WWW-Authenticate` value sent with each 401. */
  const Realm: string := "Basic realm=\"Admin\""

  const Misconfigured: Response := Response(500, None, TokenMissing)
  const AuthRequired: Response := Response(401, Some(Realm), "Auth required")
  const InvalidPassword: Response := Response(401, Some(Realm), "Invalid password")

  /** `process.env.ADMIN_TOKEN?.trim()`. */
  function AdminToken(env: Option<string>): (token: Option<string>)
    ensures env.None? <==> token.None?
    ensures env.Some? ==> (token.value == "" <==> AllWhitespace(env.value))
    ensures env.Some? ==> token.value == Trim(env.value)
  {
    match env
    case None => None
    case Some(t) =>
      TrimIsEmpty(t);
      Some(Trim(t))
  }

  /** The password of a decoded credential: everything after the first
      colon, or "" when there is none. */
  function PasswordOf(decoded: string): (password: string)
    ensures ':' !in decoded ==> password == ""
    ensures ':' in decoded ==> EndsWith(decoded, password) && |password| < |decoded|
    ensures ':' in decoded ==>
              var user := decoded[..|decoded| - |password| - 1];
              ':' !in user && decoded == user + ":" + password
  {
    var idx := IndexOf(decoded, ':');
    if idx >= 0 then
      assert decoded == decoded[..idx] + [decoded[idx]] + decoded[idx + 1..];
      decoded[idx + 1..]
    else ""
  }

  /** `const [scheme, encoded] = header.split(" ")`: the first two pieces,
      the second `None` (undefined) when there is no space. */
  function SchemeAndCredential(header: string): (string, Option<string>) {
    var parts := Split(header, ' ');
    (parts[0], if |parts| >= 2 then Some(parts[1]) else None)
  }

  /** `requireAdminAuth(req, res, next)`, for a token, an optional
      `Authorization` header and a base64 decoder. */
  function RequireAdminAuth(token: Option<string>, authorization: Option<string>, decode: string -> string)
    : (outcome: AuthOutcome)
    ensures outcome == Reject(Misconfigured) <==> token.None? || token.value == ""
    ensures outcome.Next? ==>
              && authorization.Some? && BasicCredential(authorization.value).Some?
              && PasswordOf(decode(BasicCredential(authorization.value).value)) == token.value
  {
    if token.None? || token.value == "" then Reject(Misconfigured)
    else
      var header := match authorization case Some(h) => h case None => "";
      CredentialBySplit(header);
      var (scheme, encoded) := SchemeAndCredential(header);
      if scheme != "Basic" || encoded.None? || encoded.value == "" then Reject(AuthRequired)
      else if PasswordOf(decode(encoded.value)) != token.value then Reject(InvalidPassword)
      else Next
  }

  /** The text of `s` up to its first space. */
  function FirstField(s: string): (f: string)
    ensures ' ' !in f && StartsWith(s, f)
  {
    var i := IndexOf(s, ' ');
    if i < 0 then s else s[..i]
  }

  /** An independent reading of the header: it starts with `Basic ` and
      the credential is the non-empty text from there to the next space. */
  function BasicCredential(header: string): Option<string> {
    if StartsWith(header, "Basic ") then
      var credential := FirstField(header[6..]);
      if credential == "" then None else Some(credential)
    else None
  }

  lemma SplitFields(s: string)
    ensures Split(s, ' ')[0] == FirstField(s)
    ensures |Split(s, ' ')| >= 2 <==> ' ' in s
    ensures ' ' in s ==> Split(s, ' ')[1] == FirstField(s[IndexOf(s, ' ') + 1..])
  {
    if ' ' in s {
      var rest := s[IndexOf(s, ' ') + 1..];
      assert Split(s, ' ')[1..] == Split(rest, ' ');
      assert Split(rest, ' ')[0] == FirstField(rest) by {
        if ' ' in rest {
          assert Split(rest, ' ')[0] == rest[..IndexOf(rest, ' ')];
        }
      }
    }
  }

  /** A header whose first field is `Basic` starts with `Basic ` when it
      has a second field. */
  lemma BasicPrefix(header: string)
    requires ' ' in header && FirstField(header) == "Basic"
    ensures StartsWith(header, "Basic ") && IndexOf(header, ' ') == 5
  {
    var i := IndexOf(header, ' ');
    assert header[..i] == "Basic";
    assert header[..6] == header[..i] + [header[i]];
  }

  lemma BasicPrefixIndex(header: string)
    requires StartsWith(header, "Basic ")
    ensures IndexOf(header, ' ') == 5 && FirstField(header) == "Basic"
  {
    assert header[..6] == "Basic ";
    assert header[5] == ' ';
    assert header[..5] == "Basic";
    assert ' ' !in header[..5];
  }

  /** The split-and-destructure of the code finds exactly the credential
      of the independent reading. */
  lemma CredentialBySplit(header: string)
    ensures var (scheme, encoded) := SchemeAndCredential(header);
      (scheme == "Basic" && encoded.Some? && encoded.value != "") <==> BasicCredential(header).Some?
    ensures var (scheme, encoded) := SchemeAndCredential(header);
      BasicCredential(header).Some? ==> encoded == BasicCredential(header)
  {
    SplitFields(header);
    if StartsWith(header, "Basic ") {
      BasicPrefixIndex(header);
      assert header[5] == ' ';
    } else if ' ' in header && FirstField(header) == "Basic" {
      BasicPrefix(header);
    }
  }

  /** The three outcomes: a 500 when the token is unset or empty; a 401
      with the challenge when the header is not `Basic` followed by a
      credential; otherwise a pass exactly when the decoded credential's
      password equals the token, and a 401 with the challenge when not. */
  lemma AuthOutcomes(token: Option<string>, authorization: Option<string>, decode: string -> string)
    ensures var header := if authorization.Some? then authorization.value else "";
      var outcome := RequireAdminAuth(token, authorization, decode);
      && (outcome == Reject(Misconfigured) <==> token.None? || token.value == "")
      && (outcome == Reject(AuthRequired) <==>
            token.Some? && token.value != "" && BasicCredential(header).None?)
      && (outcome == Next <==>
            token.Some? && token.value != "" && BasicCredential(header).Some?
            && PasswordOf(decode(BasicCredential(header).value)) == token.value)
      && (outcome == Reject(InvalidPassword) <==>
            token.Some? && token.value != "" && BasicCredential(header).Some?
            && PasswordOf(decode(BasicCredential(header).value)) != token.value)
  {
    var header := if authorization.Some? then authorization.value else "";
    CredentialBySplit(header);
  }

  /** The guard answers 500 exactly when `ADMIN_TOKEN` is unset or holds
      nothing but whitespace, whatever the request carries. */
  lemma MisconfiguredExactly(env: Option<string>, authorization: Option<string>, decode: string -> string)
    ensures RequireAdminAuth(AdminToken(env), authorization, decode) == Reject(Misconfigured) <==>
              env.None? || AllWhitespace(env.value)
  {
  }

  /** The password keeps every colon after the first one. */
  lemma PasswordKeepsColons(user: string, password: string)
    requires ':' !in user
    ensures PasswordOf(user + ":" + password) == password
  {
    var d := user + ":" + password;
    assert d[|user|] == ':';
    assert d[..|user|] == user;
    assert IndexOf(d, ':') == |user|;
    assert d[|user| + 1..] == password;
  }

  /** The user name does not matter: credentials that differ only in it
      get the same answer. */
  lemma UsernameIgnored(token: Option<string>, decode: string -> string, e1: string, e2: string,
                        u1: string, u2: string, password: string)
    requires ' ' !in e1 && ' ' !in e2 && e1 != "" && e2 != ""
    requires ':' !in u1 && ':' !in u2
    requires decode(e1) == u1 + ":" + password && decode(e2) == u2 + ":" + password
    ensures RequireAdminAuth(token, Some("Basic " + e1), decode)
         == RequireAdminAuth(token, Some("Basic " + e2), decode)
  {
    PasswordKeepsColons(u1, password);
    PasswordKeepsColons(u2, password);
    CredentialOf(e1);
    CredentialOf(e2);
    AuthOutcomes(token, Some("Basic " + e1), decode);
    AuthOutcomes(token, Some("Basic " + e2), decode);
  }

  lemma CredentialOf(e: string)
    requires ' ' !in e && e != ""
    ensures BasicCredential("Basic " + e) == Some(e)
  {
    var h := "Basic " + e;
    assert h[..6] == "Basic ";
    assert h[6..] == e;
  }

  /** A credential without a colon has an empty password and so never
      passes (the token is never empty when the password is compared). */
  lemma NoColonNeverPasses(token: Option<string>, authorization: Option<string>, decode: string -> string)
    requires var header := if authorization.Some? then authorization.value else "";
      BasicCredential(header).Some? ==> ':' !in decode(BasicCredential(header).value)
    ensures RequireAdminAuth(token, authorization, decode) != Next
  {
    AuthOutcomes(token, authorization, decode);
  }

  lemma FirstFieldBeforeSpace(e: string, extra: string)
    requires ' ' !in e
    ensures FirstField(e + " " + extra) == e
  {
    var t := e + " " + extra;
    assert t[|e|] == ' ';
    assert t[..|e|] == e;
  }

  lemma CredentialBeforeExtra(e: string, extra: string)
    requires ' ' !in e && e != ""
    ensures BasicCredential("Basic " + e + " " + extra) == Some(e)
  {
    var h := "Basic " + e + " " + extra;
    assert h[..6] == "Basic ";
    assert h[6..] == e + " " + extra;
    FirstFieldBeforeSpace(e, extra);
  }

  /** Fields after the credential are ignored. */
  lemma ExtraFieldsIgnored(token: Option<string>, decode: string -> string, e: string, extra: string)
    requires ' ' !in e && e != ""
    ensures RequireAdminAuth(token, Some("Basic " + e + " " + extra), decode)
         == RequireAdminAuth(token, Some("Basic " + e), decode)
  {
    CredentialBeforeExtra(e, extra);
    CredentialOf(e);
    CredentialBySplit("Basic " + e + " " + extra);
    CredentialBySplit("Basic " + e);
  }
}
