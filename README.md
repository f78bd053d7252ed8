# Visit tracker of `server.js`, modelled in Dafny

`server.js` is a small Express server. It counts page views and unique
visitors in a Postgres table `visits`, and it serves a password-protected
admin dashboard over those counts. This project models the logic of that
server and proves properties of it:

- **Cookies.** `parseCookies` fills a dictionary from the `Cookie` header.
  `setCookie` builds a `Set-Cookie` line. Both follow the cookie syntax of
  section 4.1.1 of RFC 6265, loosely. Values pass through
  `encodeURIComponent`/`decodeURIComponent`, modelled with UTF-8 in module
  `UriComponent`.
- **The track filter.** `shouldTrack` decides which requests count.
- **The tracking middleware.** It reuses or issues the `vid` visitor id,
  truncates the path, and hands one row to the database.
- **The admin guard.** `requireAdminAuth` is a loose reading of the HTTP
  Basic scheme of section 2 of RFC 7617.
- **The schema latch.** `ensureVisitsTable` is a one-shot initialiser. It
  is a class whose fields are the server's `visitsReady` and
  `visitsInitError`.
- **The statistics.** The four windowed counts, the day-count parse and
  clamp, the zero-filled daily series, and the two JSON endpoints over them.

Some parts are I/O or foreign calls, so they become inputs:

- what the schema query does (`QueryOutcome`);
- the 16 random bytes of a new id;
- the base64 decoder (a function parameter);
- the rows of `visits` and the current time `now` (whole seconds since the
  epoch, UTC).

The insert is returned as the row handed to the database.

Modules:

| module | file | contents |
|---|---|---|
| `Wrappers`, `Text` | `text.dfy` | JavaScript string operations: `indexOf`, `lastIndexOf`, `split`, `join`, `trim`, `startsWith`, `endsWith`, `slice`, ASCII case folding, `${n}`, `Number.parseInt` |
| `UriComponent` | `uri_component.dfy` | `encodeURIComponent`, `decodeURIComponent` |
| `Cookies` | `cookies.dfy` | `parseCookies`, `setCookie` |
| `TrackFilter` | `track_filter.dfy` | `shouldTrack` |
| `Tracking` | `tracking.dfy` | the tracking middleware |
| `AdminAuth` | `admin_auth.dfy` | `ADMIN_TOKEN`, `requireAdminAuth` |
| `VisitsTable` | `visits_table.dfy` | `ensureVisitsTable` |
| `Aggregation` | `aggregation.dfy` | `getVisitStats`, `getVisitTimeSeries`, the two API routes |

## Model

| member | source | states |
|---|---|---|
| Text.Split | server.js:31 | `split` on one character gives at least one piece; no piece holds the separator; joining the pieces with the separator gives back the input |
| Text.IndexOf | server.js:71 | `indexOf` gives the first position of the character, with no earlier occurrence, or -1 exactly when the character is absent |
| Text.Join | server.js:53 | `join` of a non-empty list starts with its first element |
| Text.Trim | server.js:34-35 | the result is a slice of the input with no ECMAScript whitespace at either end, and only whitespace was removed |
| Text.TrimOfTrimmed | server.js:34-35 | text with no whitespace at either end is its own trim |
| Text.ParseInt | server.js:163 | `Number.parseInt(s, 10)` is NaN exactly when no digit follows the skipped leading whitespace and the optional sign |
| Text.ParseIntOfIntToString | server.js:163 | parsing a printed integer gives the integer back |
| Text.Truncate | server.js:235 | `slice(0, n)` gives a prefix of at most `n` characters: the whole text when it fits, exactly `n` characters otherwise |
| Text.LastIndexOf | server.js:112 | the last position of a character, or -1 exactly when the character is absent |
| UriComponent.Encode | server.js:47 | `encodeURIComponent` output holds only unreserved characters and `%` |
| UriComponent.EncodeIsCookieSafe | server.js:47 | encoded text holds no `;`, no `=` and no whitespace, so it survives the cookie parser's split and trim |
| UriComponent.EncodeUnreserved | server.js:47 | text made of unreserved characters is its own encoding |
| UriComponent.DecodeEncode | server.js:38 | `decodeURIComponent(encodeURIComponent(s)) == s` for every string, through UTF-8 sequences of one to four bytes |
| UriComponent.DecodeRejectsBareEscape | server.js:38-40 | a value ending in a bare `%` makes `decodeURIComponent` throw |
| UriComponent.Decode | server.js:38 | `decodeURIComponent` never lengthens its input, and text without `%` decodes to itself |
| Cookies.ParseCookies | server.js:28-44 | the dictionary the loop fills is the fold `Jar` of the header's `;`-pieces: each piece is stored in order, a later one overwriting an earlier one |
| Cookies.Segment | server.js:32-41 | a segment without `=` stores nothing; one with `=` and a non-empty trimmed name stores something; a stored name is non-empty, holds no `=` and no whitespace at either end, and is made of the segment's characters |
| Cookies.SegmentOfPaddedPair | server.js:32-41 | whitespace of any length around the name is trimmed: the segment stores the bare name with the trimmed value, decoded or raw |
| Cookies.Jar | server.js:31-41 | every name of the fold is such a stored name, and holds no `;` when no piece does |
| Cookies.ParsedCookies | server.js:28-44 | every name `parseCookies` returns is a cookie name: non-empty, no `;`, no `=`, no whitespace at either end |
| Cookies.FillCharacterisation | server.js:31-41 | a name is present exactly when some segment stores it, and its value comes from the LAST segment that stores it |
| Cookies.FillMembers | server.js:31-41 | a name is in the dictionary exactly when some segment stores it |
| Cookies.FillLast | server.js:37-41 | the value of a name is the one given by the last segment that stores it |
| Cookies.JarIsFill | server.js:31-41 | the fold over the pieces is that fill over the pieces' parsed segments |
| Cookies.MalformedSegmentSkipped | server.js:32-36 | a segment with no `=`, or with an empty trimmed name, leaves the dictionary as it was |
| Cookies.LastOccurrenceWins | server.js:34-41 | a later `k=v` segment wins with the trimmed value decoded; a value that does not decode is stored raw |
| Cookies.ParseCookieHeader | server.js:28-54 | round trip: parsing the `Cookie` header that carries pairs written as `name=encodeURIComponent(value)` gives each name its original value, the last pair of a name winning |
| Cookies.SetCookie | server.js:46-54 | the line is the pair, then each set attribute, joined with "; " |
| Cookies.CookiePartsAreAttributes | server.js:47-53 | that list is the pair followed by the texts of exactly the requested attributes |
| Cookies.AttributesInOrder | server.js:48-52 | the attributes appear in the order Max-Age, Path, HttpOnly, SameSite, Secure |
| Cookies.AttributesPresent | server.js:48-52 | an attribute appears exactly when its option is set: `maxAge != null`, the others when truthy |
| TrackFilter.EffectivePath | server.js:107 | `req.path`, or "/" when it is empty, is never empty and is the path itself when that is non-empty |
| TrackFilter.IsStaticAsset | server.js:112 | a path the asset test matches has a dot |
| TrackFilter.ShouldTrack | server.js:104-115 | a tracked request is a `GET` whose path is not `/healthz` and does not start with `/admin` |
| TrackFilter.StaticAssetByExtension | server.js:112 | the regular expression matches exactly when the text after the last `.` is one of the 12 extensions, compared without ASCII case |
| TrackFilter.ShouldTrackExactly | server.js:104-115 | a request is tracked exactly when the method is `GET`, the path is not `/healthz`, does not start with `/admin` and has none of the asset extensions |
| Tracking.HexEncode | server.js:225 | `toString("hex")` gives two lower-case hex digits per byte |
| Tracking.VisitorId | server.js:222-225 | the stored `vid` is kept exactly when it is present with at least 16 characters, else the new id is used; the id recorded then has at least 16 characters |
| Tracking.VisitPath | server.js:235 | the recorded path is a non-empty prefix of `req.path`, or "/" when it is empty, of at most 512 characters, the path itself when that fits |
| Tracking.TrackRequest | server.js:215-238 | nothing happens without a pool or for an untracked request; otherwise the latch takes the state `AfterEnsure` gives, one visit row is recorded with that id and path, and a `Set-Cookie` line is set exactly when the id is new |
| Tracking.VidCookieLine | server.js:226-232 | the cookie for a new id is `vid=<id>; Max-Age=31536000; Path=/; HttpOnly; SameSite=Lax; Secure` |
| Tracking.VidSetCookie | server.js:226-232 | the `Set-Cookie` line for the visitor id starts with `vid=` |
| Tracking.IssuedIdIsReused | server.js:221-233 | an issued id sent back after any other cookies is recorded again, and no new cookie is set |
| Tracking.FreshIdIsKept | server.js:224-225 | a new id has 32 characters, so it is kept when it comes back |
| AdminAuth.AdminToken | server.js:12 | the token is absent exactly when `ADMIN_TOKEN` is unset, and empty exactly when it holds nothing but whitespace |
| AdminAuth.MisconfiguredExactly | server.js:12-62 | the guard answers 500 exactly when `ADMIN_TOKEN` is unset or all whitespace, whatever the request |
| AdminAuth.RequireAdminAuth | server.js:56-78 | a 500 exactly when the token is unset or empty; a pass only for a `Basic` credential whose password equals the token |
| AdminAuth.PasswordOf | server.js:71-72 | the password is empty without a colon; with one, the decoded text is a colon-free user name, a `:` and the password, so the password is everything after the first colon |
| AdminAuth.CredentialBySplit | server.js:64-66 | `header.split(" ")` yields scheme `Basic` with a non-empty second field exactly when the header starts with `Basic ` followed by a non-empty credential up to the next space |
| AdminAuth.AuthOutcomes | server.js:56-78 | 500 exactly when the token is unset or empty; 401 with the `Basic realm="Admin"` challenge when the header carries no Basic credential; otherwise a pass exactly when the password equals the token, and a 401 with the challenge when not |
| AdminAuth.PasswordKeepsColons | server.js:71-72 | a password keeps every colon after the first |
| AdminAuth.UsernameIgnored | server.js:70-73 | credentials that differ only in the user name get the same answer |
| AdminAuth.NoColonNeverPasses | server.js:72-73 | a credential without a colon never passes |
| AdminAuth.ExtraFieldsIgnored | server.js:65 | fields after the credential are ignored |
| VisitsTable.AfterEnsure | server.js:80-102 | one call on a latch state: without a pool nothing changes; a query is issued exactly when there is a pool, the table is not ready and no error is cached; readiness and a cached error are sticky; an ok answer means ready, a failing answer is the cached error; the invariant is kept |
| VisitsTable.SchemaLatch.Ensure | server.js:80-102 | the new fields and the answer are those `AfterEnsure` gives: without a pool not ok and nothing changes; once ready ok, no query; with a cached error that error, no query; otherwise one query that latches success or the error |
| VisitsTable.WithoutPool | server.js:81 | without a pool every call reports "no DATABASE_URL" and no query is issued |
| VisitsTable.SuccessIsSticky | server.js:82-97 | after a success every later call is ok, whatever a query would do, and only one query is ever issued |
| VisitsTable.FailureIsSticky | server.js:83-100 | after a failure every later call returns the same error, and only one query is ever issued |
| VisitsTable.EmptyErrorRetries | server.js:83-99 | an error whose string form is empty is not cached, so the next call queries again |
| Aggregation.DayStart | server.js:133 | `date_trunc('day', now())` is a midnight (a multiple of 86400 seconds), and the latest one not after `now` |
| Aggregation.Since | server.js:129-148 | a row is in the window exactly when it is in the table at or after the start, and the window has no more rows than the table |
| Aggregation.SinceKeepsCopies | server.js:129-148 | the window holds every row at or after the start as many times as the table does, and no other row, so `COUNT(*)` counts equal rows apart |
| Aggregation.Visitors | server.js:131 | there are never more distinct visitor ids than rows |
| Aggregation.VisitorsAreIds | server.js:131 | the distinct ids are exactly the ids that occur in the rows |
| Aggregation.CountsOf | server.js:130-131 | in each window, unique visitors are at most page views, and page views are 0 only for no rows |
| Aggregation.WindowStats | server.js:129-156 | the all-time page views are all rows, and page views never grow as the window narrows: today ≤ 7 days ≤ 30 days ≤ all time |
| Aggregation.SinceMonotone | server.js:129-148 | a later window start gives no more page views and a subset of the visitors |
| Aggregation.StatsNested | server.js:129-156 | in each window unique ≤ views, and all ≥ d30 ≥ d7 ≥ today for both counts |
| Aggregation.TwoVisitorsFiveViews | server.js:150-154 | five visits by two visitors count as 5 page views and 2 unique visitors |
| Aggregation.TodayTwoVisitorsFiveViews | server.js:129-156 | five visits made today by two visitors give 5 page views and 2 unique visitors in each of the four windows |
| Aggregation.RequestedDays | server.js:257 | `Number.parseInt(String(days), 10)`, with NaN and 0 read as 30, is never 0 |
| Aggregation.ClampDays | server.js:163 | the clamp lands in [1, 365] and leaves values in that range alone |
| Aggregation.SeriesDays | server.js:163 | the number of days is always in [1, 365] |
| Aggregation.SeriesDaysDefault | server.js:163 | a missing, non-numeric or zero `days` gives 30 |
| Aggregation.OnDay | server.js:176-181 | a row is grouped under a day exactly when it is in the table and falls on that day |
| Aggregation.OnDayKeepsCopies | server.js:176-181 | the rows of a day hold every row of the table on that day as many times as the table does, and no other row |
| Aggregation.Agg | server.js:174-182 | each day `agg` holds has at least one visit and is not before the window's first day |
| Aggregation.JoinedRow | server.js:183-188 | the row carries its day, and a day missing from `agg` gets 0 for both counts |
| Aggregation.Series | server.js:167-189 | the series has `d` rows and the last one is today |
| Aggregation.SeriesDaysConsecutive | server.js:168-189 | the series has `d` rows for consecutive ascending days, ending today |
| Aggregation.AggAt | server.js:174-182 | for a day in the window, `agg` holds the day exactly when it has visits, with that day's counts over all rows |
| Aggregation.SeriesCounts | server.js:183-189 | each row carries the counts of its day over all rows, and 0 for a day without visits |
| Aggregation.EchoIsUnclamped | server.js:257 | the echoed `days` is the unclamped request: 400 echoes 400 with 365 rows, -5 echoes -5 with one row |
| Aggregation.GetVisitStats | server.js:117-157 | no stats and an unchanged latch without a pool; otherwise the latch takes the state `AfterEnsure` gives and the four windows are counted |
| Aggregation.GetVisitTimeSeries | server.js:159-198 | no series and an unchanged latch without a pool; otherwise the latch takes the state `AfterEnsure` gives and the series for the clamped day count is built |
| Aggregation.VisitsApi | server.js:242-250 | 400 "DATABASE_URL not set" and an unchanged latch without a pool; otherwise the stats, with the latch in the state `AfterEnsure` gives |
| Aggregation.TimeSeriesApi | server.js:252-261 | 400 "DATABASE_URL not set" and an unchanged latch without a pool; otherwise the series with the unclamped `days`, with the latch in the state `AfterEnsure` gives |

## Left out

- Strings are sequences of code points. JavaScript's `length`, `slice` and
  the 16- and 512-character bounds count UTF-16 code units. The two differ
  only for characters above U+FFFF.
- `decodeURIComponent` on lone surrogates, and `encodeURIComponent`
  throwing on them: a Dafny `char` is a Unicode scalar value, so lone
  surrogates do not occur.
- Cookies.ParseCookies: a name such as `__proto__` on a plain JavaScript
  object does not become an own key. The model's dictionary stores it like
  any other name.
- Tracking.TrackRequest: the insert runs concurrently with the rest of the
  request, and its failure is swallowed. The model returns the row; the
  write and its failure are not modelled. `crypto.randomBytes(16)` is the
  `freshBytes` input, and the `Set-Cookie` header is returned rather than
  appended to a response.
- Tracking.TrackRequest and VisitsTable.SchemaLatch.Ensure: concurrent
  requests that interleave while the schema query is pending are not
  modelled. Every call runs to completion before the next.
- VisitsTable.SchemaLatch.Ensure: the invariant is weaker than "ready and
  initError are never both set". The latch tests the cached error for
  truthiness. After an error whose string form is empty, a later success
  leaves `visitsReady` true beside an `initError` of "".
  `EmptyErrorRetries` shows that path.
- AdminAuth.RequireAdminAuth: `Buffer.from(encoded, "base64")` and the
  UTF-8 decoding of its bytes are one function parameter. What the decoder
  accepts or repairs is not modelled.
- Aggregation.GetVisitStats, Aggregation.GetVisitTimeSeries,
  Aggregation.VisitsApi, Aggregation.TimeSeriesApi: a query that throws
  (the 500 responses) is not modelled. The table is the `rows` input at
  query time. The four stats queries are read from one snapshot of it,
  and they share one `now`. In the server each query evaluates `now()` on
  its own, so a window may start a moment later than the model's.
- Aggregation.Series: days are integer day numbers in UTC. The database
  timezone and the `toISOString().slice(0, 10)` formatting of the day are
  not modelled. Nor is the conversion of `bigint` counts to JavaScript
  numbers.
- Aggregation.RequestedDays: `days` is a single string. An array-valued
  query parameter, and integers beyond 2^53, are not modelled. Above 2^53
  `Number.parseInt` rounds to a double, so the echoed `days` can differ
  from the model's exact integer. A value beyond the double range echoes
  `null` in the JSON body.
- The Express wiring, `/healthz`, static files, the HTML dashboard and
  `app.listen` are HTTP plumbing and presentation.
- `src/handler.ts` is not part of this model. Its behaviour depends on
  `Math.random()`, the clock and a foreign hook context.
