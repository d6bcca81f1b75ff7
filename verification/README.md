# Proxy cookie jar and standings extractor, in Dafny

This project models the two pieces of logic behind the site's serverless endpoints.

**The reverse proxy (`api/proxy.js`).**
- **Cookie jar.** The proxy keeps a process-wide cookie jar, `SESSION_JARS`. It maps session id to host to an insertion-ordered map from cookie name to value (`CookieJar`).
  - Upstream `Set-Cookie` headers are parsed into it. The name and value are split at the first `=`, and a `Domain=` attribute picks the jar.
  - It is serialised into the `Cookie` header of the next upstream request. The parent domain `aitcloud.de` is merged underneath, and the host's own cookies win.
  - `SessionJars` is a class whose `jars` field the methods update, as the JavaScript `Map` is updated in place. The pure functions beside it (`EnsureJar`, `Put`, `Merge`, `StoreAll`, `Serialize`) specify those methods, and the lemmas about them state what the source promises.
- **Request handling.** The handler
  - finds the caller's `_psid` session, or issues a new one (`ProxySession`);
  - builds the target URL from `path` and the other query parameters on the scheduler host, with `encodeURIComponent` modelled down to UTF-8 bytes (`ProxyRequest`, `UriEncoding`);
  - refuses every host outside the two-entry allow-list;
  - forwards the upstream response headers except the stripped ones, then allows framing and cross-origin reads (`ProxyHeaders`). The forwarding loop is a method on a response object whose header map it updates, proved against a fold over the upstream headers.

**The standings endpoint (`api/standings.js`).**
- Parsed JSON is a datatype whose objects keep their properties in `Object.values` order (`Json`), together with JavaScript's property reads, truthiness, `||` and `??`.
- `Standings` models:
  - the record-to-row mapping with its fallbacks and the filter that drops unnamed teams;
  - the depth-bounded search (`findStandings`) for the first preferred key whose array yields more than three rows;
  - the three extraction strategies tried in order;
  - the handler's choice between maintenance, success and error, always with status 200.

`JsStrings` holds the JavaScript string operations the source relies on: `trim`, `indexOf`, `split`, `join`, `toLowerCase` on ASCII, and the decimal rendering of a number. `Wrappers` holds `Option` and `Result`.

## Model

| member | source | states |
|---|---|---|
| JsStrings.Trim | api/proxy.js:29 | The result has no leading or trailing whitespace, is no longer than the input, and an already trimmed string is unchanged |
| JsStrings.TrimIsSlice | api/proxy.js:29 | The result is one slice of the input, and everything before and after that slice is whitespace |
| JsStrings.TrimEmpty | api/proxy.js:29 | A string trims to empty exactly when every character is whitespace |
| JsStrings.TrimKeepsFree | api/proxy.js:29 | Trimming never introduces a character the string did not hold |
| JsStrings.IndexOf | api/proxy.js:31 | -1 exactly when the character is absent, else the index of its first occurrence |
| JsStrings.Split | api/proxy.js:29 | At least one piece |
| JsStrings.SplitFirstPiece | api/proxy.js:29 | The first piece is everything before the first separator, or the whole string when there is none |
| JsStrings.SplitPiecesFree | api/proxy.js:29 | No piece of a split holds the separator |
| JsStrings.SplitThenJoin | api/proxy.js:29 | Joining the pieces with the separator gives the original string back |
| JsStrings.JoinThenSplit | api/proxy.js:64 | Splitting a join of one or more separator-free pieces gives exactly those pieces back |
| JsStrings.LowerAsciiString | api/proxy.js:36 | Same length, each character lowered, non-letters kept |
| JsStrings.DecimalString | api/standings.js:22 | A number renders as a non-empty run of decimal digits with no leading zero |
| JsStrings.DecimalRoundTrip | api/standings.js:22 | The decimal rendering of a number reads back as that number |
| Json.Values | api/standings.js:94 | `Object.values`: one value per property, in property order |
| Json.LookupFirst | api/standings.js:75-78 | A property read is undefined exactly when no property has that key, else the value of the first property with it |
| Json.LookupInValues | api/standings.js:88-94 | A value read by key is one of the object's values |
| Json.Member | api/standings.js:75-78 | A property read on anything but an object is undefined |
| Json.MemberInChildren | api/standings.js:88-94 | A member value is among the values the search descends into |
| Json.OptionalMember | api/standings.js:75 | `?.` on undefined or null gives undefined, otherwise it is a plain property read |
| Json.Or | api/standings.js:75 | `a \|\| b` is `a` when `a` is truthy, else `b` |
| Json.Coalesce | api/standings.js:76-78 | `a ?? b` is `a` unless it is null or undefined, else `b` |
| Standings.FirstTruthyOfThree | api/standings.js:75 | The first-truthy choice is exactly the chain `a \|\| b \|\| c \|\| fallback` |
| Standings.TeamName | api/standings.js:75 | The team name is always truthy |
| Standings.TeamNameIsOrChain | api/standings.js:75 | The team name is `team?.name?.short \|\| name?.short \|\| abbreviation \|\| '???'` |
| Standings.Stat | api/standings.js:76-78 | A numeric field is never null |
| Standings.StatIsCoalesceChain | api/standings.js:76-78 | A numeric field is `key ?? alt ?? 0`, so an explicit 0 is kept |
| Standings.UnnamedExactly | api/standings.js:75-80 | The name is `'???'` exactly when no candidate is truthy or the first truthy one is itself `'???'` |
| Standings.ToRow | api/standings.js:73-79 | A row carries the position it was given and trend `'same'` |
| Standings.MapItems | api/standings.js:73-79 | One row per element, the element at index i numbered i + first |
| Standings.KeepNamed | api/standings.js:80 | The filter keeps no row named `'???'` and never lengthens the list |
| Standings.ExtractFromStandingsArray | api/standings.js:71-81 | `[]` for a non-array; a TypeError exactly when an element is null; otherwise at most as many rows as elements, all named and all with trend `'same'` |
| Standings.KeptRowsKeepNumber | api/standings.js:73-80 | A kept row is the row its position names, so positions are assigned before filtering |
| Standings.KeptIncreasing | api/standings.js:73-80 | Kept positions strictly increase |
| Standings.KeptContains | api/standings.js:80 | Every named row survives the filter |
| Standings.ExtractedRowsMatchElements | api/standings.js:73-80 | Every output row is the row of the element at index pos - 1, and 1 <= pos <= input length |
| Standings.ExtractedIncreasing | api/standings.js:73-80 | Output positions strictly increase |
| Standings.ExtractedKeepsExactlyNamed | api/standings.js:75-80 | An element's row is in the output exactly when its team name is not `'???'` |
| Standings.KeyCandidate | api/standings.js:88-91 | When the key holds an array of more than 3 elements, the step is that array's extraction, which throws on a null element; otherwise it yields no rows |
| Standings.KeyResults | api/standings.js:87 | One candidate per preferred key, in the order rows, standings, table, items, teams |
| Standings.FirstLong | api/standings.js:87-92 | A non-empty result has more than 3 rows and is one of the candidates |
| Standings.FirstLongFirstWins | api/standings.js:87-92 | The first candidate that throws or has more than 3 rows decides the loop when every earlier one passes quietly |
| Standings.FirstLongNoneWins | api/standings.js:87-92 | No winning candidate gives `[]` |
| Standings.TryKeys | api/standings.js:87-92 | The key loop returns `[]` or more than 3 named rows, taken from one of the preferred keys |
| Standings.FindStandings | api/standings.js:83-102 | `[]` beyond depth 12 or for a primitive or null; any other result is `[]` or more than 3 named rows |
| Standings.SearchValues | api/standings.js:94-99 | The descent over child values returns `[]` or more than 3 named rows |
| Standings.SearchValuesFirstDecides | api/standings.js:94-99 | The first object-typed child, in `Object.values` order, whose search throws or yields more than 3 rows decides the descent, whatever later children hold |
| Standings.SearchValuesNoneDecides | api/standings.js:94-101 | When no child's search throws or yields more than 3 rows, the descent yields `[]` |
| Standings.FindStandingsTakesKeyRows | api/standings.js:87-92 | A key loop that throws or yields more than 3 rows decides the result before any descent |
| Standings.FindStandingsKeyWins | api/standings.js:87-92 | The first preferred key whose extraction throws or yields more than 3 rows decides the result |
| Standings.FindStandingsDescends | api/standings.js:87-99 | When no key wins, the result is the search over the child values in order |
| Standings.FindStandingsSound | api/standings.js:83-102 | A non-empty result is the extraction of an array of more than 3 elements nested within the remaining depth |
| Standings.SearchValuesSound | api/standings.js:94-99 | A non-empty result of the descent comes from an array nested in one of the child values |
| Standings.ExtractFromNextData | api/standings.js:62-65 | The `__NEXT_DATA__` strategy returns `[]` or more than 3 named rows |
| Standings.ExtractFromState | api/standings.js:67-69 | The `window.__STATE__` strategy returns `[]` or more than 3 named rows |
| Standings.Caught | api/standings.js:32-56 | A thrown strategy leaves no rows, and a successful one leaves its rows |
| Standings.ChooseStandings | api/standings.js:27-59 | Empty exactly when every strategy is empty; otherwise the rows of the first non-empty strategy in the order `__NEXT_DATA__`, window state, inline array; 1 to 3 rows only from the inline strategy |
| Standings.FetchStandings | api/standings.js:13-60 | Throws exactly on a rejected fetch or a non-2xx status (`HTTP <status>`); otherwise the strategy chain's rows |
| Standings.ThrowingStrategyIsSkipped | api/standings.js:32-56 | A strategy that throws changes nothing: the result is as if its script were absent |
| Standings.ScriptRowsSound | api/standings.js:29-47 | Rows from an embedded script come from an array of more than 3 elements nested in its document |
| Standings.ChosenRowsSound | api/standings.js:27-59 | Chosen rows are the extraction of an array nested in one of the page's documents |
| Standings.LeagueName | api/standings.js:106 | A missing or empty `liga` means `premier`; any other value is kept |
| Standings.LeagueLookup | api/standings.js:6-9 | Only `premier` has a URL; `spanyol` is the null placeholder; the `Object.prototype` names find an inherited member |
| Standings.Handler | api/standings.js:104-139 | Always status 200; an error body carries no rows; no error exactly when the league has a URL and fetching succeeds, and then the rows are the chain's; `maintenance` for a missing or `null` league, the fetch's own message when it fails, an invalid-URL error for an inherited prototype member; the Cache-Control header is sent except on a fetch error |
| Standings.LeagueSelection | api/standings.js:104-119 | No league means premier; an unknown league answers maintenance with no rows |
| CookieJar.GetSomeIffNamed | api/proxy.js:22 | `Map.get` finds a value exactly for a name in the jar, and that entry holds it |
| CookieJar.Put | api/proxy.js:38 | `Map.set`: the name reads the new value, every other name is unchanged, an existing name keeps its place, a new one goes last, names stay distinct |
| CookieJar.FromEntries | api/proxy.js:22 | `new Map(entries)` has distinct names and is empty exactly for no entries |
| CookieJar.FromEntriesOfDistinct | api/proxy.js:22 | A map built from distinct entries is those entries |
| CookieJar.Merge | api/proxy.js:22 | The merged jar has distinct names |
| CookieJar.MergeGet | api/proxy.js:22 | In the merged jar a name reads the host jar's value when it has one, else the parent's |
| CookieJar.MergeNames | api/proxy.js:22 | The merged names are the parent's in order, followed by the host's new names in host order |
| CookieJar.MergeEmpty | api/proxy.js:22 | The merged jar is empty exactly when both jars are |
| CookieJar.SerializeEmpty | api/proxy.js:23 | The `Cookie` header is empty exactly when the merged jar is |
| CookieJar.Segments | api/proxy.js:29 | At least one segment; each is trimmed and holds no `;` |
| CookieJar.FindDomain | api/proxy.js:36 | A segment starting with `domain=` in any case with no such segment before it, or none when no segment does |
| CookieJar.StripDot | api/proxy.js:37 | One leading `.` removed, anything else unchanged |
| CookieJar.NameValuePartShape | api/proxy.js:31-34 | Skipped exactly when there is no `=` or it comes first; else both halves trimmed, the name non-empty and free of `=` |
| CookieJar.ParseSetCookieShape | api/proxy.js:29-37 | A header is skipped exactly when its first segment has no `=` or starts with one; an accepted name is non-empty, trimmed and free of `=` and `;`; the value is trimmed and free of `;`; the jar is the target domain |
| CookieJar.ParseNameValue | api/proxy.js:29-37 | `name=value` without a `Domain` attribute stores exactly that name and value in the request host's jar |
| CookieJar.DomainTarget | api/proxy.js:36-37 | A `Domain=.d` attribute selects the jar `d` |
| CookieJar.ParseWithDomain | api/proxy.js:29-38 | `name=value; Domain=.d` stores that name and value in the jar of `d` |
| CookieJar.EnsureJarEffect | api/proxy.js:11-16 | Get-or-create: afterwards the jar exists with the same contents, an existing one leaves the store unchanged, and no other session's or host's jar is touched |
| CookieJar.PutInValid | api/proxy.js:38 | Setting an entry keeps every jar's names distinct |
| CookieJar.ApplyEffect | api/proxy.js:32-38 | A skipped header changes nothing; an accepted one sets only its name in its own jar and leaves every other jar as it was |
| CookieJar.StoredCookieIsSent | api/proxy.js:22-38 | After storing, the cookie's name reads the stored value in its jar and every other name is unchanged |
| CookieJar.SessionJars.constructor | api/proxy.js:9 | The store starts empty |
| CookieJar.SessionJars.GetJar | api/proxy.js:11-16 | `getJar`: the store becomes the get-or-create store, and the jar returned is the one it held before, or empty |
| CookieJar.SessionJars.Set | api/proxy.js:38 | `jar.set` on an existing jar: the store becomes the one with that entry set |
| CookieJar.SessionJars.StoreSetCookies | api/proxy.js:26-40 | `storeSetCookies`: the host jar is created, then every header is applied in order |
| CookieJar.SessionJars.CookieHeader | api/proxy.js:18-24 | `jarToCookieHeader`: both jars are created, and the header serialises the parent jar merged with the host jar |
| ProxySession.SpacesFrom | api/proxy.js:47 | The greedy `\s*`: a run of whitespace, ending at a non-space or the end |
| ProxySession.ValueRun | api/proxy.js:47 | The greedy `[^;]+`: a run of non-`;` characters, ending at a `;` or the end |
| ProxySession.ValueAfterMarkerShape | api/proxy.js:47 | A captured value follows `_psid=`, is non-empty, holds no `;`, and runs to the next `;` or the end |
| ProxySession.MatchStartIsLeftmost | api/proxy.js:47 | The match found is the leftmost one; no earlier position matches |
| ProxySession.SessionIdShape | api/proxy.js:47-49 | A found session id is non-empty, holds no `;`, and is the value after some `_psid=` in the header |
| ProxySession.SessionIdLeading | api/proxy.js:47-49 | A header starting `_psid=<v>`, with `;` or the end after it, yields `v` |
| ProxySession.SessionIdAfter | api/proxy.js:47-49 | A header `<other>; _psid=<v>...` yields `v` when `other` is one cookie not starting with `_` |
| ProxySession.NoMarkerNoSession | api/proxy.js:47-48 | A header without `_psid=` yields no session |
| ProxySession.GeneratedIdIsPlain | api/proxy.js:51 | A generated id of 32 hex digits is non-empty and holds no `;` |
| ProxySession.ResolveSessionSound | api/proxy.js:45-53 | The id is never empty; a cookie is issued exactly when the header has no session; an existing session is kept; an issued cookie brings the same id back |
| UriEncoding.HexDigit | api/proxy.js:63 | Escape digits are `0-9` or upper-case `A-F` |
| UriEncoding.Utf8 | api/proxy.js:63 | A character encodes to one to four bytes |
| UriEncoding.Utf8RoundTrip | api/proxy.js:63 | The bytes decode back to the character; the length is the shortest for the code point (1 below 0x80, 2 below 0x800, 3 below 0x10000, else 4); the lead byte announces the length; continuation bytes lie in 0x80-0xBF |
| UriEncoding.Escapes | api/proxy.js:63 | Three characters per byte |
| UriEncoding.EscapeRoundTrip | api/proxy.js:63 | An escape is `%` followed by two digits that read back as the byte |
| UriEncoding.EscapesRoundTrip | api/proxy.js:63 | Each escape in a run reads back as its byte |
| UriEncoding.EscapesSafe | api/proxy.js:63 | Escapes are made of `%` and hexadecimal digits |
| UriEncoding.EncodedIsSafe | api/proxy.js:63 | An encoded component holds only unreserved characters and `%`, so no `&`, `=`, `?` or `#` |
| UriEncoding.EncodeUnreserved | api/proxy.js:63 | A string of unreserved characters is its own encoding |
| ProxyRequest.QueryValue | api/proxy.js:57-60 | A query value is present only as a parameter with that key, and absent when no parameter has it |
| ProxyRequest.StripLeadingSlashes | api/proxy.js:60 | Every leading `/` is removed and nothing else: the result does not start with `/` and is a suffix after slashes only |
| ProxyRequest.ExtraParams | api/proxy.js:61-62 | The kept parameters are neither `path` nor `url`, and there are no more of them than parameters |
| ProxyRequest.ExtraParamsConcat | api/proxy.js:61-62 | Filtering a concatenation is the concatenation of the filtered parts, so the query's order is kept |
| ProxyRequest.ExtraParamsSingle | api/proxy.js:61-62 | A single parameter is kept exactly when it is neither `path` nor `url` |
| ProxyRequest.ExtraParamsExactly | api/proxy.js:61-62 | A parameter is kept exactly when it is in the query and is neither `path` nor `url` |
| ProxyRequest.QueryPairs | api/proxy.js:63 | One encoded pair per kept parameter, in the parameters' order |
| ProxyRequest.QueryPairHalves | api/proxy.js:63 | A pair's first `=` separates the encoded key from the encoded value, and the pair holds no `&` |
| ProxyRequest.ExtraQueryEmpty | api/proxy.js:64-65 | The query string is empty exactly when no parameter is kept |
| ProxyRequest.ExtraQuerySplitsBack | api/proxy.js:61-64 | Splitting the query string at `&` gives the pairs back in order, and each splits into its encoded key and value |
| ProxyRequest.TargetOf | api/proxy.js:57-66 | The `url` parameter is used, as given, exactly when it is present and non-empty; otherwise the URL built from `path` and the other parameters |
| ProxyRequest.BuiltUrlShape | api/proxy.js:60-65 | A built URL is the scheduler base plus the slash-stripped path, followed by `?` and the query string exactly when parameters remain |
| ProxyRequest.BuiltUrlOnScheduler | api/proxy.js:65 | A built URL starts with `http://schedulerzrh.aitcloud.de/` |
| ProxyRequest.AnyEquals | api/proxy.js:70 | `some(h => hostname === h)` holds exactly when one of the hosts equals the hostname |
| ProxyRequest.EarlyStatus | api/proxy.js:69-72 | Only an admitted request goes on without an early answer |
| ProxyRequest.AdmitExactly | api/proxy.js:69-72 | Exactly the two allowed hosts are fetched; every other host gets 403; an unparsable URL, whose throw the handler's `catch` answers, gets 502 and nothing else does |
| ProxyHeaders.ProxyResponse.constructor | api/proxy.js:42 | The response starts with the headers given |
| ProxyHeaders.ProxyResponse.SetHeader | api/proxy.js:85 | `setHeader` succeeds exactly for a valid name and value, and then sets the lower-cased name; otherwise nothing changes |
| ProxyHeaders.ProxyResponse.ForwardHeaders | api/proxy.js:83-89 | The headers become the fold of the upstream headers, then `x-frame-options: ALLOWALL` and `access-control-allow-origin: *` |
| ProxyHeaders.ForwardedStep | api/proxy.js:83-87 | One more upstream header is set when it is not stripped and is accepted, else skipped |
| ProxyHeaders.StrippedNeverForwarded | api/proxy.js:78-86 | No upstream header adds or replaces a stripped name |
| ProxyHeaders.SafeHeaderForwarded | api/proxy.js:83-86 | An accepted, non-stripped header with no later namesake is forwarded with its value |
| ProxyHeaders.ForwardedFromUpstream | api/proxy.js:83-86 | Every header added or changed comes from an accepted, non-stripped upstream header with that lower-cased name |
| ProxyHeaders.EmbeddingHeaders | api/proxy.js:78-89 | After forwarding, framing is always allowed, cross-origin reads are open, and the session's `Set-Cookie` survives |

## Left out

- UriEncoding.EncodeUriComponent: Dafny characters are Unicode scalar values, so a lone surrogate cannot occur. The `URIError` that `encodeURIComponent` throws on one, which the handler answers with 502, is not modelled.

- Json.Lookup: an object's field list may repeat a key, which `JSON.parse` never produces. The lemmas hold for any field list; with a repeated key a lookup reads the first entry.

- `api/matches.js` is not part of this model. It only passes one upstream page through, with no logic of its own.
- `fetchFollowingRedirects` (api/proxy.js:189-251) is network I/O, promises, timeouts and stream buffering. Its rejection after 15 redirects (api/proxy.js:191) is not modelled. The model does cover the jar calls it makes, `jarToCookieHeader` and `storeSetCookies`, as methods.
- The HTML, CSS and JavaScript body rewriting and the injected interceptor script (api/proxy.js:91-180) are not modelled. They depend on the JavaScript regular-expression engine and the `URL` constructor.
- `res.status`, `res.end` and `console.error` are not modelled. Only which headers are set and which early status is answered are modelled.
- `crypto.randomBytes` (api/proxy.js:51) is randomness. The generated id is a parameter, constrained to 32 lower-case hexadecimal digits.
- `fetch`, `res.ok` and `res.text` (api/standings.js:14-23) are I/O. Their outcome is the `Fetched` parameter: a rejection message, or a status and the page.
- The script-capturing regular expressions and `JSON.parse` (api/standings.js:30, 33, 40, 43, 50, 53) are not modelled. Each strategy's parsed document is an `Option` input of `Page`.
- `Response` construction, the `Content-Type` and CORS headers, and the edge `config` export are not modelled. Only the status, the body and whether `Cache-Control` is present are modelled.
- `new URL(req.url).searchParams` (api/standings.js:105) is URL parsing. `liga` is a parameter.
- Concurrency: each request is handled as one sequence of steps. The interleaving of concurrent requests on `SESSION_JARS` is not modelled.
- CookieJar.SessionJars.GetJar: returns the jar's contents as a value. A JavaScript `Map` is shared by reference, so the aliasing between the returned jar and the store is not modelled. Writes go through `Set` instead.
- JsStrings.LowerAsciiString: lowers ASCII letters only. `toLowerCase` also lowers other Unicode letters. This is exact for the `domain=` test and for the stripped names, which are ASCII, but not for arbitrary header names.
- ProxyRequest.TargetOf: keeps the `url` parameter as it arrived. `decodeURIComponent` is not modelled.
- ProxyRequest.Admit: takes the hostname `new URL` would give, or `None` when it throws. The URL parser itself is not modelled.
- ProxyRequest.QueryValue: the query is a list of string-valued parameters in the order `Object.entries` lists them, and a read takes the first with its key.
  - Array-valued parameters from repeated keys are not modelled.
  - `Object.entries` moving integer-like keys to the front is not modelled.
- ProxyHeaders.ProxyResponse.SetHeader: approximates Node's validation by section 3.2.6 of RFC 7230: a name must be a token, and a value must hold tab, visible ASCII, space or 0x80-0xFF. Array-valued upstream headers and the original casing Node remembers for each name are not modelled.
- Standings.ExtractFromStandingsArray: an element that is `null` raises a TypeError. Its message is fixed to the V8 wording.
- Standings.FetchStandings: `HTTP <status>` is rendered for the status as a number. Network and DNS failures reach the model only as their message.
- Standings.Handler: a league name inherited from `Object.prototype` (`constructor`, `toString`, ...) reaches `fetch` as a string that is not a URL, so `fetch` rejects. The model gives that rejection the fixed message `Invalid URL`; the runtime's own wording is not modelled.
