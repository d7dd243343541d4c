# isitchristmas screenshot service — a Dafny model of its decision logic

The service renders isitchristmas.com for a chosen country and returns a
PNG. Around the browser and HTTP plumbing sit three small, pure decision
procedures. This project models those three and proves properties of them:

1. **Geo resolver** (`maxmind.py`). At start-up, a loader walks an ordered list
   of candidate dataset paths and keeps the first that exists and opens.
   `get_country_from_ip` then maps an IP string to a two-letter code through a
   short-circuit chain:
   - parse the address;
   - private or loopback gives `"GB"`;
   - no reader gives `"GB"`;
   - a lookup miss or error gives `"GB"`;
   - an empty code gives `"GB"`;
   - otherwise the recorded code is returned.
2. **Document rewrite** (`screenshot.py`). The interception handler fetches the
   response of every request whose resource type is `document` (frames
   included) and replaces every `var country = "XX";` (either quote
   style, two upper-case letters) with `var country = "<code>";`. Every other
   request continues untouched.
3. **Country selection** (`app.py`). The endpoint either upper-cases a supplied
   country, or resolves one from the client address. That address is the first
   field of `X-Forwarded-For`, else the peer host, else `127.0.0.1`. The
   download is named `isitchristmas-<country>.png`.

Modules: `Wrappers` (Option), `Text` (Python's `split`, `strip`, ASCII
`upper`), `IPv4` (the dotted-quad parser and the private/loopback range
table), `GeoIp`, `Screenshot`, `App`.

Modelling choices:
- The dataset is a map from the queried address text to a `Lookup` outcome:
  `Found(code)`, `NotFound` or `LookupError`. Text it does not hold is not
  found. A record whose `iso_code` is absent is `Found("")`, because the source
  treats both as false.
- The filesystem is a `Disk` input. It holds the set of paths that exist and
  the datasets that open without error.
- The rewrite is a left-to-right scan (`Screenshot.Rewrite`). It is proved
  equal to a separate definition of `re.sub`'s leftmost, non-overlapping
  replacement (`Screenshot.Sub`).
- The private table is the IPv4 `is_private` table of Python 3.13's
  `ipaddress`, including its two exempted /32 blocks. `is_loopback` is
  127.0.0.0/8.

Behaviour of the code worth noting:
- The loader keeps the first candidate that exists **and opens**. A candidate
  that exists but fails to open is skipped, not taken.
- Every occurrence in the document is replaced, not only the first.
- A resolved code is a valid country code whenever `"GB"` and every code the
  dataset records are (`GeoIp.ResultValidWhenDatasetValid`). Nothing else
  checks it.
- A supplied country is only upper-cased, never validated. One whose
  upper-cased form holds a character beyond U+00FF is captured for, and then
  building the response fails, because the header value must be latin-1
  (`App.NonLatin1CountryFails`).
- The explicit `browser.close()` (`screenshot.py:59`) runs only on the
  success path. The enclosing `async with async_playwright()` block
  (`screenshot.py:20`) shuts Playwright down on every exit path. The capture
  session is not modelled.

## Model

| member | source | states |
|---|---|---|
| Text.Split | app.py:36 | `str.split(sep)`: at least one field, no field holds the separator, and joining the fields gives the input back |
| Text.SplitJoin | app.py:36 | splitting joined separator-free fields returns exactly those fields (the other half of the round trip) |
| Text.FirstFieldIgnoresLaterFields | app.py:36 | the first field is the text before the first comma, whatever follows it |
| Text.Strip | app.py:36 | `strip()` cuts only whitespace, only from the two ends, and leaves none at either end |
| Text.StripIdempotent | app.py:36 | stripping twice equals stripping once |
| Text.Upper | app.py:43 | upper-casing keeps the length, leaves no lower-case ASCII letter, and changes only lower-case letters, each to its capital |
| Text.UpperIdempotent | app.py:43 | upper-casing twice equals upper-casing once |
| IPv4.ParseOctet | maxmind.py:54 | an octet is accepted exactly when it is the canonical decimal text of a value 0..255 (no empty, non-digit, over-long, leading-zero or over-255 text) |
| IPv4.Parse | maxmind.py:54 | a parsed address formats back to exactly the input text |
| IPv4.ParseFormat | maxmind.py:54 | every address parses back from its dotted-quad text |
| IPv4.ParseIffFormat | maxmind.py:54 | text parses to an address if and only if it is that address's dotted-quad text |
| IPv4.DotlessIsNotAnAddress | maxmind.py:53-58 | text without a dot is never an address |
| IPv4.MalformedExamples | tests/test_maxmind.py:35-39 | `""` and `"not_an_ip"` do not parse |
| IPv4.OutOfRangeExample | tests/test_maxmind.py:35-39 | `"999.999.999.999"` does not parse |
| IPv4.LoopbackTextParses | app.py:38 | the loopback literal parses to 127.0.0.1 |
| IPv4.HomeTextParses | tests/test_maxmind.py:31 | `192.168.0.10` parses to those octets |
| IPv4.CorporateTextParses | tests/test_maxmind.py:32 | `10.0.0.1` parses to those octets |
| IPv4.PublicTextParses | tests/test_maxmind.py:42-50 | `8.8.8.8` parses |
| IPv4.IsPrivate | maxmind.py:55 | an address is private exactly when it lies in one of the blocks 0/8, 10/8, 127/8, 169.254/16, 172.16/12, 192.0.0/24 (except 192.0.0.9 and 192.0.0.10), 192.0.2/24, 192.168/16, 198.18/15, 198.51.100/24, 203.0.113/24 or 240/4 |
| IPv4.IsLoopback | maxmind.py:55 | an address is loopback exactly when its first octet is 127 |
| IPv4.IsLocal | maxmind.py:55 | the guard `is_private or is_loopback` holds exactly when the address is private, since every loopback address is private |
| IPv4.ExemptedAddressesArePublic | maxmind.py:55 | inside 192.0.0.0/24 only 192.0.0.9 and 192.0.0.10 count as public |
| IPv4.CommonBlocksAreLocal | maxmind.py:55-56 | 127/8, 10/8, 172.16/12 and 192.168/16 all count as local |
| IPv4.PublicExample | maxmind.py:55 | 8.8.8.8 is neither private nor loopback |
| GeoIp.NoDatasetMeansFallback | maxmind.py:14-39 | when none of the three standard locations holds a loadable dataset, no reader is found and every address gives `"GB"` |
| GeoIp.FirstStandardPathWins | maxmind.py:14-30 | a loadable dataset at the first standard location is used whatever the others hold |
| GeoIp.FirstLoadable | maxmind.py:25-30 | the first candidate that exists and loads: none exists exactly when no candidate loads; otherwise it loads and none before it does |
| GeoIp.LoadReader | maxmind.py:25-34 | the start-up loop yields a reader exactly when some candidate exists and loads, and then yields that first candidate's dataset; otherwise the reader stays absent |
| GeoIp.LaterCandidatesNotTried | maxmind.py:25-30 | once a candidate loads, appending more candidates changes nothing |
| GeoIp.SkipsUnloadable | maxmind.py:26-32 | a missing candidate, or one that fails to open, is skipped and the search continues with the next |
| GeoIp.GetCountryFromIp | maxmind.py:42-72 | the result is `"GB"` or a code the dataset records for the input, and it is not `"GB"` only for a parsed, non-local address |
| GeoIp.UnparseableIsFallback | maxmind.py:53-58 | text that is not an address gives `"GB"` |
| GeoIp.MalformedInputsAreGB | tests/test_maxmind.py:35-39 | `""`, `"not_an_ip"` and `"999.999.999.999"` give `"GB"` whatever dataset is loaded |
| GeoIp.LocalIsFallbackWithoutLookup | maxmind.py:55-56 | the text of a private or loopback address gives `"GB"`, and the same answer under any reader, so the dataset is not consulted |
| GeoIp.LocalInputsAreGB | tests/test_maxmind.py:28-32 | `127.0.0.1`, `192.168.0.10` and `10.0.0.1` give `"GB"` under any reader |
| GeoIp.NoReaderIsFallback | maxmind.py:61-72 | with no reader loaded, every input gives `"GB"` |
| GeoIp.LookupFailureIsFallback | maxmind.py:62-72 | a not-found result or any other lookup error gives `"GB"`; it is not propagated |
| GeoIp.EmptyCodeIsFallback | maxmind.py:64-66 | a record with an empty or absent code gives `"GB"` |
| GeoIp.FoundCodeReturnedVerbatim | maxmind.py:63-66 | the text of a public address with a non-empty recorded code gives exactly that code |
| GeoIp.ResultValidWhenDatasetValid | maxmind.py:63-72 | for any notion of valid code that `"GB"` and every dataset code meet, the answer meets it too |
| GeoIp.ResultIsCountryCode | tests/test_maxmind.py:50-56 | if the dataset's codes are two upper-case letters, so is every answer |
| GeoIp.PublicAddressExample | tests/test_maxmind.py:42-56 | a public address is looked up and its recorded code returned |
| Screenshot.ReplacementShape | screenshot.py:36-37 | the replacement starts like an occurrence and always uses double quotes; with a two-letter code it is itself an occurrence of the pattern |
| Screenshot.MatchIsPattern | screenshot.py:36 | an occurrence is exactly 19 characters matched class by class: the fixed prefix, a quote of either kind, two capital ASCII letters, a quote of either kind, `;` |
| Screenshot.Rewrite | screenshot.py:35-39 | the substitution keeps the body's length when the code has two characters |
| Screenshot.MatchShape | screenshot.py:36 | the only `v` in an occurrence is its first character |
| Screenshot.MatchesDoNotOverlap | screenshot.py:36 | two occurrences never overlap |
| Screenshot.NextMatch | screenshot.py:35-39 | the leftmost occurrence at or after a position; none when there is none |
| Screenshot.ScanCopies | screenshot.py:35-39 | a stretch without occurrences is copied verbatim |
| Screenshot.RewriteIsSub | screenshot.py:35-39 | the scan equals `re.sub`'s leftmost, non-overlapping replacement |
| Screenshot.UnchangedWhenCanonical | screenshot.py:35-39 | with a two-letter code, a body whose every occurrence already reads `var country = "<code>";` is returned unchanged |
| Screenshot.NoMatchUnchanged | screenshot.py:35-39 | a body with no occurrence is returned unchanged |
| Screenshot.UnchangedOnlyWhenCanonical | screenshot.py:35-39 | conversely, with a two-letter code an unchanged body has only canonical occurrences |
| Screenshot.NoMatchAfterCopy | screenshot.py:35-39 | copying a character where no occurrence starts never creates one there |
| Screenshot.OnlyReplacementsRemain | screenshot.py:35-39 | after rewriting with a valid code, every occurrence in the output is the replacement; none survives and none is created |
| Screenshot.RewriteIdempotent | screenshot.py:35-39 | rewriting again with the same two-upper-case-letter code changes nothing |
| Screenshot.EveryOccurrenceReplaced | screenshot.py:35-39 | with a two-letter code, every occurrence, in either quote style, is replaced in place by the double-quoted form |
| Screenshot.OutsideOccurrencesKept | screenshot.py:35-39 | with a two-letter code, every character outside the occurrences is kept in place |
| Screenshot.SingleQuotesReplaced | screenshot.py:34-37 | `'US'` is replaced by `"FR"` |
| Screenshot.MixedQuotesReplaced | screenshot.py:34-37 | mismatched quotes `"US'` also match and are replaced |
| Screenshot.LowerCaseUntouched | screenshot.py:36 | `"us"` is left untouched |
| Screenshot.ThreeLettersUntouched | screenshot.py:36 | `"USA"` is left untouched |
| Screenshot.HandleRoute | screenshot.py:26-45 | only a document is fulfilled, with the upstream status and headers and the body `re.sub` makes of the upstream body, which keeps its length for a two-character code; everything else continues |
| Screenshot.OtherResourcesContinue | screenshot.py:28-45 | a non-document request continues, whatever its upstream response would be |
| Screenshot.DocumentWithoutPatternPassesThrough | screenshot.py:28-42 | a document without the pattern is fulfilled with the upstream response as is |
| Screenshot.DocumentCountryReplaced | screenshot.py:28-42 | a document's country variable is replaced by the requested code |
| App.ClientIp | app.py:36-38 | the client address is never empty unless the peer host itself is empty |
| App.SelectCountry | app.py:34-44 | a supplied country is upper-cased; otherwise the country is what the resolver gives for the client address |
| App.ContentDisposition | app.py:52 | the header holds the country between the fixed head `inline; filename=isitchristmas-` and tail `.png`, and it can be encoded as latin-1 exactly when the country can |
| App.DispositionRoundTrip | app.py:52 | the download name determines its country, and every well-formed name is the one made for its country |
| App.GetScreenshot | app.py:46-54 | the capture runs for the selected country; the response object is built exactly when that country is latin-1 text, typed `image/png` with a download name carrying the same country, and otherwise building it fails |
| App.SuppliedCountryWins | app.py:42-43 | a supplied country is used upper-cased; the header, the peer and the dataset play no part |
| App.ForwardedForFirstField | app.py:36 | a non-blank first header field, stripped, is the client address |
| App.LaterFieldsIgnored | app.py:36-38 | fields after the first comma never influence the client address |
| App.BlankFirstFieldFallsBack | app.py:37-38 | a blank first field falls back to the peer host, then to `127.0.0.1` |
| App.ResolvedCountryIsFallbackOrRecorded | app.py:38-40 | without a supplied country the answer is `"GB"` or a code recorded for the client address |
| App.PeerlessRequestIsGB | app.py:36-40 | a request with no country, no header and no peer ends up `"GB"` |
| App.LoopbackClientLikeGb | app.py:34-52 | a loopback client with no country gets the same response as one asking for `gb` |
| App.SuppliedLowerCaseExample | app.py:42-52 | asking for `fr` captures for `FR` and names the download `isitchristmas-FR.png` |
| App.NonLatin1CountryFails | app.py:42-54 | asking for `€`, which upper-casing leaves as it is, runs the capture for `€` and then fails to build the response |

## Left out

- GeoIp.GetCountryFromIp: IPv6 text is treated as unparseable and so gives `"GB"`. `ipaddress.ip_address` would accept it, and a public IPv6 address would be looked up. The IPv6 grammar and its private table are not modelled.
- IPv4.Parse: only the IPv4 half of `ipaddress.ip_address` is modelled.
- IPv4.IsPrivate: the table is the one from Python 3.13. Older Python versions use slightly different tables.
- Text.Upper: ASCII only. Unicode case mapping in `str.upper`, which can change the length, is not modelled.
- Screenshot.Rewrite: requires a code without a backslash. `re.sub` processes escapes in the replacement string, and that processing is not modelled.
- Screenshot.HandleRoute: requires a code without a backslash, for the same reason as `Screenshot.Rewrite`. A supplied country holding a backslash reaches the handler, and what `re.sub` then makes of it is not modelled.
- Screenshot.EveryOccurrenceReplaced: stated for two-letter codes only. A supplied country of any other length shifts later positions; `Screenshot.RewriteIsSub` covers every code.
- Screenshot.OutsideOccurrencesKept: stated for two-letter codes only, for the same reason.
- Screenshot.DocumentCountryReplaced: stated for two-character codes only, for the same reason. A supplied `usa` reaches the handler as `USA`; for such codes `Screenshot.HandleRoute` states the fulfilled body as `re.sub`'s result.
- Screenshot.UnchangedWhenCanonical: stated for two-letter codes only. With a code of four or more characters the replacement can itself contain a shorter occurrence (code `AB";` turns `var country = "AB";";` into a longer body), which a second pass lengthens.
- App.GetScreenshot: the PNG bytes are not modelled. The response records the country the capture runs for instead.
- App.GetScreenshot: upper-casing is ASCII only, so the model and the code can disagree on whether the response is built. A supplied latin-1 letter whose Python capital lies beyond U+00FF (`ÿ` becomes `Ÿ`) is built here, where the code fails. A letter beyond U+00FF whose Python capital is ASCII (`ı` becomes `I`, `ſ` becomes `S`, `ﬀ` becomes `FF`) fails here, where the code serves it.
- App.GetScreenshot: the outcome is whether the response object is built. A header value holding a latin-1 control character (`?country=%0A`) is built, but the server refuses it when sending, and that refusal is not modelled.
- App.ClientIp: the header arrives as one optional value. Case-insensitive header lookup and repeated headers are not modelled.
- The capture session is not modelled, because it is browser I/O. That covers launch, viewport, route registration, navigation with the network-idle wait, the 2000 ms pause, the screenshot and the close.
- `route.fetch()` and `response.text()` are not modelled. The fetched response is an input to `Screenshot.HandleRoute`.
- GeoIp.Country: `reader.country(ip)` is a call into `geoip2` and carries no contract. It is an abstract map from address text to a lookup outcome; the dataset format and the reader internals are not modelled.
- GeoIp.Open: `geoip2.database.Reader(path)` is a call into `geoip2` and carries no contract. It succeeds exactly for the paths the `GeoIp.Disk` input lists as loadable; filesystem `exists()` is the same input's set of present paths.
- The FastAPI application is not modelled, because it is HTTP and file plumbing. That covers the static mount, the landing page, the health endpoint and server start-up.
- The `print` logging is not modelled.
- Concurrency between requests is not modelled. Each operation here is a pure function of its inputs.
