# netscrape robots.txt engine and bot politeness, in Dafny

This project models the core of netscrape, a polite web-crawling library:

- the `exclusion` package, a robots.txt engine:
  - the `prematch`/`match` pattern compiler (`match.ts`);
  - the path normaliser (`normalize.ts`);
  - the `RobotsTxtLine` and `RobotsTxt` classes (`index.ts`). These parse a robots.txt text into directives and answer `isPathAllowed(path, userAgent)`.
- the `bot` package's politeness logic:
  - `normalizeHeaders` (`utilities.ts`);
  - the `Bot` class (`index.ts`): option validation, the user-agent string, `getDelay`, the robots.txt cache refresh in `fetchRobotsTxt`, and the decision `makeRequest` takes before it fetches a page.

Modules:

| file | module | models |
|---|---|---|
| `wrappers.dfy` | `Wrappers` | `Option` and `Result` |
| `js_strings.dfy` | `JsStrings` | the JavaScript string operations the core uses: `trim`, `split`, `indexOf`, ASCII `toLowerCase`, case-insensitive search, `parseInt` |
| `url_codec.dfy` | `UrlCodec` | `decodeURI` (ECMA-262, the abstract operation Decode, with UTF-8) and the application/x-www-form-urlencoded serializer (WHATWG URL Standard, section 5.2) |
| `host.dfy` | `Host` | the platform services the core calls but cannot see (see "Platform services" below) |
| `match.dfy` | `Match` | `escapeRegularExpression`, `prematch` and `match` |
| `normalize.dfy` | `Normalize` | `normalizePath` of `normalize.ts` and its copy in the exclusion `index.ts` |
| `exclusion.dfy` | `Exclusion` | `RobotsTxtLine`, `RobotsTxt` and `isPathAllowed` |
| `headers.dfy` | `Headers` | `normalizeHeaders` |
| `bot.dfy` | `Politeness` | the `Bot` class |

Operations that change things step by step are methods with loops, proved against a specification function:
- `RebuildParams`, `Canonicalize`, `NormalizePath` and `NormalizeRooted` in `Normalize`;
- `NewLine`, `ReadLine`, `Parse` and `IsPathAllowed` in `Exclusion`;
- `NormalizeHeaders` in `Headers`;
- `Bot.FetchRobotsTxt` and `Bot.MakeRequest` in `Politeness`.

The properties are lemmas about those specification functions.

The bot is a `class`. Its `robotsTxt`, `robotsTxtExpires`, `requestDelay` and `requestTime` dictionaries are `map` fields, and the methods reassign them.

A `RobotsTxt` never changes after construction, so it is a datatype value. Its lines are a sequence, and a line's `previous`/`next` are its neighbours in that sequence.

### Platform services

URL parsing is passed in as a `Host` value of functions, together with:
- the `pathname` setter;
- `String.prototype.normalize('NFC')`;
- `toLowerCase`;
- micromatch's `isMatch`;
- the validity test `new URL(s)`.

What the model assumes about them is the ghost predicate `Host.Lawful`, and `Host.LawfulHostExists` shows that those assumptions can all hold at once. The assumptions are:
- a reference without a scheme resolves to a special URL;
- on a "plain" reference the URL parser only splits (WHATWG URL Standard, section 4.4);
- a special URL's pathname starts with `/`, and a plain one is kept as set;
- NFC leaves ASCII alone;
- lower-casing maps only `A`-`Z` within ASCII and is idempotent.

Everything the core computes itself is modelled concretely on top of these services.

### Where the code departs from the standard it cites or from what its names suggest (the model follows the code)

- `isPathAllowed` returns the verdict of the **first** applicable allow/disallow line that matches (`index.ts:136-160`). It does not use the longest-match precedence of RFC 9309, section 2.2.2, nor user-agent specificity. `Exclusion.FirstMatchWins` states this.
- An empty `Disallow:` value is stored as `/` (`index.ts:8-20,51`). So the line is not inert: `isPathAllowedByLine` tests the glob `/*` against the path. Which paths `/*` matches is up to micromatch, which is not part of this model. `Exclusion.EmptyRuleIsRoot` states the stored value.
- `strictEOL` is recorded but never consulted by `isPathAllowedByLine`. `Exclusion.StrictEOLNeverConsulted` states this.
- `RobotsTxt` has no `getDelay`. The bot's `getDelay` reads `requestDelay`, which nothing writes, so the delay is always the configured minimum. When that minimum is negative, the delay is `undefined` instead, and the request never waits (`Politeness.DelayIsMinimum`).
- `robotsTxtExpires` is written but never read, so robots.txt is fetched again on every request.
- `makeRequest` throws `APIError.BadGateway`, which the errors module does not define. At run time that `throw` raises a TypeError instead. The model only records the reason (`Blocked`, `WaitTooLong`).
- When no robots.txt was ever stored for an origin, `this.robotsTxt[url.origin].isPathAllowed` throws a TypeError. This is `Rejection.NoRobotsTxt`.

## Model

| member | source | states |
|---|---|---|
| Match.PrematchSource | packages/exclusion/src/match.ts:8-18 | the regular-expression text starts with the `^` anchor, and ends with `$` when `isStrictEOL` is set (an unescaped end anchor exactly when strict is `Match.PrematchCompiles`) |
| Match.EscapeRegularExpression | packages/exclusion/src/match.ts:2-5 | `escapeRegularExpression`: each metacharacter backslash-escaped and `*` replaced by `[^\n]*?`; its content is stated by `Match.EscapedParses` and `Match.AtomsAppend` |
| Match.Prematch | packages/exclusion/src/match.ts:8-18 | `prematch`: the regular expression compiled from that source text; `Match.PrematchCompiles` states it always compiles to the pattern's atoms and the optional end anchor |
| Match.Matches | packages/exclusion/src/match.ts:21 | `match(prematch(p), path)`: `prematch(p).test(path)`; its meaning is stated by `Match.LazyMatches`, `Match.StarFreeLoose`, `Match.StarFreeStrict`, `Match.StrictImpliesLoose` and `Match.PrefixBeforeStar` |
| Match.Atoms | packages/exclusion/src/match.ts:2-5 | one atom per pattern character: `*` is the lazy run, every other character (metacharacters included) is itself |
| Match.PrematchCompiles | packages/exclusion/src/match.ts:2-17 | the escaped text reads back as exactly one literal per character, one lazy `[^\n]*?` per `*`, and an end anchor iff strict |
| Match.EscapedParses | packages/exclusion/src/match.ts:4-5 | the two `replace` passes produce text that parses back to the pattern's atoms, with or without a final `$` |
| Match.EscapeCharParses | packages/exclusion/src/match.ts:4-5 | escaping one character and parsing it back gives that character's atom |
| Match.LazyMatches | packages/exclusion/src/match.ts:5 | a lazy run matches any newline-free run of characters, including the empty one |
| Match.PrefixBeforeStar | packages/exclusion/src/match.ts:15 | a match starts at index 0: the pattern text before its first `*` is a prefix of the path |
| Match.LiteralsArePrefix | packages/exclusion/src/match.ts:15 | leading literal atoms of a matching pattern spell the start of the path |
| Match.StarFreeLoose | packages/exclusion/src/match.ts:14-17 | without `isStrictEOL`, a `*`-free pattern matches a path iff it is a prefix of the path |
| Match.StarFreeStrict | packages/exclusion/src/match.ts:14-17 | with `isStrictEOL`, a `*`-free pattern matches a path iff it equals the path |
| Match.StrictImpliesLoose | packages/exclusion/src/match.ts:15 | a strict match is also a non-strict match |
| Match.LooseMatchExtends | packages/exclusion/src/match.ts:15 | a non-strict match survives appending characters to the path |
| Match.EmptyPattern | packages/exclusion/src/match.ts:15 | the empty pattern matches every path when not strict, and only the empty path when strict |
| Match.StarNeedsBothSlashes | packages/exclusion/src/match.ts:5 | `/foo/*/bar` does not match `/foo/bar` |
| Match.StarThenMissingLiteral | packages/exclusion/src/match.ts:2-5 | after a shared star-free prefix, a `*` followed by a literal the rest of the path lacks cannot match |
| Match.LazyNeedsLiteral | packages/exclusion/src/match.ts:5 | a lazy run followed by a literal never matches text that lacks that literal |
| Match.AtomsAppend | packages/exclusion/src/match.ts:3-5 | escaping works character by character, so it distributes over concatenation |
| Match.StarMatchesRun | packages/exclusion/src/match.ts:5 | a `*` between two star-free parts matches any newline-free run between them |
| Match.LiteralsThenRun | packages/exclusion/src/match.ts:5 | literals followed by a lazy run match the literal text followed by any newline-free run |
| Match.LazyRunMatches | packages/exclusion/src/match.ts:5 | a lazy run matches a newline-free run followed by whatever the rest matches |
| Match.StarMatchesSegment | packages/exclusion/src/match.ts:5 | `/foo/*/bar` matches `/foo/x/bar` |
| Match.StarStopsAtNewline | packages/exclusion/src/match.ts:5 | `*` never crosses a newline, and a trailing `*` may match nothing even when strict |
| Match.SharedLiteralPrefix | packages/exclusion/src/match.ts:2-5 | a star-free prefix shared by pattern and path is consumed literal by literal, leaving the rest of the pattern to match the rest of the path |
| Match.SkipLiterals | packages/exclusion/src/match.ts:15 | a run of literal atoms consumes exactly the same characters of the path |
| Match.LiteralExamples | packages/exclusion/src/match.ts:4-16 | `.` and `$` inside a pattern match only themselves, and letters keep their case (the only flag is `u`) |
| UrlCodec.Utf8 | packages/exclusion/src/normalize.ts:7 | UTF-8 encoding of a code point: 1 to 4 bytes, ASCII as itself, continuation bytes in 0x80..0xBF |
| UrlCodec.Utf8Decode | packages/exclusion/src/normalize.ts:7 | a decoded multi-byte sequence is the UTF-8 encoding of the decoded code point |
| UrlCodec.Utf8RoundTrip | packages/exclusion/src/normalize.ts:7 | decoding undoes encoding for every code point of two or more bytes |
| UrlCodec.Utf8Inverse | packages/exclusion/src/normalize.ts:7 | a well-formed multi-byte sequence is the encoding of the code point it spells |
| UrlCodec.Utf8InverseTwo | packages/exclusion/src/normalize.ts:7 | a well-formed two-byte sequence is the encoding of its code point |
| UrlCodec.Utf8InverseThree | packages/exclusion/src/normalize.ts:7 | a well-formed three-byte sequence is the encoding of its code point |
| UrlCodec.Utf8InverseFour | packages/exclusion/src/normalize.ts:7 | a well-formed four-byte sequence is the encoding of its code point |
| UrlCodec.CodePointRange | packages/exclusion/src/normalize.ts:7 | the code point spelled by 2, 3 or 4 bytes lies below 0x800, 0x10000 or 0x200000 |
| UrlCodec.PercentEncodeByte | packages/exclusion/src/normalize.ts:13 | `%XY` is three characters starting with `%` |
| UrlCodec.PercentEncodeBytes | packages/exclusion/src/normalize.ts:7 | three characters per escaped byte |
| UrlCodec.HexOctetOfEncoding | packages/exclusion/src/normalize.ts:7 | the hexadecimal digits of `%XY` read back as the byte |
| UrlCodec.Continuations | packages/exclusion/src/normalize.ts:7 | reading `n` escaped continuation bytes yields exactly `n` bytes |
| UrlCodec.ContinuationsOfEncoding | packages/exclusion/src/normalize.ts:7 | escaped continuation bytes read back as those bytes |
| UrlCodec.DecodeURI | packages/exclusion/src/normalize.ts:7 | `decodeURI` keeps a first character that is not `%` |
| UrlCodec.DecodeWithoutEscapes | packages/exclusion/src/normalize.ts:7 | text without `%` passes through `decodeURI` unchanged |
| UrlCodec.DecodeEscapedChar | packages/exclusion/src/normalize.ts:7 | the escaped UTF-8 bytes of an unreserved character decode back to it |
| UrlCodec.DecodeEscapedMultiByte | packages/exclusion/src/normalize.ts:7 | the escapes of a non-ASCII character's UTF-8 bytes decode to that character, and `decodeURI` goes on with the rest |
| UrlCodec.DecodeEscapedBytes | packages/exclusion/src/normalize.ts:7 | the escapes of any well-formed multi-byte sequence decode to the character it spells |
| UrlCodec.DecodeMultiByteStep | packages/exclusion/src/normalize.ts:7 | a lead byte with 2 to 4 leading ones consumes exactly its continuation escapes |
| UrlCodec.LonePercentThrows | packages/exclusion/src/normalize.ts:7 | `/%`, `/%zz` and a truncated `/%C3` make `decodeURI` throw |
| UrlCodec.DecodeNotIdempotent | packages/exclusion/src/normalize.ts:7 | `/%25` decodes to `/%`, which then throws |
| UrlCodec.Serialize | packages/exclusion/src/normalize.ts:13 | the serialized query is empty exactly when there are no pairs |
| UrlCodec.FormEncodeAlphabet | packages/exclusion/src/normalize.ts:13 | form encoding yields only alphanumerics, `*-._`, `+` and `%` escapes |
| UrlCodec.PercentAlphabet | packages/exclusion/src/normalize.ts:13 | percent escapes use only `%` and upper-case hexadecimal digits |
| UrlCodec.SerializeAlphabet | packages/exclusion/src/normalize.ts:13 | a serialized query holds only alphanumerics, `*-._`, `+`, `%`, `=` and `&` |
| UrlCodec.SerializeBareKey | packages/exclusion/src/normalize.ts:13 | a bare key `k` is serialized as `k=` |
| UrlCodec.SerializeRepeatedKey | packages/exclusion/src/normalize.ts:13 | pairs are joined by `&` in list order, duplicates kept, a space becomes `+` |
| UrlCodec.SerializeEscapedValue | packages/exclusion/src/normalize.ts:13 | `:` and `/` in a value become `%3A` and `%2F` |
| UrlCodec.EscapedValueExample | packages/exclusion/src/normalize.ts:13 | form encoding of `x:y/z` |
| UrlCodec.QueryEncodeKeepsSerialized | packages/exclusion/src/normalize.ts:13 | the `search` setter's percent-encoding leaves a serialized query as it is |
| UrlCodec.SearchAfterSet | packages/exclusion/src/normalize.ts:13 | the `search` setter: `?` plus the percent-encoded query, or nothing; `UrlCodec.SearchOfSerialized` states it keeps a serialized query |
| UrlCodec.SearchOfSerialized | packages/exclusion/src/normalize.ts:13 | setting `search` to `?` plus a serialized query reads it back unchanged |
| Host.FormPairs | packages/exclusion/src/normalize.ts:10 | the query parser yields at most one pair per piece |
| Host.ResolvePlain | packages/exclusion/src/normalize.ts:5 | resolving against `http://localhost` gives a special URL whose pathname starts with `/` |
| Host.AsciiLowerIdempotent | packages/exclusion/src/index.ts:114 | lower-casing twice is lower-casing once |
| Host.LawfulHostExists | packages/exclusion/src/normalize.ts:5-7 | the assumptions made about the platform services can all hold at once |
| Normalize.NfcPairs | packages/exclusion/src/normalize.ts:9-12 | every name and value NFC-normalised, same number of pairs, same order |
| Normalize.RebuildParams | packages/exclusion/src/normalize.ts:9-12 | the append loop collects exactly the NFC-normalised pairs, in source order, duplicates kept |
| Normalize.Canonicalize | packages/exclusion/src/normalize.ts:5-13 | resolve, decode and NFC the pathname, rebuild the search; errors of `new URL`/`decodeURI` escape |
| Normalize.NormalizePath | packages/exclusion/src/normalize.ts:2-18 | the method computes `normalizePath` of `normalize.ts`, error cases included |
| Normalize.NormalizeRooted | packages/exclusion/src/index.ts:8-20 | the method computes the local `normalizePath` of `index.ts`, error cases included |
| Normalize.Canonical | packages/exclusion/src/normalize.ts:5-13 | the resolved, decoded, NFC-normalised pathname and the rebuilt search, or the error `new URL` or `decodeURI` throws; see `Normalize.PlainCanonical` and `Normalize.DecodedCanonical` |
| Normalize.NormalizedPath | packages/exclusion/src/normalize.ts:2-18 | `normalizePath` of `normalize.ts`; see `Normalize.LeadingSlashKept`, `Normalize.PrependedSlashRemoved`, `Normalize.FragmentIgnored` and `Normalize.PlainPathIsNormal` |
| Normalize.RootedPath | packages/exclusion/src/index.ts:8-20 | the local `normalizePath` of `index.ts`; see `Normalize.RootedStartsWithSlash` and `Normalize.CopiesAgree` |
| Normalize.SearchIsSerializedQuery | packages/exclusion/src/normalize.ts:13 | `search` holds the serialized query behind a `?`, and nothing (no lone `?`) when no pair is left |
| Normalize.LeadingSlashKept | packages/exclusion/src/normalize.ts:3-15 | if the input starts with `/`, so does the output |
| Normalize.PrependedSlashRemoved | packages/exclusion/src/normalize.ts:3-15 | without a leading `/`, exactly the `/` resolution prepended is removed |
| Normalize.RootedStartsWithSlash | packages/exclusion/src/index.ts:8-20 | the copy in `index.ts` always yields a `/`-prefixed result for scheme-less input |
| Normalize.CopiesAgree | packages/exclusion/src/index.ts:8-20 | the two copies fail on the same inputs and agree on inputs with a leading `/` |
| Normalize.NfcPairsAscii | packages/exclusion/src/normalize.ts:11 | NFC changes no ASCII pair |
| Normalize.FormPairsAscii | packages/exclusion/src/normalize.ts:10 | pairs parsed from ASCII pieces are ASCII |
| Normalize.SplitPiecesAscii | packages/exclusion/src/normalize.ts:10 | the pieces of an ASCII query are ASCII |
| Normalize.PlainCanonical | packages/exclusion/src/normalize.ts:5-13 | a plain reference keeps its path and re-serializes its query pairs in order, fragment dropped |
| Normalize.PathnameOfPlain | packages/exclusion/src/normalize.ts:7 | the pathname of a plain path is one the setter keeps |
| Normalize.SplitAfterSeparator | packages/exclusion/src/normalize.ts:10 | splitting text that starts with the separator yields an empty first piece |
| Normalize.FragmentIgnored | packages/exclusion/src/normalize.ts:15-17 | `raw#frag` normalises like `raw`: the fragment is discarded |
| Normalize.FragmentParts | packages/exclusion/src/normalize.ts:15-17 | a fragment changes neither the path part, nor the query part, nor the leading slash |
| Normalize.SamePartsSameResolution | packages/exclusion/src/normalize.ts:5 | `new URL` of a plain reference depends only on its path and query parts |
| Normalize.SameResolutionSamePath | packages/exclusion/src/normalize.ts:2-17 | `normalizePath` depends only on the resolved URL and whether the input starts with `/` |
| Normalize.PlainPathIsNormal | packages/exclusion/src/normalize.ts:2-18 | a plain path without `%` is its own normal form, and the `index.ts` copy roots it at `/` |
| Normalize.NoQueryParts | packages/exclusion/src/normalize.ts:5 | text without `?` and `#` is all path |
| Normalize.EmptyPathExample | packages/exclusion/src/normalize.ts:15 | `''` gives `''`, while the `index.ts` copy gives `/` |
| Normalize.RelativePathExample | packages/exclusion/src/normalize.ts:15 | `foo` gives `foo` |
| Normalize.QueryParts | packages/exclusion/src/normalize.ts:5 | the path and the query are split at the first `?` |
| Normalize.PlainQueryNormal | packages/exclusion/src/normalize.ts:9-17 | a plain path with a plain query gives the path and the re-serialized query, pairs in order |
| Normalize.EmptyQueryExample | packages/exclusion/src/normalize.ts:13 | `/foo/bar?` gives `/foo/bar` |
| Normalize.PlainOneSegment | packages/exclusion/src/normalize.ts:7 | a `/` and one plain segment form a plain path |
| Normalize.OneSegmentResolves | packages/exclusion/src/normalize.ts:5 | a `/` and one plain segment resolve to that path with no query parameters |
| Normalize.DecodedCanonical | packages/exclusion/src/normalize.ts:5-13 | a resolved path without parameters becomes its `decodeURI` result when the pathname setter keeps it |
| Normalize.PlainTwoSegments | packages/exclusion/src/normalize.ts:7 | a `/` and two plain segments form a plain path |
| Normalize.FooBarIsPlain | packages/exclusion/src/normalize.ts:7 | `/foo/bar` is a plain path |
| Normalize.BareKeyQuery | packages/exclusion/src/normalize.ts:10-13 | the query `k` parses to `(k, '')` and is serialized as `k=` |
| Normalize.FormPairBare | packages/exclusion/src/normalize.ts:10 | a query piece without `=` is a key with an empty value |
| Normalize.FormPairAt | packages/exclusion/src/normalize.ts:10 | a query piece splits at its first `=` into key and value |
| Normalize.BareKeyNormal | packages/exclusion/src/normalize.ts:9-17 | a plain path whose query is one bare key keeps the path and gains `k=` |
| Normalize.BareKeyExample | packages/exclusion/src/normalize.ts:13 | `/foo/bar?k` gives `/foo/bar?k=` |
| Normalize.TwoPairsParse | packages/exclusion/src/normalize.ts:10 | two `&`-separated pieces parse to two pairs in order |
| Normalize.RepeatedKeyQuery | packages/exclusion/src/normalize.ts:10 | `a=1&a=2` parses to both pairs, in order |
| Normalize.RepeatedKeySerialized | packages/exclusion/src/normalize.ts:13 | the two pairs are serialized back as `a=1&a=2` |
| Normalize.RepeatedKeyExample | packages/exclusion/src/normalize.ts:9-17 | `/foo/bar?a=1&a=2` is unchanged: duplicates kept, nothing sorted |
| Normalize.MalformedEscapeExample | packages/exclusion/src/normalize.ts:7 | `/%` makes `normalizePath` throw a URIError that is not caught |
| Normalize.PercentTwentyFiveExample | packages/exclusion/src/normalize.ts:7 | `/%25` gives `/%` |
| Normalize.NotIdempotentExample | packages/exclusion/src/normalize.ts:7 | `/%25` gives `/%`, and normalising that again throws |
| JsStrings.TrimStart | packages/exclusion/src/index.ts:111 | the result is a suffix, starts with no white space, and only white space was removed |
| JsStrings.TrimEnd | packages/exclusion/src/index.ts:111 | the result is a prefix, ends with no white space, and only white space was removed |
| JsStrings.Trim | packages/exclusion/src/index.ts:111 | `trim()`: `TrimEnd` of `TrimStart`; see `JsStrings.TrimIsInfix` and `JsStrings.TrimExcludes` |
| JsStrings.TrimIsInfix | packages/exclusion/src/index.ts:111 | a trimmed string is a slice of the original |
| JsStrings.TrimExcludes | packages/exclusion/src/index.ts:111 | trimming introduces no character |
| JsStrings.IndexOf | packages/exclusion/src/index.ts:111 | the first occurrence of a character, or the length when there is none |
| JsStrings.IndexOfAppend | packages/exclusion/src/index.ts:111 | the first occurrence in `a + b` of a character absent from `a` lies in `b` |
| JsStrings.Split | packages/exclusion/src/index.ts:108 | at least one piece, no piece holds the separator, a string without it is one piece |
| JsStrings.SplitAppend | packages/exclusion/src/index.ts:108 | splitting at a first separator gives that prefix, then the pieces of the rest |
| JsStrings.OneSegment | packages/exclusion/src/index.ts:108 | a leading separator gives an empty first piece |
| JsStrings.TwoSegments | packages/exclusion/src/index.ts:108 | a leading separator and one more give three pieces |
| JsStrings.SplitExcludes | packages/exclusion/src/index.ts:108 | a character absent from the text is absent from every piece |
| JsStrings.JoinSplit | packages/exclusion/src/index.ts:108 | joining the pieces with the separator gives back the text |
| JsStrings.SplitTwo | packages/exclusion/src/index.ts:111 | `split(':', 2)`: one piece without a colon, else the text before the first colon and the text between the first and second |
| JsStrings.DropFirst | packages/exclusion/src/normalize.ts:15 | `substring(1)`: everything after the first character, and `''` for the empty string |
| JsStrings.AsciiLower | packages/exclusion/src/index.ts:114 | same length, each character lower-cased |
| JsStrings.ContainsIgnoringCase | packages/exclusion/src/index.ts:71 | `/netscrape/i.test`: holds iff the needle occurs somewhere, ignoring ASCII case |
| JsStrings.DigitRun | packages/exclusion/src/index.ts:36 | the longest run of leading digits |
| JsStrings.ParseInt | packages/exclusion/src/index.ts:36 | `parseInt(value, 10)`: leading white space, an optional sign and the leading digits, `None` for NaN; see `JsStrings.ParseIntOfDigits`, `JsStrings.ParseIntOfDecimal`, `JsStrings.NegativeSpelling` and `JsStrings.ParseIntWithoutDigits` |
| JsStrings.DigitRunOfDigits | packages/exclusion/src/index.ts:36 | the digit run of digits followed by a non-digit is exactly those digits |
| JsStrings.DecimalValue | packages/exclusion/src/index.ts:36 | the decimal digits of `n` denote `n` |
| JsStrings.ParseIntOfDigits | packages/exclusion/src/index.ts:36 | `parseInt` reads the digits up to the first non-digit |
| JsStrings.ParseIntOfNegative | packages/exclusion/src/index.ts:36 | after a `-`, `parseInt` reads the digits up to the first non-digit and negates them |
| JsStrings.ParseIntUntrimmed | packages/exclusion/src/index.ts:36 | text that does not start with white space is read as it stands |
| JsStrings.ParseDigitsOf | packages/exclusion/src/index.ts:36 | the digit run before a non-digit denotes its decimal value |
| JsStrings.ParseIntOfDecimal | packages/exclusion/src/index.ts:36 | `parseInt` of an integer's decimal spelling, followed by a non-digit, is that integer |
| JsStrings.NegativeSpelling | packages/exclusion/src/index.ts:36 | `parseInt` of a negative integer's spelling, followed by a non-digit, is that integer |
| JsStrings.ParseIntOfFive | packages/exclusion/src/index.ts:36 | `parseInt('5')` is 5 |
| JsStrings.ParseIntOfSignedPrefix | packages/exclusion/src/index.ts:36 | `parseInt('-12s')` is -12 |
| JsStrings.ParseIntWithoutDigits | packages/exclusion/src/index.ts:36-37 | text that is empty or starts with neither white space, a sign nor a digit gives NaN |
| Exclusion.KeyOf | packages/exclusion/src/index.ts:114-120 | a lower-cased key is recognised iff it is one of the four directive names |
| Exclusion.KeyOfName | packages/exclusion/src/index.ts:114-120 | every directive's name is recognised as that directive |
| Exclusion.StripStrictEOL | packages/exclusion/src/index.ts:41-48 | exactly one trailing `$` is removed and reported; the value is that result plus the `$` |
| Exclusion.DelayOf | packages/exclusion/src/index.ts:34-38 | the crawl delay in milliseconds, undefined when `parseInt` gives NaN; see `Exclusion.CrawlDelayInMilliseconds` and `Exclusion.NonNumericDelay` |
| Exclusion.LineOf | packages/exclusion/src/index.ts:30-53 | the `RobotsTxtLine` constructor; see `Exclusion.NewLine`, `Exclusion.RuleValue`, `Exclusion.CrawlDelayOf`, `Exclusion.OnlyCrawlDelayHasDelay` and `Exclusion.LineWellFormed` |
| Exclusion.IsAdditionalUserAgent | packages/exclusion/src/index.ts:56-64 | a user-agent line whose previous line is a user-agent line; see `Exclusion.FlagOnlyFromUserAgentLines` |
| Exclusion.IsOwnUserAgent | packages/exclusion/src/index.ts:67-76 | a user-agent line naming the agent up to case, mentioning netscrape, or `*`; see `Exclusion.SameFoldIsOwn`, `Exclusion.OtherNameNotOwn` and `Exclusion.NetscrapeGroupAppliesToAll` |
| Exclusion.NewLine | packages/exclusion/src/index.ts:30-53 | the constructor computes the line `LineOf` describes, or the error normalisation throws |
| Exclusion.PathVerdict | packages/exclusion/src/index.ts:79-96 | `false` for user-agent and crawl-delay lines; for rules it throws iff normalising the path throws, gives a verdict iff the glob matches, and the verdict is `key === 'allow'` |
| Exclusion.StripComments | packages/exclusion/src/index.ts:106 | no `#` survives the first `replace` |
| Exclusion.CrToLf | packages/exclusion/src/index.ts:107 | every remaining CR becomes an LF, nothing else changes |
| Exclusion.RawLines | packages/exclusion/src/index.ts:105-108 | at least one line, and no line holds `#`, CR or LF |
| Exclusion.Fields | packages/exclusion/src/index.ts:111 | neither the key nor the value holds a `:` |
| Exclusion.ParsedLines | packages/exclusion/src/index.ts:110-133 | the lines the constructor's loop pushes, or the first error; see `Exclusion.ReadLines`, `Exclusion.ParsedLinesAppend` and `Exclusion.ParsedLinesWellFormed` |
| Exclusion.RobotsOf | packages/exclusion/src/index.ts:103-134 | the constructed `RobotsTxt`; see `Exclusion.Parse`, `Exclusion.ErrorPersists` and `Exclusion.EmptyFileAllows` |
| Exclusion.ErrorPersists | packages/exclusion/src/index.ts:122-124 | once a line's constructor throws, the `RobotsTxt` constructor throws that error |
| Exclusion.ReadLine | packages/exclusion/src/index.ts:111-124 | one pass of the loop body adds nothing, the constructed line, or the thrown error |
| Exclusion.Parse | packages/exclusion/src/index.ts:103-134 | the constructor yields the text and the lines `RobotsOf` describes, or the first error |
| Exclusion.ReadLines | packages/exclusion/src/index.ts:110-133 | the loop over the raw lines pushes exactly the lines `ParsedLines` describes, or stops at the first error |
| Exclusion.ParsedLinesStep | packages/exclusion/src/index.ts:110-124 | one more raw line appends what it adds, or ends with the error it throws |
| Exclusion.UaFlag | packages/exclusion/src/index.ts:143-149 | the `ownUserAgent` flag after the first `n` lines; see `Exclusion.FlagStep` and `Exclusion.GroupCharacterization` |
| Exclusion.EvalFrom | packages/exclusion/src/index.ts:150-159 | the result of the loop from line `i` on; see `Exclusion.FirstVerdictFrom`, `Exclusion.NoVerdictFrom` and `Exclusion.BlockedFrom` |
| Exclusion.Evaluate | packages/exclusion/src/index.ts:140-160 | `isPathAllowed`; see `Exclusion.IsPathAllowed`, `Exclusion.FirstMatchWins`, `Exclusion.DefaultAllow` and `Exclusion.BlockedOnlyByDisallow` |
| Exclusion.IsPathAllowed | packages/exclusion/src/index.ts:140-160 | the loop with its `ownUserAgent` flag and early return computes `Evaluate` |
| Exclusion.GroupCharacterization | packages/exclusion/src/index.ts:143-149 | the flag is set iff a user-agent line of the current group (the last run of consecutive user-agent lines) names the agent |
| Exclusion.FlagStep | packages/exclusion/src/index.ts:144-149 | a non-user-agent line keeps the flag; an additional user agent can only set it; the first of a group resets it to whether it names the agent |
| Exclusion.FlagOnlyFromUserAgentLines | packages/exclusion/src/index.ts:56-64 | the first line is never an additional user agent, and a non-user-agent line leaves the flag as it was |
| Exclusion.FirstVerdictFrom | packages/exclusion/src/index.ts:150-156 | from any position, the first consulted line that gives a verdict decides |
| Exclusion.SkipSilentLine | packages/exclusion/src/index.ts:150-157 | a line that is not consulted, or gives no verdict, hands over to the next line |
| Exclusion.VerdictAt | packages/exclusion/src/index.ts:150-155 | a consulted line with a verdict returns `true` for allow and `false` for disallow |
| Exclusion.FirstMatchWins | packages/exclusion/src/index.ts:136-160 | the result is the verdict of the first applicable allow/disallow line that matches, whatever follows |
| Exclusion.NoVerdictFrom | packages/exclusion/src/index.ts:159 | from any position, when no consulted line gives a verdict the result is `true` |
| Exclusion.DefaultAllow | packages/exclusion/src/index.ts:159 | when no consulted line matches, the path is allowed |
| Exclusion.BlockedFrom | packages/exclusion/src/index.ts:150-156 | a `false` result from any position comes from a consulted disallow line with no earlier verdict |
| Exclusion.BlockedOnlyByDisallow | packages/exclusion/src/index.ts:140-160 | a path is refused only by a consulted, matching disallow line before which no consulted line matched |
| Exclusion.WithStrictEOL | packages/exclusion/src/index.ts:28 | replacing the `strictEOL` flags keeps every other field of every line |
| Exclusion.FlagIgnoresStrictEOL | packages/exclusion/src/index.ts:143-149 | the user-agent flag does not depend on `strictEOL` |
| Exclusion.EvalIgnoresStrictEOL | packages/exclusion/src/index.ts:79-96 | the verdict from any position does not depend on `strictEOL` |
| Exclusion.StrictEOLNeverConsulted | packages/exclusion/src/index.ts:79-96 | changing any line's `strictEOL` changes no result of `isPathAllowed` |
| Exclusion.CollectSnoc | packages/exclusion/src/index.ts:110-133 | one more raw line appends its contribution, or its error, or leaves an earlier error |
| Exclusion.CollectAppend | packages/exclusion/src/index.ts:110-133 | reading two batches of raw lines appends their contributions in order |
| Exclusion.ParsedLinesAppend | packages/exclusion/src/index.ts:110-133 | reading more raw lines only appends to the lines already pushed, in file order |
| Exclusion.LineWellFormed | packages/exclusion/src/index.ts:30-53 | a constructed line has a delay only for crawl-delay, and a rule's value starts with `/` |
| Exclusion.ParsedLinesWellFormed | packages/exclusion/src/index.ts:110-133 | every kept line is well formed |
| Exclusion.UnknownKeyDropped | packages/exclusion/src/index.ts:112-120 | a raw line with an empty or unknown key is dropped |
| Exclusion.KnownKeyKept | packages/exclusion/src/index.ts:114-124 | a recognised raw line adds exactly the line its constructor builds, with the lower-cased key |
| Exclusion.NoCommentUnchanged | packages/exclusion/src/index.ts:106 | text without `#` and LF passes the first `replace` unchanged |
| Exclusion.StripCommentsAppend | packages/exclusion/src/index.ts:106 | the first `replace` works left to right across a comment-free prefix |
| Exclusion.CommentRunsToLineFeed | packages/exclusion/src/index.ts:106 | a comment runs up to the next LF and is removed, a bare CR in it included |
| Exclusion.CrToLfAppend | packages/exclusion/src/index.ts:107 | the CR-to-LF pass distributes over concatenation |
| Exclusion.BareCrEndsLine | packages/exclusion/src/index.ts:107-108 | a bare CR ends a line |
| Exclusion.CommentSwallowsBareCr | packages/exclusion/src/index.ts:105-108 | comments go before CRs become LFs, so a comment swallows a bare CR and the text after it |
| Exclusion.CrLfEndsLineOnce | packages/exclusion/src/index.ts:106-108 | the CR of a CRLF is dropped, so CRLF ends a line once |
| Exclusion.CrawlDelayInMilliseconds | packages/exclusion/src/index.ts:35-38 | a crawl delay `parseInt` reads as `n` becomes `n * 1000` ms; only crawl-delay lines get a delay |
| Exclusion.CrawlDelayOf | packages/exclusion/src/index.ts:34-38 | a crawl delay that `parseInt` reads as `v` becomes `v * 1000` ms, with `strictEOL` unset |
| Exclusion.OnlyCrawlDelayHasDelay | packages/exclusion/src/index.ts:34-38 | any other constructed line has no delay |
| Exclusion.NonNumericDelay | packages/exclusion/src/index.ts:37 | a crawl delay `parseInt` cannot read is left undefined |
| Exclusion.CrawlDelayFiveSeconds | packages/exclusion/src/index.ts:35-38 | `crawl-delay: 5` gives 5000 ms |
| Exclusion.RuleValue | packages/exclusion/src/index.ts:41-51 | a rule's value loses one trailing `$`, which sets `strictEOL`, and the rest is normalised; it throws iff normalisation throws |
| Exclusion.OnlyOneDollarStripped | packages/exclusion/src/index.ts:42-47 | only one `$` is taken off: `…$$` is normalised as `…$` |
| Exclusion.EmptyRuleIsRoot | packages/exclusion/src/index.ts:8-20 | an empty allow/disallow value becomes `/` |
| Exclusion.OneSegmentRule | packages/exclusion/src/index.ts:41-51 | a one-segment rule is stored as written, and a trailing `$` only sets `strictEOL` |
| Exclusion.LowerWordIsPlain | packages/exclusion/src/index.ts:9-11 | a lower-case word is a segment the URL parser keeps |
| Exclusion.StrictEOLExample | packages/exclusion/src/index.ts:41-51 | `/exactly$` is stored as `/exactly` with `strictEOL`; `/kinda` without |
| Exclusion.WordRule | packages/exclusion/src/index.ts:41-51 | an allow rule `/w` or `/w$` for a lower-case word `w` is stored as `/w`, the `$` only setting `strictEOL` |
| Exclusion.EmptyTextHasOneBlankLine | packages/exclusion/src/index.ts:105-111 | the empty text is one blank line, with an empty key and value |
| Exclusion.EmptyFileAllows | packages/exclusion/src/index.ts:103-160 | an empty file has no lines and allows every path |
| Exclusion.TestNames | packages/exclusion/src/index.ts:70-71 | case folding of `Test_1` and `Test_2` |
| Exclusion.ShortValueLacksNetscrape | packages/exclusion/src/index.ts:71 | a user-agent value shorter than `netscrape` cannot mention it |
| Exclusion.OwnUserAgentExamples | packages/exclusion/src/index.ts:67-76 | non-user-agent lines and other names do not apply; `*` and the agent's own name in another case do |
| Exclusion.SameFoldIsOwn | packages/exclusion/src/index.ts:67-76 | an ASCII name equal to the agent's own name up to case designates it |
| Exclusion.OtherNameNotOwn | packages/exclusion/src/index.ts:67-76 | an ASCII name that differs up to case, is not `*` and does not mention netscrape does not designate the agent |
| Exclusion.NetscrapeGroupAppliesToAll | packages/exclusion/src/index.ts:71 | a user-agent value mentioning netscrape in any case applies to every agent |
| Headers.LastMixed | packages/bot/src/utilities.ts:6-8 | the last visited mixed-case key folding to `x`, or none when no such key was visited |
| Headers.After | packages/bot/src/utilities.ts:5-10 | the keys after a prefix of the loop: the unmoved keys and the lower-case forms of the moved ones |
| Headers.LowerIsNotMixed | packages/bot/src/utilities.ts:6 | a lower-cased key is never moved again |
| Headers.LastMixedSnoc | packages/bot/src/utilities.ts:6-8 | visiting one more key updates the last mixed-case key folding to each name |
| Headers.MovedKeysSnoc | packages/bot/src/utilities.ts:6 | visiting one more key adds it to the moved keys iff it holds upper case |
| Headers.LowerStep | packages/bot/src/utilities.ts:6 | visiting a lower-case key changes nothing |
| Headers.MixedStepKeys | packages/bot/src/utilities.ts:7-8 | visiting a mixed-case key adds its lower-case form and removes the key |
| Headers.MixedStep | packages/bot/src/utilities.ts:7-8 | visiting a mixed-case key re-stores its value under its lower-case form and deletes it |
| Headers.AfterStep | packages/bot/src/utilities.ts:6-9 | one pass of the loop body turns the state after `i` keys into the state after `i + 1` |
| Headers.NormalizeHeaders | packages/bot/src/utilities.ts:1-13 | the copy-and-rewrite loop computes `After` over all keys in `Object.keys` order; the same loop appears at packages/bot/src/index.ts:97-104 |
| Headers.KeysAreLower | packages/bot/src/utilities.ts:5-10 | every key of the result equals its own lower-case form |
| Headers.KeysAreLowerImage | packages/bot/src/utilities.ts:6-8 | the result's keys are exactly the lower-case forms of the input keys |
| Headers.ValuesOnlyMoved | packages/bot/src/utilities.ts:7 | each value is the unchanged value of an input key that folds to its new key |
| Headers.LastMixedIsLastFolding | packages/bot/src/utilities.ts:6-8 | the last mixed-case key in key order folding to `x` is the one found |
| Headers.LastMixedWins | packages/bot/src/utilities.ts:6-8 | among colliding keys, the last mixed-case one in key order gives the value |
| Headers.LowerKeyKeepsValue | packages/bot/src/utilities.ts:6-8 | a lower-case key keeps its value when no mixed-case key folds onto it |
| Headers.LowerCaseMapUnchanged | packages/bot/src/utilities.ts:6 | on a map whose keys are all lower case the loop changes nothing |
| Headers.NormalizeIdempotent | packages/bot/src/utilities.ts:1-13 | normalising the result again, in any key order, gives the same map |
| Politeness.NameMatches | packages/bot/src/index.ts:40 | `/^[a-zA-Z_-]+$/`: a non-empty name of letters, `_` and `-` |
| Politeness.VersionMatches | packages/bot/src/index.ts:47 | `/^\d+(\.\d+){0,2}$/`; `Politeness.VersionIsDottedNumber` states it accepts exactly `#`, `#.#` and `#.#.#` |
| Politeness.DigitsHaveNoDot | packages/bot/src/index.ts:47 | a run of digits holds no `.` |
| Politeness.VersionOfDigits | packages/bot/src/index.ts:47 | a version made only of digits matches iff it is not empty |
| Politeness.DottedParts | packages/bot/src/index.ts:47 | digits, a dot and the rest split into the digits and the rest's pieces |
| Politeness.DottedNumberCons | packages/bot/src/index.ts:47 | digits and a dot start a dotted number iff they are non-empty and the rest is one with one group fewer |
| Politeness.VersionFromCons | packages/bot/src/index.ts:47 | after digits and a dot, the pattern needs the rest to match with one group fewer |
| Politeness.NotDottedAfterStray | packages/bot/src/index.ts:47 | a character other than a digit or a dot makes the version invalid |
| Politeness.VersionFromIsDotted | packages/bot/src/index.ts:47 | `\d+(\.\d+){0,n}$` accepts exactly the texts of at most `n + 1` dot-separated non-empty digit runs |
| Politeness.VersionIsDottedNumber | packages/bot/src/index.ts:44-50 | the version check accepts exactly `#`, `#.#` and `#.#.#` |
| Politeness.ConfigCheck | packages/bot/src/index.ts:38-58 | the error the constructor throws first, if any; see `Politeness.ConfigAccepted` and `Politeness.NameCheckedFirst` |
| Politeness.ConfigAccepted | packages/bot/src/index.ts:38-58 | construction succeeds iff the name matches `^[a-zA-Z_-]+$`, the version is a dotted number of one to three parts, and a non-empty policy URL parses |
| Politeness.NameCheckedFirst | packages/bot/src/index.ts:38-42 | a bad name is reported first, whatever the version and the policy URL |
| Politeness.VersionExamples | packages/bot/src/index.ts:47 | `1`, `1.2` and `10.2.33` are accepted; `''`, `1.`, `1.2.3.4` and `v1` are not |
| Politeness.UserAgentOf | packages/bot/src/index.ts:63-67 | the `userAgent` field; see `Politeness.UserAgentNamesBot` and `Politeness.LibraryAgentShown` |
| Politeness.UserAgentNamesBot | packages/bot/src/index.ts:63-67 | a given user agent is used as is; otherwise the text before the first `/` is the bot name |
| Politeness.LibraryAgentShown | packages/bot/src/index.ts:65-67 | without a given user agent, the string ends in `)` iff the library agent is hidden, else in ` NetScrape/0.1` |
| Politeness.MinimumDelay | packages/bot/src/index.ts:167 | `minimumRequestDelay ?? 1000` |
| Politeness.GetDelay | packages/bot/src/index.ts:166-171 | the delay is never below the minimum, and a stored delay is used only when it exceeds the minimum |
| Politeness.DelayIsMinimum | packages/bot/src/index.ts:166-171 | with nothing stored the delay is the minimum, or undefined when the minimum is negative |
| Politeness.PauseFor | packages/bot/src/index.ts:190-202 | a wait is between 0 and 10000 ms; a refused wait is over 10000 ms |
| Politeness.FirstRequestDoesNotWait | packages/bot/src/index.ts:191-193 | no wait when the origin has no recorded request time, whatever the delay |
| Politeness.WaitKeepsDelay | packages/bot/src/index.ts:190-202 | refused iff `delay - (now - last)` exceeds 10000; otherwise the request starts at least `delay` after the last, exactly `delay` after it when it waits |
| Politeness.Decide | packages/bot/src/index.ts:180-202 | the outcome of `makeRequest` after the refresh: refused without robots.txt, with the error `isPathAllowed` throws, when disallowed, or for a wait over 10000 ms, else proceed after the wait; see `Politeness.ProceedsOnlyIfAllowed`, `Politeness.BlockedBeforeWait`, `Politeness.WaitKeepsDelay` and `Politeness.DispatchesSpaced` |
| Politeness.ProceedsOnlyIfAllowed | packages/bot/src/index.ts:180-202 | a request proceeds iff robots.txt is stored, allows the path, and the wait is acceptable; it then waits exactly that time |
| Politeness.BlockedBeforeWait | packages/bot/src/index.ts:180-187 | a disallowed path is refused before any wait is considered |
| Politeness.DispatchesSpaced | packages/bot/src/index.ts:190-204 | two dispatches to one origin are at least the delay apart |
| Politeness.Refreshed | packages/bot/src/index.ts:151-164 | the cache entry is replaced only when the fetch succeeds and the text parses; other origins are untouched |
| Politeness.Expiry | packages/bot/src/index.ts:157-159 | a fetched robots.txt gets an expiry one day ahead, even if it does not parse; other origins are untouched |
| Politeness.RefreshKeepsExpiryCover | packages/bot/src/index.ts:157-160 | every stored robots.txt has an expiry time |
| Politeness.Bot.constructor | packages/bot/src/index.ts:60-67 | the name and user agent come from the options, and every dictionary starts empty |
| Politeness.Bot.Create | packages/bot/src/index.ts:33-67 | throws the first failed check, else yields a fresh bot whose four dictionaries (`robotsTxt`, `robotsTxtExpires`, `requestDelay`, `requestTime`) are empty |
| Politeness.Bot.FetchRobotsTxt | packages/bot/src/index.ts:151-164 | updates the expiry and the cache as `Expiry` and `Refreshed` say, and nothing else |
| Politeness.Bot.Dispatch | packages/bot/src/index.ts:180-204 | decides as `Decide` says, using the bot name; stamps `requestTime` only when the request proceeds |
| Politeness.Bot.MakeRequest | packages/bot/src/index.ts:175-213 | refreshes robots.txt on every call, then decides; `requestTime[origin]` becomes `now + wait` on success, and is unchanged when the request is refused |

## Left out

- HTTP transport: `fetchURL`, `got`, timeouts, streams, the response cache and the DNS cache and resolvers. The outcome of fetching robots.txt is a parameter. The target page itself is not fetched.
- The request headers `fetchURL` builds around the normalised headers (packages/bot/src/index.ts:106-132). They are transport detail. Only the key-normalising loop is modelled.
- Real time and sleeping. The clock readings are parameters, and `MakeRequest` returns the wait instead of sleeping.
- Politeness.Bot.MakeRequest: the time stamped after the wait is `now + wait`. Timer drift and the time the wait actually took are not modelled.
- Concurrency. `makeRequest` is async and has no per-origin lock, so interleaved requests can race. The model runs one request at a time.
- Parsing `rawURL` in `makeRequest`. The origin and the `pathname + search` are inputs.
- The `typeof` checks and 'Missing or misformatted Bot options'. The options are typed.
- The unused `disableCaching` option.
- micromatch's glob semantics: `Host.glob` is uninterpreted.
- Unicode NFC beyond ASCII, case folding beyond ASCII, and full WHATWG URL parsing (dot segments, backslashes, percent-encoding of the path). These are abstract `Host` functions. Concrete results are derived only on the plain fragment.
- JsStrings.ParseInt: numbers are unbounded integers. Precision loss above 2^53 and fractional `minimumRequestDelay` values are not modelled.
- Headers.NormalizeHeaders: the header object is a `map`, so JavaScript's prototype accessors are not modelled. A key that lower-cases to `__proto__` (e.g. `__Proto__`) goes to the `Object.prototype` setter at `utilities.ts:7`, which ignores a string, and is then deleted, so the source drops it. The model keeps it under `__proto__`, and `Headers.KeysAreLowerImage` and `Headers.LastMixedWins` hold only for keys that do not fold to `__proto__`.
- The key order of `Object.keys` (integer-like keys first) is taken as the `keys` parameter of `NormalizeHeaders`.
- The thrown error classes (URIError, TypeError, the undefined `APIError.BadGateway`) are represented by error values, not by their classes or messages. The constructor's messages are `Politeness.Message`.
- `console.error` logging.
