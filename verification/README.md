# Pairing-token and claim-status handlers, modelled in Dafny

This project models the four serverless handlers of a site that links a
17-digit game-account id (a SteamID64) to a chat identity:

- `mktoken` mints a signed token `p.sig`. Here `p` is the unpadded base64url
  encoding of `{"steamid":…,"exp":…}`. `sig` is an HMAC-SHA256 over the text `p`.
  The handler does the base64 → base64url conversion itself, with three string
  replacements.
- `sign` mints a signed code `payloadB64.sig` over `{"steamId":…,"token":…,"ts":…}`.
  It uses Node's own `base64url` encoder.
- `pair-status` answers whether a pairing code has been claimed. It reads a
  process-wide table (`CLAIMS`) and evicts records older than five minutes
  when they are looked up.
- `pair-claimed` is the bot's callback. It applies an optional bearer-token check.

Modules:

- `Js` covers the JavaScript semantics the handlers rely on: truthiness,
  `String(v)`, `/^\d{17}$/`, UTF-16 length and integer printing.
- `Utf8`, `Base64` (RFC 4648 sections 4 and 5) and `Json` (string quoting)
  model the encoders.
- `SignedCode` holds the `p.sig` wire form.
- `MkToken`, `Sign`, `PairStatus` and `PairClaimed` hold one handler each.

The pure handlers are functions from a request, the environment and the clock
to a (status, body) response. `pair-status` is a class, `ClaimStore`. It has a
`claims` map field and a `Handle` method, and that method is specified by the
pure function `Query`.

Inputs that cannot be computed are parameters:

- HMAC-SHA256 is a function-typed parameter, `hmac: (key bytes, message bytes) -> 32 bytes`.
  Nothing is assumed about what it computes.
- `Date.now()` is `now`, an ECMAScript time value: at most 8.64e15 ms from the epoch.
- `process.env` is a map.
- Whether `import('node:crypto')` succeeds is a boolean.

What the code does not have: there is no token or code verifier, and nothing
writes into `CLAIMS`. `mktoken` tokens expire one hour after issue, and `sign`
codes carry only the issue time `ts`. `pair-status` reports the stored
`claimed` flag by truthiness.

`String(v)` can throw. For a JSON object with an own `toString` key, that key
holds a parsed value, which is never callable, so the conversion falls back to
the inherited `valueOf`. That returns the object itself rather than a primitive,
so `String` raises a `TypeError`. An array that holds such an object throws too. `sign` catches this and answers 500 `Server error`.
`mktoken` and `pair-status` do not catch it, and the request ends in an
uncaught exception. The model records that outcome as `Threw`.

## Model

| member | source | states |
|---|---|---|
| `MkToken.B64Url` | api/mktoken.js:3-5 | the `b64url` replace chain over padded base64 of the UTF-8 bytes; specified by `UrlSafe`, `UrlSafeOfStdEncode` and `B64UrlIsBase64Url` |
| `MkToken.ReplaceAll` | api/mktoken.js:4 | `s.replace(/x/g, y)` keeps the length and replaces exactly the characters equal to `x` |
| `MkToken.StripPadding` | api/mktoken.js:4 | `replace(/=+$/, '')` returns the prefix of `s` that does not end in `=`, and everything it drops is `=` |
| `MkToken.UrlSafe` | api/mktoken.js:3-5 | for any input, the output has no `+`, no `/`, and does not end in `=` |
| `MkToken.UrlSafeOfStdEncode` | api/mktoken.js:4 | the replace chain turns padded RFC 4648 section 4 base64 into exactly the unpadded RFC 4648 section 5 encoding of the same bytes |
| `MkToken.B64UrlIsBase64Url` | api/mktoken.js:3-5 | `b64url(s)` is the unpadded base64url of the UTF-8 bytes of `s`, has ⌈4n/3⌉ characters for n bytes, and has no `.` |
| `MkToken.Expiry` | api/mktoken.js:21 | `Math.floor(now / 1000) + 3600`; specified by `ExpiryWindow` |
| `MkToken.ExpiryWindow` | api/mktoken.js:21 | `exp*1000 - now` lies in (3 599 000, 3 600 000] |
| `MkToken.PayloadJson` | api/mktoken.js:21-22 | `JSON.stringify({steamid, exp})`; specified by `PayloadForm`, `PayloadLength` and `PayloadJsonInjective` |
| `MkToken.MintToken` | api/mktoken.js:21-26 | the token `${p}.${sig}`; specified by `MintTokenShape` and `MintTokenBindsPayload` |
| `MkToken.PayloadLength` | api/mktoken.js:21-22 | for a 17-digit id the payload is all ASCII, so `p` has ⌈4n/3⌉ characters for a payload of n characters |
| `MkToken.PayloadForm` | api/mktoken.js:21-22 | for a 17-digit id the JSON is exactly `{"steamid":"<id>","exp":<decimal>}`, with keys in that order |
| `MkToken.Handle` | api/mktoken.js:7-27 | only a 200 carries a token, and only a 405 sets the `Allow` header |
| `MkToken.ThrowRule` | api/mktoken.js:13-14 | a POST ends in an uncaught exception iff `steamid` is truthy and `String` throws on it (an object with an own `toString` key, or an array holding one), for every environment |
| `MkToken.MethodRule` | api/mktoken.js:8-11 | non-POST requests, and only those, get 405 `method_not_allowed` with `Allow: POST` |
| `MkToken.SteamIdRule` | api/mktoken.js:13-16 | a POST gets 400 `bad_steamid` iff `String(steamid || '')` completes and is not 17 ASCII digits, for every environment (so also when `LINK_SECRET` is unset) |
| `MkToken.MissingSteamId` | api/mktoken.js:13-16 | a missing or falsy `steamid` gets 400 `bad_steamid` |
| `MkToken.SecretRule` | api/mktoken.js:18-19 | with a valid id, an unset or empty secret gives exactly 500 `no_secret`, and a set secret gives a token |
| `MkToken.IssuedToken` | api/mktoken.js:21-26 | a valid POST with a secret is answered 200 with the token minted from `String(steamid)`, the secret and `now`. `String(steamid)` is the same text the id check read |
| `MkToken.MintTokenShape` | api/mktoken.js:21-26 | the token is `p + "." + sig`. `p` is the base64url of the payload JSON and decodes back to it. `sig` is the 43-character base64url HMAC over exactly `p`. The token has exactly one `.`, and splitting there returns `p` and `sig` |
| `MkToken.PayloadJsonInjective` | api/mktoken.js:21 | the payload JSON determines the id and the expiry |
| `MkToken.MintTokenBindsPayload` | api/mktoken.js:21-26 | equal tokens carry the same id and the same expiry |
| `Sign.Handle` | api/sign.js:2-29 | a 200 response, and only a 200, carries a code |
| `Sign.MethodRule` | api/sign.js:3 | non-POST requests, and only those, get 405 `Method not allowed` |
| `Sign.SteamIdRule` | api/sign.js:6-9 | a POST gets 400 `Invalid SteamID64` iff `String(steamId || '')` completes and is not 17 ASCII digits, whatever the token and environment |
| `Sign.TokenRule` | api/sign.js:10-12 | once the id passes, the answer is 400 `Invalid token` iff the token is falsy or `String(token)` completes with a UTF-16 length below 16. This is decided before the secret is read |
| `Sign.TokenLengthBoundary` | api/sign.js:10-12 | a 16-unit string token is accepted and a 15-unit one is refused |
| `Sign.SecretRule` | api/sign.js:14-15 | with both inputs valid, the answer is 500 `LINK_SECRET not set` iff the secret is unset or empty, whether or not crypto would load |
| `Sign.ServerErrorRule` | api/sign.js:5-28 | a POST gets 500 `Server error` iff a `String` conversion in the `try` throws, or every check passes and crypto fails to load. A conversion throws iff its value is not printable |
| `Sign.ObjectTokenThrows` | api/sign.js:10-28 | a valid id with the token `{"toString": …}` gets 500 `Server error` |
| `Sign.FailureRule` | api/sign.js:22-28 | with everything valid, a failed crypto import gives exactly 500 `Server error`, and otherwise the answer is 200 with the signed code |
| `Sign.PayloadJson` | api/sign.js:18-19 | `JSON.stringify({steamId, token, ts})`; specified by `PayloadJsonInjective` |
| `Sign.SignCode` | api/sign.js:18-25 | the code `${payloadB64}.${sig}` with Node's `base64url` for both parts; specified by `SignCodeShape` and `SignCodeBindsPayload` |
| `Sign.SignCodeShape` | api/sign.js:18-25 | the code is `payloadB64 + "." + sig`. `payloadB64` decodes to the UTF-8 payload JSON. `sig` is the 43-character base64url HMAC over exactly `payloadB64`, with no dot and not over the raw JSON. The code has exactly one `.`, and splitting there returns both parts |
| `Sign.PayloadJsonInjective` | api/sign.js:18-19 | the payload JSON determines `steamId`, `token` and `ts` |
| `Sign.SignCodeBindsPayload` | api/sign.js:18-25 | equal codes carry the same `steamId`, `token` and `ts` |
| `Base64.StdEncode` | api/mktoken.js:4 | `toString('base64')` output length is a multiple of four: 4·⌈n/3⌉ |
| `Base64.UrlEncode` | api/sign.js:20 | `toString('base64url')` has ⌈4n/3⌉ characters, none of them `+`, `/`, `=` or `.` |
| `Base64.Sextets` | api/sign.js:20 | n bytes split into ⌈4n/3⌉ 6-bit groups |
| `Base64.UrlRoundTrip` | api/sign.js:20 | decoding inverts the base64url encoding |
| `Base64.UrlEncodeInjective` | api/sign.js:20 | distinct byte strings have distinct base64url encodings |
| `Utf8.Encode` | api/sign.js:20 | `Buffer.from(string)`: between one and four bytes per character; specified by `EncodeInjective` and `EncodeAscii` |
| `Utf8.EncodeInjective` | api/sign.js:20 | `Buffer.from(string)` is injective: distinct strings have distinct UTF-8 bytes |
| `Utf8.EncodeAscii` | api/mktoken.js:22 | an ASCII string encodes to its own character codes, one byte each |
| `Json.Quote` | api/mktoken.js:22 | `JSON.stringify` of a string; specified by `QuotePlain` and `QuoteDelimited` |
| `Json.QuoteDelimited` | api/sign.js:19 | a string quoted by `JSON.stringify` and then followed by more text determines both the string and the text |
| `Json.QuotePlain` | api/mktoken.js:21-22 | a string of plain characters, such as 17 digits, is quoted without escapes |
| `Js.ToString` | api/sign.js:7-10 | `String(v)`, `None` when it throws; specified by `ToStringDefined` |
| `Js.Utf16Length` | api/sign.js:10 | `String(token).length`: the UTF-16 length lies between the character count and twice it |
| `Js.NatText` | api/mktoken.js:21-22 | the decimal digits of a natural number: at least one digit, all digits, and no leading zero unless it is `0` itself |
| `Js.IntegerText` | api/mktoken.js:21-22 | how `JSON.stringify` prints `exp` and `ts`; specified by `IntegerTextRoundTrip` |
| `Js.ToStringDefined` | api/sign.js:7-10 | `String(v)` completes iff `v` holds no object with an own `toString` key, at any depth of arrays |
| `Js.IntegerTextRoundTrip` | api/mktoken.js:21 | the printed `exp` or `ts` number reads back as the same integer |
| `SignedCode.AssembleSplit` | api/mktoken.js:26 | joining two dot-free parts with `.` gives text with exactly one `.`, and splitting it at that dot returns the parts |
| `PairStatus.ToUpper` | api/pair-status.js:8 | `toUpperCase` keeps the length and maps each ASCII lower-case letter to its capital |
| `PairStatus.TrimStart` | api/pair-status.js:8 | removes exactly the leading run of ECMAScript white space |
| `PairStatus.TrimSlice` | api/pair-status.js:8 | `trim` keeps one contiguous slice of its input |
| `PairStatus.TrimEnd` | api/pair-status.js:8 | removes exactly the trailing run of ECMAScript white space |
| `PairStatus.NormalizeCode` | api/pair-status.js:8 | `.toUpperCase().trim()`; specified by `NormalizeCodeIsNormal`, `NormalizeIdempotent` and `CaseInsensitive` |
| `PairStatus.KeyOf` | api/pair-status.js:8 | the string form of `code` (empty when falsy), upper-cased and trimmed; `None` when `String` throws; specified by `BlankCode`, `KeyOfString` and `NormalKeyFindsItself` |
| `PairStatus.NormalizeCodeIsNormal` | api/pair-status.js:8 | every lookup key has no lower-case ASCII letters and no leading or trailing white space |
| `PairStatus.NormalizeIdempotent` | api/pair-status.js:8 | normalising a normalised code changes nothing |
| `PairStatus.NormalKeyFindsItself` | api/pair-status.js:8 | a key in normal form, sent back as the query code, is looked up under itself |
| `PairStatus.CaseInsensitive` | api/pair-status.js:8 | codes that differ only in ASCII letter case look up the same key |
| `PairStatus.BlankCode` | api/pair-status.js:8-9 | a missing, falsy or all-white-space code normalises to the empty key |
| `PairStatus.Query` | api/pair-status.js:9-23 | the answer and new table for a key; specified by `MissingCodeRule`, `QueryOutcome`, `QueryFrame`, `QueryIdempotent` and `StaleStaysUnclaimed` |
| `PairStatus.MissingCodeRule` | api/pair-status.js:9 | the empty key gives 400 `Missing code`, and the table is unchanged |
| `PairStatus.QueryOutcome` | api/pair-status.js:11-23 | no record gives `{claimed:false}` and no change. A record older than 300 000 ms gives `{claimed:false}` and is deleted. A record up to exactly 300 000 ms old is kept and reported with its `claimed` truthiness and its `user` (or `null`) |
| `PairStatus.QueryFrame` | api/pair-status.js:11-17 | at most the queried key is removed, every other record is untouched, and nothing is inserted |
| `PairStatus.QueryIdempotent` | api/pair-status.js:11-23 | repeating a query at the same time gives the same answer and leaves the table unchanged |
| `PairStatus.StaleStaysUnclaimed` | api/pair-status.js:14-17 | once a stale record has been evicted, every further query of its key reads unclaimed, at any time |
| `PairStatus.ClaimStore.constructor` | api/pair-status.js:2-3 | the table is the one already in the process, or else empty |
| `PairStatus.Serve` | api/pair-status.js:7-24 | one request on the table; specified by `ServeThrows` and `ServeLooksUp` |
| `PairStatus.ServeThrows` | api/pair-status.js:8 | a request ends in an uncaught exception, with the table untouched, iff its code is truthy and `String` throws on it |
| `PairStatus.ServeLooksUp` | api/pair-status.js:8-23 | any other code is queried under its normalised key |
| `PairStatus.ClaimStore.Handle` | api/pair-status.js:7-24 | one request leaves the new table and the answer exactly as `Serve` gives them: an uncaught exception when `String(code)` throws, otherwise `Query` on the normalised code. The method removes records and never adds or changes one |
| `PairClaimed.Handle` | api/pair-claimed.js:2-21 | a 200 response, and only a 200, is the `{ok:true}` acknowledgement |
| `PairClaimed.MethodRule` | api/pair-claimed.js:3-5 | non-POST requests, and only those, get 405 `method_not_allowed`, before any authorisation check |
| `PairClaimed.OpenWhenUnconfigured` | api/pair-claimed.js:8-10 | with `PAIR_CALLBACK_AUTH` unset or empty, every POST is accepted |
| `PairClaimed.BearerRule` | api/pair-claimed.js:8-12 | with a secret configured, a POST is accepted iff `Authorization` is present and equals `"Bearer " + secret`. Otherwise it gets 401 `unauthorized` |
| `PairClaimed.MissingHeaderRefused` | api/pair-claimed.js:9-11 | a missing header counts as `''`, so it is refused whenever a secret is configured |
| `PairClaimed.BodyIgnored` | api/pair-claimed.js:15-20 | the answer does not depend on the body |

## Left out

- HMAC-SHA256 (`crypto.createHmac`) is a function parameter. Nothing is proved about tamper resistance.
- `Date.now()`, `process.env` and `res` are left out. The clock and the environment are parameters, and responses are returned values. `console.log` in `pair-claimed` is dropped.
- `sign`: its `try` block can meet two exceptions: a `String` conversion that throws, and a failed `import('node:crypto')`. The import is the `cryptoLoads` parameter. The model has no other thrown exception.
- `Threw`: an uncaught exception in `mktoken` or `pair-status` is recorded with status 500. The platform's own error response is not modelled.
- `PairStatus.ToUpper`: maps only the ASCII letters. The full Unicode mapping of `toUpperCase` is not modelled, including mappings that change the length, such as `ß` → `SS`.
- `Js.Value`: a JSON number is carried as the text `String()` prints for it, not as a double. A plain object prints as `[object Object]`, and one with an own `toString` key makes `String` throw. A parsed value is never callable, so no custom conversion method is modelled. Inherited prototype properties are not modelled.
- `Js.IntegerText`: only integers of magnitude below 10^21 are printed. That covers `exp` and `ts` for every time value. The exponent notation above that range is not modelled.
- Strings are sequences of Unicode scalar values. JavaScript strings with lone surrogates are outside the model. `Js.Utf16Length` counts a character above U+FFFF as two units.
- `PairStatus.Claim`: the record's `createdAt` is an integer. Records with a missing or non-numeric `createdAt`, where the age comparison is with NaN, are outside the model, and so are stored values that are not objects.
- The process-wide sharing of `global.CLAIMS` across invocations, and any concurrency on it, are not modelled. The class models one table, updated one request at a time.
- The code has no token verifier, no writer into `CLAIMS` and no pairing-code format check. None is modelled.
