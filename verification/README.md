# Request signing of the NiceHash API client

This project models, in Dafny, the request-signing core of the `Nicehash`
client class (`src/index.js`): how `request` turns the credentials, the call's
verb, path, serialised query and body, a timestamp and a nonce into the
signing input; how `hmacSha256BySegments` turns that input into the byte
string under the HMAC (a single `0x00` before every slot but the first,
nothing for a `null` slot); and how the `X-Auth` header and the request URL
are built around the digest.

Modules, one per concern:

- `Wrappers` (`wrappers.dfy`): `Option` and the `byte` type.
- `Utf8` (`utf8.dfy`): the UTF-8 encoding `Buffer.from` applies to every
  string slot and to the secret (RFC 3629, section 3), with its decoder.
- `Decimal` (`decimal.dfy`): `Number.prototype.toString` of the integral
  timestamp, with its parser.
- `Hex` (`hex.dfy`): the lower-case hex rendering of `digest('hex')`, with its
  parser.
- `Ascii` (`ascii.dfy`): `toUpperCase` of the verb.
- `Signing` (`signing.dfy`): slots, the signed byte string `Message`, the
  signing loop and the digest.
- `Nicehash` (`nicehash.dfy`): the signing input, the URL, the `X-Auth`
  header and the assembled request.

Foreign or nondeterministic pieces are parameters: the HMAC-SHA256 function
(`hmac`, a 32-byte result), `JSON.stringify` (`stringify`), the two
`Date.now()` readings (`Clock`) and the nonce from `chance.guid()`. The output
of `qs.stringify` is taken as the `query` string. Feeding the HMAC with
several `update` calls is the same as one HMAC over the concatenated bytes, so
the model computes that byte string (`Signing.Message`) and applies `hmac` to
it once.

Facts about the code that a reader might not expect:

- A `null` organization id and an empty one sign identically: both add only
  their separator (`Signing.AbsentLikeEmpty`, `Signing.NullLikeEmptyString`).
- `X-Request-Id` and `X-Time` come from two separate `Date.now()` calls
  (lines 32-33) and may differ; only `X-Time` is signed
  (`Nicehash.AuthIgnoresRequestId`).
- `refillOrder` passes its payload as the query and sends no body (line 102).
  The endpoint table is not modelled.

## Model

| member | source | states |
|---|---|---|
| Nicehash.SigningInput | src/index.js:39-53 | the signing input has 9 slots for a falsy body and 10 for a truthy one; exactly slots 3 and 5 are `null`; slot 0 is the API key, slot 1 the decimal text of the `X-Time` number, which parses back to it, slot 2 the nonce, slot 4 the organization id, slot 6 the upper-cased verb, of the verb's length with no lower-case letter left, slot 7 the path, slot 8 the query, slot 9 the body's JSON |
| Signing.Message | src/index.js:68-76 | the bytes the accumulator absorbs; `MessageSnoc`, `MessageConcat`, `MessageLength` and `FieldsOfMessage` state that each slot after the first adds one zero byte and its bytes, and that the fields come back out |
| Signing.Encoded | src/index.js:73-75 | each string slot becomes bytes that decode back to that string; each `null` slot, and only those, becomes an absent slot |
| Signing.AccumulateSegments | src/index.js:68-76 | the loop that feeds a zero byte before every index but 0, then the slot's UTF-8 bytes unless it is `null`, produces exactly the separator-joined message |
| Signing.HmacSha256BySegments | src/index.js:65-79 | the result is 64 lower-case hex characters that parse back to the HMAC, keyed by the secret's UTF-8 bytes, of the joined message |
| Signing.MessageSnoc | src/index.js:68-76 | one more slot after the first adds exactly one zero byte and that slot's bytes |
| Signing.MessageFirst | src/index.js:68-71 | the first slot's bytes open the message with no separator before them, and a zero byte follows them when more slots come |
| Signing.MessageConcat | src/index.js:68-76 | cutting the slot list anywhere cuts the message at one zero byte |
| Signing.MessageLength | src/index.js:68-76 | message length is the sum of the present slots' byte lengths plus one separator per slot after the first, absent slots included |
| Signing.AbsentLikeEmpty | src/index.js:69-75 | replacing an absent slot by an empty present one leaves the message unchanged |
| Signing.NullLikeEmptyString | src/index.js:69-75 | a `null` slot and an empty-string slot sign identically |
| Signing.FieldsOfMessage | src/index.js:68-76 | when no slot holds a zero byte, cutting the message at its zero bytes gives back every slot's bytes in order, one field per slot |
| Nicehash.SignedBytesLayout | src/index.js:39-76 | the signed bytes are key, 0, time, 0, nonce, 0, 0, organization id, 0, 0, upper-cased verb, 0, path, 0, query, followed by 0 and the body's JSON exactly when the body is truthy |
| Nicehash.BodyExtendsMessage | src/index.js:51-53 | a truthy body appends one zero byte and its JSON to the body-less message, which is a strict prefix; a falsy body changes nothing |
| Nicehash.SignedTimeRecovered | src/index.js:33-41 | when the key has no NUL, the second zero-separated field of the signed bytes decodes and parses back to the `X-Time` value |
| Nicehash.Url | src/index.js:58 | the URL is the path alone for an empty query and path, `?`, query otherwise |
| Nicehash.SplitUrlOfUrl | src/index.js:58 | for a path without `?`, splitting the URL at its first `?` gives back path and query, and a `?` appears exactly when the query is non-empty |
| Nicehash.Request | src/index.js:30-63 | the request keeps the caller's verb (not upper-cased) and body; carries both clock readings and the nonce as headers; its `X-Auth` is the key, `:`, and 64 hex characters that parse back to the HMAC of the signed bytes; its URL is the path, then `?` and the query only when the query is non-empty (`Url`), which splits back into path and query when the path has no `?` |
| Nicehash.XAuth | src/index.js:55 | the header is the key, one `:` at the key's length, then the digest; `SplitAuthOfXAuth` inverts it |
| Nicehash.Truthy | src/index.js:51 | JavaScript truthiness of the body: false exactly for `undefined`, `null`, `false`, `0`, `NaN` and `""`; every infinity, array and object is truthy (`FalsyValues` lists the falsy ones) |
| Nicehash.SplitAuthOfXAuth | src/index.js:55 | splitting `X-Auth` at its last `:` gives back the key, whatever it contains, and the digest |
| Nicehash.RequestAuthSplits | src/index.js:55 | a request's `X-Auth` splits into exactly the API key and a hex digest that parses to the HMAC of the signed bytes |
| Nicehash.AuthIgnoresRequestId | src/index.js:32-33 | the `X-Request-Id` reading does not enter `X-Auth` |
| Utf8.EncodeChar | src/index.js:74 | a character takes 1, 2, 3 or 4 bytes by its range, with a valid lead byte and continuation bytes, and contains a zero byte only for U+0000 |
| Utf8.Encode | src/index.js:74 | the UTF-8 bytes of a string, one to four per character; `DecodeEncode` and `EncodeDecode` make it a bijection onto the valid byte strings |
| Utf8.DecodeEncode | src/index.js:74 | decoding the encoding of a string gives the string back, so distinct slot strings give distinct bytes |
| Utf8.EncodeDecode | src/index.js:74 | every byte string that decodes is the encoding of what it decodes to |
| Utf8.EncodeHasZero | src/index.js:74 | an encoded string contains a zero byte exactly when it contains U+0000 |
| Decimal.NumberToString | src/index.js:41 | the `X-Time` text is an optional minus sign, present exactly for negative values, followed by digits without a leading zero |
| Decimal.ParseNumberToString | src/index.js:41 | parsing the `X-Time` text gives back the timestamp |
| Decimal.NumberToStringOfParse | src/index.js:41 | every canonical signed digit string is the rendering of the number it parses to |
| Hex.Hex | src/index.js:78 | the digest renders as two lower-case hex characters per byte |
| Hex.UnhexHex | src/index.js:78 | parsing the hex rendering gives back the digest bytes |
| Hex.HexUnhex | src/index.js:78 | every string the parser accepts is the rendering of the bytes it yields |
| Ascii.ToUpper | src/index.js:46 | the verb keeps its length, each lower-case ASCII letter is moved to upper case, every other character is kept, and no lower-case letter remains |
| Ascii.ToUpperFixed | src/index.js:46 | upper-casing leaves a string unchanged exactly when it has no lower-case letter, so it is idempotent |

## Left out

- Throttling (`throttled-request`, lines 2, 13 and 24-27): a third-party,
  timer-driven rate limiter of one request per 3000 ms whose source is not part
  of this model.
- HTTP transport and client defaults (lines 13-22 and the `httpClient` call of
  lines 57-62): the model stops at the request it would hand over.
- The endpoint wrappers (lines 81-119): a fixed table of verbs and paths.
- HMAC-SHA256 itself (lines 66 and 78): a parameter of the model, typed to
  give 32 bytes.
- `Date.now()` and `chance.guid()` (lines 32-34): parameters.
- `JSON.stringify` and `qs.stringify` (lines 37 and 52): their outputs are
  inputs of the model.
- Ascii.ToUpper: models only the ASCII letters. JavaScript's `toUpperCase`
  also maps other letters, some to longer strings (`ß` to `SS`); HTTP verbs
  are ASCII.
- Decimal.NumberToString: covers integral values only. `Date.now()` always
  returns an integer within 8.64e15 ms of the epoch, well below 1e21, from
  which `toString` switches to exponent notation.
- Utf8.EncodeChar: Dafny strings hold Unicode scalar values. JavaScript strings
  may hold lone surrogates, which `Buffer.from` replaces by U+FFFD; that case
  is not modelled.
- Credentials that are not strings: a `null` organization id would become an
  absent slot, and an `undefined` key makes `Buffer.from` throw. The model
  takes all three credentials as strings.
- Body values that `JSON.stringify` cannot serialise (functions, symbols,
  cycles) are not modelled. Numbers are reals plus `Infinite` and
  `NotANumber`; `-0` is the same value as `0`, and both are falsy.
