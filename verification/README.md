# Checkers client: request construction and signing

A Dafny model of the request-building core of `CheckersClient` (index.js), a
small client for the "Checkers" service. The service creates and updates
check runs on commits for a caller. The model covers four parts of the client:

- **The constructor.** It strips the trailing `/` characters from the service
  URL and passes the rest through `encodeURI`. It keeps the client key and
  secret as given.
- **The two path builders.** The create path is
  `/check/{checkName}/{owner}/{repo}/{sha}`. The update path is
  `/check/{owner}/{repo}/{checkRunId}`. Every field goes through
  `encodeURIComponent`, and the check-run id is first rendered in decimal.
- **`_request`.** It builds the URL `{url}/api{path}`. It sends two headers:
  `X-Client-Key` and `X-Request-Signature`. It hands the method and body to the
  transport and returns only the status code and body of the response.
- **`_getRequestSignature`.** It takes the SHA-256 hex digest of
  `path + body.length + clientSecret`. The path here does not include `/api`,
  and nothing separates the three parts.

JavaScript strings are modelled as sequences of UTF-16 code units
(`JsStrings.JsString`). That makes `body.length` exactly `|body|`, and unpaired
surrogates can be represented as they can in JavaScript.

`encodeURI` and `encodeURIComponent` are modelled after the abstract operation
Encode of ECMA-262, section 19.2.6 ("URI Handling Functions"). Octets are
percent-encoded as section 2.1 of RFC 3986 describes, with upper-case hex
digits. An unpaired surrogate throws `URIError`. `decodeURIComponent` (the
abstract operation Decode) is modelled too. Its only job is to be the partner
of the encoders: it proves that every field can be read back from the path it
was put into.

Modules:

- `Wrappers`: `Option` and `Result`.
- `JsStrings`: code units, surrogates, decimal rendering, and splitting on a
  separator.
- `UriEncoding`: the encoders and the decoder, with their round trip.
- `CheckersClient`: the client.

Three collaborators are parameters rather than code:

- the SHA-256 hex digest, as `hash: JsString -> JsString`;
- the HTTP transport, as `transport: Request -> Result<FullResponse<B>, E>`.
  The type `B` is whatever its JSON parser returns, and `E` is its rejection;
- `JSON.stringify`, whose output enters as the body.

A create or update call returns one of three things. If it fails before
sending, because `encodeURIComponent` threw, it returns `Thrown(URIError)`. If
the transport rejects, it returns `Rejected(reason)` with that rejection
unchanged. Otherwise it returns the transport's status code and body,
unchanged.

Three facts about the code shape what the model promises:

- **The body's contents are not signed.** The signature covers `body.length`
  and nothing else of the body. `.length` counts UTF-16 code units, not bytes.
  Changing a body without changing its length leaves the signature as it is
  (`SignatureInputSeesOnlyLength`, `SameLengthSameSignature`).
- **`_request` hands every response on unchanged.** index.js:95-98 copies
  the transport's status code and body into its answer,
  whatever the status, and passes a rejection on as it is. Which statuses the
  transport resolves and which it rejects is decided outside this code (see
  "Left out").
- **The credentials are not checked.** The constructor stores the client key
  and secret as given, empty or not, and so does the model.

## Model

| member | source | states |
|---|---|---|
| `CheckersClient.StripTrailingSlashes` | index.js:19 | `url.replace(/\/+$/, '')` gives a prefix of the URL that does not end in `/`, and everything it removed is `/` |
| `CheckersClient.StripTrailingSlashesUnique` | index.js:19 | any split of the URL into a part that does not end in `/` followed only by `/` is the one the strip finds, so the whole trailing run goes, not only one `/` |
| `CheckersClient.StripTrailingSlashesIdempotent` | index.js:19 | stripping an already stripped URL changes nothing |
| `CheckersClient.NewClient` | index.js:18-22 | the constructor keeps the client key and secret exactly as given |
| `CheckersClient.NewClientUrl` | index.js:18-22 | the constructor throws exactly when the stripped URL has an unpaired surrogate; otherwise the stored URL does not end in `/` and decodes back to the stripped URL |
| `CheckersClient.LastSegmentNotEmpty` | index.js:19-21 | a non-empty URL stored by the constructor has a non-empty last segment, so no empty segment comes before `api` |
| `CheckersClient.NewClientKeepsSlash` | index.js:19 | the constructor uses `encodeURI`: a `/` inside the kept URL stays a `/`, and the text on each side of it is encoded on its own |
| `CheckersClient.CreatePath` | index.js:37-38 | the create path template; its contract is carried by `CreatePathSucceeds`, `CreatePathSplit`, `CreatePathLayout` and `CreatePathInjective` |
| `CheckersClient.UpdatePath` | index.js:56-57 | the update path template; its contract is carried by `UpdatePathSucceeds`, `UpdatePathSplit`, `UpdatePathLayout` and `UpdatePathInjective` |
| `CheckersClient.CreatePathSucceeds` | index.js:36-38 | building the create path throws exactly when one of checkName, owner, repo or sha has an unpaired surrogate |
| `CheckersClient.UpdatePathSucceeds` | index.js:55-57 | building the update path throws exactly when owner or repo has an unpaired surrogate; the id never makes it throw |
| `CheckersClient.EncodeDecimal` | index.js:57 | `encodeURIComponent` leaves the decimal digits of the check-run id unchanged |
| `CheckersClient.CreatePathSplit` | index.js:38 | split on `/`, the create path is exactly "", "check" and the four encoded fields, checkName first |
| `CheckersClient.UpdatePathSplit` | index.js:57 | split on `/`, the update path is exactly "", "check", the encoded owner and repo, and the id's digits |
| `CheckersClient.CreatePathLayout` | index.js:37-38 | the create path has six segments, and segments 2 to 5 decode to checkName, owner, repo and sha |
| `CheckersClient.UpdatePathLayout` | index.js:56-57 | the update path has five segments; owner and repo decode back, and the last segment is the id's decimal digits, whose value is the id |
| `CheckersClient.CreatePathInjective` | index.js:37-38 | two create paths are equal if and only if all four fields are equal |
| `CheckersClient.UpdatePathInjective` | index.js:56-57 | two update paths are equal if and only if owner, repo and id are equal |
| `CheckersClient.CreatePathVerbatim` | index.js:37-38 | fields made only of unreserved characters appear in the create path unchanged |
| `CheckersClient.UpdatePathVerbatim` | index.js:56-57 | an owner and repo made only of unreserved characters appear in the update path unchanged, followed by the id in decimal |
| `CheckersClient.CreatePathExample` | index.js:36-38 | check "My Check" on commit abc123 of Acme/widgets gives the segments `check`, `My%20Check`, `Acme`, `widgets`, `abc123` |
| `CheckersClient.UpdatePathExample` | index.js:55-57 | check run 42 of Acme/widgets has the path `/check/Acme/widgets/42` |
| `CheckersClient.SignatureInput` | index.js:111 | the string that is hashed, `path + body.length + secret`; its contract is carried by `SignatureInputLayout`, `SignatureInputSeesOnlyLength` and `SignatureInputAmbiguous` |
| `CheckersClient.Signature` | index.js:109-112 | the SHA-256 hex digest of that string, with the hash as a parameter; its contract is carried by `SameLengthSameSignature` and `BuildRequest` |
| `CheckersClient.SignatureInputLayout` | index.js:109-112 | the hashed string is the path, then a run of decimal digits whose value is the body's length, then the secret |
| `CheckersClient.SignatureInputSeesOnlyLength` | index.js:111 | for a fixed path and secret, two bodies give the same hashed string if and only if they have the same length |
| `CheckersClient.SameLengthSameSignature` | index.js:109-112 | two bodies of the same length get the same `X-Request-Signature`, whatever the hash |
| `CheckersClient.SignatureInputAmbiguous` | index.js:111 | with nothing between the path and the length, update paths for check runs 1 and 12 are different, yet a 23-unit body on the first and a 3-unit body on the second hash the same string |
| `CheckersClient.BuildRequest` | index.js:80-94 | the request has the given method and body and exactly two headers: the client key, and the hash of path, body length and secret |
| `CheckersClient.SignedPathIsUrlTail` | index.js:81-82 | the URL is exactly the stored URL, then `/api`, then the path, and the signature header is computed over that same path, without `/api` |
| `CheckersClient.RequestUrlSegments` | index.js:81 | split on `/`, the URL is the stored URL's segments, then `api`, then the path's segments |
| `CheckersClient.Dispatch` | index.js:80-98 | `_request` succeeds exactly when the transport does, and returns its status code and body unchanged; a rejection is passed on as it is |
| `CheckersClient.CreateCheckRun` | index.js:36-42 | `createCheckRun` throws `URIError` before sending exactly when a field has an unpaired surrogate |
| `CheckersClient.UpdateCheckRun` | index.js:55-61 | `updateCheckRun` throws `URIError` before sending exactly when owner or repo has an unpaired surrogate |
| `CheckersClient.CreateCheckRunAnswer` | index.js:36-41 | for well-formed fields, `createCheckRun` sends a POST of the body to a URL whose segments are the stored URL's, then `api`, `check` and the four encoded fields, and returns exactly the transport's answer to that POST |
| `CheckersClient.UpdateCheckRunAnswer` | index.js:55-60 | for a well-formed owner and repo, `updateCheckRun` sends a PATCH of the body to a URL whose segments are the stored URL's, then `api`, `check`, the two encoded fields and the id's digits, and returns exactly the transport's answer to that PATCH |
| `UriEncoding.EncodeUriComponent` | index.js:37-38 | `encodeURIComponent`, the abstract operation Encode leaving alone only the unreserved characters of ECMA-262, section 19.2.6; its contract is carried by the `UriEncoding.Encode*` lemmas, `ComponentHasNoSlash` among them |
| `UriEncoding.EncodeUri` | index.js:19 | `encodeURI`, the same operation with `;/?:@&=+$,#` also left alone; its contract is carried by the `UriEncoding.Encode*` lemmas and `EncodeUriKeepsSlash` |
| `UriEncoding.Encode` | index.js:37-38 | the encoders emit only code units they leave unescaped and `%` |
| `UriEncoding.EncodeConcat` | index.js:37-38 | a well-formed string encodes, and followed by anything it encodes to its own encoding followed by that thing's; with `EncodeUnescapedIsIdentity` and the per-code-point step this fixes the output for every input, so every unescaped unit is copied wherever it stands |
| `UriEncoding.EncodeUriKeepsSlash` | index.js:19 | `encodeURI` keeps each `/` of a well-formed URL and encodes the text between them on its own |
| `UriEncoding.EncodeEscapesUpperCase` | index.js:37-38 | read from the left, an encoder's output is single code units other than `%` and escapes of `%` and two upper-case hex digits, so every `%` starts an upper-case escape |
| `UriEncoding.EncodeSucceedsIffWellFormed` | index.js:37-38 | `encodeURIComponent` and `encodeURI` throw exactly on strings with an unpaired surrogate |
| `UriEncoding.ComponentHasNoSlash` | index.js:38 | `encodeURIComponent` never emits `/`, so each field is a single path segment |
| `UriEncoding.EncodeLastUnit` | index.js:19 | an encoded string ends in `/` exactly when the original does and the encoder leaves `/` alone, so `encodeURI` cannot add a trailing `/` |
| `UriEncoding.EncodeUnescapedIsIdentity` | index.js:37-38 | a string made only of unescaped code units encodes to itself |
| `UriEncoding.EncodePrefix` | index.js:37-38 | a prefix of unescaped code units is copied in front of whatever the rest encodes to |
| `UriEncoding.EncodeThenDecode` | index.js:37-38 | `decodeURIComponent` undoes both encoders |
| `UriEncoding.EncodeInjective` | index.js:37-38 | two strings encode to the same result if and only if they are equal |
| `JsStrings.Decimal` | index.js:111 | the rendering of `body.length` and of the id is a non-empty run of decimal digits with no leading zero, and 0 renders as exactly `0` |
| `JsStrings.DecimalValue` | index.js:111 | reading the rendered digits back gives the number |
| `JsStrings.DecimalInjective` | index.js:57 | two numbers render alike if and only if they are equal |

## Left out

- The HTTP transport (`request-promise-native` on top of `request`) is a
  parameter, and neither library is part of this model. Two of their
  behaviours change what goes on the wire and what comes back:
  - With `json: true`, `request` JSON-encodes the body it is given, and the
    body here is already a string. So the bytes sent are that string
    JSON-encoded a second time, not the string whose length was signed. The
    model takes the body passed at index.js:90 as the body that is sent.
  - `request-promise-native` rejects every non-2xx response by default
    (`simple: true`), and index.js:85-94 does not turn that off. So `_request`
    never returns a non-2xx status. It rejects instead, and the model passes
    that rejection on as `Rejected`.
  How the transport parses the response is not modelled either.
- SHA-256 and hex encoding are a parameter (`hash`). That includes the
  conversion of the hashed string to UTF-8 inside `crypto`. The properties
  hold for any hash function.
- `JSON.stringify` is left out. The body enters already serialised. Some
  payloads make the stringify step fail, such as `undefined` (which makes
  `body.length` throw a `TypeError`) or a cyclic object. Those failures are not
  modelled.
- Promises and `async` are not modelled. An operation returns its outcome
  directly as a `Result`, and no concurrency is modelled.
- Non-string arguments are not modelled. Fields are JavaScript strings.
- `checkRunId` is modelled only as a non-negative integer no larger than
  2^53 - 1, the range where a JavaScript number holds every integer exactly.
  Within it, `Number::toString` gives the plain decimal digits that `Decimal`
  models. Larger integers below 10^21 also render as plain decimal, but the
  number may already have been rounded, so they are not modelled. Also not
  modelled:
  - negative and fractional ids;
  - `NaN` and `Infinity`, which render as `NaN` and `Infinity`. `NaN` is what
    cli.js:108 (`type: 'number'`) gives for a non-numeric `--id`;
  - a `checkRunId` passed as a string, which goes through
    `encodeURIComponent` as it is.
- The order of the two headers is not kept, because they are a map.
- `cli.js` (argument parsing, environment variables, reading the payload from
  stdin, and judging the status code) is not part of this model.
