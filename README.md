# OneID relay — a Dafny model

The OneID relay is a small HTTP backend (`server-oneid/src/index.js`) that
sits between a web or mobile client and the OneID identity provider. Its core:

- **Token exchange** (`POST /api/oneid/token`). It checks that `code` and
  `redirectUri` are present and that the server is configured. It then posts
  an OAuth 2.0 Access Token Request (grant type `authorization_code`, client
  credentials in the body, an optional PKCE `code_verifier`) as
  `application/x-www-form-urlencoded` to the token endpoint. If an access
  token comes back and a user-info URL is set, it fetches the user-info
  resource with `Authorization: Bearer <token>`. It answers 200 with
  `{accessToken, idToken, expiresIn, user}`, or 400, 500 or 502 with an
  error message.
- **User normalisation** (`normalizeUser`). It maps the claims of a user-info
  response to the user record the relay returns, with fallbacks for `sub`,
  `name` and the phone number.
- **Callback bridge** (`GET /auth/oneid/callback`). It either redirects (302)
  to the app deep link `<scheme>://auth/oneid/callback?code=…&state=…`,
  with the values escaped by `encodeURIComponent`, or shows a fixed
  acknowledgement page.
- **CORS policy**. The allow-list is parsed from `ALLOWED_ORIGINS`, split at
  commas, trimmed and with empty entries dropped. A request is allowed when
  it has no origin, when the list is empty, or when its origin is listed.

The modules follow these parts:

- `JsValues`: `undefined`, truthiness, `||` and `String()` of a number.
- `JsStrings`: `trim`, `split`, `join` and `filter(Boolean)`.
- `PercentEncoding`: `encodeURIComponent` and the form serializer. Both go
  through UTF-8, and a strict decoder is their inverse.
- `QueryParams`: `URLSearchParams.set` and `toString`, plus a query reader.
- `CorsPolicy`, `Callback` and `UserNormalization`.
- `TokenExchange`: the handler, as a method.

The handler takes four inputs:

- the request body;
- the environment variables, which are read on every request;
- the reply of the token endpoint;
- the reply of the user-info endpoint.

Each reply is one of these outcomes:

- the call throws;
- a status outside 2xx;
- a 2xx with a body that is not JSON;
- a 2xx with a `null` body;
- a 2xx with a JSON object.

The handler returns the response and the list of outbound calls it made.

## Model

| member | source | states |
|---|---|---|
| TokenExchange.ExchangeToken | server-oneid/src/index.js:38-98 | A missing or empty code or redirectUri gets 400 before anything else. A missing or empty token URL, client id or client secret gets 500 "Server misconfigured". Neither case makes a call. Otherwise the first call posts the token form to the token URL as form-urlencoded. A throw, a non-JSON body or a `null` body gets 500 "Internal error". A non-2xx reply gets 502 with the reply text as details. A missing or falsy access_token gets 502. A second call, a GET to the user-info URL with `Bearer <token>`, happens exactly when a token was granted and the URL is set. The answer is 200 exactly when the token was granted and the user-info step did not throw. It carries the access token, id_token and expires_in as received. `user` is null exactly when there is no user-info URL or its reply was non-2xx; otherwise it is the normalised claims. |
| TokenExchange.ExchangeTokenTwice | server-oneid/src/index.js:38-98 | The same request and upstream replies give the same response and the same calls: the handler keeps no state. |
| TokenExchange.BuildTokenForm | server-oneid/src/index.js:53-59 | The successive `params.set` calls build exactly the token form. |
| TokenExchange.TokenFormFields | server-oneid/src/index.js:53-59 | The form has the fields grant_type=authorization_code, code, redirect_uri, client_id and client_secret, in that order, then code_verifier exactly when a non-empty verifier was given. No field value is empty. |
| TokenExchange.TokenBodyReadsBack | server-oneid/src/index.js:61-65 | The serialized request body decodes back to exactly the token form: names, values and order. |
| UserNormalization.NormalizeUser | server-oneid/src/index.js:100-113 | `sub` is the non-empty `sub` claim, else `id` as it is. `name` is the non-empty `name` claim, else given and family name joined by one space, else whichever of the two is there. `name` is empty exactly when all three are falsy. `phoneNumber` is the non-empty `phone`, else `phone_number`. The other fields are copied and `raw` is the whole claim set. |
| UserNormalization.JoinedNameCases | server-oneid/src/index.js:104 | `[given_name, family_name].filter(Boolean).join(' ')` is both names with one space between them, the one that is present, or empty. |
| Callback.HandleCallback | server-oneid/src/index.js:27-35 | The handler redirects exactly when target is `app`, and then with status 302. The location starts with the scheme (APP_SCHEME, or `odo.app` when that is unset or empty) and `://auth/oneid/callback?`. Its query is the `encodeURIComponent` serialization of the pairs code and state, a missing value as empty; it holds no `#` and reads back as exactly those two pairs. Otherwise it answers 200 with the fixed acknowledgement. |
| Callback.DeepLinkReadsBack | server-oneid/src/index.js:30-31 | The deep link is scheme, path and a query carrying exactly `code` and `state` with the given values. The query reads back with a `decodeURIComponent` reader and with a form reader, and contains no `#`. |
| Callback.CallbackQueryIsSerialized | server-oneid/src/index.js:31 | The template `code=${…}&state=${…}` is the serialization of the two-pair list. |
| Callback.DeepLinkOfUnreserved | server-oneid/src/index.js:31 | Values made only of unreserved characters appear verbatim in the link. |
| CorsPolicy.ParseAllowedOrigins | server-oneid/src/index.js:10 | Every parsed entry is non-empty, has no surrounding whitespace and has no comma. |
| CorsPolicy.ParseJoinedOrigins | server-oneid/src/index.js:10 | Parsing a comma-joined list of such entries gives the list back. |
| CorsPolicy.ParsedOriginsArePieces | server-oneid/src/index.js:10 | A string is an entry exactly when it is non-empty and is the trim of some comma-separated piece of the variable. |
| CorsPolicy.CheckOrigin | server-oneid/src/index.js:14-17 | The `origin` callback allows exactly when the origin is missing or empty, the list is empty, or the origin is listed; otherwise it refuses with "Not allowed by CORS". |
| CorsPolicy.OriginPolicy | server-oneid/src/index.js:14-17 | A request is allowed exactly when its origin is missing or empty, the list is empty, or the origin is listed. A refusal carries "Not allowed by CORS". |
| CorsPolicy.BlankAllowListAllowsAll | server-oneid/src/index.js:10-16 | An unset variable, or one of only commas and whitespace, gives an empty list, and then every origin is allowed. |
| CorsPolicy.AllowedOriginIsEntry | server-oneid/src/index.js:15-16 | With a non-empty list, an allowed origin is empty or a listed entry. |
| QueryParams.SetParam | server-oneid/src/index.js:54-59 | `params.set` leaves the list as long as before, less the pairs it drops for repeating the name, plus one. |
| QueryParams.SetParamInPlace | server-oneid/src/index.js:54-59 | Setting a name the list already holds puts the new pair at the position of its first pair, keeps the pairs before it, and drops the later pairs of that name. |
| QueryParams.SetParamSpec | server-oneid/src/index.js:54-59 | After `set`, the name occurs exactly once, with the new value. The pairs of every other name are those there were before, in the same order and number. |
| QueryParams.SetParamAppends | server-oneid/src/index.js:53-59 | Setting a name not yet present appends the pair at the end. |
| QueryParams.ParseSerialize | server-oneid/src/index.js:64 | Reading a serialized list gives the list back, for a form reader of form or `encodeURIComponent` output and for a component reader of component output. |
| PercentEncoding.Encode | server-oneid/src/index.js:31 | An encoding contains only the encoder's unescaped characters, `%`, and `+` in the form flavour. The component flavour is `encodeURIComponent` at line 31; the form flavour is `params.toString()` at line 64. |
| PercentEncoding.EncodeHasNoDelimiters | server-oneid/src/index.js:31 | An encoded value contains none of `& = # ? /`, so it cannot end a parameter, the query or the path. The component flavour is `encodeURIComponent` at line 31; the form flavour is `params.toString()` at line 64. |
| PercentEncoding.EncodeUnescaped | server-oneid/src/index.js:31 | A string of unescaped characters encodes to itself. The component flavour is `encodeURIComponent` at line 31; the form flavour is `params.toString()` at line 64. |
| PercentEncoding.DecodeEncode | server-oneid/src/index.js:31 | Decoding an encoding gives the original string: the encoding is injective. The component flavour is `encodeURIComponent` at line 31; the form flavour is `params.toString()` at line 64. |
| PercentEncoding.FormDecodesComponent | server-oneid/src/index.js:31 | A form decoder reads `encodeURIComponent` output back too. The component flavour is `encodeURIComponent` at line 31; the form flavour is `params.toString()` at line 64. |
| PercentEncoding.DecodeFlavorsAgree | server-oneid/src/index.js:31 | Without a `+`, the form and component decoders agree. The component flavour is `encodeURIComponent` at line 31; the form flavour is `params.toString()` at line 64. |
| PercentEncoding.Utf8RoundTrip | server-oneid/src/index.js:31 | The UTF-8 bytes of a character have the length their lead byte announces and decode back to it. The component flavour is `encodeURIComponent` at line 31; the form flavour is `params.toString()` at line 64. |
| JsValues.NatToDecimal | server-oneid/src/index.js:85 | `String(n)` is at least one decimal digit, all digits, and denotes n, with no leading zero. |
| JsValues.ToJsString | server-oneid/src/index.js:85 | `${v}` of a string is the string itself. That of a non-negative integer is its canonical decimal numeral: digits only, denoting it, with no leading zero. That of a truthy value is never empty. |
| TokenExchange.BearerHeader | server-oneid/src/index.js:85 | The `Authorization` value for a truthy token is longer than `Bearer `. |
| TokenExchange.BearerHeaderOfString | server-oneid/src/index.js:85 | For a string token the value is `Bearer ` followed by exactly the token. |
| JsStrings.Trim | server-oneid/src/index.js:10 | Neither end of the result is whitespace (the ECMAScript WhiteSpace and LineTerminator code points). |
| JsStrings.TrimRemovesOnlyWhitespace | server-oneid/src/index.js:10 | The input is the result with only whitespace added at either end. |
| JsStrings.TrimKeepsAbsent | server-oneid/src/index.js:10 | Trimming never brings in a character that was not there. |
| JsStrings.Split | server-oneid/src/index.js:10 | There is at least one piece and no piece holds the separator. |
| JsStrings.JoinSplit | server-oneid/src/index.js:10 | Joining the pieces of a split gives the string back. |
| JsStrings.SplitJoin | server-oneid/src/index.js:10 | Splitting a join of separator-free pieces gives the pieces back. |
| JsStrings.FilterNonEmpty | server-oneid/src/index.js:10 | The result is no longer than the input and holds no empty string. |
| JsStrings.FilterNonEmptyMembers | server-oneid/src/index.js:10 | A string is kept exactly when it is in the input and not empty. |
| JsStrings.Present | server-oneid/src/index.js:104 | Only truthy values are kept. |
| JsStrings.PresentMembers | server-oneid/src/index.js:104 | A string is kept exactly when it is a present, non-empty value of the input. |
| JsStrings.PresentAppend | server-oneid/src/index.js:104 | The kept values keep their order: filtering a concatenation is the concatenation of the filtered parts. |

## Left out

- The Express application itself: the JSON body parser, the rate limiter,
  the listener and the `PORT` variable, logging and `dotenv` loading. These
  are framework configuration and I/O.
- The `/health` route. It is a constant `{ok: true}` answer.
- Real network calls and `async` scheduling. The two fetches are inputs that
  give their outcomes, and the handler reports the calls it made.
- A failure while reading a non-2xx body's text is folded into
  `TokenFetchThrew`. Both end in the same 500.
- The request body's fields are strings or absent. Numbers, booleans, arrays
  or objects sent as `code`, `redirectUri` or `codeVerifier`, and their
  truthiness and string conversion, are not modelled.
- Query parameters are strings or absent. Express can give an array for a
  repeated parameter, and `encodeURIComponent` would then encode its
  comma-joined form; that is not modelled.
- Token-response fields are JSON scalars with integer numbers. Fractions,
  exponents, nested objects and arrays in `access_token`, `id_token` or
  `expires_in` are not modelled. Neither is the conversion such values would
  get in the `Bearer` header.
- `Num` holds an exact integer. `JSON.parse` rounds integers above 2^53 to
  the nearest double, and `String(n)` writes numbers of 1e21 and more in
  exponent form (`1e+21`). For such values the `expiresIn` and access token
  the source passes on, and the `Bearer` text, differ from `Num(n)` and
  `IntToDecimal(n)`.
- A token or user-info body that is a JSON scalar other than `null` (a
  number, a string), or a JSON array, behaves in the source like an object without the fields
  read. The model offers only the object form. For user info this loses the
  fact that `raw` would be that scalar.
- User-info claims are string-valued. Non-string claims and their
  truthiness are not modelled.
- `encodeURIComponent` throws on a lone surrogate. Dafny strings hold only
  Unicode scalar values, so that error path cannot arise in the model.
  For the same reason the replacement of a lone surrogate by U+FFFD when
  `URLSearchParams.set` converts a request-body value is not modelled.
- node-fetch rejects an invalid token or user-info URL, and a `Bearer`
  header value with characters outside the legal header range, before
  anything is sent. The model does not derive that rejection from the URL
  or the token; it is one of the `TokenFetchThrew` / `UserInfoFetchThrew`
  reply inputs, which end in the same 500.
- `Decode` is a strict reference decoder used to state what the encodings
  preserve. The relay never decodes; the receiving app and the token
  endpoint do that.
- The CORS middleware's handling of a refusal (the error reaching Express's
  error handler) and its `credentials` option are not modelled. The model
  stops at the decision the `origin` callback takes.
- Once a user-info URL is set, `user` is null only for a non-2xx status. A
  rejected fetch, a body that is not JSON and a `null` body are caught by the
  surrounding `try`, and `ExchangeToken` answers 500 in those cases.
- `HandleCallback`'s location is the string handed to `res.redirect`.
  Express writes it into the `Location` header through `encodeurl`, which
  escapes characters outside the URL set (a space, non-ASCII) that
  `APP_SCHEME` may hold; that rewriting is not modelled.
