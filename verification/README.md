# openHAB REST API handler — Dafny model

This project models `ApiHandler` from `functions/apihandler.js` of the openHAB
Google Assistant integration. It is a small client for the openHAB REST API.
It keeps a configuration (host, base path, port, optional basic-auth
credentials) and a bearer token. From these it builds the options of every
HTTP(S) request, reads one item or the whole item collection, and posts
commands to items.

The model is purely functional:

- `wrappers.dfy`: `Option`, `Result` and `Outcome`. A promise that resolves
  with a value settles as a `Result`. A promise that resolves with nothing
  settles as an `Outcome`.
- `strings.dfy`: prefix and suffix tests, first-occurrence search, and
  splitting on a separator. Joining the pieces of a split gives back the
  input (`Strings.JoinSplit`).
- `query.dfy`: a reader for `?name=value&name=value` query strings. It is
  independent of how the handler writes its query. The handler's query is
  proved to read back as the intended parameters.
- `utf.dfy`: how JavaScript measures a string (`length` counts UTF-16 code
  units) and how Node writes one to a socket (UTF-8 bytes).
- `apihandler.dfy`: the handler itself. It covers construction with path
  normalisation, the token setter, `getOptions`, transport choice, and how
  `getItem`, `getItems` and `sendCommand` settle.

I/O is turned into parameters:

- The network round trip is a function `server: Request -> Response`. A
  request carries the chosen transport, the options and the body bytes.
- `JSON.parse` is a function `parse: string -> Result<J, string>`. Its
  failure text stands for `e.toString()`.

The source tests `userpass`, the token and the item name for JavaScript
truthiness. All three are modelled as "present and non-empty".

## Model

| member | source | states |
|---|---|---|
| ApiHandler.NormalizePath | functions/apihandler.js:29-34 | The result starts and ends with `/`. It equals the input exactly when the input already starts and ends with `/`. The empty path becomes `"/"`. Otherwise the input is kept whole, with at most one `/` added on each side. |
| ApiHandler.NormalizePathIsShortest | functions/apihandler.js:29-34 | Of the four ways to add at most one `/` on each side, the normalised path is the unique shortest one that starts and ends with `/`. No slash is added that was not needed. |
| ApiHandler.NormalizePathIdempotent | functions/apihandler.js:29-34 | Normalising twice is the same as normalising once. |
| ApiHandler.NewHandler | functions/apihandler.js:28-37 | A new handler has a base path that starts and ends with `/`, namely the normalised configured path. Host, port and credentials are kept, and the token starts empty. |
| ApiHandler.DefaultConfigIsNormalized | functions/apihandler.js:28 | The default configuration (`/rest/items/`, port 80) passes through construction unchanged. |
| ApiHandler.SetAuthToken | functions/apihandler.js:42-44 | The setter replaces the token and leaves the configuration alone. |
| ApiHandler.QueryString | functions/apihandler.js:52-55 | A GET query starts with `?metadata=ga,synonyms`. It ends with the `&fields=…` list exactly when the item name is empty. Every other method gets an empty query. |
| ApiHandler.QueryStringParams | functions/apihandler.js:52-55 | Read back by an independent query parser, the query's parameters are: none for a non-GET; `metadata=ga,synonyms` for a GET of one item; `metadata` then `fields=groupNames,groupType,name,label,metadata,type` for a GET of the collection. |
| ApiHandler.ItemQueryParams | functions/apihandler.js:54 | The single-item query parses as the one `metadata` parameter. |
| ApiHandler.CollectionQueryParams | functions/apihandler.js:54 | The collection query parses as `metadata` followed by `fields`. |
| ApiHandler.FieldsRequestedIffCollection | functions/apihandler.js:52-55 | The parsed query has a `fields` parameter if and only if the method is GET and the item name is empty. It has a `metadata` parameter if and only if the method is GET. |
| ApiHandler.GetOptions | functions/apihandler.js:51-78 | Hostname, port and method are copied. The path is the base path, then the item name, then the query. `Accept: application/json` is always present. Auth precedence: non-empty credentials go to `auth` and no `Authorization` header is set; otherwise a non-empty token gives `Authorization: Bearer <token>`; otherwise there is neither. `Content-Type: text/plain` and `Content-Length: length` are present if and only if the method is POST. No other header exists. |
| ApiHandler.TokenIgnoredWithUserPass | functions/apihandler.js:66-70 | With credentials configured, changing the token changes no request's options. |
| ApiHandler.RequestPathUnderBase | functions/apihandler.js:59 | For a handler built from any configuration, every request path starts with `/`, then the normalised base path, then the item name. |
| ApiHandler.SelectTransport | functions/apihandler.js:86 | TLS is used if and only if the port is exactly 443. |
| ApiHandler.SettleGet | functions/apihandler.js:88-109 | A GET succeeds if and only if the status is 200 and the body parses, and the result is then the parsed value. Any other status rejects with that status and `getItem - failed for path: <path>`. A 200 with an unparseable body rejects with 415 and `getItem - JSON parse failed for path: <path> - <error>`. A rejection never carries status 200. |
| ApiHandler.SettlePost | functions/apihandler.js:129-133 | A POST succeeds if and only if the status is 200 or 201. Otherwise it rejects with that status and `sendCommand - failed for path: <path>`. |
| ApiHandler.GetItem | functions/apihandler.js:83-114 | The request uses the GET options for the item name with length 0. It has no body and uses TLS if and only if the port is 443. It settles by the GET rule on the server's response. |
| ApiHandler.GetItems | functions/apihandler.js:116-118 | Exactly `getItem('')`: the path is the base path followed by the metadata and fields queries. |
| ApiHandler.SendCommand | functions/apihandler.js:124-139 | The request uses the POST options with the payload's JavaScript length. Its body is the payload's UTF-8 bytes, and it uses TLS if and only if the port is 443. It succeeds if and only if the server answers 200 or 201. |
| ApiHandler.TokenReachesEveryRequest | functions/apihandler.js:66-70 | On a handler without credentials, after the setter stores a non-empty token, both `getItem` and `sendCommand` requests carry `Authorization: Bearer <token>` and no basic-auth credentials. |
| ApiHandler.SendCommandAsciiAgrees | functions/apihandler.js:125 | For an ASCII payload the Content-Length header equals the number of body bytes. |
| ApiHandler.SendCommandNonAsciiDisagrees | functions/apihandler.js:125 | For the payload `é` (U+00E9) the Content-Length header (1) does not equal the number of body bytes (2). |
| ApiHandler.SendCommandByteLength | functions/apihandler.js:124-139 | The corrected command: the options are the POST options with Content-Length equal to the payload's UTF-8 byte count, so the header always matches the body. Transport, body and settling follow `sendCommand`: TLS if and only if the port is 443, the UTF-8 body, and the POST rule on the server's status. |
| ApiHandler.SendCommandByteLengthOnlyFixesLength | functions/apihandler.js:124-139 | For every payload, the corrected request is the original `sendCommand` request with only the Content-Length header replaced by the body's byte count. |
| ApiHandler.SendCommandByteLengthMatchesOnAscii | functions/apihandler.js:125 | On ASCII payloads the corrected command issues exactly the request that `sendCommand` issues. |
| Utf.Utf16Length | functions/apihandler.js:125 | `payload.length` counts UTF-16 code units: at least one and at most two per character. |
| Utf.Utf8Encode | functions/apihandler.js:136 | `req.write(payload)` sends between one and four bytes per character. |
| Utf.AsciiLengthsAgree | functions/apihandler.js:125 | For ASCII text, the UTF-16 length, the UTF-8 byte count and the character count are equal. |

## Left out

- The `http.request` / `https.request` calls, `req.write`, `req.end`, `setEncoding` and the `data` / `end` events. A round trip is the `server` parameter, and the response body arrives as one string.
- Promises and `req.on('error', reject)`. Transport errors are passed through unchanged and are opaque, so they are not modelled.
- `JSON.parse` and the text of `e.toString()`. Both are the `parse` parameter.
- The default arguments of `getOptions`. Every call site in the handler passes the method, and `getItem` relies on the default length 0, which `GetItem` passes explicitly.
- An `undefined` item name passed to `sendCommand`. Item names are strings, and the empty string stands for every falsy value.
- The constructor writing the normalised path back into the caller's config object. `NewHandler` returns a new configuration instead.
- JavaScript strings holding lone surrogates. A Dafny `char` is a Unicode scalar value.
- GetItem: always issues its request and settles by the server's response. In the source, `protocol.request` (functions/apihandler.js:87) throws inside the promise, so the call rejects with no round trip, when Node refuses the options: a path holding characters it will not send unescaped (a space, or a character above U+00FF, in the item name) or a header value holding CR or LF (a token with a line break). Those checks belong to Node's HTTP client, which is not part of this model.
- SendCommand: the same gap at functions/apihandler.js:128. A request Node refuses for its path or header values rejects before any round trip in the source, but the model always issues it.
- NewHandler: is total. In the source the constructor throws at functions/apihandler.js:29 when the configured `path` is not a string (or the config is `null`). Configuration fields are typed strings here, so that case cannot be written.
- The port is an integer. A configuration that holds the port as a string (`"443"`) would fail the strict `=== 443` test in the source. The model does not represent that case.

## Findings

| source | as written | input that shows it | evidently intended | confidence | as-written member | corrected member |
|---|---|---|---|---|---|---|
| functions/apihandler.js:125 | `Content-Length` is set to `payload.length`, which counts UTF-16 code units. `req.write(payload)` sends the payload's UTF-8 bytes. | `sendCommand('Light', 'é')`: the header says 1, but 2 bytes are sent. | `Content-Length` equals the number of bytes written. | medium, not executed | ApiHandler.SendCommandNonAsciiDisagrees | ApiHandler.SendCommandByteLength |
