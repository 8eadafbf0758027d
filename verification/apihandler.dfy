/** The openHAB REST API handler: a client that builds HTTP(S) request
    options from a fixed configuration, reads items and posts commands.

    The network is a parameter: a round trip is a function from the request
    the handler issues to the response the server gives back. JSON parsing is
    a parameter too: it yields the parsed value or the text of the error it
    raised. */
module ApiHandler {
  import opened Wrappers
  import opened Strings
  import opened Query
  import Utf

  // ---------------------------------------------------------------------------
  // Configuration and handler state
  // ---------------------------------------------------------------------------

  /** Where the REST API lives and, optionally, basic-auth credentials
      written `user:password`. */
  datatype Config = Config(host: string, path: string, port: int, userpass: Option<string>)

  /** The configuration used when the handler is built without one. */
  const DefaultConfig: Config := Config("", "/rest/items/", 80, None)

  /** Credentials count only when present and non-empty (JavaScript truthiness). */
  predicate HasUserPass(config: Config) {
    config.userpass.Some? && config.userpass.value != ""
  }

  /** The handler's two pieces of state: the normalised configuration and
      the bearer token, empty until set. */
  datatype Handler = Handler(config: Config, authToken: string)

  /** A REST base path: it starts and ends with `/`. */
  predicate IsBasePath(p: string) {
    StartsWith(p, "/") && EndsWith(p, "/")
  }

  /** The configured path with a `/` put in front if it lacks one, and then
      a `/` put at the end if it lacks one. */
  function NormalizePath(p: string): (r: string)
    ensures IsBasePath(r)
    ensures r == p <==> IsBasePath(p)
    ensures p == "" ==> r == "/"
    ensures StartsWith(p, "/") ==> StartsWith(r, p)
    ensures EndsWith(p, "/") ==> EndsWith(r, p)
    ensures r == p || r == "/" + p || r == p + "/" || r == "/" + p + "/"
  {
    var withLead := if StartsWith(p, "/") then p else "/" + p;
    if EndsWith(withLead, "/") then withLead else withLead + "/"
  }

  /** Normalising a normalised path changes nothing. */
  lemma NormalizePathIdempotent(p: string)
    ensures NormalizePath(NormalizePath(p)) == NormalizePath(p)
  {
  }

  /** Among the four ways of adding at most one `/` on each side of `p`,
      the normalised path is the unique shortest one that is a base path:
      no slash is added that was not needed. */
  lemma NormalizePathIsShortest(p: string, lead: string, trail: string)
    requires lead == "" || lead == "/"
    requires trail == "" || trail == "/"
    requires IsBasePath(lead + p + trail)
    ensures |NormalizePath(p)| <= |lead + p + trail|
    ensures |NormalizePath(p)| == |lead + p + trail| ==> NormalizePath(p) == lead + p + trail
  {
  }

  /** Building a handler normalises the configured path, keeps every other
      setting, and starts with no bearer token. */
  function NewHandler(config: Config): (h: Handler)
    ensures IsBasePath(h.config.path)
    ensures h.config.path == NormalizePath(config.path)
    ensures h.config.host == config.host && h.config.port == config.port
    ensures h.config.userpass == config.userpass
    ensures h.authToken == ""
  {
    Handler(config.(path := NormalizePath(config.path)), "")
  }

  /** The default configuration is already normalised. */
  lemma DefaultConfigIsNormalized()
    ensures NewHandler(DefaultConfig).config == DefaultConfig
  {
  }

  /** Replacing the bearer token touches nothing else. */
  function SetAuthToken(h: Handler, token: string): (h': Handler)
    ensures h'.authToken == token
    ensures h'.config == h.config
  {
    h.(authToken := token)
  }

  // ---------------------------------------------------------------------------
  // Request options
  // ---------------------------------------------------------------------------

  /** A header value: header text, or the number given for Content-Length. */
  datatype HeaderValue = Text(text: string) | Number(n: nat)

  /** The options handed to the HTTP client for one request. `auth` holds
      basic-auth credentials when the request carries them. */
  datatype Options = Options(
    hostname: string,
    port: int,
    path: string,
    verb: string,
    headers: map<string, HeaderValue>,
    auth: Option<string>)

  /** The query parameters the handler sends, kept as their parts:
      `?metadata=ga,synonyms` on every GET and
      `&fields=groupNames,groupType,name,label,metadata,type` on a GET of
      the whole collection. */
  const MetadataName: string := "metadata"
  const MetadataValue: string := "ga" + "," + "synonyms"
  const FieldsName: string := "fields"
  const FieldList: string :=
    "groupNames" + "," + "groupType" + "," + "name" + "," + "label" + "," + "metadata" + "," + "type"
  const MetadataParam: string := MetadataName + "=" + MetadataValue
  const FieldsParam: string := FieldsName + "=" + FieldList
  const MetadataQuery: string := "?" + MetadataParam
  const FieldsQuery: string := "&" + FieldsParam

  /** The query part of the request path for an HTTP method (`verb`). */
  function QueryString(verb: string, itemName: string): (q: string)
    ensures verb == "GET" ==> StartsWith(q, MetadataQuery)
    ensures verb == "GET" ==> (EndsWith(q, FieldsQuery) <==> itemName == "")
    ensures verb != "GET" ==> q == ""
  {
    if verb == "GET" then
      MetadataQuery + (if itemName != "" then "" else FieldsQuery)
    else
      ""
  }

  /** Neither parameter contains the `&` that separates query fields, so
      each reads back as a single field. */
  lemma ParamsAreAmpersandFree()
    ensures '&' !in MetadataParam && '&' !in FieldsParam
  {
  }

  /** The metadata field reads as its name and value. */
  lemma MetadataParamReads()
    ensures ParseParam(MetadataParam) == Param(MetadataName, MetadataValue)
  {
    ParseParamOf(MetadataName, MetadataValue);
  }

  /** The fields field reads as its name and value. */
  lemma FieldsParamReads()
    ensures ParseParam(FieldsParam) == Param(FieldsName, FieldList)
  {
    ParseParamOf(FieldsName, FieldList);
  }

  /** The query of a single-item GET reads as the metadata parameter alone. */
  lemma ItemQueryParams()
    ensures ParseQuery(MetadataQuery) == Some([Param(MetadataName, MetadataValue)])
  {
    ParamsAreAmpersandFree();
    ParseQuerySingle(MetadataParam);
    MetadataParamReads();
  }

  /** The query of a collection GET reads as the metadata parameter
      followed by the fields parameter. */
  lemma CollectionQueryParams()
    ensures ParseQuery(MetadataQuery + FieldsQuery)
         == Some([Param(MetadataName, MetadataValue), Param(FieldsName, FieldList)])
  {
    ParamsAreAmpersandFree();
    ParseQueryPair(MetadataParam, FieldsParam);
    MetadataParamReads();
    FieldsParamReads();
  }

  /** Read back as parameters, the query asks for metadata on every GET,
      adds the list of fields only when the whole collection is fetched,
      and is empty for every other verb. */
  lemma QueryStringParams(verb: string, itemName: string)
    ensures verb != "GET" ==> ParseQuery(QueryString(verb, itemName)) == Some([])
    ensures verb == "GET" && itemName != "" ==>
              ParseQuery(QueryString(verb, itemName)) == Some([Param(MetadataName, MetadataValue)])
    ensures verb == "GET" && itemName == "" ==>
              ParseQuery(QueryString(verb, itemName))
              == Some([Param(MetadataName, MetadataValue), Param(FieldsName, FieldList)])
  {
    if verb == "GET" {
      if itemName == "" {
        CollectionQueryParams();
      } else {
        assert QueryString(verb, itemName) == MetadataQuery;
        ItemQueryParams();
      }
    }
  }

  /** The `fields` parameter is requested exactly for a GET of the whole
      collection, and `metadata` exactly for every GET. */
  lemma FieldsRequestedIffCollection(verb: string, itemName: string)
    ensures ParseQuery(QueryString(verb, itemName)).Some?
    ensures HasParam(ParseQuery(QueryString(verb, itemName)).value, FieldsName)
            <==> verb == "GET" && itemName == ""
    ensures HasParam(ParseQuery(QueryString(verb, itemName)).value, MetadataName)
            <==> verb == "GET"
  {
    QueryStringParams(verb, itemName);
    var ps := ParseQuery(QueryString(verb, itemName)).value;
    if verb == "GET" {
      assert ps[0].name == MetadataName;
      if itemName == "" {
        assert ps[1].name == FieldsName;
      } else {
        assert |ps| == 1 && ps[0].name != FieldsName;
      }
    }
  }

  /** The options for one request. Auth precedence: configured credentials,
      otherwise the bearer token, otherwise nothing. Only a POST carries a
      body type and length. */
  function GetOptions(h: Handler, verb: string, itemName: string, length: nat): (o: Options)
    ensures o.hostname == h.config.host && o.port == h.config.port && o.verb == verb
    ensures o.path == h.config.path + itemName + QueryString(verb, itemName)
    ensures "Accept" in o.headers && o.headers["Accept"] == Text("application/json")
    ensures HasUserPass(h.config) ==> o.auth == h.config.userpass && "Authorization" !in o.headers
    ensures !HasUserPass(h.config) && h.authToken != "" ==>
              o.auth.None? && "Authorization" in o.headers
              && o.headers["Authorization"] == Text("Bearer " + h.authToken)
    ensures !HasUserPass(h.config) && h.authToken == "" ==>
              o.auth.None? && "Authorization" !in o.headers
    ensures ("Content-Type" in o.headers) == ("Content-Length" in o.headers) == (verb == "POST")
    ensures verb == "POST" ==>
              o.headers["Content-Type"] == Text("text/plain") && o.headers["Content-Length"] == Number(length)
    ensures o.headers.Keys <= {"Accept", "Authorization", "Content-Type", "Content-Length"}
  {
    var accept := map["Accept" := Text("application/json")];
    var auth := if HasUserPass(h.config) then h.config.userpass else None;
    var withAuth :=
      if !HasUserPass(h.config) && h.authToken != "" then
        accept["Authorization" := Text("Bearer " + h.authToken)]
      else
        accept;
    var headers :=
      if verb == "POST" then
        withAuth["Content-Type" := Text("text/plain")]["Content-Length" := Number(length)]
      else
        withAuth;
    Options(h.config.host, h.config.port, h.config.path + itemName + QueryString(verb, itemName),
            verb, headers, auth)
  }

  /** With credentials configured, the bearer token has no effect on any request. */
  lemma TokenIgnoredWithUserPass(h: Handler, token: string, verb: string, itemName: string, length: nat)
    requires HasUserPass(h.config)
    ensures GetOptions(SetAuthToken(h, token), verb, itemName, length) == GetOptions(h, verb, itemName, length)
  {
  }

  /** For a handler built from any configuration, every request path begins
      with the normalised base path, and the item name follows it directly. */
  lemma RequestPathUnderBase(config: Config, token: string, verb: string, itemName: string, length: nat)
    ensures var o := GetOptions(SetAuthToken(NewHandler(config), token), verb, itemName, length);
            var base := NormalizePath(config.path);
            StartsWith(o.path, base + itemName) && StartsWith(o.path, "/")
  {
  }

  // ---------------------------------------------------------------------------
  // Transport, requests and how they settle
  // ---------------------------------------------------------------------------

  datatype Transport = Http | Https

  /** TLS is chosen by the port number alone. */
  function SelectTransport(port: int): (t: Transport)
    ensures t == Https <==> port == 443
  {
    if port == 443 then Https else Http
  }

  /** What goes on the wire: the transport, the options, and the body bytes. */
  datatype Request = Request(transport: Transport, options: Options, body: seq<Utf.byte>)

  /** What comes back: the status code and the body as text. */
  datatype Response = Response(statusCode: int, body: string)

  /** The value a failed call rejects with. */
  datatype Rejection = Rejection(statusCode: int, message: string)

  /** One call: the request issued and how its result settled. */
  datatype Exchange<O> = Exchange(request: Request, outcome: O)

  /** The status a GET rejects with when the body is not JSON. */
  const UnsupportedMediaType: int := 415

  /** How a GET settles: any status but 200 rejects with that status before
      the body is read; a 200 with a body that does not parse rejects with
      415; otherwise the parsed body is the result. */
  function SettleGet<J>(path: string, response: Response, parse: string -> Result<J, string>): (r: Result<J, Rejection>)
    ensures r.Success? <==> response.statusCode == 200 && parse(response.body).Success?
    ensures r.Success? ==> r.value == parse(response.body).value
    ensures response.statusCode != 200 ==>
              r == Failure(Rejection(response.statusCode, "getItem - failed for path: " + path))
    ensures response.statusCode == 200 && parse(response.body).Failure? ==>
              r == Failure(Rejection(UnsupportedMediaType,
                     "getItem - JSON parse failed for path: " + path + " - " + parse(response.body).error))
    ensures r.Failure? ==> r.error.statusCode != 200
  {
    if response.statusCode != 200 then
      Failure(Rejection(response.statusCode, "getItem - failed for path: " + path))
    else
      match parse(response.body)
      case Success(v) => Success(v)
      case Failure(e) =>
        Failure(Rejection(UnsupportedMediaType, "getItem - JSON parse failed for path: " + path + " - " + e))
  }

  /** How a POST settles: 200 and 201 succeed with no value; any other status
      rejects with that status. The response body is never consulted. */
  function SettlePost(path: string, statusCode: int): (r: Outcome<Rejection>)
    ensures r.Pass? <==> statusCode == 200 || statusCode == 201
    ensures r.Fail? ==> r.error == Rejection(statusCode, "sendCommand - failed for path: " + path)
    ensures r.Fail? ==> r.error.statusCode != 200 && r.error.statusCode != 201
  {
    if statusCode == 200 || statusCode == 201 then Pass
    else Fail(Rejection(statusCode, "sendCommand - failed for path: " + path))
  }

  /** Reads one item, or the whole collection when the name is empty. */
  function GetItem<J>(h: Handler, itemName: string, server: Request -> Response,
                      parse: string -> Result<J, string>): (x: Exchange<Result<J, Rejection>>)
    ensures x.request.options == GetOptions(h, "GET", itemName, 0)
    ensures x.request.transport == Https <==> h.config.port == 443
    ensures x.request.body == []
    ensures x.outcome == SettleGet(x.request.options.path, server(x.request), parse)
  {
    var options := GetOptions(h, "GET", itemName, 0);
    var request := Request(SelectTransport(options.port), options, []);
    Exchange(request, SettleGet(options.path, server(request), parse))
  }

  /** Reads the whole item collection. */
  function GetItems<J>(h: Handler, server: Request -> Response,
                       parse: string -> Result<J, string>): (x: Exchange<Result<J, Rejection>>)
    ensures x == GetItem(h, "", server, parse)
    ensures x.request.options.path == h.config.path + MetadataQuery + FieldsQuery
  {
    GetItem(h, "", server, parse)
  }

  /** Sends a command to an item as a plain-text POST. The Content-Length
      is the payload's JavaScript length; the body is its UTF-8 bytes. */
  function SendCommand(h: Handler, itemName: string, payload: string,
                       server: Request -> Response): (x: Exchange<Outcome<Rejection>>)
    ensures x.request.options == GetOptions(h, "POST", itemName, Utf.Utf16Length(payload))
    ensures x.request.transport == Https <==> h.config.port == 443
    ensures x.request.body == Utf.Utf8Encode(payload)
    ensures x.outcome.Pass? <==> server(x.request).statusCode in {200, 201}
    ensures x.outcome == SettlePost(x.request.options.path, server(x.request).statusCode)
  {
    var options := GetOptions(h, "POST", itemName, Utf.Utf16Length(payload));
    var request := Request(SelectTransport(options.port), options, Utf.Utf8Encode(payload));
    Exchange(request, SettlePost(options.path, server(request).statusCode))
  }

  /** Once a token is set on a handler without credentials, every later
      read and every command carries it as a bearer token and sends no
      basic-auth credentials. */
  lemma TokenReachesEveryRequest<J>(config: Config, token: string, itemName: string, payload: string,
                                    server: Request -> Response, parse: string -> Result<J, string>)
    requires !HasUserPass(config) && token != ""
    ensures var h := SetAuthToken(NewHandler(config), token);
            var get := GetItem(h, itemName, server, parse).request.options;
            var post := SendCommand(h, itemName, payload, server).request.options;
            && "Authorization" in get.headers && get.headers["Authorization"] == Text("Bearer " + token)
            && "Authorization" in post.headers && post.headers["Authorization"] == Text("Bearer " + token)
            && get.auth.None? && post.auth.None?
  {
  }

  // ---------------------------------------------------------------------------
  // Content-Length of a command
  // ---------------------------------------------------------------------------

  /** A request whose Content-Length header, when present, counts its body bytes. */
  predicate ContentLengthAgrees(r: Request) {
    "Content-Length" in r.options.headers ==> r.options.headers["Content-Length"] == Number(|r.body|)
  }

  /** For an ASCII payload (ON, OFF, a number) the header is right. */
  lemma SendCommandAsciiAgrees(h: Handler, itemName: string, payload: string, server: Request -> Response)
    requires Utf.IsAscii(payload)
    ensures ContentLengthAgrees(SendCommand(h, itemName, payload, server).request)
  {
    Utf.AsciiLengthsAgree(payload);
  }

  /** A payload of the single character U+00E9 is one UTF-16 unit but two
      UTF-8 bytes, so the header understates the body. */
  lemma SendCommandNonAsciiDisagrees(h: Handler, itemName: string, server: Request -> Response)
    ensures !ContentLengthAgrees(SendCommand(h, itemName, "\U{E9}", server).request)
  {
    var payload := "\U{E9}";
    assert Utf.Utf16Length(payload) == 1;
    assert |Utf.Utf8Encode(payload)| == 2;
  }

  /** Sends a command whose Content-Length counts the bytes actually written. */
  function SendCommandByteLength(h: Handler, itemName: string, payload: string,
                                 server: Request -> Response): (x: Exchange<Outcome<Rejection>>)
    ensures ContentLengthAgrees(x.request)
    ensures "Content-Length" in x.request.options.headers
    ensures x.request.options.headers["Content-Length"] == Number(|Utf.Utf8Encode(payload)|)
    ensures x.request.body == Utf.Utf8Encode(payload)
    ensures x.request.options == GetOptions(h, "POST", itemName, |Utf.Utf8Encode(payload)|)
    ensures x.request.transport == Https <==> h.config.port == 443
    ensures x.outcome.Pass? <==> server(x.request).statusCode in {200, 201}
    ensures x.outcome == SettlePost(x.request.options.path, server(x.request).statusCode)
  {
    var body := Utf.Utf8Encode(payload);
    var options := GetOptions(h, "POST", itemName, |body|);
    var request := Request(SelectTransport(options.port), options, body);
    Exchange(request, SettlePost(options.path, server(request).statusCode))
  }

  /** On every payload, the corrected command issues the original command's
      request with only the Content-Length header replaced by the body's
      byte count. */
  lemma SendCommandByteLengthOnlyFixesLength(h: Handler, itemName: string, payload: string,
                                             server: Request -> Response)
    ensures var fixed := SendCommandByteLength(h, itemName, payload, server).request;
            var original := SendCommand(h, itemName, payload, server).request;
            fixed == original.(options := original.options.(headers :=
                       original.options.headers["Content-Length" := Number(|original.body|)]))
  {
  }

  /** The corrected command agrees with the original one on every ASCII payload. */
  lemma SendCommandByteLengthMatchesOnAscii(h: Handler, itemName: string, payload: string,
                                            server: Request -> Response)
    requires Utf.IsAscii(payload)
    ensures SendCommandByteLength(h, itemName, payload, server) == SendCommand(h, itemName, payload, server)
  {
    Utf.AsciiLengthsAgree(payload);
  }
}
