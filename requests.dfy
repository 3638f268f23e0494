/**
 * `Apothecary::Request` (lib/apothecary/request.rb): what a request sends,
 * read off its interpolated data; the names of its dump files; the response
 * it keeps once it has been sent; and the outputs it extracts from the
 * response body.
 */
module Requests {
  import opened Wrappers
  import opened RubyText
  import opened Values
  import opened Uris
  import FilePaths
  import Templates
  import Contexts
  import Headers

  /** What a request was made from: the name of a stored request, or inline request data. */
  datatype RequestName = Named(name: string) | Inline(data: map<string, Value>)

  /** What the transport hands back: the raw header text and the body. */
  datatype Response = Response(headers: map<string, string>, body: string)

  /**
   * What `send!` hands to the transport: the HTTP verb, the URI, the header
   * hash, the credentials when a user name is given, and the JSON document
   * sent as the body.
   */
  datatype Transmission = Transmission(verb: string, uri: Option<Uri>, headers: Value, credentials: Option<(Value, Value)>, body: Option<Value>)

  // ----- request data ------------------------------------------------------------------------------

  /** `request_method`: the `method` field upper-cased, `GET` when it is absent. */
  function RequestMethod(data: map<string, Value>, inspect: Templates.Inspector): (r: string)
    ensures !Truthy(Fetch(data, "method")) ==> r == "GET"
    ensures Fetch(data, "method").Str? ==> r == Upcase(Fetch(data, "method").s)
    ensures forall i :: 0 <= i < |r| ==> !('a' <= r[i] <= 'z')
  {
    var r := Upcase(Templates.Render(Or(Fetch(data, "method"), Str("GET")), inspect));
    assert !Truthy(Fetch(data, "method")) ==> Upcase("GET") == "GET";
    r
  }

  /** `request_headers`: the `headers` field, an empty hash when it is absent. */
  function RequestHeaders(data: map<string, Value>): (r: Value)
    ensures Truthy(r)
    ensures !Truthy(Fetch(data, "headers")) ==> r == Hash(map[])
    ensures Truthy(Fetch(data, "headers")) ==> r == data["headers"]
  {
    Or(Fetch(data, "headers"), Hash(map[]))
  }

  const JsonContentType := "application/json"

  /** What Ruby raises when `has_key?` is called on a value that is not a hash. */
  const NoHasKey := "undefined method `has_key?'"

  /**
   * The `Content-Type` default of `send!`: a header hash without a content
   * type gains `application/json`, and a content type already given is kept.
   */
  function AddDefaultContentType(h: map<string, Value>): (r: map<string, Value>)
    ensures r.Keys == h.Keys + {"Content-Type"}
    ensures forall k :: k in h ==> r[k] == h[k]
    ensures "Content-Type" !in h ==> r["Content-Type"] == Str(JsonContentType)
  {
    if "Content-Type" in h then h else h["Content-Type" := Str(JsonContentType)]
  }

  /** Adding the default content type twice adds nothing more. */
  lemma DefaultContentTypeIdempotent(h: map<string, Value>)
    ensures AddDefaultContentType(AddDefaultContentType(h)) == AddDefaultContentType(h)
  {
  }

  /**
   * The transmission `send!` makes: the verb, the URI and the headers, with
   * the content type defaulted when there is a JSON body; the credentials when
   * there is a user name; and the JSON body, which only `PUT` and `POST` carry.
   * With a JSON body, headers that are not a hash cannot be asked for their
   * content type, and `send!` raises.
   */
  function Outgoing(data: map<string, Value>, uri: Option<Uri>, inspect: Templates.Inspector): Result<Transmission> {
    var verb := RequestMethod(data, inspect);
    var json := Fetch(data, "json_body");
    var given := RequestHeaders(data);
    if Truthy(json) && !given.Hash? then Failure(NoHasKey)
    else
      var headers := if Truthy(json) then Hash(AddDefaultContentType(given.entries)) else given;
      var credentials := if Fetch(data, "username") != Null then Some((Fetch(data, "username"), Fetch(data, "password"))) else None;
      var body := if Truthy(json) && CarriesBody(verb) then Some(json) else None;
      Success(Transmission(verb, uri, headers, credentials, body))
  }

  /** `PUT` and `POST` send the JSON body; every other verb sends none. */
  predicate CarriesBody(verb: string) {
    verb == "PUT" || verb == "POST"
  }

  /** When `send!` raises, and what the transmission holds otherwise, field by field. */
  lemma OutgoingFields(data: map<string, Value>, uri: Option<Uri>, inspect: Templates.Inspector)
    ensures Outgoing(data, uri, inspect).Failure? <==> Truthy(Fetch(data, "json_body")) && !RequestHeaders(data).Hash?
    ensures Outgoing(data, uri, inspect).Failure? ==> Outgoing(data, uri, inspect) == Failure(NoHasKey)
    ensures var o := Outgoing(data, uri, inspect);
      o.Success? ==> o.value.verb == RequestMethod(data, inspect) && o.value.uri == uri
    ensures var o := Outgoing(data, uri, inspect);
      o.Success? && Truthy(Fetch(data, "json_body")) ==> o.value.headers == Hash(AddDefaultContentType(RequestHeaders(data).entries))
    ensures var o := Outgoing(data, uri, inspect);
      !Truthy(Fetch(data, "json_body")) ==> o.Success? && o.value.headers == RequestHeaders(data)
    ensures var o := Outgoing(data, uri, inspect);
      o.Success? ==> (o.value.credentials.Some? <==> Fetch(data, "username") != Null)
    ensures var o := Outgoing(data, uri, inspect);
      o.Success? && o.value.credentials.Some? ==> o.value.credentials.value == (data["username"], Fetch(data, "password"))
    ensures var o := Outgoing(data, uri, inspect);
      o.Success? ==> (o.value.body.Some? <==> Truthy(Fetch(data, "json_body")) && (o.value.verb == "PUT" || o.value.verb == "POST"))
    ensures var o := Outgoing(data, uri, inspect);
      o.Success? && o.value.body.Some? ==> o.value.body.value == data["json_body"]
  {
  }

  /** A JSON request whose headers already name a content type sends them as they are. */
  lemma ExplicitContentTypeKept(data: map<string, Value>, uri: Option<Uri>, inspect: Templates.Inspector)
    requires Truthy(Fetch(data, "json_body"))
    requires "headers" in data && data["headers"].Hash? && "Content-Type" in data["headers"].entries
    ensures Outgoing(data, uri, inspect).Success? && Outgoing(data, uri, inspect).value.headers == data["headers"]
  {
  }

  /**
   * The data after `send!`: the header hash handed to the transport is the
   * data's own `headers` hash, so when the data has one and there is a JSON
   * body, the default content type lands in the data too.
   */
  function DataAfterSend(data: map<string, Value>): map<string, Value> {
    if Truthy(Fetch(data, "json_body")) && "headers" in data && data["headers"].Hash? then
      data["headers" := Hash(AddDefaultContentType(data["headers"].entries))]
    else data
  }

  /** Sending changes at most the `headers` field, and only by the content type default. */
  lemma DataAfterSendChanges(data: map<string, Value>)
    ensures DataAfterSend(data).Keys == data.Keys
    ensures forall k :: k in data && k != "headers" ==> DataAfterSend(data)[k] == data[k]
    ensures Truthy(Fetch(data, "json_body")) && "headers" in data && data["headers"].Hash? ==>
      DataAfterSend(data)["headers"] == Hash(AddDefaultContentType(data["headers"].entries))
    ensures !(Truthy(Fetch(data, "json_body")) && "headers" in data && data["headers"].Hash?) ==> DataAfterSend(data) == data
  {
  }

  /** Once sent, a JSON request given a headers hash reports the headers it sent. */
  lemma SentHeadersAreRequestHeaders(data: map<string, Value>, uri: Option<Uri>, inspect: Templates.Inspector)
    requires Truthy(Fetch(data, "json_body"))
    requires "headers" in data && data["headers"].Hash?
    ensures Outgoing(data, uri, inspect).Success?
    ensures RequestHeaders(DataAfterSend(data)) == Outgoing(data, uri, inspect).value.headers
    ensures Outgoing(DataAfterSend(data), uri, inspect) == Outgoing(data, uri, inspect)
  {
    var d := DataAfterSend(data);
    assert Fetch(d, "method") == Fetch(data, "method");
    assert Fetch(d, "json_body") == Fetch(data, "json_body");
    assert Fetch(d, "username") == Fetch(data, "username");
    assert Fetch(d, "password") == Fetch(data, "password");
    DefaultContentTypeIdempotent(data["headers"].entries);
  }

  // ----- dump files --------------------------------------------------------------------------------

  /**
   * `request_dump_path` (`part` = `Request`) and `response_dump_path`
   * (`part` = `Response`): the request name with non-word characters turned
   * into `-`, under the requests directory. Inline request data has no name
   * to use and gives none.
   */
  function DumpPath(requestsPath: string, identifier: string, part: string, name: RequestName): (r: Option<string>)
    ensures r.Some? <==> name.Named?
  {
    match name
    case Named(n) => Some(FilePaths.Join(requestsPath, DumpFileName(identifier, part, n)))
    case Inline(_) => None
  }

  function DumpFileName(identifier: string, part: string, n: string): string {
    identifier + "-" + part + "-" + ReplaceNonWord(n) + ".txt"
  }

  /** Joining parts of different lengths under the same directory gives different paths. */
  lemma JoinDistinguishesLengths(dir: string, a: string, b: string)
    requires |a| > 0 && |b| > 0 && a[0] == b[0] && |a| != |b|
    ensures FilePaths.Join(dir, a) != FilePaths.Join(dir, b)
  {
  }

  /** The request and the response of one request are dumped to different files. */
  lemma DumpPathsDiffer(requestsPath: string, identifier: string, n: string)
    ensures DumpPath(requestsPath, identifier, "Request", Named(n)) != DumpPath(requestsPath, identifier, "Response", Named(n))
  {
    var a := DumpFileName(identifier, "Request", n);
    var b := DumpFileName(identifier, "Response", n);
    assert |a| + 1 == |b|;
    assert a[0] == b[0] by {
      if identifier == [] {
        assert a[0] == '-' && b[0] == '-';
      } else {
        assert a[0] == identifier[0] && b[0] == identifier[0];
      }
    }
    JoinDistinguishesLengths(requestsPath, a, b);
  }

  /** A dump file lies directly in the requests directory, under its own file name. */
  lemma DumpPathInRequestsDirectory(requestsPath: string, identifier: string, part: string, n: string)
    requires |requestsPath| > 0 && requestsPath[|requestsPath| - 1] != '/'
    requires NoneOf(identifier, '/') && NoneOf(part, '/')
    ensures FilePaths.Split(DumpPath(requestsPath, identifier, part, Named(n)).value) == (requestsPath, DumpFileName(identifier, part, n))
  {
    var f := DumpFileName(identifier, part, n);
    var m := ReplaceNonWord(n);
    assert NoneOf(m, '/');
    assert NoneOf(f, '/') by {
      forall i | 0 <= i < |f| ensures f[i] != '/' {
        assert f == identifier + "-" + part + "-" + m + ".txt";
        if i < |identifier| {
          assert f[i] == identifier[i];
        } else if i == |identifier| {
        } else if i < |identifier| + 1 + |part| {
          assert f[i] == part[i - |identifier| - 1];
        } else if i == |identifier| + 1 + |part| {
        } else if i < |identifier| + 2 + |part| + |m| {
          assert f[i] == m[i - |identifier| - 2 - |part|];
        } else {
          assert f[i] == ".txt"[i - |identifier| - 2 - |part| - |m|];
        }
      }
    }
    FilePaths.SplitOfJoin(requestsPath, f);
  }

  // ----- the response ------------------------------------------------------------------------------

  /** `response_json`: the parsed body when the response says it is JSON, nil otherwise. */
  function ResponseJson(headers: map<string, string>, parsedBody: Value): (r: Value)
    ensures Headers.IsJson(headers) ==> r == parsedBody
    ensures !Headers.IsJson(headers) ==> r == Null
  {
    if Headers.IsJson(headers) then parsedBody else Null
  }

  /** The scope the outputs are read in: the response document, then the caller's scopes. */
  function OutputScope(headers: map<string, string>, parsedBody: Value, parents: seq<Contexts.Scope>): Contexts.Scope {
    Contexts.NewScope(ResponseJson(headers, parsedBody), parents)
  }

  /** What Ruby raises when `each` is called on a value that is not a collection. */
  const NoEach := "undefined method `each'"

  /** Whether some output definition holds a template, and so looks a variable up. */
  predicate LooksUp(definitions: map<string, Value>) {
    exists k :: k in definitions && Templates.Mentions(definitions[k])
  }

  /**
   * `output`: nil without an `outputs` definition; otherwise each declared
   * output interpolated in the response's scope, under the same names. A
   * definition that is not a hash cannot be walked, and a response document
   * that is neither nil, false nor a hash makes every lookup raise.
   */
  function Output(data: map<string, Value>, headers: map<string, string>, parsedBody: Value, parents: seq<Contexts.Scope>, inspect: Templates.Inspector): (r: Result<Option<map<string, Value>>>)
    ensures !Truthy(Fetch(data, "outputs")) <==> r == Success(None)
    ensures Truthy(Fetch(data, "outputs")) && !data["outputs"].Hash? ==> r == Failure(NoEach)
    ensures Fetch(data, "outputs").Hash? ==>
      (r.Failure? <==> Contexts.LookupRaises(ResponseJson(headers, parsedBody)) && LooksUp(data["outputs"].entries))
    ensures Fetch(data, "outputs").Hash? && r.Failure? ==> r.error == NoHasKey
    ensures r.Success? && r.value.Some? ==> data["outputs"].Hash? && r.value.value.Keys == data["outputs"].entries.Keys
    ensures r.Success? && r.value.Some? ==> forall k :: k in r.value.value ==>
      r.value.value[k] == Contexts.Interpolate(OutputScope(headers, parsedBody, parents), data["outputs"].entries[k], inspect)
  {
    var definition := Fetch(data, "outputs");
    if !Truthy(definition) then Success(None)
    else if !definition.Hash? then Failure(NoEach)
    else if Contexts.LookupRaises(ResponseJson(headers, parsedBody)) && LooksUp(definition.entries) then Failure(NoHasKey)
    else
      var scope := OutputScope(headers, parsedBody, parents);
      Success(Some(map k | k in definition.entries :: Contexts.Interpolate(scope, definition.entries[k], inspect)))
  }

  /** Outputs defined without templates are the definitions themselves, whatever the response. */
  lemma OutputOfPlainDefinitions(data: map<string, Value>, headers: map<string, string>, parsedBody: Value,
                                 parents: seq<Contexts.Scope>, inspect: Templates.Inspector)
    requires "outputs" in data && data["outputs"].Hash? && !LooksUp(data["outputs"].entries)
    ensures Output(data, headers, parsedBody, parents, inspect) == Success(Some(data["outputs"].entries))
  {
    var defs := data["outputs"].entries;
    var scope := OutputScope(headers, parsedBody, parents);
    forall k | k in defs
      ensures Contexts.Interpolate(scope, defs[k], inspect) == defs[k]
    {
      Templates.UnmentionedUnchanged(defs[k], p => Contexts.Evaluate(scope, p), inspect);
    }
    assert Output(data, headers, parsedBody, parents, inspect).value.value == defs;
  }

  /** An output defined as `{{field}}` is that field of a JSON response's document, of whatever type. */
  lemma OutputOfBodyField(data: map<string, Value>, headers: map<string, string>, parsedBody: Value,
                          parents: seq<Contexts.Scope>, inspect: Templates.Inspector, out: string, field: string)
    requires "outputs" in data && data["outputs"].Hash?
    requires out in data["outputs"].entries && data["outputs"].entries[out] == Str("{{" + field + "}}")
    requires Templates.IsWord(field)
    requires Headers.IsJson(headers) && parsedBody.Hash? && field in parsedBody.entries
    ensures Output(data, headers, parsedBody, parents, inspect).Success?
    ensures Output(data, headers, parsedBody, parents, inspect).value.value[out] == parsedBody.entries[field]
  {
    var scope := OutputScope(headers, parsedBody, parents);
    assert Templates.ValidPath(field);
    Templates.WholeTemplateKeepsType(field, p => Contexts.Evaluate(scope, p), inspect);
    SplitWithoutSeparator(field, '.');
    assert RubySplit(field, '.') == [field];
  }

  /**
   * An output that names no field of the document falls back to the caller's
   * scopes, when the document is nil, false or a hash.
   */
  lemma OutputFallsBackToParents(data: map<string, Value>, headers: map<string, string>, parsedBody: Value,
                                 parents: seq<Contexts.Scope>, inspect: Templates.Inspector, out: string, field: string)
    requires "outputs" in data && data["outputs"].Hash?
    requires out in data["outputs"].entries && data["outputs"].entries[out] == Str("{{" + field + "}}")
    requires Templates.IsWord(field)
    requires !Contexts.LookupRaises(ResponseJson(headers, parsedBody))
    requires !(ResponseJson(headers, parsedBody).Hash? && field in parsedBody.entries)
    ensures Output(data, headers, parsedBody, parents, inspect).Success?
    ensures Output(data, headers, parsedBody, parents, inspect).value.value[out] == Contexts.Resolve(Contexts.Scope(map[], parents), field)
  {
    var scope := OutputScope(headers, parsedBody, parents);
    assert Templates.ValidPath(field);
    Templates.WholeTemplateKeepsType(field, p => Contexts.Evaluate(scope, p), inspect);
    SplitWithoutSeparator(field, '.');
    assert RubySplit(field, '.') == [field];
    assert field !in scope.locals;
    Contexts.ResolveFromParents(scope, Contexts.Scope(map[], parents), field, 0);
  }

  /** A definition that looks a variable up in a document that is neither nil, false nor a hash raises. */
  lemma OutputOfUnreadableDocument(data: map<string, Value>, headers: map<string, string>, parsedBody: Value,
                                   parents: seq<Contexts.Scope>, inspect: Templates.Inspector, out: string, field: string)
    requires "outputs" in data && data["outputs"].Hash?
    requires out in data["outputs"].entries && data["outputs"].entries[out] == Str("{{" + field + "}}")
    requires Templates.IsWord(field)
    requires Headers.IsJson(headers) && (parsedBody.List? || parsedBody.Str?)
    ensures Output(data, headers, parsedBody, parents, inspect) == Failure(NoHasKey)
  {
    var s := "{{" + field + "}}";
    assert Templates.ContainsTemplate(s) by {
      assert Templates.ValidPath(field);
      Templates.TemplateAtTemplate(field, "");
      assert s + "" == s && s[0..] == s;
    }
    assert Templates.Mentions(Str(s));
    assert LooksUp(data["outputs"].entries);
    assert Contexts.LookupRaises(ResponseJson(headers, parsedBody));
  }

  // ----- the request object ----------------------------------------------------------------------

  /**
   * A request: its identifier, name, URI and directory are fixed when it is
   * built; `send!` updates the header hash in the data and records the
   * response.
   */
  class Request {
    const identifier: string
    const name: RequestName
    const requestUri: Option<Uri>
    const requestsPath: string
    var data: map<string, Value>
    var response: Option<Response>

    constructor (identifier: string, name: RequestName, requestUri: Option<Uri>, data: map<string, Value>, requestsPath: string)
      ensures this.identifier == identifier && this.name == name && this.requestUri == requestUri
      ensures this.data == data && this.requestsPath == requestsPath
      ensures response.None?
    {
      this.identifier := identifier;
      this.name := name;
      this.requestUri := requestUri;
      this.data := data;
      this.requestsPath := requestsPath;
      response := None;
    }

    /**
     * `send!` with the transport abstracted: the transmission it makes is
     * returned, and the header text and body the transport gave back are
     * the arguments. The response's headers are parsed from the header text.
     * When `send!` raises, nothing is recorded.
     */
    method Send(headerText: string, body: string, inspect: Templates.Inspector) returns (sent: Result<Transmission>)
      modifies this
      ensures sent == Outgoing(old(data), requestUri, inspect)
      ensures sent.Success? ==> data == DataAfterSend(old(data))
      ensures sent.Success? ==> response == Some(Response(Headers.ParseHeaders(headerText).headers, body))
      ensures sent.Failure? ==> data == old(data) && response == old(response)
    {
      sent := Outgoing(data, requestUri, inspect);
      if sent.Success? {
        data := DataAfterSend(data);
        response := Some(Response(Headers.ParseHeaders(headerText).headers, body));
      }
    }

    /** `content_length` of the response. */
    function ContentLength(): int
      reads this
      requires response.Some?
    {
      Headers.ContentLength(response.value.headers)
    }
  }
}
