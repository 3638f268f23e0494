/**
 * `Apothecary::Session` (lib/apothecary/session.rb): builds requests from a
 * stored request or inline data, numbers them in order, keeps them in a log
 * that only grows, and sums what their responses announced.
 */
module Sessions {
  import opened Wrappers
  import opened RubyText
  import opened Values
  import opened Uris
  import FilePaths
  import Templates
  import Environments
  import Projects
  import Requests
  import Headers

  /** `directory_path`: the session's directory under the project's sessions directory. */
  function DirectoryPath(project: Projects.Project, name: string): string {
    FilePaths.Join(Projects.SessionsPath(project), name)
  }

  /** `requests_path`. */
  function RequestsPath(project: Projects.Project, name: string): string {
    FilePaths.Join(DirectoryPath(project, name), "requests")
  }

  /** A session's requests live in `<project>/sessions/<name>/requests`. */
  lemma RequestsPathShape(project: Projects.Project, name: string)
    requires |project.path| > 0 && project.path[|project.path| - 1] != '/'
    requires |name| > 0 && name[0] != '/' && name[|name| - 1] != '/'
    ensures RequestsPath(project, name) == project.path + "/sessions/" + name + "/requests"
  {
    var s := Projects.SessionsPath(project);
    FilePaths.JoinWithSeparator(project.path, "sessions");
    FilePaths.JoinWithSeparator(s, name);
    var d := s + "/" + name;
    assert d[|d| - 1] == name[|name| - 1];
    FilePaths.JoinWithSeparator(d, "requests");
  }

  /** The identifier of the request that follows `count` others: `(count + 1).to_s`. */
  function Identifier(count: nat): string {
    IntToString(count + 1)
  }

  /** An identifier reads back, with `to_i`, as the request's position counted from 1. */
  lemma IdentifierReadsBack(count: nat)
    ensures ToI(Identifier(count)) == count + 1
  {
    ToIOfToS(count + 1);
  }

  /** Later requests have larger numbers, so no two requests of a session share an identifier. */
  lemma IdentifiersIncrease(i: nat, j: nat)
    requires i < j
    ensures ToI(Identifier(i)) < ToI(Identifier(j))
    ensures Identifier(i) != Identifier(j)
  {
    IdentifierReadsBack(i);
    IdentifierReadsBack(j);
  }

  /**
   * `interpolate_request!`: inline data as it is, a name through the
   * project's stored actions (an unknown name is an error), interpolated
   * against the environment.
   */
  function InterpolateRequest(project: Projects.Project, env: Environments.Environment, request: Requests.RequestName, inspect: Templates.Inspector): (r: Result<map<string, Value>>)
    ensures request.Inline? ==> r.Success? && r.value.Keys == request.data.Keys
    ensures request.Inline? ==> Hash(r.value) == Environments.Interpolate(env, Hash(request.data), inspect)
    ensures request.Named? ==>
      match Projects.ActionDataNamedBang(project, request.name)
      case Failure(e) => r == Failure(e)
      case Success(d) => r.Success? && Hash(r.value) == Environments.Interpolate(env, Hash(d), inspect)
  {
    var data :- match request
      case Inline(d) => Success(d)
      case Named(n) => Projects.ActionDataNamedBang(project, n);
    Success(Environments.Interpolate(env, Hash(data), inspect).entries)
  }

  /** An unknown request name is an error. */
  lemma UnknownRequestFails(project: Projects.Project, env: Environments.Environment, n: string, inspect: Templates.Inspector)
    requires Projects.ActionFilePath(project, n) !in project.documents
    ensures InterpolateRequest(project, env, Requests.Named(n), inspect) == Failure("Unknown action: " + n)
  {
  }

  /** What `build_request!` passes to `Request.new`, apart from the name and the directory. */
  datatype Built = Built(identifier: string, uri: Option<Uri>, data: map<string, Value>)

  /**
   * `build_request!`: the request's data interpolated, its URI resolved from
   * that data by the environment, and the next identifier.
   */
  function BuildRequest(project: Projects.Project, env: Environments.Environment, request: Requests.RequestName, count: nat, inspect: Templates.Inspector): (r: Result<Built>)
    ensures InterpolateRequest(project, env, request, inspect).Failure? ==> r == Failure(InterpolateRequest(project, env, request, inspect).error)
    ensures InterpolateRequest(project, env, request, inspect).Success? ==>
      match Environments.ResolveUri(env, Environments.GivenValue(Hash(InterpolateRequest(project, env, request, inspect).value)))
      case Failure(e) => r == Failure(e)
      case Success(uri) => r == Success(Built(Identifier(count), uri, InterpolateRequest(project, env, request, inspect).value))
  {
    var data :- InterpolateRequest(project, env, request, inspect);
    var uri :- Environments.ResolveUri(env, Environments.GivenValue(Hash(data)));
    Success(Built(Identifier(count), uri, data))
  }

  /** The response headers of each request of a log, in order. */
  function ResponseHeaders(rs: seq<Requests.Request>): (hs: seq<map<string, string>>)
    reads rs
    requires forall i :: 0 <= i < |rs| ==> rs[i].response.Some?
    ensures |hs| == |rs|
    ensures forall i :: 0 <= i < |rs| ==> hs[i] == rs[i].response.value.headers
  {
    seq(|rs|, i reads rs requires 0 <= i < |rs| && rs[i].response.Some? => rs[i].response.value.headers)
  }

  /** `inject(0) { |total, r| total + r.content_length }` over the responses' headers. */
  function Received(hs: seq<map<string, string>>): int
    decreases |hs|
  {
    if hs == [] then 0 else Received(hs[..|hs| - 1]) + Headers.ContentLength(hs[|hs| - 1])
  }

  lemma ReceivedAppend(hs: seq<map<string, string>>, h: map<string, string>)
    ensures Received(hs + [h]) == Received(hs) + Headers.ContentLength(h)
  {
    assert (hs + [h])[..|hs|] == hs;
  }

  function Sum(xs: seq<nat>): nat
    decreases |xs|
  {
    if xs == [] then 0 else Sum(xs[..|xs| - 1]) + xs[|xs| - 1]
  }

  /** Responses that announced their lengths received the sum of those lengths. */
  lemma {:induction false} ReceivedOfAnnounced(hs: seq<map<string, string>>, lengths: seq<nat>)
    requires |hs| == |lengths|
    requires forall i :: 0 <= i < |hs| ==> "Content-Length" in hs[i] && hs[i]["Content-Length"] == IntToString(lengths[i])
    ensures Received(hs) == Sum(lengths)
    decreases |hs|
  {
    if hs != [] {
      var n := |hs|;
      ReceivedOfAnnounced(hs[..n - 1], lengths[..n - 1]);
      Headers.ContentLengthOfDecimal(hs[n - 1], lengths[n - 1]);
    }
  }

  /** Responses that announced no length count for nothing. */
  lemma {:induction false} ReceivedOfUnannounced(hs: seq<map<string, string>>)
    requires forall i :: 0 <= i < |hs| ==> "Content-Length" !in hs[i]
    ensures Received(hs) == 0
    decreases |hs|
  {
    if hs != [] {
      ReceivedOfUnannounced(hs[..|hs| - 1]);
    }
  }

  /** Every request of `rs` was sent, carries its position's identifier and lives in `requestsPath`. */
  ghost predicate Logged(rs: seq<Requests.Request>, requestsPath: string)
    reads rs
  {
    forall i :: 0 <= i < |rs| ==>
      && rs[i].identifier == Identifier(i)
      && rs[i].response.Some?
      && rs[i].requestsPath == requestsPath
  }

  /** Appending a sent request that carries the next identifier keeps a log well formed. */
  lemma LoggedAppend(rs: seq<Requests.Request>, r: Requests.Request, requestsPath: string)
    requires Logged(rs, requestsPath)
    requires r.identifier == Identifier(|rs|) && r.response.Some? && r.requestsPath == requestsPath
    ensures Logged(rs + [r], requestsPath)
  {
    assert forall i :: 0 <= i < |rs| ==> (rs + [r])[i] == rs[i];
  }

  /** Appending a sent request keeps a log well formed and adds its length to the total. */
  lemma LogAppend(rs: seq<Requests.Request>, r: Requests.Request, requestsPath: string)
    requires Logged(rs, requestsPath)
    requires r.identifier == Identifier(|rs|) && r.response.Some? && r.requestsPath == requestsPath
    ensures Logged(rs + [r], requestsPath)
    ensures Received(ResponseHeaders(rs + [r])) == Received(ResponseHeaders(rs)) + r.ContentLength()
  {
    LoggedAppend(rs, r, requestsPath);
    assert ResponseHeaders(rs + [r]) == ResponseHeaders(rs) + [r.response.value.headers];
    ReceivedAppend(ResponseHeaders(rs), r.response.value.headers);
  }

  /** A session: its name, project and environment, and the log of the requests it has performed. */
  class Session {
    const name: string
    const project: Projects.Project
    const environment: Environments.Environment
    const inspect: Templates.Inspector
    /** `requests_path`, which the source memoises on first use. */
    const requestsPath: string
    var requests: seq<Requests.Request>

    /** Every logged request was sent, carries its position's identifier and lives in the session's directory. */
    ghost predicate Valid()
      reads this, requests
    {
      requestsPath == RequestsPath(project, name) && Logged(requests, requestsPath)
    }

    constructor (name: string, project: Projects.Project, environment: Environments.Environment, inspect: Templates.Inspector)
      ensures this.name == name && this.project == project && this.environment == environment && this.inspect == inspect
      ensures requestsPath == RequestsPath(project, name)
      ensures requests == []
      ensures Valid()
    {
      this.name := name;
      this.project := project;
      this.environment := environment;
      this.inspect := inspect;
      requestsPath := RequestsPath(project, name);
      requests := [];
    }

    /** `request_count`. */
    function RequestCount(): nat
      reads this
    {
      |requests|
    }

    /** `total_received`. */
    function TotalReceived(): int
      reads this, requests
      requires Valid()
    {
      Received(ResponseHeaders(requests))
    }

    /**
     * `perform_request!` with the transport abstracted: the request is built,
     * sent (the header text and body are what the transport gave back), and
     * appended to the log. When it cannot be built, or sending it raises,
     * the log is unchanged.
     */
    method PerformRequest(request: Requests.RequestName, headerText: string, body: string) returns (outcome: Result<Requests.Transmission>)
      requires Valid()
      modifies this
      ensures Valid()
      ensures BuildRequest(project, environment, request, old(|requests|), inspect).Failure? ==>
        requests == old(requests) && outcome == Failure(BuildRequest(project, environment, request, old(|requests|), inspect).error)
      ensures BuildRequest(project, environment, request, old(|requests|), inspect).Success? ==>
        var built := BuildRequest(project, environment, request, old(|requests|), inspect).value;
        Requests.Outgoing(built.data, built.uri, inspect).Failure? ==>
        requests == old(requests) && outcome == Failure(Requests.Outgoing(built.data, built.uri, inspect).error)
      ensures BuildRequest(project, environment, request, old(|requests|), inspect).Success? ==>
        var built := BuildRequest(project, environment, request, old(|requests|), inspect).value;
        Requests.Outgoing(built.data, built.uri, inspect).Success? ==>
        && |requests| == old(|requests|) + 1
        && requests[..old(|requests|)] == old(requests)
        && fresh(requests[old(|requests|)])
        && requests[old(|requests|)].identifier == Identifier(old(|requests|))
        && requests[old(|requests|)].name == request
        && requests[old(|requests|)].requestUri == built.uri
        && requests[old(|requests|)].data == Requests.DataAfterSend(built.data)
        && requests[old(|requests|)].response == Some(Requests.Response(Headers.ParseHeaders(headerText).headers, body))
        && outcome == Requests.Outgoing(built.data, built.uri, inspect)
      ensures outcome.Success? ==> TotalReceived() == old(TotalReceived()) + Headers.ContentLength(Headers.ParseHeaders(headerText).headers)
    {
      var b := BuildRequest(project, environment, request, |requests|, inspect);
      if b.Failure? {
        return Failure(b.error);
      }
      outcome := SendAndLog(request, b.value, headerText, body);
    }

    /** `request.send!` then `@requests << request`, for a request built as the next one. */
    method SendAndLog(request: Requests.RequestName, built: Built, headerText: string, body: string) returns (outcome: Result<Requests.Transmission>)
      requires Valid()
      requires built.identifier == Identifier(|requests|)
      modifies this
      ensures Valid()
      ensures outcome == Requests.Outgoing(built.data, built.uri, inspect)
      ensures outcome.Failure? ==> requests == old(requests)
      ensures outcome.Success? ==>
        && |requests| == old(|requests|) + 1
        && requests[..old(|requests|)] == old(requests)
        && fresh(requests[old(|requests|)])
        && requests[old(|requests|)].identifier == built.identifier
        && requests[old(|requests|)].name == request
        && requests[old(|requests|)].requestUri == built.uri
        && requests[old(|requests|)].data == Requests.DataAfterSend(built.data)
        && requests[old(|requests|)].response == Some(Requests.Response(Headers.ParseHeaders(headerText).headers, body))
      ensures outcome.Success? ==> TotalReceived() == old(TotalReceived()) + Headers.ContentLength(Headers.ParseHeaders(headerText).headers)
    {
      var r, sent := SendNew(built.identifier, request, built.uri, built.data, requestsPath, headerText, body, inspect);
      outcome := sent;
      if sent.Success? {
        Log(r);
      }
    }

    /** `@requests << request`: a sent request joins the end of the log. */
    method Log(r: Requests.Request)
      requires Valid()
      requires r.identifier == Identifier(|requests|) && r.response.Some? && r.requestsPath == requestsPath
      modifies this
      ensures requests == old(requests) + [r]
      ensures Valid()
      ensures TotalReceived() == old(TotalReceived()) + r.ContentLength()
    {
      LogAppend(requests, r, requestsPath);
      requests := requests + [r];
    }
  }

  /** `Request.new` followed by `send!`. */
  method SendNew(identifier: string, name: Requests.RequestName, uri: Option<Uri>, data: map<string, Value>, requestsPath: string,
                 headerText: string, body: string, inspect: Templates.Inspector)
    returns (r: Requests.Request, sent: Result<Requests.Transmission>)
    ensures fresh(r)
    ensures r.identifier == identifier && r.name == name && r.requestUri == uri && r.requestsPath == requestsPath
    ensures sent == Requests.Outgoing(data, uri, inspect)
    ensures sent.Success? ==> r.data == Requests.DataAfterSend(data)
    ensures sent.Success? ==> r.response == Some(Requests.Response(Headers.ParseHeaders(headerText).headers, body))
    ensures sent.Failure? ==> r.data == data && r.response.None?
  {
    r := new Requests.Request(identifier, name, uri, data, requestsPath);
    sent := r.Send(headerText, body, inspect);
  }
}
