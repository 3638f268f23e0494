/**
 * `Apothecary::Environment` (lib/apothecary/environment.rb): a hash of
 * variables that templates are interpolated against, and the resolution of a
 * request's URI against the environment's `base_url`.
 */
module Environments {
  import opened Wrappers
  import opened RubyText
  import opened Values
  import opened Uris
  import Templates
  import Contexts

  datatype Environment = Environment(variables: map<string, Value>)

  /** `evaluate`: every segment of the dotted path indexes, starting from the variables hash. */
  function Evaluate(env: Environment, expression: string): Value {
    Walk(Hash(env.variables), RubySplit(expression, '.'))
  }

  /** `interpolate` against the environment's variables. */
  function Interpolate(env: Environment, v: Value, inspect: Templates.Inspector): Value {
    Templates.Interpolate(v, p => Evaluate(env, p), inspect)
  }

  /**
   * An environment interpolates exactly as a context holding its variables
   * and no parent contexts: the two `evaluate`s agree on every path a
   * template can name.
   */
  lemma InterpolatesLikeRootContext(env: Environment, v: Value, inspect: Templates.Inspector)
    ensures Interpolate(env, v, inspect) == Contexts.Interpolate(Contexts.Scope(env.variables, []), v, inspect)
  {
    var scope := Contexts.Scope(env.variables, []);
    forall p | Templates.ValidPath(p)
      ensures Evaluate(env, p) == Contexts.Evaluate(scope, p)
    {
      Templates.PathSegments(p);
      var ids := RubySplit(p, '.');
      assert Walk(Hash(env.variables), ids) == Walk(Index(Hash(env.variables), ids[0]), ids[1..]);
    }
    Templates.InterpolateCongruent(v, p => Evaluate(env, p), p => Contexts.Evaluate(scope, p), inspect);
  }

  // ----- URIs -----------------------------------------------------------------------------------

  /** What `uri_from_value` may be given: a URI object or a variable's value. */
  datatype UriInput = GivenUri(uri: Uri) | GivenValue(value: Value)

  function StringOf(v: Value): Option<string> {
    if v.Str? then Some(v.s) else None
  }

  /** The port a `build` keeps: an integer as it is, a string through `to_i`, the empty string as none. */
  function PortOf(v: Value): Option<int> {
    match v
    case Num(n) => Some(n)
    case Str(s) => if s == [] then None else Some(ToI(s))
    case _ => None
  }

  /**
   * `uri_from_hash`: without a host the port is dropped, with a host the
   * scheme defaults to `https`.
   */
  function UriFromHash(components: map<string, Value>): (u: Uri)
    ensures u.host == StringOf(Fetch(components, "host"))
    ensures u.host.None? ==> u.port.None?
    ensures u.host.Some? ==> u.port == PortOf(Fetch(components, "port"))
    ensures u.host.Some? && !Truthy(Fetch(components, "scheme")) ==> u.scheme == Some("https")
    ensures Fetch(components, "scheme").Str? ==> u.scheme == Some(Fetch(components, "scheme").s)
    ensures u.host.None? && !Fetch(components, "scheme").Str? ==> !IsAbsolute(u)
    ensures Fetch(components, "path").Str? ==> u.path == Fetch(components, "path").s
    ensures u.query.None? && u.fragment.None?
  {
    var host := StringOf(Fetch(components, "host"));
    var scheme := if host.Some? && !Truthy(Fetch(components, "scheme")) then Some("https") else StringOf(Fetch(components, "scheme"));
    var port := if host.None? then None else PortOf(Fetch(components, "port"));
    var path := if Fetch(components, "path").Str? then Fetch(components, "path").s else "";
    Uri(scheme, host, port, path, None, None)
  }

  /** `uri_from_value`: a URI as it is, a hash built, a string parsed; anything else gives nil. */
  function UriFromValue(x: UriInput): (r: Option<Uri>)
    ensures x.GivenUri? ==> r == Some(x.uri)
    ensures x.GivenValue? ==> (r.Some? <==> x.value.Hash? || x.value.Str?)
    ensures x.GivenValue? && x.value.Hash? ==> r == Some(UriFromHash(x.value.entries))
    ensures x.GivenValue? && x.value.Str? ==> r == Some(ParseUri(x.value.s))
  {
    match x
    case GivenUri(u) => Some(u)
    case GivenValue(Hash(m)) => Some(UriFromHash(m))
    case GivenValue(Str(s)) => Some(ParseUri(s))
    case GivenValue(_) => None
  }

  /** `base_url`. */
  function BaseUrl(env: Environment): Option<Uri> {
    UriFromValue(GivenValue(Evaluate(env, "base_url")))
  }

  const BadArgument := "bad argument (expected URI object or URI string)"

  /**
   * `resolve_uri`: without a base URL the URI stands as it is; with one it is
   * joined onto it, which fails when there is nothing to join or when both
   * are relative.
   */
  function ResolveUri(env: Environment, x: UriInput): (r: Result<Option<Uri>>)
    ensures BaseUrl(env).None? ==> r == Success(UriFromValue(x))
    ensures BaseUrl(env).Some? && UriFromValue(x).None? ==> r == Failure(BadArgument)
    ensures BaseUrl(env).Some? && UriFromValue(x).Some? ==>
      match Join(BaseUrl(env).value, UriFromValue(x).value)
      case Success(u) => r == Success(Some(u))
      case Failure(e) => r == Failure(e)
    ensures r.Success? && r.value.Some? && BaseUrl(env).Some? && IsAbsolute(BaseUrl(env).value) ==> IsAbsolute(r.value.value)
  {
    var uri := UriFromValue(x);
    match BaseUrl(env)
    case None => Success(uri)
    case Some(base) =>
      if uri.None? then Failure(BadArgument)
      else
        match Join(base, uri.value)
        case Success(u) => Success(Some(u))
        case Failure(e) => Failure(e)
  }

  /** A relative variable value with no `base_url` stays relative. */
  lemma NoBaseKeepsRelative(env: Environment, s: string)
    requires "base_url" !in env.variables
    ensures ResolveUri(env, GivenValue(Str(s))) == Success(Some(ParseUri(s)))
  {
    NoBaseUrl(env);
    assert UriFromValue(GivenValue(Str(s))) == Some(ParseUri(s));
  }

  /** Without a `base_url` variable the environment has no base URL. */
  lemma NoBaseUrl(env: Environment)
    requires "base_url" !in env.variables
    ensures Evaluate(env, "base_url") == Null
    ensures BaseUrl(env) == None
  {
    assert NoneOf("base_url", '.');
    UndefinedNameIsNil(env, "base_url");
  }

  /** A plain name that is not a variable evaluates to nil. */
  lemma UndefinedNameIsNil(env: Environment, name: string)
    requires |name| > 0 && NoneOf(name, '.') && name !in env.variables
    ensures Evaluate(env, name) == Null
  {
    SplitWithoutSeparator(name, '.');
    assert RubySplit(name, '.') == [name];
    assert Index(Hash(env.variables), name) == Null;
  }

  // ----- the URIs of the environment's examples ----------------------------------------------------

  /**
   * A URI built from a hash with a host, scheme, port and path is the URI of
   * its own text.
   */
  lemma UriFromHashIsParsedText(components: map<string, Value>)
    requires Fetch(components, "host").Str?
    requires Avoids(Fetch(components, "host").s, {':', '/', '?', '#'})
    requires Fetch(components, "scheme").Str? ==> |Fetch(components, "scheme").s| > 0 && Avoids(Fetch(components, "scheme").s, SchemeStops)
    requires Fetch(components, "port").Num? && Fetch(components, "port").n >= 0
    requires Fetch(components, "path").Str?
    requires Avoids(Fetch(components, "path").s, PathStops)
    requires Fetch(components, "path").s == [] || Fetch(components, "path").s[0] == '/'
    ensures ParseUri(ToText(UriFromHash(components))) == UriFromHash(components)
  {
    ParseOfText(UriFromHash(components));
  }
}
