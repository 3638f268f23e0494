/**
 * The URIs the environment builds and joins (`URI(...)`, `URI::Generic.build`
 * and `URI.join` as lib/apothecary/environment.rb:14-58 uses them). A URI is
 * held by its components; a string is decomposed as in Appendix B of RFC 3986
 * and a reference is resolved against a base as in section 5.2 of RFC 3986.
 */
module Uris {
  import opened Wrappers
  import opened RubyText

  /** `port` is the port written in the URI; a scheme's default port is not filled in. */
  datatype Uri = Uri(
    scheme: Option<string>,
    host: Option<string>,
    port: Option<int>,
    path: string,
    query: Option<string>,
    fragment: Option<string>)

  /** `URI#absolute?`: the URI has a scheme. */
  predicate IsAbsolute(u: Uri) {
    u.scheme.Some?
  }

  // ----- scanning -------------------------------------------------------------------------------

  /** The length of the longest prefix of `s` with no character of `stops`. */
  function Span(s: string, stops: set<char>): (n: nat)
    ensures n <= |s|
    ensures forall i :: 0 <= i < n ==> s[i] !in stops
    ensures n == |s| || s[n] in stops
  {
    if |s| > 0 && s[0] !in stops then 1 + Span(s[1..], stops) else 0
  }

  predicate Avoids(s: string, stops: set<char>) {
    forall i :: 0 <= i < |s| ==> s[i] !in stops
  }

  lemma SpanOf(a: string, b: string, stops: set<char>)
    requires Avoids(a, stops)
    requires b == [] || b[0] in stops
    ensures Span(a + b, stops) == |a|
  {
    assert forall i :: 0 <= i < |a| ==> (a + b)[i] == a[i];
    assert |b| > 0 ==> (a + b)[|a|] == b[0];
  }

  lemma SpanWithin(a: string, b: string, stops: set<char>)
    requires Span(a, stops) < |a|
    ensures Span(a + b, stops) == Span(a, stops)
  {
    assert forall i :: 0 <= i < |a| ==> (a + b)[i] == a[i];
  }

  const SchemeStops: set<char> := {':', '/', '?', '#'}
  const AuthorityStops: set<char> := {'/', '?', '#'}
  const PathStops: set<char> := {'?', '#'}

  // ----- parsing --------------------------------------------------------------------------------

  /** `^(([^:/?#]+):)?`: the scheme, and the text after its colon. */
  function SplitScheme(s: string): (Option<string>, string) {
    var n := Span(s, SchemeStops);
    if 0 < n < |s| && s[n] == ':' then (Some(s[..n]), s[n + 1..]) else (None, s)
  }

  /** `(//([^/?#]*))?`: the authority, and the text after it. */
  function SplitAuthority(s: string): (Option<string>, string) {
    if |s| >= 2 && s[0] == '/' && s[1] == '/' then
      var n := Span(s[2..], AuthorityStops);
      (Some(s[2..2 + n]), s[2 + n..])
    else (None, s)
  }

  /** `([^?#]*)`: the path, and the text after it. */
  function SplitPath(s: string): (string, string) {
    var n := Span(s, PathStops);
    (s[..n], s[n..])
  }

  /** `(\?([^#]*))?`: the query, and the text after it. */
  function SplitQuery(s: string): (Option<string>, string) {
    if |s| > 0 && s[0] == '?' then
      var n := Span(s[1..], {'#'});
      (Some(s[1..1 + n]), s[1 + n..])
    else (None, s)
  }

  /** `(#(.*))?`: the fragment. */
  function SplitFragment(s: string): Option<string> {
    if |s| > 0 && s[0] == '#' then Some(s[1..]) else None
  }

  /**
   * The host and port of an authority: a host name holds no colon, and the
   * digits after the colon are the port (none when they are absent).
   */
  function HostPort(a: string): (Option<string>, Option<int>) {
    var n := Span(a, {':'});
    var digits := if n < |a| then a[n + 1..] else [];
    var port := if |digits| > 0 && (forall i :: 0 <= i < |digits| ==> IsDigit(digits[i])) then Some(ToI(digits)) else None;
    (Some(a[..n]), port)
  }

  /** `URI(string)`: the decomposition of Appendix B of RFC 3986. */
  function ParseUri(s: string): Uri {
    var scheme := SplitScheme(s);
    var authority := SplitAuthority(scheme.1);
    var path := SplitPath(authority.1);
    var query := SplitQuery(path.1);
    var hostPort := if authority.0.Some? then HostPort(authority.0.value) else (None, None);
    Uri(scheme.0, hostPort.0, hostPort.1, path.0, query.0, SplitFragment(query.1))
  }

  // ----- recomposition (section 5.3 of RFC 3986) --------------------------------------------------

  function SchemeText(u: Uri): string {
    if u.scheme.Some? then u.scheme.value + ":" else ""
  }

  function PortText(u: Uri): string {
    if u.port.Some? then ":" + IntToString(u.port.value) else ""
  }

  function AuthorityText(u: Uri): string {
    if u.host.Some? then "//" + u.host.value + PortText(u) else ""
  }

  function QueryText(u: Uri): string {
    if u.query.Some? then "?" + u.query.value else ""
  }

  function FragmentText(u: Uri): string {
    if u.fragment.Some? then "#" + u.fragment.value else ""
  }

  /** `URI#to_s`. */
  function ToText(u: Uri): string {
    SchemeText(u) + (AuthorityText(u) + (u.path + (QueryText(u) + FragmentText(u))))
  }

  /** The URIs whose text decomposes back into the same components. */
  predicate WellFormed(u: Uri) {
    && (u.scheme.Some? ==> |u.scheme.value| > 0 && Avoids(u.scheme.value, SchemeStops))
    && (u.host.Some? ==> Avoids(u.host.value, {':', '/', '?', '#'}))
    && (u.host.None? ==> u.port.None?)
    && (u.port.Some? ==> u.port.value >= 0)
    && Avoids(u.path, PathStops)
    && (u.host.Some? ==> u.path == [] || u.path[0] == '/')
    && (u.host.None? ==> !(|u.path| >= 2 && u.path[0] == '/' && u.path[1] == '/'))
    && (u.scheme.None? && u.host.None? ==> Avoids(u.path, {':'}))
    && (u.query.Some? ==> Avoids(u.query.value, {'#'}))
  }

  lemma QueryOfText(u: Uri)
    requires u.query.Some? ==> Avoids(u.query.value, {'#'})
    ensures SplitQuery(QueryText(u) + FragmentText(u)) == (u.query, FragmentText(u))
    ensures SplitFragment(FragmentText(u)) == u.fragment
  {
    var f := FragmentText(u);
    if u.query.Some? {
      var t := QueryText(u) + f;
      assert t[1..] == u.query.value + f;
      SpanOf(u.query.value, f, {'#'});
      assert t[1..1 + |u.query.value|] == u.query.value;
      assert t[1 + |u.query.value|..] == f;
    } else {
      assert QueryText(u) + f == f;
    }
    if u.fragment.Some? {
      assert f[1..] == u.fragment.value;
    }
  }

  lemma PathOfText(u: Uri)
    requires Avoids(u.path, PathStops)
    ensures SplitPath(u.path + (QueryText(u) + FragmentText(u))) == (u.path, QueryText(u) + FragmentText(u))
  {
    var rest := QueryText(u) + FragmentText(u);
    assert rest == [] || rest[0] in PathStops;
    SpanOf(u.path, rest, PathStops);
    assert (u.path + rest)[..|u.path|] == u.path;
    assert (u.path + rest)[|u.path|..] == rest;
  }

  lemma HostPortOfText(u: Uri)
    requires u.host.Some?
    requires Avoids(u.host.value, {':', '/', '?', '#'})
    requires u.port.Some? ==> u.port.value >= 0
    ensures HostPort(u.host.value + PortText(u)) == (u.host, u.port)
  {
    var h := u.host.value;
    var a := h + PortText(u);
    assert Avoids(h, {':'});
    SpanOf(h, PortText(u), {':'});
    assert a[..|h|] == h;
    if u.port.Some? {
      var d := IntToString(u.port.value);
      assert a[|h| + 1..] == d;
      ToIOfToS(u.port.value);
    } else {
      assert a == h;
    }
  }

  lemma SplitAuthorityOf(a: string, rest: string)
    requires Avoids(a, AuthorityStops)
    requires rest == [] || rest[0] in AuthorityStops
    ensures SplitAuthority("//" + (a + rest)) == (Some(a), rest)
  {
    var t := "//" + (a + rest);
    assert t[2..] == a + rest;
    SpanOf(a, rest, AuthorityStops);
    assert t[2..2 + |a|] == a;
    assert t[2 + |a|..] == rest;
  }

  lemma AuthorityAvoidsStops(u: Uri)
    requires u.host.Some?
    requires Avoids(u.host.value, {':', '/', '?', '#'})
    ensures Avoids(u.host.value + PortText(u), AuthorityStops)
  {
    var h := u.host.value;
    var a := h + PortText(u);
    if u.port.Some? {
      var d := IntToString(u.port.value);
      assert a == h + ([':'] + d);
      forall i | 0 <= i < |a| ensures a[i] !in AuthorityStops {
        if i > |h| {
          assert a[i] == d[i - |h| - 1];
        } else if i < |h| {
          assert a[i] == h[i];
        }
      }
    } else {
      assert a == h;
    }
  }

  lemma AuthorityOfTextWithHost(u: Uri)
    requires WellFormed(u) && u.host.Some?
    ensures SplitAuthority(AuthorityText(u) + (u.path + (QueryText(u) + FragmentText(u))))
         == (Some(u.host.value + PortText(u)), u.path + (QueryText(u) + FragmentText(u)))
  {
    var qf := QueryText(u) + FragmentText(u);
    var rest := u.path + qf;
    var a := u.host.value + PortText(u);
    assert AuthorityText(u) + rest == "//" + (a + rest);
    AuthorityAvoidsStops(u);
    assert qf == [] || qf[0] == '?' || qf[0] == '#';
    assert u.path == [] ==> rest == qf;
    assert u.path != [] ==> rest[0] == u.path[0];
    SplitAuthorityOf(a, rest);
  }

  lemma AuthorityOfTextWithoutHost(u: Uri)
    requires WellFormed(u) && u.host.None?
    ensures SplitAuthority(AuthorityText(u) + (u.path + (QueryText(u) + FragmentText(u))))
         == (None, u.path + (QueryText(u) + FragmentText(u)))
  {
    var qf := QueryText(u) + FragmentText(u);
    var rest := u.path + qf;
    assert AuthorityText(u) + rest == rest;
    assert qf == [] || qf[0] == '?' || qf[0] == '#';
    assert |u.path| >= 1 ==> rest[0] == u.path[0];
    assert |u.path| >= 2 ==> rest[1] == u.path[1];
    assert |u.path| == 0 && |qf| > 0 ==> rest[0] == qf[0];
    assert |u.path| == 1 && |qf| > 0 ==> rest[1] == qf[0];
  }

  lemma SchemeOfText(u: Uri)
    requires WellFormed(u)
    ensures SplitScheme(ToText(u)) == (u.scheme, AuthorityText(u) + (u.path + (QueryText(u) + FragmentText(u))))
  {
    if u.scheme.Some? {
      SchemeOfTextWithScheme(u);
    } else if u.host.Some? {
      var t := ToText(u);
      assert t == AuthorityText(u) + (u.path + (QueryText(u) + FragmentText(u)));
      assert t[0] == '/';
    } else {
      SchemeOfTextRelative(u);
    }
  }

  lemma SchemeOfTextWithScheme(u: Uri)
    requires WellFormed(u) && u.scheme.Some?
    ensures SplitScheme(ToText(u)) == (u.scheme, AuthorityText(u) + (u.path + (QueryText(u) + FragmentText(u))))
  {
    var rest := AuthorityText(u) + (u.path + (QueryText(u) + FragmentText(u)));
    var t := ToText(u);
    var s := u.scheme.value;
    assert t == s + (":" + rest);
    SpanOf(s, ":" + rest, SchemeStops);
    assert t[..|s|] == s;
    assert t[|s| + 1..] == rest;
  }

  lemma SchemeOfTextRelative(u: Uri)
    requires WellFormed(u) && u.scheme.None? && u.host.None?
    ensures SplitScheme(ToText(u)) == (u.scheme, AuthorityText(u) + (u.path + (QueryText(u) + FragmentText(u))))
  {
    var qf := QueryText(u) + FragmentText(u);
    assert ToText(u) == u.path + qf;
    assert qf == [] || qf[0] == '?' || qf[0] == '#';
    NoSchemeInRelativeText(u.path, qf);
    assert AuthorityText(u) + (u.path + qf) == u.path + qf;
  }

  /** A path without a colon, followed by a query or fragment, has no scheme. */
  lemma NoSchemeInRelativeText(path: string, qf: string)
    requires Avoids(path, {':'})
    requires qf == [] || qf[0] == '?' || qf[0] == '#'
    ensures SplitScheme(path + qf) == (None, path + qf)
  {
    var t := path + qf;
    var k := Span(path, SchemeStops);
    if k < |path| {
      SpanWithin(path, qf, SchemeStops);
      assert t[k] == path[k];
    } else {
      SpanOf(path, qf, SchemeStops);
      assert |qf| > 0 ==> t[k] == qf[0];
    }
  }

  /** A well-formed URI's text decomposes into the same URI: `URI(u.to_s) == u`. */
  lemma ParseOfText(u: Uri)
    requires WellFormed(u)
    ensures ParseUri(ToText(u)) == u
  {
    SchemeOfText(u);
    if u.host.Some? {
      AuthorityOfTextWithHost(u);
    } else {
      AuthorityOfTextWithoutHost(u);
    }
    PathOfText(u);
    QueryOfText(u);
    if u.host.Some? {
      HostPortOfText(u);
    }
  }

  // ----- reference resolution (section 5.2 of RFC 3986) -------------------------------------------

  /** The position just after the last `/` of `s`, 0 when there is none. */
  function LastSlashEnd(s: string): (n: nat)
    ensures n <= |s|
    ensures n == 0 || s[n - 1] == '/'
    ensures forall i :: n <= i < |s| ==> s[i] != '/'
    decreases |s|
  {
    if s == [] then 0
    else if s[|s| - 1] == '/' then |s|
    else LastSlashEnd(s[..|s| - 1])
  }

  /** Removes the last segment of `out` and the `/` before it, if any. */
  function RemoveLastSegment(out: string): (r: string)
    ensures |r| <= |out| && r == out[..|r|]
    decreases |out|
  {
    if out == [] then []
    else if out[|out| - 1] == '/' then out[..|out| - 1]
    else RemoveLastSegment(out[..|out| - 1])
  }

  /** The length of the first segment of `input`, with its leading `/` if it has one (step 2E). */
  function FirstSegment(input: string): (n: nat)
    requires |input| > 0
    ensures 0 < n <= |input|
    ensures n == |input| || input[n] == '/'
  {
    if input[0] == '/' then 1 + Span(input[1..], {'/'}) else Span(input, {'/'})
  }

  // Character-by-character tests for the prefixes and whole inputs that section 5.2.4 names.
  predicate Begins2(s: string, a: char, b: char) { |s| >= 2 && s[0] == a && s[1] == b }
  predicate Begins3(s: string, a: char, b: char, c: char) { |s| >= 3 && s[0] == a && s[1] == b && s[2] == c }
  predicate Begins4(s: string, a: char, b: char, c: char, d: char) { |s| >= 4 && s[0] == a && s[1] == b && s[2] == c && s[3] == d }
  predicate Is1(s: string, a: char) { |s| == 1 && s[0] == a }
  predicate Is2(s: string, a: char, b: char) { |s| == 2 && s[0] == a && s[1] == b }
  predicate Is3(s: string, a: char, b: char, c: char) { |s| == 3 && s[0] == a && s[1] == b && s[2] == c }

  /** The loop of section 5.2.4: `input` is the input buffer, `out` the output buffer. */
  function RemoveDots(input: string, out: string): string
    decreases |input|
  {
    if input == [] then out
    else if Begins3(input, '.', '.', '/') then RemoveDots(input[3..], out)
    else if Begins2(input, '.', '/') then RemoveDots(input[2..], out)
    else if Begins3(input, '/', '.', '/') then RemoveDots(input[2..], out)
    else if Is2(input, '/', '.') then RemoveDots("/", out)
    else if Begins4(input, '/', '.', '.', '/') then RemoveDots(input[3..], RemoveLastSegment(out))
    else if Is3(input, '/', '.', '.') then RemoveDots("/", RemoveLastSegment(out))
    else if Is1(input, '.') || Is2(input, '.', '.') then out
    else
      var n := FirstSegment(input);
      RemoveDots(input[n..], out + input[..n])
  }

  /** `remove_dot_segments`. */
  function RemoveDotSegments(path: string): string {
    RemoveDots(path, [])
  }

  /** Section 5.2.3: the reference path appended to the base path's directory. */
  function MergePaths(base: Uri, refPath: string): string {
    if base.host.Some? && base.path == [] then "/" + refPath
    else base.path[..LastSlashEnd(base.path)] + refPath
  }

  /** The reference names a host or a port, the parts of an authority this model keeps. */
  predicate HasAuthority(u: Uri) {
    u.host.Some? || u.port.Some?
  }

  /** The reference has no authority, no path and no query: at most a fragment. */
  predicate FragmentOnly(u: Uri) {
    !HasAuthority(u) && u.path == [] && u.query.None?
  }

  /**
   * `URI.join(base, ref)`, that is `base.merge(ref)`: an absolute reference
   * is returned as it is, and a relative one needs an absolute base. A
   * reference that is at most a fragment keeps the whole base and replaces
   * its fragment only when it has one. Otherwise the base's query and
   * fragment are dropped, the reference's host, port, query and fragment
   * replace the base's where the reference has them, and the path is the
   * reference's own when it has an authority, the base's when the reference
   * has none, and otherwise resolved against the base's path as in
   * section 5.2.2 of RFC 3986.
   */
  function Join(base: Uri, ref: Uri): (r: Result<Uri>)
    ensures IsAbsolute(ref) ==> r == Success(ref)
    ensures !IsAbsolute(ref) && !IsAbsolute(base) ==> r == Failure("both URI are relative")
    ensures IsAbsolute(base) ==> r.Success? && IsAbsolute(r.value)
    ensures IsAbsolute(base) && !IsAbsolute(ref) ==>
      && r.value.scheme == base.scheme
      && r.value.host == (if ref.host.Some? then ref.host else base.host)
      && r.value.port == (if ref.port.Some? then ref.port else base.port)
    ensures IsAbsolute(base) && !IsAbsolute(ref) && FragmentOnly(ref) ==>
      r.value == base.(fragment := if ref.fragment.Some? then ref.fragment else base.fragment)
    ensures IsAbsolute(base) && !IsAbsolute(ref) && !FragmentOnly(ref) ==>
      r.value.query == ref.query && r.value.fragment == ref.fragment
    ensures IsAbsolute(base) && !IsAbsolute(ref) && HasAuthority(ref) ==> r.value.path == ref.path
    ensures IsAbsolute(base) && !IsAbsolute(ref) && !HasAuthority(ref) && ref.path == [] ==> r.value.path == base.path
  {
    if IsAbsolute(ref) then Success(ref)
    else if !IsAbsolute(base) then Failure("both URI are relative")
    else if FragmentOnly(ref) then
      Success(base.(fragment := if ref.fragment.Some? then ref.fragment else base.fragment))
    else
      var path :=
        if HasAuthority(ref) then ref.path
        else if ref.path == [] then base.path
        else if ref.path[0] == '/' then RemoveDotSegments(ref.path)
        else RemoveDotSegments(MergePaths(base, ref.path));
      var host := if ref.host.Some? then ref.host else base.host;
      var port := if ref.port.Some? then ref.port else base.port;
      Success(Uri(base.scheme, host, port, path, ref.query, ref.fragment))
  }

  // ----- properties of resolution -----------------------------------------------------------------

  /** A dot segment (`.` or `..`) starts at position `i` of a path. */
  predicate DotSegmentAt(p: string, i: nat)
    requires i < |p|
  {
    && (i == 0 || p[i - 1] == '/')
    && p[i] == '.'
    && (i + 1 == |p| || p[i + 1] == '/' || (p[i + 1] == '.' && (i + 2 == |p| || p[i + 2] == '/')))
  }

  predicate NoDotSegments(p: string) {
    forall i :: 0 <= i < |p| ==> !DotSegmentAt(p, i)
  }

  /** Step 2E applies to an input that starts with `/` and not with a dot segment. */
  lemma RemoveDotsMovesSegment(input: string, out: string)
    requires |input| > 0 && input[0] == '/'
    requires |input| >= 2 ==> !DotSegmentAt(input, 1)
    ensures RemoveDots(input, out) == RemoveDots(input[FirstSegment(input)..], out + input[..FirstSegment(input)])
  {
    assert !Begins3(input, '.', '.', '/') && !Begins2(input, '.', '/');
    assert !Is1(input, '.') && !Is2(input, '.', '.');
    assert !Begins3(input, '/', '.', '/') && !Is2(input, '/', '.');
    assert !Begins4(input, '/', '.', '.', '/') && !Is3(input, '/', '.', '.');
  }

  lemma CleanAfterSegment(input: string, n: nat)
    requires 0 < n <= |input|
    requires n == |input| || input[n] == '/'
    requires NoDotSegments(input)
    ensures NoDotSegments(input[n..])
  {
    var rest := input[n..];
    forall j | 0 <= j < |rest| ensures !DotSegmentAt(rest, j) {
      if j == 0 {
        assert rest[0] == '/';
      } else {
        assert rest[j - 1] == input[n + j - 1];
        assert !DotSegmentAt(input, n + j);
      }
    }
  }

  lemma {:induction false} RemoveDotsOfClean(input: string, out: string)
    requires input == [] || input[0] == '/'
    requires NoDotSegments(input)
    ensures RemoveDots(input, out) == out + input
    decreases |input|
  {
    if input == [] {
      assert out + input == out;
    } else {
      RemoveDotsMovesSegment(input, out);
      var n := FirstSegment(input);
      var rest := input[n..];
      CleanAfterSegment(input, n);
      RemoveDotsOfClean(rest, out + input[..n]);
      assert out + input[..n] + rest == out + input;
    }
  }

  /** `remove_dot_segments` leaves an absolute path without `.` or `..` segments as it is. */
  lemma RemoveDotSegmentsOfClean(path: string)
    requires path == [] || path[0] == '/'
    requires NoDotSegments(path)
    ensures RemoveDotSegments(path) == path
  {
    RemoveDotsOfClean(path, []);
  }

  lemma {:induction false} RemoveDotsKeepsRoot(input: string, out: string)
    requires (|input| > 0 && input[0] == '/') || (input == [] && |out| > 0 && out[0] == '/')
    requires out == [] || out[0] == '/'
    ensures |RemoveDots(input, out)| > 0 && RemoveDots(input, out)[0] == '/'
    decreases |input|
  {
    if input != [] {
      var dropped := RemoveLastSegment(out);
      assert dropped == [] || dropped[0] == '/';
      RootedStep(input, out);
      if Begins3(input, '/', '.', '/') {
        RemoveDotsKeepsRoot(input[2..], out);
      } else if Is2(input, '/', '.') {
        RemoveDotsKeepsRoot("/", out);
      } else if Begins4(input, '/', '.', '.', '/') {
        RemoveDotsKeepsRoot(input[3..], dropped);
      } else if Is3(input, '/', '.', '.') {
        RemoveDotsKeepsRoot("/", dropped);
      } else {
        var n := FirstSegment(input);
        assert (out + input[..n])[0] == '/';
        RemoveDotsKeepsRoot(input[n..], out + input[..n]);
      }
    }
  }

  /** The steps of section 5.2.4 that apply to an input starting with `/`. */
  lemma RootedStep(input: string, out: string)
    requires |input| > 0 && input[0] == '/'
    ensures RemoveDots(input, out) ==
      if Begins3(input, '/', '.', '/') then RemoveDots(input[2..], out)
      else if Is2(input, '/', '.') then RemoveDots("/", out)
      else if Begins4(input, '/', '.', '.', '/') then RemoveDots(input[3..], RemoveLastSegment(out))
      else if Is3(input, '/', '.', '.') then RemoveDots("/", RemoveLastSegment(out))
      else RemoveDots(input[FirstSegment(input)..], out + input[..FirstSegment(input)])
  {
    assert !Begins3(input, '.', '.', '/') && !Begins2(input, '.', '/');
    assert !Is1(input, '.') && !Is2(input, '.', '.');
  }

  /** `remove_dot_segments` of an absolute path is an absolute path. */
  lemma RemoveDotSegmentsKeepsRoot(path: string)
    requires |path| > 0 && path[0] == '/'
    ensures |RemoveDotSegments(path)| > 0 && RemoveDotSegments(path)[0] == '/'
  {
    RemoveDotsKeepsRoot(path, []);
  }

  /**
   * Against a base with an absolute path, a relative reference with a
   * non-empty path resolves to an absolute path.
   */
  lemma ResolvedPathIsAbsolute(base: Uri, ref: Uri)
    requires IsAbsolute(base) && !IsAbsolute(ref)
    requires base.path == [] || base.path[0] == '/'
    requires base.host.Some? || base.path != []
    requires ref.path != []
    requires HasAuthority(ref) ==> ref.path[0] == '/'
    ensures Join(base, ref).value.path != [] && Join(base, ref).value.path[0] == '/'
  {
    if HasAuthority(ref) {
    } else if ref.path[0] != '/' {
      var m := MergePaths(base, ref.path);
      assert m[0] == '/' by {
        if !(base.host.Some? && base.path == []) {
          var k := LastSlashEnd(base.path);
          assert k > 0 by {
            assert base.path[0] == '/';
          }
          assert m[0] == base.path[0];
        }
      }
      RemoveDotSegmentsKeepsRoot(m);
    } else {
      RemoveDotSegmentsKeepsRoot(ref.path);
    }
  }

  /**
   * A relative reference to a path below the base's directory resolves to
   * the base's directory followed by that path: with the base
   * `http://api.communique.dev/v2/` the reference `messages/unread` resolves
   * to `http://api.communique.dev/v2/messages/unread`.
   */
  lemma JoinBelowDirectory(base: Uri, ref: Uri)
    requires IsAbsolute(base) && base.host.Some?
    requires |base.path| > 0 && base.path[0] == '/' && base.path[|base.path| - 1] == '/'
    requires NoDotSegments(base.path)
    requires ref.scheme.None? && ref.host.None? && ref.port.None?
    requires ref.path != [] && ref.path[0] != '/'
    requires NoDotSegments(ref.path)
    ensures Join(base, ref) == Success(Uri(base.scheme, base.host, base.port, base.path + ref.path, ref.query, ref.fragment))
  {
    var b := base.path;
    var p := b + ref.path;
    assert LastSlashEnd(b) == |b|;
    assert b[..|b|] == b;
    assert MergePaths(base, ref.path) == p;
    assert NoDotSegments(p) by {
      forall i | 0 <= i < |p| ensures !DotSegmentAt(p, i) {
        if i >= |b| {
          var j := i - |b|;
          assert p[i] == ref.path[j];
          if j > 0 {
            assert p[i - 1] == ref.path[j - 1];
          }
          if i + 1 < |p| {
            assert p[i + 1] == ref.path[j + 1];
          }
          if i + 2 < |p| {
            assert p[i + 2] == ref.path[j + 2];
          }
          assert !DotSegmentAt(ref.path, j);
        } else if i < |b| - 2 {
          assert p[i] == b[i] && p[i + 1] == b[i + 1] && p[i + 2] == b[i + 2];
          assert !DotSegmentAt(b, i);
        } else if i == |b| - 2 {
          assert p[i] == b[i] && p[i + 1] == b[i + 1];
          assert !DotSegmentAt(b, i);
        } else {
          assert p[i] == b[i];
        }
      }
    }
    RemoveDotSegmentsOfClean(p);
  }
}
