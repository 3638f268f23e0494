/**
 * The response header parse at the end of `Request#send!`
 * (lib/apothecary/request.rb:94-95) and the header tests built on it
 * (lib/apothecary/request.rb:105-115): the header text is cut into lines at
 * every run of CR/LF characters, each line is stripped, the first line is the
 * status line, and each later line of the form `Name: value` is one entry.
 */
module Headers {
  import opened Wrappers
  import opened RubyText

  predicate IsLineBreak(c: char) {
    c == '\r' || c == '\n'
  }

  predicate NoLineBreak(s: string) {
    forall i :: 0 <= i < |s| ==> !IsLineBreak(s[i])
  }

  function SkipBreaks(s: string): (r: string)
    ensures |r| <= |s| && r == s[|s| - |r|..]
    ensures r == [] || !IsLineBreak(r[0])
    ensures |s| > 0 && IsLineBreak(s[0]) ==> |r| < |s|
    decreases |s|
  {
    if |s| > 0 && IsLineBreak(s[0]) then SkipBreaks(s[1..]) else s
  }

  /** The fields between runs of `[\r\n]+`, empty first and last fields included. */
  function Fields(s: string): (r: seq<string>)
    ensures |r| > 0
    decreases |s|
  {
    if s == [] then [[]]
    else if IsLineBreak(s[0]) then [[]] + Fields(SkipBreaks(s))
    else
      var rest := Fields(s[1..]);
      [[s[0]] + rest[0]] + rest[1..]
  }

  /** `split(/[\r\n]+/)`: trailing empty fields are dropped. */
  function SplitLines(s: string): seq<string> {
    DropTrailingEmpty(Fields(s))
  }

  /** The length of the longest prefix of `l` without a `\s` character. */
  function NonSpaceRun(l: string): (n: nat)
    ensures n <= |l|
    ensures forall i :: 0 <= i < n ==> !IsSpace(l[i])
    ensures n == |l| || IsSpace(l[n])
    decreases |l|
  {
    if |l| > 0 && !IsSpace(l[0]) then 1 + NonSpaceRun(l[1..]) else 0
  }

  /** A header name the pattern `\S+` accepts. */
  predicate IsToken(name: string) {
    |name| > 0 && forall i :: 0 <= i < |name| ==> !IsSpace(name[i])
  }

  /**
   * `scan(/^(\S+): (.+)/)` on one line without line breaks: the name is the
   * non-space run before a colon that is directly followed by a space, the
   * value is the rest of the line and is not empty.
   */
  function ParseHeaderLine(l: string): Option<(string, string)> {
    var k := NonSpaceRun(l);
    if k >= 2 && l[k - 1] == ':' && k + 1 < |l| && l[k] == ' ' then Some((l[..k - 1], l[k + 1..])) else None
  }

  /** `ParseHeaderLine` accepts exactly the lines `name: value` with a `\S+` name and a non-empty value. */
  lemma ParseHeaderLineIff(l: string, name: string, value: string)
    ensures ParseHeaderLine(l) == Some((name, value)) <==> l == name + ": " + value && IsToken(name) && value != []
  {
    if l == name + ": " + value && IsToken(name) && value != [] {
      assert forall i :: 0 <= i < |name| ==> l[i] == name[i];
      assert l[|name|] == ':' && l[|name| + 1] == ' ';
      assert NonSpaceRun(l) == |name| + 1;
      assert l[..|name|] == name;
      assert l[|name| + 2..] == value;
    }
    if ParseHeaderLine(l) == Some((name, value)) {
      var k := NonSpaceRun(l);
      assert l == l[..k - 1] + ": " + l[k + 1..];
    }
  }

  predicate DefinesHeader(l: string, name: string) {
    ParseHeaderLine(l).Some? && ParseHeaderLine(l).value.0 == name
  }

  /** `Hash[pairs]` over the parsed lines, one line at a time. */
  function HeaderMap(lines: seq<string>): map<string, string>
    decreases |lines|
  {
    if lines == [] then map[]
    else
      var m := HeaderMap(lines[..|lines| - 1]);
      match ParseHeaderLine(lines[|lines| - 1])
      case Some(kv) => m[kv.0 := kv.1]
      case None => m
  }

  /** The value of the last line that defines `name`, scanning from the end. */
  function LastValue(lines: seq<string>, name: string): Option<string>
    decreases |lines|
  {
    if lines == [] then None
    else if DefinesHeader(lines[|lines| - 1], name) then Some(ParseHeaderLine(lines[|lines| - 1]).value.1)
    else LastValue(lines[..|lines| - 1], name)
  }

  /**
   * The header hash is the last-wins reading of the lines: a name is present
   * exactly when some line defines it, with the value of the last such line.
   */
  lemma {:induction false} HeaderMapLastWins(lines: seq<string>, name: string)
    ensures (if name in HeaderMap(lines) then Some(HeaderMap(lines)[name]) else None) == LastValue(lines, name)
    decreases |lines|
  {
    if lines != [] {
      HeaderMapLastWins(lines[..|lines| - 1], name);
    }
  }

  datatype ParsedHeaders = ParsedHeaders(status: Option<string>, headers: map<string, string>)

  /** `http_response, *http_headers = header_str.split(/[\r\n]+/).map(&:strip)` and the header hash. */
  function ParseHeaders(headerText: string): ParsedHeaders {
    var fields := SplitLines(headerText);
    var lines := seq(|fields|, i requires 0 <= i < |fields| => Strip(fields[i]));
    if |lines| == 0 then ParsedHeaders(None, map[]) else ParsedHeaders(Some(lines[0]), HeaderMap(lines[1..]))
  }

  /** `content_length`: `Content-Length` read with `to_i`, 0 when the header is absent. */
  function ContentLength(headers: map<string, string>): (n: int)
    ensures "Content-Length" !in headers ==> n == 0
  {
    ToIOfZero();
    ToI(if "Content-Length" in headers then headers["Content-Length"] else "0")
  }

  /** A `Content-Length` header holding an integer's decimal form reads back as that integer. */
  lemma ContentLengthOfDecimal(headers: map<string, string>, n: int)
    requires "Content-Length" in headers && headers["Content-Length"] == IntToString(n)
    ensures ContentLength(headers) == n
  {
    ToIOfToS(n);
  }

  /** `response_is_json?`: the content type is `application/json` or ends in `+json`. */
  predicate IsJson(headers: map<string, string>) {
    "Content-Type" in headers && (headers["Content-Type"] == "application/json" || EndsWith(headers["Content-Type"], "+json"))
  }

  // ----- header text that parses back -------------------------------------------------------------

  /** A header block as a server sends it: each line ended by CR LF, and one more CR LF at the end. */
  function Block(lines: seq<string>): string
    requires |lines| > 0
    decreases |lines|
  {
    if |lines| == 1 then lines[0] + "\r\n\r\n" else lines[0] + "\r\n" + Block(lines[1..])
  }

  function HeaderLines(pairs: seq<(string, string)>): (ls: seq<string>)
    ensures |ls| == |pairs|
  {
    seq(|pairs|, i requires 0 <= i < |pairs| => pairs[i].0 + ": " + pairs[i].1)
  }

  /** The header hash of a list of `(name, value)` pairs: later pairs overwrite earlier ones. */
  function PairsMap(pairs: seq<(string, string)>): map<string, string>
    decreases |pairs|
  {
    if pairs == [] then map[]
    else PairsMap(pairs[..|pairs| - 1])[pairs[|pairs| - 1].0 := pairs[|pairs| - 1].1]
  }

  /** A line that `strip` leaves alone and that holds no line break. */
  predicate IsCleanLine(l: string) {
    |l| > 0 && NoLineBreak(l) && !IsStripChar(l[0]) && !IsStripChar(l[|l| - 1])
  }

  lemma {:induction false} FieldsAfterLine(l: string, breaks: string, rest: string)
    requires NoLineBreak(l)
    requires |breaks| > 0 && forall i :: 0 <= i < |breaks| ==> IsLineBreak(breaks[i])
    requires rest == [] || !IsLineBreak(rest[0])
    ensures Fields(l + breaks + rest) == [l] + Fields(rest)
    decreases |l| + |breaks|
  {
    if l == [] {
      assert l + breaks + rest == breaks + rest;
      SkipAllBreaks(breaks, rest);
    } else {
      assert (l + breaks + rest)[1..] == l[1..] + breaks + rest;
      FieldsAfterLine(l[1..], breaks, rest);
      assert [l[0]] + l[1..] == l;
    }
  }

  lemma {:induction false} SkipAllBreaks(breaks: string, rest: string)
    requires forall i :: 0 <= i < |breaks| ==> IsLineBreak(breaks[i])
    requires rest == [] || !IsLineBreak(rest[0])
    ensures SkipBreaks(breaks + rest) == rest
    decreases |breaks|
  {
    if breaks == [] {
      assert breaks + rest == rest;
    } else {
      assert (breaks + rest)[1..] == breaks[1..] + rest;
      SkipAllBreaks(breaks[1..], rest);
    }
  }

  lemma {:induction false} FieldsOfBlock(lines: seq<string>)
    requires |lines| > 0
    requires forall i :: 0 <= i < |lines| ==> IsCleanLine(lines[i])
    ensures Fields(Block(lines)) == lines + [[]]
    decreases |lines|
  {
    if |lines| == 1 {
      FieldsOfLastLine(lines[0]);
    } else {
      var rest := Block(lines[1..]);
      FieldsOfBlock(lines[1..]);
      BlockHead(lines[1..]);
      assert Block(lines) == lines[0] + "\r\n" + rest;
      FieldsAfterLine(lines[0], "\r\n", rest);
      assert [lines[0]] + (lines[1..] + [[]]) == lines + [[]];
    }
  }

  lemma FieldsOfLastLine(l: string)
    requires NoLineBreak(l)
    ensures Fields(l + "\r\n\r\n") == [l, []]
  {
    FieldsAfterLine(l, "\r\n\r\n", "");
    assert l + "\r\n\r\n" + "" == l + "\r\n\r\n";
  }

  /** A block starts with the first character of its first line. */
  lemma BlockHead(lines: seq<string>)
    requires |lines| > 0 && |lines[0]| > 0
    ensures |Block(lines)| > 0 && Block(lines)[0] == lines[0][0]
  {
    if |lines| == 1 {
      assert Block(lines) == lines[0] + "\r\n\r\n";
    } else {
      assert Block(lines) == lines[0] + "\r\n" + Block(lines[1..]);
    }
  }

  lemma StripClean(l: string)
    requires IsCleanLine(l)
    ensures Strip(l) == l
  {
  }

  lemma {:induction false} HeaderMapOfPairs(pairs: seq<(string, string)>)
    requires forall i :: 0 <= i < |pairs| ==> IsToken(pairs[i].0) && pairs[i].1 != []
    ensures HeaderMap(HeaderLines(pairs)) == PairsMap(pairs)
    decreases |pairs|
  {
    if pairs != [] {
      var n := |pairs|;
      var ls := HeaderLines(pairs);
      assert ls[..n - 1] == HeaderLines(pairs[..n - 1]);
      HeaderMapOfPairs(pairs[..n - 1]);
      ParseHeaderLineIff(ls[n - 1], pairs[n - 1].0, pairs[n - 1].1);
    }
  }

  lemma SplitLinesOfBlock(ls: seq<string>)
    requires |ls| > 0
    requires forall i :: 0 <= i < |ls| ==> IsCleanLine(ls[i])
    ensures SplitLines(Block(ls)) == ls
  {
    FieldsOfBlock(ls);
    var fields := ls + [[]];
    assert fields[..|fields| - 1] == ls;
    assert ls[|ls| - 1] != [];
    assert DropTrailingEmpty(ls) == ls;
    assert DropTrailingEmpty(fields) == DropTrailingEmpty(ls);
  }

  lemma StripEach(ls: seq<string>)
    requires forall i :: 0 <= i < |ls| ==> IsCleanLine(ls[i])
    ensures seq(|ls|, i requires 0 <= i < |ls| => Strip(ls[i])) == ls
  {
    var lines := seq(|ls|, i requires 0 <= i < |ls| => Strip(ls[i]));
    forall i | 0 <= i < |ls| ensures lines[i] == ls[i] {
      StripClean(ls[i]);
    }
  }

  lemma ValuesNonEmpty(pairs: seq<(string, string)>)
    requires forall i :: 0 <= i < |pairs| ==> IsCleanLine(pairs[i].0 + ": " + pairs[i].1)
    ensures forall i :: 0 <= i < |pairs| ==> pairs[i].1 != []
  {
    forall i | 0 <= i < |pairs| ensures pairs[i].1 != [] {
      var l := pairs[i].0 + ": " + pairs[i].1;
      assert l[|pairs[i].0| + 1] == ' ';
      assert !IsStripChar(l[|l| - 1]);
    }
  }

  /**
   * A header block written from a status line and `(name, value)` pairs
   * parses back into that status line and the pairs' hash, in which a later
   * header overwrites an earlier one of the same name.
   */
  lemma ParseHeadersOfBlock(status: string, pairs: seq<(string, string)>)
    requires IsCleanLine(status)
    requires forall i :: 0 <= i < |pairs| ==> IsToken(pairs[i].0) && IsCleanLine(pairs[i].0 + ": " + pairs[i].1)
    ensures ParseHeaders(Block([status] + HeaderLines(pairs))) == ParsedHeaders(Some(status), PairsMap(pairs))
  {
    var hs := HeaderLines(pairs);
    var ls := [status] + hs;
    assert forall i :: 0 <= i < |ls| ==> IsCleanLine(ls[i]) by {
      forall i | 0 <= i < |ls| ensures IsCleanLine(ls[i]) {
        if i > 0 {
          assert ls[i] == hs[i - 1];
        }
      }
    }
    SplitLinesOfBlock(ls);
    StripEach(ls);
    assert ls[1..] == hs;
    ValuesNonEmpty(pairs);
    HeaderMapOfPairs(pairs);
  }
}
