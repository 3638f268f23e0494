/**
 * The `{{a.b.c}}` template engine that `Context#interpolate` and
 * `Environment#interpolate` share (lib/apothecary/context.rb:23-44 and
 * lib/apothecary/environment.rb:68-89 are the same code). It is written once,
 * over the evaluator that turns a dotted path into a value.
 *
 * Ruby renders a substituted value with `to_s`; for arrays and hashes that is
 * their `inspect` form, which is taken here as the parameter `inspect`.
 */
module Templates {
  import opened RubyText
  import opened Values
  import opened Wrappers

  /** What a dotted path evaluates to (`evaluate` of a context or an environment). */
  type Evaluator = string -> Value

  /** Ruby's `to_s` of an array or a hash. */
  type Inspector = Value -> string

  predicate IsPathChar(c: char) {
    IsWordChar(c) || c == '.'
  }

  /** The capture `(\w+)(\.\w+)*`: words joined by single dots. */
  predicate ValidPath(p: string) {
    && |p| > 0
    && (forall i :: 0 <= i < |p| ==> IsPathChar(p[i]))
    && p[0] != '.'
    && p[|p| - 1] != '.'
    && (forall i :: 0 <= i < |p| - 1 ==> !(p[i] == '.' && p[i + 1] == '.'))
  }

  /** The length of the longest prefix of `t` made of word characters and dots. */
  function PathRun(t: string): (n: nat)
    ensures n <= |t|
    ensures forall i :: 0 <= i < n ==> IsPathChar(t[i])
    ensures n == |t| || !IsPathChar(t[n])
  {
    if |t| > 0 && IsPathChar(t[0]) then 1 + PathRun(t[1..]) else 0
  }

  /** A match of the template regex: the captured path and the number of characters matched. */
  datatype Match = Match(path: string, length: nat)

  /**
   * Whether `\{\{((\w+)(\.\w+)*)\}\}` matches at the start of `t`. The greedy
   * path part stops at the first character that is neither a word character
   * nor a dot, and backtracking cannot help because `}` is neither, so the
   * regex matches exactly when that longest run is a path followed by `}}`.
   */
  function TemplateAt(t: string): (r: Option<Match>)
    ensures r.Some? ==> ValidPath(r.value.path)
    ensures r.Some? ==> r.value.length == |r.value.path| + 4 <= |t|
    ensures r.Some? ==> t[..r.value.length] == "{{" + r.value.path + "}}"
  {
    if |t| >= 2 && t[0] == '{' && t[1] == '{' then
      var n := PathRun(t[2..]);
      var p := t[2..2 + n];
      if ValidPath(p) && |t| >= n + 4 && t[n + 2] == '}' && t[n + 3] == '}' then
        assert t[..n + 4] == "{{" + p + "}}";
        Some(Match(p, n + 4))
      else None
    else None
  }

  /**
   * Whether `^\{\{...\}\}$` matches at position `i`: `^` and `$` are Ruby's line
   * anchors, so the match must start a line and end one.
   */
  predicate MatchesLineAt(s: string, i: nat)
    requires i <= |s|
  {
    && (i == 0 || s[i - 1] == '\n')
    && TemplateAt(s[i..]).Some?
    && (var end := i + TemplateAt(s[i..]).value.length; end == |s| || s[end] == '\n')
  }

  /** The regex search from position `i`: the path captured by the leftmost match. */
  function WholeMatchFrom(s: string, i: nat): (r: Option<string>)
    requires i <= |s|
    ensures r.Some? ==> ValidPath(r.value)
    decreases |s| - i
  {
    if i == |s| then None
    else if MatchesLineAt(s, i) then Some(TemplateAt(s[i..]).value.path)
    else WholeMatchFrom(s, i + 1)
  }

  /** `value =~ INTERPOLATION_REGEX_FULL_STRING` and its capture `$1`. */
  function WholeMatch(s: string): Option<string> {
    WholeMatchFrom(s, 0)
  }

  /** `to_s` of an evaluated value; nil renders as the empty string. */
  function Render(v: Value, inspect: Inspector): string {
    match v
    case Null => ""
    case Bool(b) => if b then "true" else "false"
    case Num(n) => IntToString(n)
    case Str(s) => s
    case _ => inspect(v)
  }

  /** `value.gsub(INTERPOLATION_REGEX) { evaluate($1) }`: left to right, matches do not overlap. */
  function Substitute(s: string, eval: Evaluator, inspect: Inspector): string
    decreases |s|
  {
    if s == [] then []
    else
      match TemplateAt(s)
      case Some(m) => Render(eval(m.path), inspect) + Substitute(s[m.length..], eval, inspect)
      case None => [s[0]] + Substitute(s[1..], eval, inspect)
  }

  /** `interpolate`: strings are templated, hashes and arrays are walked, every other value is kept. */
  function Interpolate(v: Value, eval: Evaluator, inspect: Inspector): (r: Value)
    ensures v.Hash? ==> r.Hash? && r.entries.Keys == v.entries.Keys
    ensures v.Hash? ==> forall k :: k in v.entries ==> r.entries[k] == Interpolate(v.entries[k], eval, inspect)
    ensures v.List? ==> r.List? && |r.items| == |v.items|
    ensures v.List? ==> forall i :: 0 <= i < |v.items| ==> r.items[i] == Interpolate(v.items[i], eval, inspect)
    ensures !(v.Str? || v.Hash? || v.List?) ==> r == v
  {
    match v
    case Str(s) =>
      (match WholeMatch(s)
       case Some(p) => eval(p)
       case None => Str(Substitute(s, eval, inspect)))
    case Hash(m) => Hash(map k | k in m :: Interpolate(m[k], eval, inspect))
    case List(xs) => List(seq(|xs|, i requires 0 <= i < |xs| => Interpolate(xs[i], eval, inspect)))
    case _ => v
  }

  // ----- matching lemmas -----------------------------------------------------------------------

  lemma {:induction false} PathRunOfPath(p: string, rest: string)
    requires forall i :: 0 <= i < |p| ==> IsPathChar(p[i])
    requires rest == [] || !IsPathChar(rest[0])
    ensures PathRun(p + rest) == |p|
    decreases |p|
  {
    if p == [] {
      assert p + rest == rest;
    } else {
      assert (p + rest)[1..] == p[1..] + rest;
      PathRunOfPath(p[1..], rest);
    }
  }

  /** The template regex matches `{{p}}` at the start of any text, whatever follows. */
  lemma TemplateAtTemplate(p: string, rest: string)
    requires ValidPath(p)
    ensures TemplateAt("{{" + p + "}}" + rest) == Some(Match(p, |p| + 4))
  {
    var t := "{{" + p + "}}" + rest;
    assert t[2..] == p + ("}}" + rest);
    PathRunOfPath(p, "}}" + rest);
    assert t[2..2 + |p|] == p;
  }

  lemma {:induction false} NoLaterLineStart(s: string, i: nat)
    requires NoneOf(s, '\n')
    requires 0 < i <= |s|
    ensures WholeMatchFrom(s, i) == None
    decreases |s| - i
  {
    if i < |s| {
      NoLaterLineStart(s, i + 1);
    }
  }

  /**
   * On a string without line breaks the whole-string regex matches exactly
   * when the string is one template `{{p}}`, and then it captures `p`.
   */
  lemma WholeMatchOnOneLine(s: string, p: string)
    requires NoneOf(s, '\n')
    ensures WholeMatch(s) == Some(p) <==> s == "{{" + p + "}}" && ValidPath(p)
  {
    if s == "{{" + p + "}}" && ValidPath(p) {
      TemplateAtTemplate(p, "");
      assert s + "" == s;
      assert s[0..] == s;
    }
    if WholeMatch(s) == Some(p) {
      assert |s| > 0;
      if !MatchesLineAt(s, 0) {
        NoLaterLineStart(s, 1);
        assert false;
      }
      assert s[0..] == s;
    }
  }

  lemma {:induction false} WholeMatchFromFindsTemplate(s: string, i: nat)
    requires i <= |s|
    requires WholeMatchFrom(s, i).Some?
    ensures exists j :: i <= j < |s| && TemplateAt(s[j..]).Some?
    decreases |s| - i
  {
    if !MatchesLineAt(s, i) {
      WholeMatchFromFindsTemplate(s, i + 1);
    }
  }

  /** Whether the template regex matches anywhere in `s`. */
  predicate ContainsTemplate(s: string) {
    exists j :: 0 <= j < |s| && TemplateAt(s[j..]).Some?
  }

  lemma {:induction false} SubstituteTemplateFree(s: string, eval: Evaluator, inspect: Inspector)
    requires !ContainsTemplate(s)
    ensures Substitute(s, eval, inspect) == s
    decreases |s|
  {
    if s != [] {
      assert s[0..] == s;
      forall j | 0 <= j < |s| - 1
        ensures TemplateAt(s[1..][j..]).None?
      {
        assert s[1..][j..] == s[j + 1..];
      }
      SubstituteTemplateFree(s[1..], eval, inspect);
    }
  }

  /** A string in which the template regex matches nowhere is returned unchanged. */
  lemma TemplateFreeUnchanged(s: string, eval: Evaluator, inspect: Inspector)
    requires !ContainsTemplate(s)
    ensures Interpolate(Str(s), eval, inspect) == Str(s)
  {
    if WholeMatch(s).Some? {
      WholeMatchFromFindsTemplate(s, 0);
    }
    SubstituteTemplateFree(s, eval, inspect);
  }

  /** A string that is exactly one template yields the evaluated value itself, of whatever type. */
  lemma WholeTemplateKeepsType(p: string, eval: Evaluator, inspect: Inspector)
    requires ValidPath(p)
    ensures Interpolate(Str("{{" + p + "}}"), eval, inspect) == eval(p)
  {
    TemplateAtTemplate(p, "");
    var s := "{{" + p + "}}";
    assert s + "" == s;
    assert s[0..] == s;
    assert MatchesLineAt(s, 0);
  }

  /** One segment of a dotted path: `\w+`. */
  predicate IsWord(w: string) {
    |w| > 0 && forall i :: 0 <= i < |w| ==> IsWordChar(w[i])
  }

  lemma {:induction false} PathFieldsAreWords(p: string)
    requires ValidPath(p)
    ensures forall i :: 0 <= i < |SplitOn(p, '.')| ==> IsWord(SplitOn(p, '.')[i])
    decreases |p|
  {
    if |p| == 1 {
      SplitWithoutSeparator(p, '.');
    } else if p[1] == '.' {
      var t := p[2..];
      assert ValidPath(t) by {
        assert p[2] != '.' by { assert !(p[1] == '.' && p[2] == '.'); }
        forall i | 0 <= i < |t| - 1 ensures !(t[i] == '.' && t[i + 1] == '.') {
          assert t[i] == p[i + 2] && t[i + 1] == p[i + 3];
        }
      }
      PathFieldsAreWords(t);
      assert p[1..][1..] == t;
      var r := SplitOn(p[1..], '.');
      assert r == [[]] + SplitOn(t, '.');
      assert r[1..] == SplitOn(t, '.');
      assert [p[0]] + r[0] == [p[0]];
      assert SplitOn(p, '.') == [[p[0]]] + SplitOn(t, '.');
    } else {
      var t := p[1..];
      assert ValidPath(t) by {
        forall i | 0 <= i < |t| - 1 ensures !(t[i] == '.' && t[i + 1] == '.') {
          assert t[i] == p[i + 1] && t[i + 1] == p[i + 2];
        }
      }
      PathFieldsAreWords(t);
      var r := SplitOn(t, '.');
      assert IsWord(r[0]);
      assert SplitOn(p, '.') == [[p[0]] + r[0]] + r[1..];
    }
  }

  /**
   * `split('.')` of a captured path gives its words, none of them empty, and
   * they join back to the path.
   */
  lemma PathSegments(p: string)
    requires ValidPath(p)
    ensures RubySplit(p, '.') == SplitOn(p, '.')
    ensures |RubySplit(p, '.')| > 0
    ensures forall i :: 0 <= i < |RubySplit(p, '.')| ==> IsWord(RubySplit(p, '.')[i])
    ensures JoinWith(RubySplit(p, '.'), '.') == p
  {
    PathFieldsAreWords(p);
    JoinOfSplit(p, '.');
  }

  /** Words joined by single dots form a path the template regex captures. */
  lemma {:induction false} JoinedWordsArePath(words: seq<string>)
    requires |words| > 0
    requires forall i :: 0 <= i < |words| ==> IsWord(words[i])
    ensures ValidPath(JoinWith(words, '.'))
    decreases |words|
  {
    if |words| > 1 {
      JoinedWordsArePath(words[1..]);
      var w := words[0];
      var t := JoinWith(words[1..], '.');
      var p := w + ['.'] + t;
      assert IsWord(w);
      assert p == JoinWith(words, '.');
      forall i | 0 <= i < |p| - 1 ensures !(p[i] == '.' && p[i + 1] == '.') {
        if i < |w| - 1 {
          assert p[i] == w[i];
        } else if i == |w| - 1 {
          assert p[i] == w[i];
        } else if i == |w| {
          assert p[i + 1] == t[0];
        } else {
          assert p[i] == t[i - |w| - 1] && p[i + 1] == t[i - |w|];
        }
      }
      forall i | 0 <= i < |p| ensures IsPathChar(p[i]) {
        if i < |w| { assert p[i] == w[i]; } else if i > |w| { assert p[i] == t[i - |w| - 1]; }
      }
    }
  }

  // ----- partial templates ---------------------------------------------------------------------

  /** A template string cut into literal text and `{{path}}` references. */
  datatype Piece = Text(text: string) | Ref(path: string)

  /** Literal text free of `{`, and references to well-formed paths. */
  predicate WellFormedPieces(ps: seq<Piece>) {
    forall i :: 0 <= i < |ps| ==>
      match ps[i]
      case Text(t) => NoneOf(t, '{')
      case Ref(p) => ValidPath(p)
  }

  function Compose(ps: seq<Piece>): string
    decreases |ps|
  {
    if ps == [] then []
    else
      match ps[0]
      case Text(t) => t + Compose(ps[1..])
      case Ref(p) => "{{" + p + "}}" + Compose(ps[1..])
  }

  /** The text each piece stands for once its reference is rendered. */
  function RenderPieces(ps: seq<Piece>, eval: Evaluator, inspect: Inspector): string
    decreases |ps|
  {
    if ps == [] then []
    else
      match ps[0]
      case Text(t) => t + RenderPieces(ps[1..], eval, inspect)
      case Ref(p) => Render(eval(p), inspect) + RenderPieces(ps[1..], eval, inspect)
  }

  lemma {:induction false} SubstituteLiteral(t: string, rest: string, eval: Evaluator, inspect: Inspector)
    requires NoneOf(t, '{')
    ensures Substitute(t + rest, eval, inspect) == t + Substitute(rest, eval, inspect)
    decreases |t|
  {
    if t == [] {
      assert t + rest == rest;
    } else {
      assert (t + rest)[1..] == t[1..] + rest;
      SubstituteLiteral(t[1..], rest, eval, inspect);
    }
  }

  lemma SubstituteReference(p: string, rest: string, eval: Evaluator, inspect: Inspector)
    requires ValidPath(p)
    ensures Substitute("{{" + p + "}}" + rest, eval, inspect) == Render(eval(p), inspect) + Substitute(rest, eval, inspect)
  {
    TemplateAtTemplate(p, rest);
    assert ("{{" + p + "}}" + rest)[|p| + 4..] == rest;
  }

  /**
   * In a partial template every reference is replaced, independently of the
   * others, by the rendering of its own value, and the literal text between
   * references is kept.
   */
  lemma {:induction false} SubstitutePieces(ps: seq<Piece>, eval: Evaluator, inspect: Inspector)
    requires WellFormedPieces(ps)
    ensures Substitute(Compose(ps), eval, inspect) == RenderPieces(ps, eval, inspect)
    decreases |ps|
  {
    if ps != [] {
      assert WellFormedPieces(ps[1..]) by {
        forall i | 0 <= i < |ps| - 1 ensures ps[1..][i] == ps[i + 1] { }
      }
      SubstitutePieces(ps[1..], eval, inspect);
      match ps[0]
      case Text(t) =>
        assert NoneOf(t, '{') by { assert ps[0] == Text(t); }
        SubstituteLiteral(t, Compose(ps[1..]), eval, inspect);
      case Ref(p) =>
        SubstituteReference(p, Compose(ps[1..]), eval, inspect);
    }
  }

  /** `interpolate` of a string that is not one whole template renders each reference in place. */
  lemma InterpolatePieces(ps: seq<Piece>, eval: Evaluator, inspect: Inspector)
    requires WellFormedPieces(ps)
    requires WholeMatch(Compose(ps)).None?
    ensures Interpolate(Str(Compose(ps)), eval, inspect) == Str(RenderPieces(ps, eval, inspect))
  {
    SubstitutePieces(ps, eval, inspect);
  }

  // ----- only valid paths are ever evaluated ---------------------------------------------------

  lemma {:induction false} SubstituteCongruent(s: string, e1: Evaluator, e2: Evaluator, inspect: Inspector)
    requires forall p :: ValidPath(p) ==> e1(p) == e2(p)
    ensures Substitute(s, e1, inspect) == Substitute(s, e2, inspect)
    decreases |s|
  {
    if s != [] {
      match TemplateAt(s)
      case Some(m) => SubstituteCongruent(s[m.length..], e1, e2, inspect);
      case None => SubstituteCongruent(s[1..], e1, e2, inspect);
    }
  }

  /**
   * Interpolation consults the evaluator only on paths the template regex
   * captures, so evaluators that agree on every such path interpolate alike.
   */
  lemma {:induction false} InterpolateCongruent(v: Value, e1: Evaluator, e2: Evaluator, inspect: Inspector)
    requires forall p :: ValidPath(p) ==> e1(p) == e2(p)
    ensures Interpolate(v, e1, inspect) == Interpolate(v, e2, inspect)
    decreases v
  {
    match v
    case Str(s) =>
      SubstituteCongruent(s, e1, e2, inspect);
    case Hash(m) =>
      forall k | k in m
        ensures Interpolate(m[k], e1, inspect) == Interpolate(m[k], e2, inspect)
      {
        InterpolateCongruent(m[k], e1, e2, inspect);
      }
      var r1 := Interpolate(v, e1, inspect);
      var r2 := Interpolate(v, e2, inspect);
      assert r1.entries == r2.entries;
    case List(xs) =>
      forall i | 0 <= i < |xs|
        ensures Interpolate(xs[i], e1, inspect) == Interpolate(xs[i], e2, inspect)
      {
        InterpolateCongruent(xs[i], e1, e2, inspect);
      }
      var r1 := Interpolate(v, e1, inspect);
      var r2 := Interpolate(v, e2, inspect);
      assert r1.items == r2.items;
    case _ =>
  }

  /** Whether interpolating `v` evaluates any path: some string inside it holds a template. */
  predicate Mentions(v: Value)
    decreases v
  {
    match v
    case Str(s) => ContainsTemplate(s)
    case List(xs) => exists i :: 0 <= i < |xs| && Mentions(xs[i])
    case Hash(m) => exists k :: k in m && Mentions(m[k])
    case _ => false
  }

  /** A value that mentions no template comes out of interpolation as it went in, whatever the evaluator. */
  lemma {:induction false} UnmentionedUnchanged(v: Value, eval: Evaluator, inspect: Inspector)
    requires !Mentions(v)
    ensures Interpolate(v, eval, inspect) == v
    decreases v
  {
    match v
    case Str(s) =>
      TemplateFreeUnchanged(s, eval, inspect);
    case Hash(m) =>
      forall k | k in m
        ensures Interpolate(m[k], eval, inspect) == m[k]
      {
        UnmentionedUnchanged(m[k], eval, inspect);
      }
      assert Interpolate(v, eval, inspect).entries == m;
    case List(xs) =>
      forall i | 0 <= i < |xs|
        ensures Interpolate(xs[i], eval, inspect) == xs[i]
      {
        UnmentionedUnchanged(xs[i], eval, inspect);
      }
      assert Interpolate(v, eval, inspect).items == xs;
    case _ =>
  }
}
