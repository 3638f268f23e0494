/**
 * `Apothecary::Context` (lib/apothecary/context.rb): a scope of variables with
 * an ordered list of parent scopes, the lookup that falls back on the parents,
 * and interpolation of templates against it. A context is never changed after
 * it is built, so it is a value here.
 */
module Contexts {
  import opened RubyText
  import opened Values
  import Templates

  datatype Scope = Scope(locals: map<string, Value>, parents: seq<Scope>)

  /**
   * `Context.new(variables, parent_contexts)`: `variables || {}`. A hash gives
   * the local variables; nil and false give none.
   */
  function NewScope(variables: Value, parents: seq<Scope>): (s: Scope)
    ensures s.parents == parents
    ensures !Truthy(variables) ==> s.locals == map[]
    ensures variables.Hash? ==> s.locals == variables.entries
  {
    if variables.Hash? then Scope(variables.entries, parents) else Scope(map[], parents)
  }

  /**
   * `Context.new` keeps a truthy value that is not a hash as its variables,
   * and every lookup in such a context calls `has_key?` on it and raises.
   * `NewScope` gives it no locals; the callers report the raise.
   */
  predicate LookupRaises(variables: Value) {
    Truthy(variables) && !variables.Hash?
  }

  /** `has_variable?`: defined locally or in any parent, however deep. */
  predicate HasVariable(s: Scope, name: string)
    decreases s
  {
    name in s.locals || exists i :: 0 <= i < |s.parents| && HasVariable(s.parents[i], name)
  }

  /** `resolve`: the local value, else the value in the first parent that has the variable, else nil. */
  function Resolve(s: Scope, name: string): (r: Value)
    ensures name in s.locals ==> r == s.locals[name]
    ensures !HasVariable(s, name) ==> r == Null
    decreases s, 1
  {
    if name in s.locals then s.locals[name] else ResolveFrom(s, name, 0)
  }

  /** The loop over the parents in `resolve`, from parent `i` on. */
  function ResolveFrom(s: Scope, name: string, i: nat): (r: Value)
    requires i <= |s.parents|
    ensures (forall j :: i <= j < |s.parents| ==> !HasVariable(s.parents[j], name)) ==> r == Null
    decreases s, 0, |s.parents| - i
  {
    if i == |s.parents| then Null
    else if HasVariable(s.parents[i], name) then Resolve(s.parents[i], name)
    else ResolveFrom(s, name, i + 1)
  }

  /** The search through the parents depends on the parents alone. */
  lemma {:induction false} ResolveFromParents(s: Scope, t: Scope, name: string, i: nat)
    requires s.parents == t.parents && i <= |s.parents|
    ensures ResolveFrom(s, name, i) == ResolveFrom(t, name, i)
    decreases |s.parents| - i
  {
    if i < |s.parents| {
      ResolveFromParents(s, t, name, i + 1);
    }
  }

  /**
   * `evaluate`: the first segment of the dotted path is resolved in the scope,
   * the others index into the value one by one. An empty path has no first
   * segment and resolves to nil.
   */
  function Evaluate(s: Scope, expression: string): Value {
    var ids := RubySplit(expression, '.');
    if |ids| == 0 then Null else Walk(Resolve(s, ids[0]), ids[1..])
  }

  /** `interpolate` against this scope. */
  function Interpolate(s: Scope, v: Value, inspect: Templates.Inspector): Value {
    Templates.Interpolate(v, p => Evaluate(s, p), inspect)
  }

  // ----- lookup is a depth-first search --------------------------------------------------------

  /** Every scope's local variables in depth-first order: the scope, then each parent's tree in turn. */
  function Flatten(s: Scope): seq<map<string, Value>>
    decreases s, 1
  {
    [s.locals] + FlattenFrom(s, 0)
  }

  function FlattenFrom(s: Scope, i: nat): seq<map<string, Value>>
    requires i <= |s.parents|
    decreases s, 0, |s.parents| - i
  {
    if i == |s.parents| then [] else Flatten(s.parents[i]) + FlattenFrom(s, i + 1)
  }

  predicate Defines(ms: seq<map<string, Value>>, name: string) {
    exists i :: 0 <= i < |ms| && name in ms[i]
  }

  /** The value in the first map that defines `name`, nil when none does. */
  function FirstDefining(ms: seq<map<string, Value>>, name: string): Value
    decreases |ms|
  {
    if ms == [] then Null
    else if name in ms[0] then ms[0][name]
    else FirstDefining(ms[1..], name)
  }

  lemma {:induction false} DefinesAppend(a: seq<map<string, Value>>, b: seq<map<string, Value>>, name: string)
    ensures Defines(a + b, name) <==> Defines(a, name) || Defines(b, name)
  {
    if Defines(a + b, name) {
      var i :| 0 <= i < |a + b| && name in (a + b)[i];
      if i >= |a| {
        assert b[i - |a|] == (a + b)[i];
      }
    }
    if Defines(b, name) {
      var i :| 0 <= i < |b| && name in b[i];
      assert (a + b)[|a| + i] == b[i];
    }
    if Defines(a, name) {
      var i :| 0 <= i < |a| && name in a[i];
      assert (a + b)[i] == a[i];
    }
  }

  lemma {:induction false} FirstDefiningAppend(a: seq<map<string, Value>>, b: seq<map<string, Value>>, name: string)
    ensures FirstDefining(a + b, name) == if Defines(a, name) then FirstDefining(a, name) else FirstDefining(b, name)
    decreases |a|
  {
    if a == [] {
      assert a + b == b;
    } else {
      assert (a + b)[0] == a[0];
      assert (a + b)[1..] == a[1..] + b;
      FirstDefiningAppend(a[1..], b, name);
      if name !in a[0] {
        if Defines(a, name) {
          var i :| 0 <= i < |a| && name in a[i];
          assert a[1..][i - 1] == a[i];
        }
        if Defines(a[1..], name) {
          var i :| 0 <= i < |a[1..]| && name in a[1..][i];
          assert a[i + 1] == a[1..][i];
        }
      }
    }
  }

  lemma {:induction false} HasVariableFlat(s: Scope, name: string)
    ensures HasVariable(s, name) <==> Defines(Flatten(s), name)
    decreases s, 1
  {
    AnyParentFlat(s, name, 0);
    DefinesAppend([s.locals], FlattenFrom(s, 0), name);
    assert Defines([s.locals], name) <==> name in s.locals by {
      assert [s.locals][0] == s.locals;
    }
  }

  lemma {:induction false} AnyParentFlat(s: Scope, name: string, i: nat)
    requires i <= |s.parents|
    ensures (exists j :: i <= j < |s.parents| && HasVariable(s.parents[j], name)) <==> Defines(FlattenFrom(s, i), name)
    decreases s, 0, |s.parents| - i
  {
    if i < |s.parents| {
      HasVariableFlat(s.parents[i], name);
      AnyParentFlat(s, name, i + 1);
      DefinesAppend(Flatten(s.parents[i]), FlattenFrom(s, i + 1), name);
      if exists j :: i <= j < |s.parents| && HasVariable(s.parents[j], name) {
        var j :| i <= j < |s.parents| && HasVariable(s.parents[j], name);
        if j > i {
          assert i + 1 <= j;
        }
      }
    }
  }

  /**
   * `has_variable?` holds exactly when some scope of the tree, at any depth,
   * defines the variable.
   */
  lemma HasVariableIffSomeScopeDefines(s: Scope, name: string)
    ensures HasVariable(s, name) <==> exists i :: 0 <= i < |Flatten(s)| && name in Flatten(s)[i]
  {
    HasVariableFlat(s, name);
  }

  lemma {:induction false} ResolveFlat(s: Scope, name: string)
    ensures Resolve(s, name) == FirstDefining(Flatten(s), name)
    decreases s, 1
  {
    ResolveFromFlat(s, name, 0);
    FirstDefiningAppend([s.locals], FlattenFrom(s, 0), name);
    assert [s.locals][0] == s.locals;
    assert [s.locals][1..] == [];
    if name !in s.locals {
      assert !Defines([s.locals], name);
    }
  }

  lemma {:induction false} ResolveFromFlat(s: Scope, name: string, i: nat)
    requires i <= |s.parents|
    ensures ResolveFrom(s, name, i) == FirstDefining(FlattenFrom(s, i), name)
    decreases s, 0, |s.parents| - i
  {
    if i < |s.parents| {
      ResolveFlat(s.parents[i], name);
      HasVariableFlat(s.parents[i], name);
      ResolveFromFlat(s, name, i + 1);
      FirstDefiningAppend(Flatten(s.parents[i]), FlattenFrom(s, i + 1), name);
    }
  }

  /**
   * `resolve` is a depth-first search: the value comes from the first scope,
   * in the order the scope, then each parent's whole tree in turn, that
   * defines the variable; a nearer definition shadows every later one.
   */
  lemma ResolveIsDepthFirst(s: Scope, name: string)
    ensures Resolve(s, name) == FirstDefining(Flatten(s), name)
  {
    ResolveFlat(s, name);
  }

  // ----- evaluation of dotted paths ------------------------------------------------------------

  /**
   * A dotted path `w0.w1...wn` resolves its first word in the scope and then
   * indexes the value by the other words in order.
   */
  lemma EvaluateJoinedWords(s: Scope, words: seq<string>)
    requires |words| > 0
    requires forall i :: 0 <= i < |words| ==> Templates.IsWord(words[i])
    ensures Evaluate(s, JoinWith(words, '.')) == Walk(Resolve(s, words[0]), words[1..])
  {
    Templates.JoinedWordsArePath(words);
    Templates.PathSegments(JoinWith(words, '.'));
    SplitOfJoin(words, '.');
  }

  /** A path whose first word no scope defines evaluates to nil. */
  lemma UnknownRootIsNil(s: Scope, p: string)
    requires Templates.ValidPath(p)
    requires !HasVariable(s, SplitOn(p, '.')[0])
    ensures Evaluate(s, p) == Null
  {
    Templates.PathSegments(p);
  }

  /**
   * A reference to an unknown variable inside literal text is replaced by the
   * empty string.
   */
  lemma UnknownReferenceVanishes(s: Scope, before: string, p: string, after: string, inspect: Templates.Inspector)
    requires NoneOf(before, '{') && NoneOf(after, '{')
    requires Templates.ValidPath(p)
    requires !HasVariable(s, SplitOn(p, '.')[0])
    requires Templates.WholeMatch(before + "{{" + p + "}}" + after).None?
    ensures Interpolate(s, Str(before + "{{" + p + "}}" + after), inspect) == Str(before + after)
  {
    var eval: Templates.Evaluator := q => Evaluate(s, q);
    var ps := [Templates.Text(before), Templates.Ref(p), Templates.Text(after)];
    assert Templates.Compose(ps[2..]) == after + [];
    assert Templates.Compose(ps[1..]) == "{{" + p + "}}" + (after + []);
    assert Templates.Compose(ps) == before + "{{" + p + "}}" + after;
    assert Templates.WellFormedPieces(ps);
    Templates.InterpolatePieces(ps, eval, inspect);
    UnknownRootIsNil(s, p);
    assert eval(p) == Null;
    assert Templates.RenderPieces(ps[2..], eval, inspect) == after + [];
    assert Templates.RenderPieces(ps[1..], eval, inspect) == "" + (after + []);
  }
}
