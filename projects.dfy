/**
 * `Apothecary::Project` (lib/apothecary/project.rb): the naming rules that map
 * action, flow and environment names to files under the project directory,
 * the action names listed from the action files, and the lookups that read
 * those files. The project's files are a map from a path to the document
 * its YAML parses to: a path is in the map exactly when the file exists.
 */
module Projects {
  import opened Wrappers
  import opened RubyText
  import opened Values
  import FilePaths
  import Actions

  datatype Project = Project(path: string, documents: map<string, Value>)

  /** `name`: the last component of the project directory. */
  function Name(p: Project): string {
    FilePaths.Basename(p.path)
  }

  function ActionsPath(p: Project): string {
    FilePaths.Join(p.path, "actions")
  }

  function SessionsPath(p: Project): string {
    FilePaths.Join(p.path, "sessions")
  }

  function EnvironmentsPath(p: Project): string {
    FilePaths.Join(p.path, "environments")
  }

  function FlowsPath(p: Project): string {
    FilePaths.Join(p.path, "flows")
  }

  /** A project directory's name is the base name it was created under. */
  lemma NameOfProjectDirectory(parent: string, base: string, documents: map<string, Value>)
    requires |parent| > 0 && parent[|parent| - 1] != '/'
    requires |base| > 0 && NoneOf(base, '/')
    ensures Name(Project(FilePaths.Join(parent, base), documents)) == base
  {
    FilePaths.SplitOfJoin(parent, base);
  }

  // ----- the .yaml suffix rule -------------------------------------------------------------------

  /** The file name of a document: `.yaml` is appended unless the name already ends with it. */
  function YamlFileName(name: string): (r: string)
    ensures EndsWith(r, ".yaml")
    ensures EndsWith(name, ".yaml") ==> r == name
    ensures !EndsWith(name, ".yaml") ==> r == name + ".yaml"
  {
    if EndsWith(name, ".yaml") then name else name + ".yaml"
  }

  /** A name and the same name with `.yaml` written out give the same file name. */
  lemma YamlSuffixOptional(name: string)
    ensures YamlFileName(YamlFileName(name)) == YamlFileName(name)
    ensures !EndsWith(name, ".yaml") ==> YamlFileName(name + ".yaml") == YamlFileName(name)
  {
    var n := name + ".yaml";
    assert n[|n| - 5..] == ".yaml";
  }

  /** `action_file_path_from_name`. */
  function ActionFilePath(p: Project, name: string): string {
    FilePaths.Join(ActionsPath(p), YamlFileName(name))
  }

  /** `flow_file_path_from_name`. */
  function FlowFilePath(p: Project, name: string): string {
    FilePaths.Join(FlowsPath(p), YamlFileName(name))
  }

  /** An action or flow named with or without its `.yaml` suffix is the same file. */
  lemma DocumentPathIgnoresSuffix(p: Project, name: string)
    requires !EndsWith(name, ".yaml")
    ensures ActionFilePath(p, name + ".yaml") == ActionFilePath(p, name)
    ensures FlowFilePath(p, name + ".yaml") == FlowFilePath(p, name)
  {
    YamlSuffixOptional(name);
  }

  // ----- environments ------------------------------------------------------------------------------

  /**
   * `variant_path_for_environment`: `env/variant` names the variant file
   * `variant` of environment `env`; a name without a directory names the
   * `default` variant of the environment of that name.
   */
  function VariantPathForEnvironment(p: Project, name: string): string {
    var (dir, variant) := FilePaths.Split(name);
    var (envDirectory, variantName) := if dir == "." then (name, "default") else (dir, variant);
    FilePaths.Join3(EnvironmentsPath(p), envDirectory, YamlFileName(variantName))
  }

  /** A name with no slash maps to `environments/<name>/default.yaml`. */
  lemma PlainNameIsDefaultVariant(p: Project, name: string)
    requires |name| > 0 && NoneOf(name, '/')
    ensures VariantPathForEnvironment(p, name) == EnvironmentsPath(p) + "/" + name + "/default.yaml"
  {
    var e := EnvironmentsPath(p);
    PlainNameUsesDefault(p, name);
    DefaultFileName();
    FilePaths.JoinEndsWithLast(p.path, "environments");
    assert name[|name| - 1] != '/' && name[0] != '/';
    FilePaths.Join3WithSeparators(e, name, "default.yaml");
  }

  lemma PlainNameUsesDefault(p: Project, name: string)
    requires NoneOf(name, '/')
    ensures VariantPathForEnvironment(p, name) == FilePaths.Join3(EnvironmentsPath(p), name, YamlFileName("default"))
  {
    assert FilePaths.Split(name) == (".", name);
  }

  lemma DefaultFileName()
    ensures YamlFileName("default") == "default.yaml"
  {
    assert !EndsWith("default", ".yaml");
  }

  /**
   * `env/variant` maps to `environments/<env>/<variant>.yaml`, and a variant
   * already written with `.yaml` maps to the same file.
   */
  lemma VariantNameSplitsAtSlash(p: Project, env: string, variant: string)
    requires |env| > 0 && NoneOf(env, '/') && env != "." && env[|env| - 1] != '/'
    requires |variant| > 0 && NoneOf(variant, '/') && !EndsWith(variant, ".yaml")
    ensures VariantPathForEnvironment(p, env + "/" + variant) == EnvironmentsPath(p) + "/" + env + "/" + variant + ".yaml"
    ensures VariantPathForEnvironment(p, env + "/" + variant + ".yaml") == VariantPathForEnvironment(p, env + "/" + variant)
  {
    var e := EnvironmentsPath(p);
    var v2 := variant + ".yaml";
    assert NoneOf(v2, '/') by {
      assert forall i :: 0 <= i < |variant| ==> v2[i] == variant[i];
      assert v2[|variant|..] == ".yaml";
    }
    assert env + "/" + variant + ".yaml" == env + "/" + v2;
    VariantPathOfQualifiedName(p, env, variant);
    VariantPathOfQualifiedName(p, env, v2);
    YamlSuffixOptional(variant);
    assert YamlFileName(variant) == v2 && YamlFileName(v2) == v2;
    FilePaths.JoinEndsWithLast(p.path, "environments");
    FilePaths.Join3WithSeparators(e, env, v2);
  }

  /** `<env>/<variant>` names the variant file of the environment directory `<env>`. */
  lemma VariantPathOfQualifiedName(p: Project, env: string, variant: string)
    requires |env| > 0 && env != "." && env[|env| - 1] != '/'
    requires |variant| > 0 && NoneOf(variant, '/')
    ensures VariantPathForEnvironment(p, env + "/" + variant) == FilePaths.Join3(EnvironmentsPath(p), env, YamlFileName(variant))
  {
    FilePaths.SplitOfJoin(env, variant);
  }

  /** `variables_for_environment`: the variant file's document, `{}` when there is none. */
  function VariablesForEnvironment(p: Project, name: string): (r: Value)
    ensures VariantPathForEnvironment(p, name) !in p.documents ==> r == Hash(map[])
    ensures VariantPathForEnvironment(p, name) in p.documents ==> r == p.documents[VariantPathForEnvironment(p, name)]
  {
    var path := VariantPathForEnvironment(p, name);
    if path in p.documents then p.documents[path] else Hash(map[])
  }

  // ----- action names ------------------------------------------------------------------------------

  /** Whether `.yaml` ends a line of `s` at position `i`, as `/\.yaml$/` matches there. */
  predicate YamlSuffixAt(s: string, i: nat) {
    i + 5 <= |s| && s[i..i + 5] == ".yaml" && (i + 5 == |s| || s[i + 5] == '\n')
  }

  /** The first position from `i` on at which `/\.yaml$/` matches. */
  function FirstYamlSuffix(s: string, i: nat): (r: Option<nat>)
    requires i <= |s|
    ensures r.Some? ==> i <= r.value && YamlSuffixAt(s, r.value)
    ensures r.Some? ==> forall j :: i <= j < r.value ==> !YamlSuffixAt(s, j)
    ensures r.None? ==> forall j :: i <= j <= |s| ==> !YamlSuffixAt(s, j)
    decreases |s| - i
  {
    if YamlSuffixAt(s, i) then Some(i)
    else if i == |s| then None
    else FirstYamlSuffix(s, i + 1)
  }

  /** `sub(/\.yaml$/, '')`: the first `.yaml` that ends a line is removed. */
  function StripYaml(s: string): string {
    match FirstYamlSuffix(s, 0)
    case Some(i) => s[..i] + s[i + 5..]
    case None => s
  }

  /** On a one-line name, the `.yaml` suffix is removed when present and nothing else changes. */
  lemma StripYamlOfLine(s: string)
    requires NoneOf(s, '\n')
    ensures EndsWith(s, ".yaml") ==> StripYaml(s) == s[..|s| - 5]
    ensures !EndsWith(s, ".yaml") ==> StripYaml(s) == s
  {
    match FirstYamlSuffix(s, 0)
    case Some(i) =>
      assert i + 5 == |s|;
      assert s[i..] == ".yaml";
      assert s[..i] + s[i + 5..] == s[..i];
    case None =>
      assert |s| >= 5 ==> !YamlSuffixAt(s, |s| - 5);
  }

  /** A one-line name written with the `.yaml` suffix lists as the name. */
  lemma StripYamlOfFileName(name: string)
    requires NoneOf(name, '\n')
    ensures StripYaml(name + ".yaml") == name
  {
    var s := name + ".yaml";
    assert NoneOf(s, '\n') by {
      assert forall i :: 0 <= i < |name| ==> s[i] == name[i];
      assert s[|name|..] == ".yaml";
    }
    assert s[|s| - 5..] == ".yaml";
    StripYamlOfLine(s);
    assert s[..|s| - 5] == name;
  }

  /** Ruby's `String#<=>` on code points: the first difference decides, a prefix comes first. */
  predicate LexLessEq(a: string, b: string)
    decreases |a|
  {
    if a == [] then true
    else if b == [] then false
    else if a[0] != b[0] then a[0] < b[0]
    else LexLessEq(a[1..], b[1..])
  }

  lemma {:induction false} LexReflexive(a: string)
    ensures LexLessEq(a, a)
    decreases |a|
  {
    if a != [] {
      LexReflexive(a[1..]);
    }
  }

  lemma {:induction false} LexTotal(a: string, b: string)
    ensures LexLessEq(a, b) || LexLessEq(b, a)
    decreases |a|
  {
    if a != [] && b != [] && a[0] == b[0] {
      LexTotal(a[1..], b[1..]);
    }
  }

  lemma {:induction false} LexTransitive(a: string, b: string, c: string)
    requires LexLessEq(a, b) && LexLessEq(b, c)
    ensures LexLessEq(a, c)
    decreases |a|
  {
    if a != [] && b != [] && c != [] && a[0] == b[0] && b[0] == c[0] {
      LexTransitive(a[1..], b[1..], c[1..]);
    }
  }

  lemma {:induction false} LexAntisymmetric(a: string, b: string)
    requires LexLessEq(a, b) && LexLessEq(b, a)
    ensures a == b
    decreases |a|
  {
    if a != [] {
      LexAntisymmetric(a[1..], b[1..]);
      assert a == [a[0]] + a[1..] && b == [b[0]] + b[1..];
    }
  }

  predicate Sorted(s: seq<string>) {
    forall i, j :: 0 <= i < j < |s| ==> LexLessEq(s[i], s[j])
  }

  /** `x` placed before the first element it does not follow. */
  function Insert(x: string, s: seq<string>): (r: seq<string>)
    requires Sorted(s)
    ensures Sorted(r)
    ensures multiset(r) == multiset(s) + multiset{x}
    decreases |s|
  {
    if s == [] then [x]
    else if LexLessEq(x, s[0]) then
      PrecedesAll(x, s);
      SortedCons(x, s);
      [x] + s
    else
      LexTotal(x, s[0]);
      var rest := Insert(x, s[1..]);
      HeadPrecedesInserted(s, x, rest);
      SortedCons(s[0], rest);
      assert s == [s[0]] + s[1..];
      [s[0]] + rest
  }

  /** What comes before the head of a sorted list comes before all of it. */
  lemma PrecedesAll(x: string, s: seq<string>)
    requires Sorted(s) && |s| > 0 && LexLessEq(x, s[0])
    ensures forall j :: 0 <= j < |s| ==> LexLessEq(x, s[j])
  {
    forall j | 0 < j < |s| ensures LexLessEq(x, s[j]) {
      LexTransitive(x, s[0], s[j]);
    }
  }

  /** The head of a sorted list precedes the tail with an element it precedes inserted. */
  lemma HeadPrecedesInserted(s: seq<string>, x: string, rest: seq<string>)
    requires Sorted(s) && |s| > 0 && LexLessEq(s[0], x)
    requires multiset(rest) == multiset(s[1..]) + multiset{x}
    ensures forall j :: 0 <= j < |rest| ==> LexLessEq(s[0], rest[j])
  {
    forall j | 0 <= j < |rest| ensures LexLessEq(s[0], rest[j]) {
      assert rest[j] in multiset(rest);
      if rest[j] != x {
        assert rest[j] in multiset(s[1..]);
        var k :| 0 <= k < |s[1..]| && s[1..][k] == rest[j];
        assert s[k + 1] == rest[j];
      }
    }
  }

  /** An element that precedes every element of a sorted list can go in front of it. */
  lemma SortedCons(y: string, r: seq<string>)
    requires Sorted(r)
    requires forall j :: 0 <= j < |r| ==> LexLessEq(y, r[j])
    ensures Sorted([y] + r)
  {
    var t := [y] + r;
    forall i, j | 0 <= i < j < |t| ensures LexLessEq(t[i], t[j]) {
      assert t[j] == r[j - 1];
      if i > 0 {
        assert t[i] == r[i - 1];
      }
    }
  }

  /** `sort` of a list of strings. */
  function Sort(s: seq<string>): (r: seq<string>)
    ensures Sorted(r)
    ensures multiset(r) == multiset(s)
    decreases |s|
  {
    if s == [] then []
    else
      assert s == [s[0]] + s[1..];
      Insert(s[0], Sort(s[1..]))
  }

  /** The head of a sorted list comes before each of its elements. */
  lemma SortedHeadFirst(a: seq<string>, x: string)
    requires Sorted(a) && x in multiset(a)
    ensures |a| > 0 && LexLessEq(a[0], x)
  {
    var j :| 0 <= j < |a| && a[j] == x;
    LexReflexive(a[0]);
    assert j > 0 ==> LexLessEq(a[0], a[j]);
  }

  lemma SortedTail(a: seq<string>)
    requires Sorted(a) && |a| > 0
    ensures Sorted(a[1..])
    ensures multiset(a) == multiset{a[0]} + multiset(a[1..])
  {
    assert a == [a[0]] + a[1..];
  }

  /** Sorting is deterministic: two sorted lists with the same elements are equal. */
  lemma {:induction false} SortedUnique(a: seq<string>, b: seq<string>)
    requires Sorted(a) && Sorted(b) && multiset(a) == multiset(b)
    ensures a == b
    decreases |a|
  {
    assert |a| == |multiset(a)| == |b|;
    if a != [] {
      TailsAgree(a, b);
      SortedUnique(a[1..], b[1..]);
      assert a == [a[0]] + a[1..] && b == [b[0]] + b[1..];
    }
  }

  /** Two non-empty sorted lists with the same elements agree on their heads and on the elements of their tails. */
  lemma TailsAgree(a: seq<string>, b: seq<string>)
    requires Sorted(a) && Sorted(b) && multiset(a) == multiset(b) && |a| > 0
    ensures |b| > 0 && a[0] == b[0]
    ensures Sorted(a[1..]) && Sorted(b[1..]) && multiset(a[1..]) == multiset(b[1..])
  {
    SameHead(a, b);
    SortedTail(a);
    SortedTail(b);
    assert multiset(a[1..]) == multiset(a) - multiset{a[0]};
    assert multiset(b[1..]) == multiset(b) - multiset{b[0]};
  }

  /** Two non-empty sorted lists with the same elements start with the same element. */
  lemma SameHead(a: seq<string>, b: seq<string>)
    requires Sorted(a) && Sorted(b) && multiset(a) == multiset(b) && |a| > 0
    ensures |b| > 0 && a[0] == b[0]
  {
    assert a[0] in multiset(a);
    SortedHeadFirst(b, a[0]);
    SortedHeadFirst(a, b[0]);
    LexAntisymmetric(a[0], b[0]);
  }

  /**
   * `action_names`, given the action files' paths relative to the actions
   * directory: each without its `.yaml` suffix, in sorted order.
   */
  function ActionNames(relativePaths: seq<string>): (r: seq<string>)
    ensures Sorted(r)
    ensures multiset(r) == multiset(seq(|relativePaths|, i requires 0 <= i < |relativePaths| => StripYaml(relativePaths[i])))
  {
    Sort(seq(|relativePaths|, i requires 0 <= i < |relativePaths| => StripYaml(relativePaths[i])))
  }

  /** The action names are the one sorted arrangement of the stripped paths. */
  lemma ActionNamesUnique(relativePaths: seq<string>, names: seq<string>)
    requires Sorted(names)
    requires multiset(names) == multiset(seq(|relativePaths|, i requires 0 <= i < |relativePaths| => StripYaml(relativePaths[i])))
    ensures names == ActionNames(relativePaths)
  {
    SortedUnique(names, ActionNames(relativePaths));
  }

  // ----- lookups -----------------------------------------------------------------------------------

  /** `action_data_named`: the action file's hash with `action_name` set, nil when the file is missing. */
  function ActionDataNamed(p: Project, name: string): (r: Result<Option<map<string, Value>>>)
    ensures ActionFilePath(p, name) !in p.documents ==> r == Success(None)
    ensures r.Success? && r.value.Some? ==> "action_name" in r.value.value && r.value.value["action_name"] == Str(name)
    ensures ActionFilePath(p, name) in p.documents && p.documents[ActionFilePath(p, name)].Hash? ==>
      r.Success? && r.value.Some? && r.value.value.Keys == p.documents[ActionFilePath(p, name)].entries.Keys + {"action_name"}
    ensures ActionFilePath(p, name) in p.documents && p.documents[ActionFilePath(p, name)].Hash? ==>
      forall k :: k in r.value.value && k != "action_name" ==> r.value.value[k] == p.documents[ActionFilePath(p, name)].entries[k]
    ensures ActionFilePath(p, name) in p.documents && !p.documents[ActionFilePath(p, name)].Hash? ==> r.Failure?
  {
    var path := ActionFilePath(p, name);
    if path !in p.documents then Success(None)
    else
      match p.documents[path]
      case Hash(m) => Success(Some(m["action_name" := Str(name)]))
      case _ => Failure("undefined method `merge'")
  }

  /** `action_data_named!`: a missing action file is an error. */
  function ActionDataNamedBang(p: Project, name: string): (r: Result<map<string, Value>>)
    ensures ActionFilePath(p, name) !in p.documents ==> r == Failure("Unknown action: " + name)
    ensures r.Success? ==> ActionDataNamed(p, name) == Success(Some(r.value))
    ensures ActionDataNamed(p, name).Success? && ActionDataNamed(p, name).value.Some? ==> r.Success?
  {
    match ActionDataNamed(p, name)
    case Failure(e) => Failure(e)
    case Success(None) => Failure("Unknown action: " + name)
    case Success(Some(data)) => Success(data)
  }

  /** `action_named!`: the action around the data, which carries `action_name` equal to the name. */
  function ActionNamedBang(p: Project, name: string): (r: Result<Actions.Action>)
    ensures ActionFilePath(p, name) !in p.documents ==> r == Failure("Unknown action: " + name)
    ensures r.Success? ==> ActionDataNamedBang(p, name) == Success(r.value.data)
    ensures r.Success? ==> "action_name" in r.value.data && r.value.data["action_name"] == Str(name)
    ensures r.Success? ==> Actions.Title(r.value) == Or(Fetch(r.value.data, "title"), Str(name))
  {
    match ActionDataNamedBang(p, name)
    case Failure(e) => Failure(e)
    case Success(data) =>
      assert data["action_name" := Str(name)] == data;
      Success(Actions.Action(data["action_name" := Str(name)]))
  }

  /** `flow_named`: the flow file's document, nil when the file is missing. */
  function FlowNamed(p: Project, name: string): (r: Option<Value>)
    ensures r.Some? <==> FlowFilePath(p, name) in p.documents
    ensures r.Some? ==> r.value == p.documents[FlowFilePath(p, name)]
  {
    var path := FlowFilePath(p, name);
    if path in p.documents then Some(p.documents[path]) else None
  }

  /** `flow_named!`: a missing flow, or one whose document is nil or false, is an error. */
  function FlowNamedBang(p: Project, name: string): (r: Result<Value>)
    ensures r.Success? <==> FlowNamed(p, name).Some? && Truthy(FlowNamed(p, name).value)
    ensures r.Success? ==> r.value == p.documents[FlowFilePath(p, name)]
    ensures r.Failure? ==> r.error == "Unknown flow: " + name
  {
    match FlowNamed(p, name)
    case Some(v) => if Truthy(v) then Success(v) else Failure("Unknown flow: " + name)
    case None => Failure("Unknown flow: " + name)
  }

  // ----- session options ---------------------------------------------------------------------------

  /** An options hash key: a string or a symbol. */
  datatype OptionKey = StrKey(s: string) | SymKey(sym: string)

  function OptionValue(options: map<OptionKey, Value>, name: string): Value {
    Or(if StrKey(name) in options then options[StrKey(name)] else Null,
       if SymKey(name) in options then options[SymKey(name)] else Null)
  }

  datatype SessionOptions = SessionOptions(environments: Value, variables: Value, title: Value)

  /**
   * The option reading of `create_session`: each option under its string key,
   * else its symbol key; environments default to `[]`, variables to `{}`, and
   * the title has no default.
   */
  function CreateSessionOptions(options: map<OptionKey, Value>): (r: SessionOptions)
    ensures StrKey("environments") in options && Truthy(options[StrKey("environments")]) ==> r.environments == options[StrKey("environments")]
    ensures !(StrKey("environments") in options && Truthy(options[StrKey("environments")])) && SymKey("environments") in options && Truthy(options[SymKey("environments")]) ==>
      r.environments == options[SymKey("environments")]
    ensures !Truthy(OptionValue(options, "environments")) ==> r.environments == List([])
    ensures StrKey("variables") in options && Truthy(options[StrKey("variables")]) ==> r.variables == options[StrKey("variables")]
    ensures !(StrKey("variables") in options && Truthy(options[StrKey("variables")])) && SymKey("variables") in options && Truthy(options[SymKey("variables")]) ==>
      r.variables == options[SymKey("variables")]
    ensures !Truthy(OptionValue(options, "variables")) ==> r.variables == Hash(map[])
    ensures Truthy(r.environments) && Truthy(r.variables)
    ensures r.title == OptionValue(options, "title")
  {
    SessionOptions(Or(OptionValue(options, "environments"), List([])), Or(OptionValue(options, "variables"), Hash(map[])), OptionValue(options, "title"))
  }
}
