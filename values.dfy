/**
 * The JSON/YAML-shaped values the templating works on, and the three bits of
 * Ruby semantics applied to them: truthiness, `a || b` and `value[key]`.
 */
module Values {
  import opened RubyText

  /** Hash keys are strings; floating-point numbers are not modelled. */
  datatype Value =
    | Null
    | Bool(b: bool)
    | Num(n: int)
    | Str(s: string)
    | List(items: seq<Value>)
    | Hash(entries: map<string, Value>)

  /** Ruby truthiness: only nil and false are false. */
  predicate Truthy(v: Value) {
    v != Null && v != Bool(false)
  }

  /** Ruby's `a || b`. */
  function Or(a: Value, b: Value): Value {
    if Truthy(a) then a else b
  }

  /** `hash[key]`, which is nil for an absent key. */
  function Fetch(m: map<string, Value>, key: string): Value {
    if key in m then m[key] else Null
  }

  /**
   * One step of a dotted path: `value[identifier] unless value.nil?`.
   * A hash gives its entry; a string gives the identifier when it occurs in
   * the string (`String#[]` with a string argument); every other value gives nil.
   */
  function Index(v: Value, key: string): Value {
    match v
    case Hash(m) => Fetch(m, key)
    case Str(s) => if IsSubstring(key, s) then Str(key) else Null
    case _ => Null
  }

  /** The `reduce` of `Index` over the remaining segments of a path. */
  function Walk(v: Value, keys: seq<string>): (r: Value)
    ensures v == Null ==> r == Null
    ensures |keys| > 0 && !v.Hash? && !v.Str? ==> r == Null
    decreases |keys|
  {
    if keys == [] then v else Walk(Index(v, keys[0]), keys[1..])
  }
}
