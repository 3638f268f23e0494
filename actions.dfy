/**
 * `Apothecary::Action` (lib/apothecary/action.rb): an action's data, its
 * title, and the interpolation of every field except the ones that describe
 * the action itself.
 */
module Actions {
  import opened Values
  import Templates

  datatype Action = Action(data: map<string, Value>)

  /** `UNINTERPOLATED_KEYS`. */
  const UninterpolatedKeys: set<string> := {"outputs", "title", "action_name"}

  /** `title`: `data['title'] || data['action_name']`. */
  function Title(a: Action): (r: Value)
    ensures "title" in a.data && Truthy(a.data["title"]) ==> r == a.data["title"]
    ensures !("title" in a.data && Truthy(a.data["title"])) ==> r == Fetch(a.data, "action_name")
  {
    Or(Fetch(a.data, "title"), Fetch(a.data, "action_name"))
  }

  /**
   * `Action.interpolate_data`: the fields outside `UNINTERPOLATED_KEYS`
   * interpolated, merged over the original data. The original is a value and
   * cannot be changed.
   */
  function InterpolateData(data: map<string, Value>, eval: Templates.Evaluator, inspect: Templates.Inspector): (r: map<string, Value>)
    ensures r.Keys == data.Keys
    ensures forall k :: k in data && k in UninterpolatedKeys ==> r[k] == data[k]
    ensures forall k :: k in data && k !in UninterpolatedKeys ==> r[k] == Templates.Interpolate(data[k], eval, inspect)
  {
    var rejected := map k | k in data && k !in UninterpolatedKeys :: data[k];
    var interpolated := Templates.Interpolate(Hash(rejected), eval, inspect);
    data + interpolated.entries
  }

  /**
   * `build_request_data!`: the action's data through `interpolate_data`; the
   * keys stay the same and so does the title.
   */
  function BuildRequestData(a: Action, eval: Templates.Evaluator, inspect: Templates.Inspector): (r: map<string, Value>)
    ensures r.Keys == a.data.Keys
    ensures forall k :: k in r && k in UninterpolatedKeys ==> r[k] == a.data[k]
    ensures Title(Action(r)) == Title(a)
  {
    InterpolateData(a.data, eval, inspect)
  }
}
