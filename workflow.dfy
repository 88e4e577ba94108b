/** The parsed workflow document: an ordered list of graph nodes, each with
    an id, a type, its positional `widgets_values` and its `properties`
    record, in which `properties.models` holds the persisted model entries. */
module Workflow {

  datatype Option<T> = None | Some(value: T)

  /** One element of `widgets_values`. Only string elements matter to the
      editor; every other JSON value (number, boolean, null, object) is an
      opaque token that is passed through unchanged. */
  datatype Widget = Str(s: string) | NonString(token: int)

  /** The `{name, url, directory}` record persisted in `properties.models`. */
  datatype ModelEntry = ModelEntry(name: string, url: string, directory: string)

  /** `properties`: the `"Node name for S&R"` value ("" when it is absent or
      falsy), the `models` array (None when the key is absent) and all other
      keys, which the editor never reads and never changes. */
  datatype Properties = Properties(
    searchName: string,
    models: Option<seq<ModelEntry>>,
    others: map<string, int>)

  /** A node; `widgets` is None when `widgets_values` is absent or not an
      array, `props` is None when `properties` is absent. */
  datatype Node = Node(
    id: int,
    nodeType: string,
    widgets: Option<seq<Widget>>,
    props: Option<Properties>)

  /** A node is a model loader when `properties["Node name for S&R"]` is truthy. */
  predicate IsModelLoader(n: Node) {
    n.props.Some? && n.props.value.searchName != ""
  }

  /** `nodes.find((n) => n.id === id)`: the position of the FIRST node with that id. */
  function FindById(nodes: seq<Node>, id: int): (r: Option<nat>)
    ensures r.Some? ==> r.value < |nodes| && nodes[r.value].id == id
    ensures r.Some? ==> forall j :: 0 <= j < r.value ==> nodes[j].id != id
    ensures r.None? ==> forall j :: 0 <= j < |nodes| ==> nodes[j].id != id
  {
    if |nodes| == 0 then None
    else if nodes[0].id == id then Some(0)
    else match FindById(nodes[1..], id)
      case None => None
      case Some(k) => Some(k + 1)
  }

  /** `FindById` depends only on the ids of the nodes. */
  lemma {:induction false} FindBySameIds(a: seq<Node>, b: seq<Node>, id: int)
    requires |a| == |b|
    requires forall j :: 0 <= j < |a| ==> a[j].id == b[j].id
    ensures FindById(a, id) == FindById(b, id)
  {
    if |a| > 0 && a[0].id != id {
      FindBySameIds(a[1..], b[1..], id);
    }
  }
}
