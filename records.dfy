/** The node record of the diagram's JSON input, as the renderer reads it. */
module Records {

  datatype Option<+T> = None | Some(value: T)

  /** One element of the input array. A field absent from the JSON object
      (or `null`) is `None`. The display labels are not read by the core. */
  datatype Node = Node(
    id: string,
    group: Option<string>,
    x: Option<real>,
    y: Option<real>,
    children: Option<seq<string>>,
    parent: Option<string>)

  /** `n.x || 0`: a missing coordinate counts as 0. */
  function X(n: Node): real
  {
    if n.x.Some? then n.x.value else 0.0
  }

  /** `n.y || 0`. */
  function Y(n: Node): real
  {
    if n.y.Some? then n.y.value else 0.0
  }

  /** `n.children || []`. */
  function ChildList(n: Node): seq<string>
  {
    if n.children.Some? then n.children.value else []
  }

  /** A JavaScript string is truthy exactly when it is not empty. */
  predicate Truthy(s: string)
  {
    s != ""
  }
}
