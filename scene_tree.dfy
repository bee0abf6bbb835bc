/**
 * The part of a Unity scene hierarchy that the area scripts walk: each
 * transform's tag, its optional Flower and BoxCollider components, and its
 * children in child-index order.
 */
module SceneTree {
  import opened Wrappers
  import opened Flowers

  /** A BoxCollider component; only its `enabled` flag matters here. */
  class BoxCollider {
    var enabled: bool

    constructor (enabled: bool)
      ensures this.enabled == enabled
    {
      this.enabled := enabled;
    }
  }

  datatype Node = Node(tag: string, flower: Option<Flower>, boxCollider: Option<BoxCollider>, children: seq<Node>)

  /** Number of transforms in a subtree. */
  function Size(n: Node): nat
    decreases n
  {
    1 + SizeAll(n.children)
  }

  function SizeAll(ns: seq<Node>): nat
    decreases ns
  {
    if ns == [] then 0 else SizeAll(ns[..|ns| - 1]) + Size(ns[|ns| - 1])
  }

  /** `x` is one of the nodes `ns` or lies somewhere below one of them. */
  ghost predicate InSubtrees(ns: seq<Node>, x: Node)
    decreases ns
  {
    exists k :: 0 <= k < |ns| && (ns[k] == x || InSubtrees(ns[k].children, x))
  }
}
