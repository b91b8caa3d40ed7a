/**
 The value types of the dependency graph: an edge is a weight plus a
 non-owning reference to a node allocation, and a node is a keyed payload
 with an ordered, append-only list of outgoing edges.
 */
module Nodes {

  /** The signed 32-bit integer type of an edge weight. */
  newtype i32 = x: int | -0x8000_0000 <= x < 0x8000_0000

  /** The identity of one node allocation: what `Rc`/`Weak` point at.
      Ids are never reused, so an edge to a dropped node cannot resolve
      to a later node stored under the same key. */
  type NodeId = nat

  /** A weighted edge whose target is held by identity, not by key. */
  datatype Edge = Edge(weight: i32, target: NodeId)

  /** A node: its key, an opaque payload and its outgoing edges in
      insertion order. */
  datatype Node<T> = Node(key: string, data: T, edges: seq<Edge>)

  /** A node as `Node::new` builds it: no edges yet. */
  function NewNode<T>(key: string, data: T): Node<T>
  {
    Node(key, data, [])
  }

  /** `Node::add_edge`: the node with one more edge at the end of its list. */
  function PushEdge<T>(n: Node<T>, target: NodeId, weight: i32): (r: Node<T>)
    ensures r.key == n.key && r.data == n.data
    ensures |r.edges| == |n.edges| + 1
    ensures r.edges[..|n.edges|] == n.edges
    ensures r.edges[|n.edges|] == Edge(weight, target)
  {
    n.(edges := n.edges + [Edge(weight, target)])
  }
}
