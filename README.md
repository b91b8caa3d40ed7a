# A verified model of the `dag` dependency graph

This project models, in Dafny, the `Dag` dependency graph of the Rust crate `dag` (`src/lib.rs`). The graph is a keyed store of nodes. Each node holds an opaque payload and an ordered list of weighted outgoing edges. Edges are non-owning references to node identities, so an edge to a removed or replaced node dangles. `update` marks a key *invalidated*. `dispatch` walks, depth first and pre-order, every node reachable from each invalidated key that is still present, with a fresh visited set per root. It then clears the invalidated set.

## Structure

- `nodes.dfy`, module `Nodes`: the `Edge` and `Node` value types and the signed 32-bit weight type `i32`. `NewNode` models `Node::new` and `PushEdge` models `Node::add_edge`. A `NodeId` stands for the allocation that an `Rc`/`Weak` points at.
- `reachability.dfy`, module `Reachability`: walks along edges between live nodes, reachability, freedom from dangling edges, and the lemmas the traversal proof rests on.
- `dag.dfy`, module `Graph`: class `Dag<T>` with the operations of `src/lib.rs`.
- `scenarios.dfy`, module `Scenarios`: short client programs, each with a contract. They cover the crate's two unit tests, the edge direction, a node reached along two paths from two roots, a cycle, a repeated dispatch and replacement under a key.

### How the source's ownership is encoded

Node storage is an arena. `nodes: map<string, NodeId>` is the `HashMap<String, Rc<RefCell<Node>>>`. `store: map<NodeId, Node<T>>` holds the value of every live node, and nothing else. A node is live exactly while its key maps to it. So the `Rc` being dropped (by `insert` over an existing key, or by `remove`) is its id leaving `store`. `Weak::upgrade` is `Dag.Upgrade`: it succeeds iff the target id is still in `store`. `nextId` hands out fresh identities and is never reused. An edge to a node that was replaced under the same key therefore never resolves to the new node. `Rc::clone` in `get` is modelled by returning the id, which is the handle.

`Dag.Valid()` is the class invariant:
- `nodes` and `store` are in bijection through each node's `key` (`KeyIndex`).
- Every id and every edge target is below `nextId`.
- Every edge has weight 1, because `Dag::add_edge` is the only operation of the graph that creates edges.

Each `expect` in the source is a `requires` clause:
- `add_edge`: both keys are present.
- `get_edge_weight`: `from_key` is present, and the scan meets no dangling edge before the first match (`ScanResolves`: exactly the edges that `find` would upgrade).
- `traverse` and `dispatch`: no node reachable from the root has a dangling edge (`NoDanglingFrom`).

The callback `fn(NodeStrongRef)` of `traverse` and `dispatch` becomes a returned trace of the keys the callback would have received, in call order. `Traverse` returns the updated visited set in place of mutating the caller's `HashSet`. The iteration order of the `HashSet` in `dispatch` is unspecified, so `Dispatch` chooses the next root with `:|`. It returns a map from each root it walked to that root's trace.

## Model

| member | source | states |
|---|---|---|
| `Graph.Dag.constructor` | src/lib.rs:30-37 | a new graph has no nodes and no invalidated keys, and satisfies the invariant |
| `Graph.Dag.Get` | src/lib.rs:77-82 | a handle is returned iff the key is present; in a valid graph it is a live node that carries that key |
| `Graph.Dag.Upgrade` | src/lib.rs:69 | a weak edge reference resolves iff its target id is live, and then to exactly that id; the same resolution is made at line 90 |
| `Graph.Dag.Add` | src/lib.rs:39-43 | the key maps to a brand-new node with the payload, the key and no edges (`Node::new`, lines 112-118); any node previously under the key is dropped; no edge existing before the call targets the new node; other keys, their nodes and the invalidated set are unchanged |
| `Graph.Dag.Update` | src/lib.rs:45-53 | on a present key only that node's payload changes (same identity, key and edges) and the key joins the invalidated set; on an absent key nothing changes |
| `Graph.Dag.Remove` | src/lib.rs:55-57 | returns true iff the key was present; the key and its node are gone; the invalidated set is untouched |
| `Graph.Dag.AddEdge` | src/lib.rs:59-63 | exactly one edge of weight 1, targeting the node under `fromKey`, is appended to the node under `toKey`; nothing else changes |
| `Nodes.PushEdge` | src/lib.rs:120-126 | the edge list grows by one; the old edges stay as a prefix, in order; the new edge with the given weight and target is last; key and payload are kept |
| `Graph.Dag.GetEdgeWeight` | src/lib.rs:65-75 | the result is the weight of the first edge of `fromKey`'s node whose target is keyed `toKey`, or -1 when no edge has such a target; it is 1 iff some edge of `fromKey`'s node targets the node now under `toKey`, and -1 otherwise |
| `Graph.Dag.Traverse` | src/lib.rs:84-93 | a root whose key is already visited yields an empty trace; otherwise the trace starts with the root; no key is reported twice or was visited before; visited grows by exactly the reported keys; every reported key is reachable from the root; every reported node's successors end up visited; from an empty visited set the trace names exactly the keys reachable from the root; termination holds on cyclic graphs |
| `Graph.Dag.Dispatch` | src/lib.rs:95-108 | afterwards nothing is invalidated and the nodes are unchanged; exactly the invalidated keys still present are walked; each walk starts at its root, has no duplicates and names exactly the keys reachable from that root, so a node reachable from two roots is reported once per root |
| `Graph.NoDuplicatesConcat` | src/lib.rs:89-91 | the trace of a child walk, disjoint from what is already visited, can be appended without creating a duplicate |
| `Graph.NoDuplicatesCount` | src/lib.rs:86-88 | a duplicate-free trace has as many distinct keys as entries |
| `Reachability.ReachesItself` | src/lib.rs:86-88 | a live node is reachable from itself, so the root belongs to its own walk |
| `Reachability.ReachedIsLive` | src/lib.rs:89-91 | only live nodes are reachable, because dangling edges lead nowhere |
| `Reachability.EdgeThenReach` | src/lib.rs:89-91 | what a child reaches, its parent reaches too |
| `Reachability.ClosedSetHoldsReachable` | src/lib.rs:84-93 | a node set that contains the root and is closed under edges contains every node reachable from the root |
| `Reachability.NoEdgesReachesOnlyItself` | src/lib.rs:89-91 | from a node without edges only the node itself is reachable |
| `Reachability.NoDanglingAlongEdge` | src/lib.rs:89-91 | freedom from dangling edges carries over from a node to its successors, so the recursive call's precondition holds |
| `Reachability.AllLiveNoDangling` | src/lib.rs:89-91 | a graph with no dangling edge anywhere meets the traversal precondition from every node |
| `Reachability.ExtendWalk` | src/lib.rs:89-91 | after a child walk, every key reported so far is reachable from the root, and every non-root key stays closed under the grown visited set |
| `Reachability.FinishWalk` | src/lib.rs:89-92 | once every edge of the root leads to a visited key, the whole walk is closed |
| `Reachability.ClosedWalkIsReachableKeys` | src/lib.rs:101-102 | a walk from a fresh visited set that is sound and closed under its own keys names exactly the keys reachable from the root |
| `Scenarios.AddRemoveScenario` | src/lib.rs:133-148 | an added node is found; once removed it is absent, and a second removal reports false |
| `Scenarios.EdgelessRootTrace` | src/lib.rs:84-93 | the walk from a root that has no edges is the root alone |
| `Scenarios.EdgeDirectionScenario` | src/lib.rs:59-75 | after `add_edge("B", "A")`, `get_edge_weight("A", "B")` is 1 and `get_edge_weight("B", "A")` is -1; a dispatch after updating A reports only A, because the edge sits on B |
| `Scenarios.TwoPathsReach` | src/lib.rs:84-93 | in the graph A -> B, A -> C, B -> C, everything is reachable from A, and only B and C from B |
| `Scenarios.TwoPathsScenario` | src/lib.rs:95-108 | C is reached from A along two paths and is reported once in A's walk; it is reported again in B's walk |
| `Scenarios.CycleReach` | src/lib.rs:84-93 | in the cycle A -> B -> A both nodes are reachable from A |
| `Scenarios.CycleScenario` | src/lib.rs:84-108 | on a cycle the walk terminates and reports each node once; an immediate second dispatch reports nothing |
| `Scenarios.DispatchTwice` | src/lib.rs:95-108 | on any graph, a second dispatch straight after the first reports nothing and leaves nothing invalidated |
| `Scenarios.ReplaceScenario` | src/lib.rs:39-43 | after `add` over an existing key, an edge that targeted the old node no longer resolves, although the key is present again |

## Left out

- The `println!("Dispatching...")` at the start of `dispatch`: console output, not part of the graph's behaviour.
- `Rc`/`RefCell` reference counting and dynamic borrow checking. A node's lifetime is modelled only as "its id is in `store`". Extra strong handles that a caller keeps from `get` are not modelled: a handle is a plain id, and the model drops the node when the graph does.
- Writes through a handle from `get` are not modelled. `Node`'s fields are public and `Node::add_edge` takes any weight, so a caller of the crate can add edges of other weights or reassign `key` and `edges`. The model allows only the graph's own operations, which is why every edge has weight 1 there and the sentinel -1 is unambiguous. In the crate, an edge added through a handle can have weight -1, which `get_edge_weight` cannot tell apart from a miss.
- The `dyn Debug` payload: it is the type parameter `T`, which the graph never inspects.
- The callback functions: `Traverse` and `Dispatch` return the sequence of keys the callback would have been called with.
- The panic messages of the `expect` calls: the panics are preconditions, not behaviour.
- The iteration order of the `HashSet` in `dispatch`: `Dispatch` picks roots in an unspecified order and states its result per root, not as one global sequence.
- Graph.Dag.Traverse: the contract fixes the first key of the walk, the absence of duplicates and the set of reported keys. It does not fix the depth-first order of the keys after the first.
- Graph.Dag.Traverse: its precondition (no dangling edge on any node reachable from the root) is what the source needs when `visited` starts empty. When `visited` already holds keys, the source needs less, because it never expands nodes whose keys are already visited.
- Graph.Dag.Dispatch: it inherits that precondition for every invalidated root that is still present.
- Nodes.NewNode: a constructor function with no contract of its own. What it builds is stated by `Graph.Dag.Add`.
- The two-path example uses three nodes (A -> B, A -> C, B -> C) rather than a four-node diamond. The no-duplicates property itself is proved for every graph by `Graph.Dag.Traverse`.
