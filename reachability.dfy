/**
 Reachability over the live nodes of a graph. A store maps the identity of
 every live node to its value; an edge whose target is not in the store
 dangles and leads nowhere.
 */
module Reachability {
  import opened Nodes

  type Store<T> = map<NodeId, Node<T>>

  /** Live node `a` has an edge to live node `t`. */
  ghost predicate HasEdgeTo<T>(store: Store<T>, a: NodeId, t: NodeId)
  {
    a in store && t in store && exists e :: e in store[a].edges && e.target == t
  }

  /** `p` is a non-empty walk along edges between live nodes. */
  ghost predicate IsPath<T>(store: Store<T>, p: seq<NodeId>)
  {
    |p| > 0 && p[0] in store &&
    forall i :: 0 <= i < |p| - 1 ==> HasEdgeTo(store, p[i], p[i + 1])
  }

  /** `b` can be reached from `a` by following zero or more edges. */
  ghost predicate Reachable<T>(store: Store<T>, a: NodeId, b: NodeId)
  {
    exists p :: IsPath(store, p) && p[0] == a && p[|p| - 1] == b
  }

  /** Node `b` is live and every one of its edges resolves. */
  ghost predicate EdgesLive<T>(store: Store<T>, b: NodeId)
  {
    b in store && forall e :: e in store[b].edges ==> e.target in store
  }

  /** No node reachable from `a` holds a dangling edge. */
  ghost predicate NoDanglingFrom<T>(store: Store<T>, a: NodeId)
  {
    forall b :: Reachable(store, a, b) ==> EdgesLive(store, b)
  }

  /** The key map and the store agree: every key names a live node carrying
      that key, and every live node is the one named by its own key. */
  ghost predicate KeyIndex<T>(nodes: map<string, NodeId>, store: Store<T>)
  {
    (forall k :: k in nodes ==> nodes[k] in store && store[nodes[k]].key == k) &&
    (forall id :: id in store ==> store[id].key in nodes && nodes[store[id].key] == id)
  }

  /** The keys of the live nodes reachable from `a`. */
  ghost function ReachableKeys<T>(nodes: map<string, NodeId>, store: Store<T>, a: NodeId): set<string>
  {
    set k | k in nodes && Reachable(store, a, nodes[k])
  }

  /** The key of every edge successor of `u` is in `keys`. */
  ghost predicate SuccessorsIn<T>(store: Store<T>, u: NodeId, keys: set<string>)
  {
    forall t :: HasEdgeTo(store, u, t) ==> store[t].key in keys
  }

  /** Every live node reaches itself. */
  lemma ReachesItself<T>(store: Store<T>, a: NodeId)
    requires a in store
    ensures Reachable(store, a, a)
  {
    assert IsPath(store, [a]);
  }

  /** Only live nodes are reachable. */
  lemma ReachedIsLive<T>(store: Store<T>, a: NodeId, b: NodeId)
    requires Reachable(store, a, b)
    ensures a in store && b in store
  {
    var p :| IsPath(store, p) && p[0] == a && p[|p| - 1] == b;
    if |p| > 1 {
      assert HasEdgeTo(store, p[|p| - 2], p[|p| - 1]);
    }
  }

  /** An edge followed by a walk is a walk. */
  lemma EdgeThenReach<T>(store: Store<T>, a: NodeId, t: NodeId, b: NodeId)
    requires HasEdgeTo(store, a, t) && Reachable(store, t, b)
    ensures Reachable(store, a, b)
  {
    var p :| IsPath(store, p) && p[0] == t && p[|p| - 1] == b;
    var q := [a] + p;
    forall i | 0 <= i < |q| - 1
      ensures HasEdgeTo(store, q[i], q[i + 1])
    {
      if i > 0 {
        assert q[i] == p[i - 1] && q[i + 1] == p[i];
      }
    }
    assert IsPath(store, q);
  }

  /** A set of nodes that holds `a` and is closed under edges holds
      everything reachable from `a`. */
  lemma ClosedSetHoldsReachable<T>(store: Store<T>, s: set<NodeId>, a: NodeId, b: NodeId)
    requires a in s
    requires forall u, t :: u in s && HasEdgeTo(store, u, t) ==> t in s
    requires Reachable(store, a, b)
    ensures b in s
  {
    var p :| IsPath(store, p) && p[0] == a && p[|p| - 1] == b;
    var i := 0;
    while i < |p| - 1
      invariant 0 <= i < |p|
      invariant p[i] in s
    {
      assert HasEdgeTo(store, p[i], p[i + 1]);
      i := i + 1;
    }
  }

  /** From a node without edges nothing but the node itself is reachable. */
  lemma NoEdgesReachesOnlyItself<T>(store: Store<T>, a: NodeId, b: NodeId)
    requires a in store && store[a].edges == []
    requires Reachable(store, a, b)
    ensures b == a
  {
    var p :| IsPath(store, p) && p[0] == a && p[|p| - 1] == b;
    if |p| > 1 {
      PathStep(store, p, 0);
      assert false;
    }
  }

  /** Consecutive nodes of a path are joined by an edge. Called where the
      path cannot exist, so that the edge fact arrives without an assertion
      in a contradictory branch. */
  lemma PathStep<T>(store: Store<T>, p: seq<NodeId>, i: nat)
    requires IsPath(store, p) && i + 1 < |p|
    ensures HasEdgeTo(store, p[i], p[i + 1])
  {
  }

  /** Freedom from dangling edges carries over from a node to its successors. */
  lemma NoDanglingAlongEdge<T>(store: Store<T>, a: NodeId, t: NodeId)
    requires NoDanglingFrom(store, a) && HasEdgeTo(store, a, t)
    ensures NoDanglingFrom(store, t)
  {
    forall b | Reachable(store, t, b)
      ensures EdgesLive(store, b)
    {
      EdgeThenReach(store, a, t, b);
    }
  }

  /** A graph in which no live node has a dangling edge is free of dangling
      edges from every node. */
  lemma AllLiveNoDangling<T>(store: Store<T>, a: NodeId)
    requires forall id :: id in store ==> EdgesLive(store, id)
    ensures NoDanglingFrom(store, a)
  {
    forall b | Reachable(store, a, b)
      ensures EdgesLive(store, b)
    {
      ReachedIsLive(store, a, b);
    }
  }

  /** Every key in `trace` names a live node reachable from `root`. */
  ghost predicate ReachFrom<T>(nodes: map<string, NodeId>, store: Store<T>, root: NodeId, trace: seq<string>)
  {
    forall k :: k in trace ==> k in nodes && Reachable(store, root, nodes[k])
  }

  /** Every node named in `trace` has the keys of all its successors in `keys`. */
  ghost predicate ClosedUnder<T>(nodes: map<string, NodeId>, store: Store<T>, trace: seq<string>, keys: set<string>)
  {
    forall k :: k in trace ==> k in nodes && SuccessorsIn(store, nodes[k], keys)
  }

  /** Keys reachable from `t`, reached through an edge from `root`, are
      reachable from `root`; closure survives a larger key set. */
  lemma ExtendWalk<T>(nodes: map<string, NodeId>, store: Store<T>, root: NodeId, t: NodeId,
                      trace: seq<string>, sub: seq<string>, keys: set<string>, keys': set<string>)
    requires HasEdgeTo(store, root, t)
    requires ReachFrom(nodes, store, root, trace) && ReachFrom(nodes, store, t, sub)
    requires |trace| > 0 && ClosedUnder(nodes, store, trace[1..], keys)
    requires ClosedUnder(nodes, store, sub, keys') && keys <= keys'
    ensures ReachFrom(nodes, store, root, trace + sub)
    ensures ClosedUnder(nodes, store, (trace + sub)[1..], keys')
  {
    forall k | k in sub
      ensures Reachable(store, root, nodes[k])
    {
      EdgeThenReach(store, root, t, nodes[k]);
    }
    assert (trace + sub)[1..] == trace[1..] + sub;
  }

  /** Once every edge of `root` leads to a key in `keys`, the whole walk is
      closed under `keys`. */
  lemma FinishWalk<T>(nodes: map<string, NodeId>, store: Store<T>, root: NodeId, trace: seq<string>, keys: set<string>)
    requires KeyIndex(nodes, store) && root in store
    requires forall e :: e in store[root].edges && e.target in store ==> store[e.target].key in keys
    requires |trace| > 0 && trace[0] == store[root].key
    requires ClosedUnder(nodes, store, trace[1..], keys)
    ensures ClosedUnder(nodes, store, trace, keys)
  {
    forall k | k in trace
      ensures k in nodes && SuccessorsIn(store, nodes[k], keys)
    {
      var i :| 0 <= i < |trace| && trace[i] == k;
      if i > 0 {
        assert trace[1..][i - 1] == k;
      } else {
        forall t | HasEdgeTo(store, root, t)
          ensures store[t].key in keys
        {
          var e :| e in store[root].edges && e.target == t;
        }
      }
    }
  }

  /** A walk whose keys are reachable from `a`, that starts at `a` and is
      closed under its own keys, names exactly the keys reachable from `a`. */
  lemma ClosedWalkIsReachableKeys<T>(nodes: map<string, NodeId>, store: Store<T>, a: NodeId, trace: seq<string>)
    requires KeyIndex(nodes, store) && a in store && store[a].key in trace
    requires ReachFrom(nodes, store, a, trace)
    requires ClosedUnder(nodes, store, trace, set k | k in trace)
    ensures (set k | k in trace) == ReachableKeys(nodes, store, a)
  {
    var keys := set k | k in trace;
    var s := set k | k in keys :: nodes[k];
    assert nodes[store[a].key] == a;
    forall u, t | u in s && HasEdgeTo(store, u, t)
      ensures t in s
    {
      var k :| k in keys && nodes[k] == u;
      assert SuccessorsIn(store, nodes[k], keys);
      assert store[t].key in keys;
      assert nodes[store[t].key] == t;
    }
    forall k | k in ReachableKeys(nodes, store, a)
      ensures k in keys
    {
      ClosedSetHoldsReachable(store, s, a, nodes[k]);
      var k' :| k' in keys && nodes[k'] == nodes[k];
      assert k' == store[nodes[k']].key;
    }
  }
}
