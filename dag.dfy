/**
 The dependency graph `Dag`. It owns every node under its key; edges point
 at node identities and do not keep their targets alive. `Update` marks a
 key invalidated and `Dispatch` walks, depth first, everything reachable
 from each live invalidated key, then clears the marks.

 Node storage is an arena: `nodes` maps a key to the identity of the node
 it owns and `store` maps the identity of each live node to its value. A
 node is live exactly while its key maps to it, so dropping the last
 strong reference is removing its id from `store`, and upgrading a weak
 reference is looking its id up there.
 */
module Graph {
  import opened Nodes
  import opened Reachability

  datatype Option<T> = None | Some(value: T)

  /** No key occurs twice in `s`. */
  ghost predicate NoDuplicates(s: seq<string>)
  {
    forall i, j :: 0 <= i < j < |s| ==> s[i] != s[j]
  }

  lemma NoDuplicatesConcat(a: seq<string>, b: seq<string>)
    requires NoDuplicates(a) && NoDuplicates(b)
    requires forall k :: k in b ==> k !in a
    ensures NoDuplicates(a + b)
  {
    var c := a + b;
    forall i, j | 0 <= i < j < |c|
      ensures c[i] != c[j]
    {
      if j < |a| {
        assert c[i] == a[i] && c[j] == a[j];
      } else if i < |a| {
        assert c[j] == b[j - |a|] && c[i] == a[i];
        assert b[j - |a|] in b && a[i] in a;
      } else if i >= |a| {
        assert c[i] == b[i - |a|] && c[j] == b[j - |a|];
      }
    }
  }

  /** A sequence without duplicates has as many distinct keys as entries. */
  lemma {:induction false} NoDuplicatesCount(s: seq<string>)
    requires NoDuplicates(s)
    ensures |set k | k in s| == |s|
  {
    if s != [] {
      var tail := s[1..];
      assert NoDuplicates(tail) by {
        forall i, j | 0 <= i < j < |tail|
          ensures tail[i] != tail[j]
        {
          assert tail[i] == s[i + 1] && tail[j] == s[j + 1];
        }
      }
      NoDuplicatesCount(tail);
      assert s == [s[0]] + tail;
      assert (set k | k in s) == {s[0]} + (set k | k in tail);
      assert s[0] !in tail by {
        forall j | 0 <= j < |tail|
          ensures tail[j] != s[0]
        {
          assert tail[j] == s[j + 1];
        }
      }
    }
  }

  /** The keys of a concatenation. Stated apart so that `Dag.Traverse` uses
      it as one fact rather than re-deriving it inside its loop. */
  lemma KeysOfConcat(a: seq<string>, b: seq<string>)
    ensures (set k | k in a + b) == (set k | k in a) + (set k | k in b)
  {
  }

  /** No edge before index `i` dangles or leads to a node keyed `toKey`. */
  ghost predicate NoMatchBefore<T>(store: Store<T>, edges: seq<Edge>, toKey: string, i: int)
    requires 0 <= i <= |edges|
  {
    forall j :: 0 <= j < i ==> edges[j].target in store && store[edges[j].target].key != toKey
  }

  /** Scanning `edges` for a target keyed `toKey` never meets a dangling edge:
      every edge up to and including the first match resolves. */
  ghost predicate ScanResolves<T>(store: Store<T>, edges: seq<Edge>, toKey: string)
  {
    forall i :: 0 <= i < |edges| && NoMatchBefore(store, edges, toKey, i) ==> edges[i].target in store
  }

  /** What one dispatch reports for invalidated root `k`: the walk starts at
      `k`, names no node twice and names exactly the nodes reachable from it. */
  ghost predicate IsRootTrace<T>(nodes: map<string, NodeId>, store: Store<T>, k: string, trace: seq<string>)
    requires k in nodes
  {
    |trace| > 0 && trace[0] == k && NoDuplicates(trace) &&
    (set x | x in trace) == ReachableKeys(nodes, store, nodes[k])
  }

  class Dag<T> {
    var nodes: map<string, NodeId>
    var store: Store<T>
    var invalidated: set<string>
    /** The identity the next allocated node gets. */
    var nextId: NodeId

    /** The class invariant. The weight conjunct holds because `AddEdge` is
        the only operation of the graph that creates edges. */
    ghost predicate Valid()
      reads this
    {
      KeyIndex(nodes, store) &&
      (forall id :: id in store ==> id < nextId) &&
      (forall id, e :: id in store && e in store[id].edges ==> e.target < nextId && e.weight == 1)
    }

    constructor ()
      ensures Valid()
      ensures nodes == map[] && store == map[] && invalidated == {}
    {
      nodes := map[];
      store := map[];
      invalidated := {};
      nextId := 0;
    }

    /** A handle on the node stored under `key`, if any. */
    function Get(key: string): (r: Option<NodeId>)
      reads this
      ensures r.Some? <==> key in nodes
      ensures Valid() && r.Some? ==> r.value in store && store[r.value].key == key
    {
      if key in nodes then Some(nodes[key]) else None
    }

    /** Resolves a weak edge reference: only a live target resolves. */
    function Upgrade(e: Edge): (r: Option<NodeId>)
      reads this
      ensures r.Some? <==> e.target in store
      ensures r.Some? ==> r.value == e.target
    {
      if e.target in store then Some(e.target) else None
    }

    /** Stores a brand-new node under `key`. A node already stored there is
        dropped, and no existing edge refers to the new node. */
    method Add(key: string, data: T)
      requires Valid()
      modifies this
      ensures Valid()
      ensures key in nodes && store[nodes[key]] == NewNode(key, data)
      ensures nodes == old(nodes)[key := nodes[key]]
      ensures nodes[key] !in old(store)
      ensures key in old(nodes) ==> old(nodes)[key] !in store
      ensures store == (old(store) - (if key in old(nodes) then {old(nodes)[key]} else {}))[nodes[key] := NewNode(key, data)]
      ensures forall id, e :: id in old(store) && e in old(store)[id].edges ==> e.target != nodes[key]
      ensures invalidated == old(invalidated)
    {
      var id := nextId;
      nextId := nextId + 1;
      var dropped := if key in nodes then {nodes[key]} else {};
      store := (store - dropped)[id := NewNode(key, data)];
      nodes := nodes[key := id];
    }

    /** Replaces the payload of the node under `key` in place and marks `key`
        invalidated; does nothing when `key` is absent. */
    method Update(key: string, data: T)
      requires Valid()
      modifies this
      ensures Valid()
      ensures nodes == old(nodes) && nextId == old(nextId)
      ensures key in nodes ==>
        store == old(store)[nodes[key] := Node(key, data, old(store)[nodes[key]].edges)] &&
        invalidated == old(invalidated) + {key}
      ensures key !in nodes ==> store == old(store) && invalidated == old(invalidated)
      ensures store.Keys == old(store).Keys
      ensures forall id :: id in store ==> store[id].key == old(store)[id].key && store[id].edges == old(store)[id].edges
    {
      match Get(key)
      case Some(id) =>
        store := store[id := store[id].(data := data)];
        invalidated := invalidated + {key};
      case None =>
    }

    /** Drops the node under `key`, reporting whether there was one. The
        invalidated set and the edges that refer to the node are untouched. */
    method Remove(key: string) returns (removed: bool)
      requires Valid()
      modifies this
      ensures Valid()
      ensures removed == (key in old(nodes))
      ensures nodes == old(nodes) - {key}
      ensures store == if removed then old(store) - {old(nodes)[key]} else old(store)
      ensures invalidated == old(invalidated) && nextId == old(nextId)
    {
      removed := key in nodes;
      if removed {
        store := store - {nodes[key]};
        nodes := nodes - {key};
      }
    }

    /** Appends to the edge list of the node under `toKey` one edge of weight
        1 whose target is the node under `fromKey`. */
    method AddEdge(toKey: string, fromKey: string)
      requires Valid()
      requires toKey in nodes && fromKey in nodes
      modifies this
      ensures Valid()
      ensures nodes == old(nodes) && invalidated == old(invalidated) && nextId == old(nextId)
      ensures store == old(store)[nodes[toKey] := PushEdge(old(store)[nodes[toKey]], nodes[fromKey], 1)]
    {
      var to := Get(toKey).value;
      var from := Get(fromKey).value;
      store := store[to := PushEdge(store[to], from, 1)];
    }

    /** The weight of the first edge of the node under `fromKey` whose target
        is keyed `toKey`, or -1 when there is none. */
    method GetEdgeWeight(toKey: string, fromKey: string) returns (w: i32)
      requires Valid()
      requires fromKey in nodes
      requires ScanResolves(store, store[nodes[fromKey]].edges, toKey)
      ensures var edges := store[nodes[fromKey]].edges;
        (w == -1 && NoMatchBefore(store, edges, toKey, |edges|)) ||
        (exists i :: 0 <= i < |edges| && NoMatchBefore(store, edges, toKey, i) &&
           edges[i].target in store && store[edges[i].target].key == toKey && w == edges[i].weight)
      ensures w == 1 <==>
        toKey in nodes && exists e :: e in store[nodes[fromKey]].edges && e.target == nodes[toKey]
      ensures w == 1 || w == -1
    {
      var from := Get(fromKey).value;
      var edges := store[from].edges;
      var i := 0;
      while i < |edges|
        invariant 0 <= i <= |edges|
        invariant NoMatchBefore(store, edges, toKey, i)
      {
        var t := Upgrade(edges[i]);
        assert t.Some?;
        if store[t.value].key == toKey {
          assert edges[i] in edges;
          return edges[i].weight;
        }
        i := i + 1;
      }
      w := -1;
      forall e | e in edges && toKey in nodes
        ensures e.target != nodes[toKey]
      {
        var j :| 0 <= j < |edges| && edges[j] == e;
        assert store[edges[j].target].key != toKey;
      }
    }

    /** Depth-first, pre-order walk from the live node `root`. A node whose
        key is in `visited` is not entered again; every entered node is
        recorded in `trace` before its edges are followed. */
    method Traverse(root: NodeId, visited: set<string>) returns (visited': set<string>, trace: seq<string>)
      requires Valid() && root in store
      requires NoDanglingFrom(store, root)
      ensures visited' == visited + (set k | k in trace)
      ensures store[root].key in visited ==> trace == []
      ensures store[root].key !in visited ==> |trace| > 0 && trace[0] == store[root].key
      ensures NoDuplicates(trace)
      ensures forall k :: k in trace ==> k !in visited
      ensures ReachFrom(nodes, store, root, trace)
      ensures ClosedUnder(nodes, store, trace, visited')
      ensures visited == {} ==> (set k | k in trace) == ReachableKeys(nodes, store, root)
      decreases nodes.Keys - visited
    {
      var node := store[root];
      if node.key in visited {
        return visited, [];
      }
      visited' := visited + {node.key};
      trace := [node.key];
      ReachesItself(store, root);
      assert EdgesLive(store, root);
      for i := 0 to |node.edges|
        invariant visited + {node.key} <= visited'
        invariant visited' == visited + (set k | k in trace)
        invariant |trace| > 0 && trace[0] == node.key
        invariant NoDuplicates(trace)
        invariant forall k :: k in trace ==> k !in visited
        invariant ReachFrom(nodes, store, root, trace)
        invariant ClosedUnder(nodes, store, trace[1..], visited')
        invariant forall j :: 0 <= j < i ==> store[node.edges[j].target].key in visited'
      {
        var t := Upgrade(node.edges[i]).value;
        assert node.edges[i] in node.edges;
        assert HasEdgeTo(store, root, t);
        NoDanglingAlongEdge(store, root, t);
        var v2, tr2 := Traverse(t, visited');
        ExtendWalk(nodes, store, root, t, trace, tr2, visited', v2);
        NoDuplicatesConcat(trace, tr2);
        KeysOfConcat(trace, tr2);
        visited' := v2;
        trace := trace + tr2;
      }
      forall e | e in node.edges && e.target in store
        ensures store[e.target].key in visited'
      {
        var j :| 0 <= j < |node.edges| && node.edges[j] == e;
      }
      FinishWalk(nodes, store, root, trace, visited');
      if visited == {} {
        ClosedWalkIsReachableKeys(nodes, store, root, trace);
      }
    }

    /** Walks from every invalidated key that is still present, each with a
        fresh visited set, then clears the invalidated set. The result maps
        each walked root to the keys its walk reported, in order. */
    method Dispatch() returns (traces: map<string, seq<string>>)
      requires Valid()
      requires forall k :: k in invalidated && k in nodes ==> NoDanglingFrom(store, nodes[k])
      modifies this
      ensures Valid()
      ensures nodes == old(nodes) && store == old(store) && nextId == old(nextId)
      ensures invalidated == {}
      ensures traces.Keys == old(invalidated) * nodes.Keys
      ensures forall k :: k in traces ==> IsRootTrace(nodes, store, k, traces[k])
    {
      var pending := invalidated;
      traces := map[];
      while pending != {}
        invariant unchanged(this)
        invariant pending <= invalidated
        invariant traces.Keys == (invalidated - pending) * nodes.Keys
        invariant forall k :: k in traces ==> IsRootTrace(nodes, store, k, traces[k])
        decreases pending
      {
        var key :| key in pending;
        match Get(key) {
          case Some(root) =>
            var _, trace := Traverse(root, {});
            traces := traces[key := trace];
          case None =>
        }
        pending := pending - {key};
      }
      invalidated := {};
    }
  }
}
