/**
 Clients of the graph: the repository's own unit tests and the behaviours
 the graph is meant to have (edge direction, two paths to one node, cycles,
 repeated dispatch, replacement under a key), each stated as a contract of
 a short program that uses only the graph's operations.
 */
module Scenarios {
  import opened Nodes
  import opened Reachability
  import opened Graph

  /** A node that was added is found; once removed it is not, and removing
      it a second time reports that nothing was there. */
  method AddRemoveScenario() returns (added: bool, removed: bool, gone: bool, removedAgain: bool)
    ensures added && removed && gone && !removedAgain
  {
    var dag := new Dag<string>();
    dag.Add("A1", "foo");
    added := dag.Get("A1").Some?;
    removed := dag.Remove("A1");
    gone := dag.Get("A1").None?;
    removedAgain := dag.Remove("A1");
  }

  /** Nodes A and B, and the edge that `AddEdge("B", "A")` creates. */
  method BuildPair() returns (dag: Dag<string>)
    ensures fresh(dag) && dag.Valid()
    ensures dag.nodes.Keys == {"A", "B"} && dag.invalidated == {}
    ensures dag.store[dag.nodes["A"]].edges == []
    ensures dag.store[dag.nodes["B"]].edges == [Edge(1, dag.nodes["A"])]
  {
    dag := new Dag<string>();
    dag.Add("A", "a");
    dag.Add("B", "b");
    dag.AddEdge("B", "A");
  }

  /** The walk reported for a root without edges is the root alone. */
  lemma EdgelessRootTrace<T>(nodes: map<string, NodeId>, store: Store<T>, k: string, trace: seq<string>)
    requires KeyIndex(nodes, store) && k in nodes && store[nodes[k]].edges == []
    requires IsRootTrace(nodes, store, k, trace)
    ensures trace == [k]
  {
    forall x | x in ReachableKeys(nodes, store, nodes[k])
      ensures x == k
    {
      NoEdgesReachesOnlyItself(store, nodes[k], nodes[x]);
      assert x == store[nodes[x]].key;
    }
    assert (set x | x in trace) == {k};
    NoDuplicatesCount(trace);
  }

  /** `AddEdge("B", "A")` stores the edge on B, pointing at A, so the weight
      is found by looking up A from B and not B from A; and a dispatch from
      A reports A alone. */
  method EdgeDirectionScenario() returns (weightAFromB: i32, weightBFromA: i32, traces: map<string, seq<string>>)
    ensures weightAFromB == 1 && weightBFromA == -1
    ensures traces == map["A" := ["A"]]
  {
    var dag := BuildPair();
    weightAFromB := dag.GetEdgeWeight("A", "B");
    weightBFromA := dag.GetEdgeWeight("B", "A");
    dag.Update("A", "a2");
    var a := dag.nodes["A"];
    assert dag.store[a].edges == [];
    AllLiveNoDangling(dag.store, a);
    traces := dag.Dispatch();
    EdgelessRootTrace(dag.nodes, dag.store, "A", traces["A"]);
  }

  /** Three nodes A, B and C without edges. */
  method BuildThree() returns (dag: Dag<int>)
    ensures fresh(dag) && dag.Valid()
    ensures dag.nodes.Keys == {"A", "B", "C"} && dag.invalidated == {}
    ensures dag.store[dag.nodes["A"]].edges == []
    ensures dag.store[dag.nodes["B"]].edges == []
    ensures dag.store[dag.nodes["C"]].edges == []
  {
    dag := new Dag<int>();
    dag.Add("A", 0);
    dag.Add("B", 0);
    dag.Add("C", 0);
  }

  /** Two paths from A to C, one direct and one through B:
      A -> B, A -> C, B -> C. */
  method BuildTwoPaths() returns (dag: Dag<int>)
    ensures fresh(dag) && dag.Valid()
    ensures dag.nodes.Keys == {"A", "B", "C"} && dag.invalidated == {}
    ensures dag.store[dag.nodes["A"]].edges == [Edge(1, dag.nodes["B"]), Edge(1, dag.nodes["C"])]
    ensures dag.store[dag.nodes["B"]].edges == [Edge(1, dag.nodes["C"])]
    ensures dag.store[dag.nodes["C"]].edges == []
  {
    dag := BuildThree();
    dag.AddEdge("A", "B");
    dag.AddEdge("A", "C");
    dag.AddEdge("B", "C");
  }

  /** With two paths from A to C, everything is reachable from A, and B and
      C from B. */
  lemma TwoPathsReach<T>(nodes: map<string, NodeId>, store: Store<T>)
    requires KeyIndex(nodes, store) && nodes.Keys == {"A", "B", "C"}
    requires store[nodes["A"]].edges == [Edge(1, nodes["B"]), Edge(1, nodes["C"])]
    requires store[nodes["B"]].edges == [Edge(1, nodes["C"])]
    requires store[nodes["C"]].edges == []
    ensures ReachableKeys(nodes, store, nodes["A"]) == {"A", "B", "C"}
    ensures ReachableKeys(nodes, store, nodes["B"]) == {"B", "C"}
  {
    var a, b, c := nodes["A"], nodes["B"], nodes["C"];
    assert store[a].edges[0] == Edge(1, b) && store[a].edges[1] == Edge(1, c);
    assert store[b].edges[0] == Edge(1, c);
    assert HasEdgeTo(store, a, b) && HasEdgeTo(store, a, c) && HasEdgeTo(store, b, c);
    ReachesItself(store, a);
    ReachesItself(store, b);
    ReachesItself(store, c);
    EdgeThenReach(store, a, b, b);
    EdgeThenReach(store, a, c, c);
    EdgeThenReach(store, b, c, c);
    var s := {b, c};
    forall u, t | u in s && HasEdgeTo(store, u, t)
      ensures t in s
    {
      var e :| e in store[u].edges && e.target == t;
    }
    forall x | x in ReachableKeys(nodes, store, b)
      ensures x == "B" || x == "C"
    {
      ClosedSetHoldsReachable(store, s, b, nodes[x]);
    }
  }

  /** C is reachable from A along two paths and from B: it is reported once
      in the walk from A and once more in the walk from B. */
  method TwoPathsScenario() returns (traces: map<string, seq<string>>)
    ensures traces.Keys == {"A", "B"}
    ensures (set k | k in traces["A"]) == {"A", "B", "C"}
    ensures (set k | k in traces["B"]) == {"B", "C"}
    ensures traces["A"][0] == "A" && NoDuplicates(traces["A"])
    ensures traces["B"][0] == "B" && NoDuplicates(traces["B"])
  {
    var dag := BuildTwoPaths();
    dag.Update("A", 1);
    dag.Update("B", 1);
    forall id | id in dag.store
      ensures EdgesLive(dag.store, id)
    {
    }
    AllLiveNoDangling(dag.store, dag.nodes["A"]);
    AllLiveNoDangling(dag.store, dag.nodes["B"]);
    TwoPathsReach(dag.nodes, dag.store);
    traces := dag.Dispatch();
  }

  /** The two-node cycle A -> B -> A, with A invalidated. */
  method BuildCycle() returns (dag: Dag<int>)
    ensures fresh(dag) && dag.Valid()
    ensures dag.nodes.Keys == {"A", "B"} && dag.invalidated == {"A"}
    ensures dag.store[dag.nodes["A"]].edges == [Edge(1, dag.nodes["B"])]
    ensures dag.store[dag.nodes["B"]].edges == [Edge(1, dag.nodes["A"])]
  {
    dag := new Dag<int>();
    dag.Add("A", 0);
    dag.Add("B", 0);
    dag.AddEdge("A", "B");
    dag.AddEdge("B", "A");
    dag.Update("A", 1);
  }

  /** In the cycle both nodes are reachable from A. */
  lemma CycleReach<T>(nodes: map<string, NodeId>, store: Store<T>)
    requires KeyIndex(nodes, store) && nodes.Keys == {"A", "B"}
    requires store[nodes["A"]].edges == [Edge(1, nodes["B"])]
    ensures ReachableKeys(nodes, store, nodes["A"]) == {"A", "B"}
  {
    var a, b := nodes["A"], nodes["B"];
    assert store[a].edges[0] == Edge(1, b);
    assert HasEdgeTo(store, a, b);
    ReachesItself(store, a);
    ReachesItself(store, b);
    EdgeThenReach(store, a, b, b);
  }

  /** A two-node cycle: the walk from A terminates and reports each node
      once, and a second dispatch straight after reports nothing. */
  method CycleScenario() returns (first: map<string, seq<string>>, second: map<string, seq<string>>)
    ensures first.Keys == {"A"}
    ensures (set k | k in first["A"]) == {"A", "B"} && NoDuplicates(first["A"])
    ensures second == map[]
  {
    var dag := BuildCycle();
    forall id | id in dag.store
      ensures EdgesLive(dag.store, id)
    {
    }
    AllLiveNoDangling(dag.store, dag.nodes["A"]);
    CycleReach(dag.nodes, dag.store);
    first := dag.Dispatch();
    second := dag.Dispatch();
  }

  /** Dispatching twice in a row on any graph: the second dispatch finds
      nothing invalidated and reports nothing. */
  method DispatchTwice<T>(dag: Dag<T>) returns (first: map<string, seq<string>>, second: map<string, seq<string>>)
    requires dag.Valid()
    requires forall k :: k in dag.invalidated && k in dag.nodes ==> NoDanglingFrom(dag.store, dag.nodes[k])
    modifies dag
    ensures first.Keys == old(dag.invalidated) * dag.nodes.Keys
    ensures second == map[] && dag.invalidated == {}
  {
    first := dag.Dispatch();
    second := dag.Dispatch();
  }

  /** Adding under a key that is already present replaces the node: the
      edge B kept to the old A no longer resolves, although a node is
      stored under "A" again. */
  method ReplaceScenario() returns (resolves: bool, present: bool)
    ensures !resolves && present
  {
    var dag := BuildPair();
    dag.Add("A", "a2");
    var b := dag.Get("B").value;
    assert |dag.store[b].edges| == 1;
    resolves := dag.Upgrade(dag.store[b].edges[0]).Some?;
    present := dag.Get("A").Some?;
  }
}
