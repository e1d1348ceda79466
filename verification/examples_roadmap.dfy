/**
 * Small roadmaps worked through the branch assignment: a fork, a chain, a
 * merge point reached from two roots, and a cycle with no root.
 */
module RoadmapExamples {
  import opened RoadmapGraph
  import opened Branches

  /** An unvisited id queued after the front item gets the branch of its earliest entry there. */
  lemma ArrivalAfterStep(g: Graph, u: set<NodeId>, w: Walk, i: nat)
    requires Inv(g, u, w) && |w.queue| > 0
    requires i < |Step(g, w).queue| && Step(g, w).queue[i].id !in Step(g, w).visited
    requires forall j :: 0 <= j < i ==> Step(g, w).queue[j].id != Step(g, w).queue[i].id
    ensures Step(g, w).queue[i].id in Drain(g, u, w).branchOf
    ensures Drain(g, u, w).branchOf[Step(g, w).queue[i].id] == Step(g, w).queue[i].branch
  {
    DrainStep(g, u, w);
    DrainFirstArrival(g, u, Step(g, w), i);
  }

  // ------------------------------------------------------------------ fork: 1 -> 2, 1 -> 3

  lemma ForkEdges()
    ensures Targets([Edge("1", "2"), Edge("1", "3")], "1") == ["2", "3"]
    ensures InCount([Edge("1", "2"), Edge("1", "3")], "1") == 0
    ensures InCount([Edge("1", "2"), Edge("1", "3")], "2") == 1
    ensures InCount([Edge("1", "2"), Edge("1", "3")], "3") == 1
  {
  }

  lemma ForkGraph(nodes: seq<NodeId>, edges: seq<Edge>)
    requires nodes == ["1", "2", "3"] && edges == [Edge("1", "2"), Edge("1", "3")]
    ensures Initial(nodes, edges).queue == [Item("1", 0)] && Initial(nodes, edges).counter == 1
    ensures Children(BuildGraph(nodes, edges), "1") == ["2", "3"]
  {
    var g := BuildGraph(nodes, edges);
    ForkEdges();
    assert nodes[1..][1..] == ["3"] && nodes[1..][1..][1..] == [];
    assert !IsRoot(g, "2") && !IsRoot(g, "3");
    assert RootItems(nodes[1..][1..], g, 1) == [];
    assert RootItems(nodes[1..], g, 1) == [];
  }

  lemma ForkStep(nodes: seq<NodeId>, edges: seq<Edge>)
    requires nodes == ["1", "2", "3"] && edges == [Edge("1", "2"), Edge("1", "3")]
    ensures |Initial(nodes, edges).queue| == 1
    ensures Step(BuildGraph(nodes, edges), Initial(nodes, edges)).queue == [Item("2", 0), Item("3", 1)]
    ensures Step(BuildGraph(nodes, edges), Initial(nodes, edges)).visited == {"1"}
  {
    ForkGraph(nodes, edges);
    assert Seed(["2", "3"], 0, 1) == [Item("2", 0), Item("3", 1)];
  }

  /** The first child continues branch 0, the second forks branch 1. */
  lemma Fork(nodes: seq<NodeId>, edges: seq<Edge>)
    requires nodes == ["1", "2", "3"] && edges == [Edge("1", "2"), Edge("1", "3")]
    ensures "1" in Branching(nodes, edges) && Branching(nodes, edges)["1"] == 0
    ensures "2" in Branching(nodes, edges) && Branching(nodes, edges)["2"] == 0
    ensures "3" in Branching(nodes, edges) && Branching(nodes, edges)["3"] == 1
  {
    var g := BuildGraph(nodes, edges);
    var u := Universe(nodes, edges);
    var w0 := Initial(nodes, edges);
    ForkGraph(nodes, edges);
    ForkStep(nodes, edges);
    InitialInv(nodes, edges);
    ArrivalAfterStep(g, u, w0, 0);
    ArrivalAfterStep(g, u, w0, 1);
    RootBranch(nodes, edges, 0);
  }

  // ------------------------------------------------------------------ chain: 1 -> 2 -> 3

  lemma ChainEdges()
    ensures Targets([Edge("1", "2"), Edge("2", "3")], "1") == ["2"]
    ensures Targets([Edge("1", "2"), Edge("2", "3")], "2") == ["3"]
    ensures InCount([Edge("1", "2"), Edge("2", "3")], "1") == 0
    ensures InCount([Edge("1", "2"), Edge("2", "3")], "2") == 1
    ensures InCount([Edge("1", "2"), Edge("2", "3")], "3") == 1
  {
  }

  lemma ChainGraph(nodes: seq<NodeId>, edges: seq<Edge>)
    requires nodes == ["1", "2", "3"] && edges == [Edge("1", "2"), Edge("2", "3")]
    ensures Initial(nodes, edges).queue == [Item("1", 0)] && Initial(nodes, edges).counter == 1
    ensures Children(BuildGraph(nodes, edges), "1") == ["2"]
    ensures Children(BuildGraph(nodes, edges), "2") == ["3"]
  {
    var g := BuildGraph(nodes, edges);
    ChainEdges();
    assert nodes[1..][1..] == ["3"] && nodes[1..][1..][1..] == [];
    assert !IsRoot(g, "2") && !IsRoot(g, "3");
    assert RootItems(nodes[1..][1..], g, 1) == [];
    assert RootItems(nodes[1..], g, 1) == [];
  }

  lemma ChainSteps(nodes: seq<NodeId>, edges: seq<Edge>)
    requires nodes == ["1", "2", "3"] && edges == [Edge("1", "2"), Edge("2", "3")]
    ensures var g, w0 := BuildGraph(nodes, edges), Initial(nodes, edges);
      |w0.queue| == 1 && Step(g, w0).queue == [Item("2", 0)] && Step(g, w0).visited == {"1"}
      && Step(g, Step(g, w0)).queue == [Item("3", 0)] && Step(g, Step(g, w0)).visited == {"1", "2"}
  {
    ChainGraph(nodes, edges);
    assert Seed(["2"], 0, 1) == [Item("2", 0)];
    assert Seed(["3"], 0, 1) == [Item("3", 0)];
  }

  /** Every node of a chain stays on the root's branch. */
  lemma Chain(nodes: seq<NodeId>, edges: seq<Edge>)
    requires nodes == ["1", "2", "3"] && edges == [Edge("1", "2"), Edge("2", "3")]
    ensures "1" in Branching(nodes, edges) && Branching(nodes, edges)["1"] == 0
    ensures "2" in Branching(nodes, edges) && Branching(nodes, edges)["2"] == 0
    ensures "3" in Branching(nodes, edges) && Branching(nodes, edges)["3"] == 0
  {
    var g := BuildGraph(nodes, edges);
    var u := Universe(nodes, edges);
    var w0 := Initial(nodes, edges);
    ChainSteps(nodes, edges);
    InitialInv(nodes, edges);
    var w1 := Step(g, w0);
    ArrivalAfterStep(g, u, w0, 0);
    DrainStep(g, u, w0);
    ArrivalAfterStep(g, u, w1, 0);
    RootBranch(nodes, edges, 0);
  }

  // ------------------------------------------------------------------ merge: A -> M, X -> M

  lemma MergeEdges()
    ensures Targets([Edge("A", "M"), Edge("X", "M")], "A") == ["M"]
    ensures InCount([Edge("A", "M"), Edge("X", "M")], "A") == 0
    ensures InCount([Edge("A", "M"), Edge("X", "M")], "X") == 0
    ensures InCount([Edge("A", "M"), Edge("X", "M")], "M") == 2
  {
  }

  lemma MergeRoots(nodes: seq<NodeId>, edges: seq<Edge>, g: Graph)
    requires nodes == ["A", "X", "M"] && edges == [Edge("A", "M"), Edge("X", "M")]
    requires g == BuildGraph(nodes, edges)
    ensures IsRoot(g, "A") && IsRoot(g, "X") && !IsRoot(g, "M")
    ensures Children(g, "A") == ["M"]
  {
    MergeEdges();
  }

  lemma MergeGraph(nodes: seq<NodeId>, edges: seq<Edge>)
    requires nodes == ["A", "X", "M"] && edges == [Edge("A", "M"), Edge("X", "M")]
    ensures Initial(nodes, edges).queue == [Item("A", 0), Item("X", 1)] && Initial(nodes, edges).counter == 2
    ensures Children(BuildGraph(nodes, edges), "A") == ["M"]
  {
    var g := BuildGraph(nodes, edges);
    MergeRoots(nodes, edges, g);
    var tail := nodes[1..];
    assert tail[0] == "X" && tail[1..] == ["M"] && tail[1..][1..] == [];
    assert RootItems(tail[1..], g, 2) == [];
    assert RootItems(tail, g, 1) == [Item("X", 1)];
    assert RootItems(nodes, g, 0) == [Item("A", 0)] + RootItems(tail, g, 1);
  }

  lemma MergeStep(nodes: seq<NodeId>, edges: seq<Edge>)
    requires nodes == ["A", "X", "M"] && edges == [Edge("A", "M"), Edge("X", "M")]
    ensures |Initial(nodes, edges).queue| == 2
    ensures Step(BuildGraph(nodes, edges), Initial(nodes, edges)).queue == [Item("X", 1), Item("M", 0)]
    ensures Step(BuildGraph(nodes, edges), Initial(nodes, edges)).visited == {"A"}
  {
    MergeGraph(nodes, edges);
    assert Seed(["M"], 0, 2) == [Item("M", 0)];
  }

  /** Roots A then X both lead to M; M keeps A's branch, the first to arrive. */
  lemma Merge(nodes: seq<NodeId>, edges: seq<Edge>)
    requires nodes == ["A", "X", "M"] && edges == [Edge("A", "M"), Edge("X", "M")]
    ensures "A" in Branching(nodes, edges) && Branching(nodes, edges)["A"] == 0
    ensures "X" in Branching(nodes, edges) && Branching(nodes, edges)["X"] == 1
    ensures "M" in Branching(nodes, edges) && Branching(nodes, edges)["M"] == 0
  {
    var g := BuildGraph(nodes, edges);
    var u := Universe(nodes, edges);
    var w0 := Initial(nodes, edges);
    MergeGraph(nodes, edges);
    MergeStep(nodes, edges);
    InitialInv(nodes, edges);
    ArrivalAfterStep(g, u, w0, 1);
    RootBranch(nodes, edges, 0);
    RootBranch(nodes, edges, 1);
  }

  // ------------------------------------------------------------------ a cycle without a root

  /** 1 -> 2 -> 1 has no node of in-degree 0: nothing is queued and no branch is assigned. */
  lemma RootlessCycle(nodes: seq<NodeId>, edges: seq<Edge>)
    requires nodes == ["1", "2"] && edges == [Edge("1", "2"), Edge("2", "1")]
    ensures Branching(nodes, edges) == map[]
  {
    var g := BuildGraph(nodes, edges);
    assert InCount([Edge("1", "2"), Edge("2", "1")], "1") == 1;
    assert InCount([Edge("1", "2"), Edge("2", "1")], "2") == 1;
    assert nodes[1..][1..] == [];
    assert RootItems(nodes[1..], g, 0) == [];
    assert Initial(nodes, edges).queue == [];
  }
}
