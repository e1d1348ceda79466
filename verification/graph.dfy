/**
 * Adjacency lists and in-degrees of a roadmap (the bookkeeping at the start of
 * getLayoutedElements in RoadmapCanvas.tsx). Node ids are opaque strings.
 */
module RoadmapGraph {

  type NodeId = string

  datatype Edge = Edge(source: NodeId, target: NodeId)

  /** `adj` and `inDegree` are keyed by the ids of the node list, nothing else. */
  datatype Graph = Graph(adj: map<NodeId, seq<NodeId>>, inDegree: map<NodeId, nat>)

  // ------------------------------------------------------------ reference definitions

  /** Targets of the edges leaving `v`, in edge-list order. */
  function Targets(edges: seq<Edge>, v: NodeId): seq<NodeId> {
    if |edges| == 0 then []
    else (if edges[0].source == v then [edges[0].target] else []) + Targets(edges[1..], v)
  }

  /** Number of edges leaving `v`. */
  function OutCount(edges: seq<Edge>, v: NodeId): nat {
    if |edges| == 0 then 0
    else (if edges[0].source == v then 1 else 0) + OutCount(edges[1..], v)
  }

  /** Number of edges entering `v`. */
  function InCount(edges: seq<Edge>, v: NodeId): nat {
    if |edges| == 0 then 0
    else (if edges[0].target == v then 1 else 0) + InCount(edges[1..], v)
  }

  lemma {:induction false} TargetsLength(edges: seq<Edge>, v: NodeId)
    ensures |Targets(edges, v)| == OutCount(edges, v)
  {
    if |edges| > 0 {
      TargetsLength(edges[1..], v);
    }
  }

  /** A target listed for `v` is the target of some edge leaving `v`, and conversely. */
  lemma {:induction false} TargetsMembers(edges: seq<Edge>, v: NodeId, t: NodeId)
    ensures t in Targets(edges, v) <==> exists i :: 0 <= i < |edges| && edges[i] == Edge(v, t)
  {
    if |edges| > 0 {
      TargetsMembers(edges[1..], v, t);
      if t in Targets(edges[1..], v) {
        var i :| 0 <= i < |edges[1..]| && edges[1..][i] == Edge(v, t);
        assert edges[i + 1] == Edge(v, t);
      }
      if exists i :: 0 <= i < |edges| && edges[i] == Edge(v, t) {
        var i :| 0 <= i < |edges| && edges[i] == Edge(v, t);
        if i > 0 {
          assert edges[1..][i - 1] == Edge(v, t);
        }
      }
    }
  }

  // ------------------------------------------------------------ the fold the source runs

  /** Every listed node starts with no children and in-degree 0. */
  function EmptyGraph(nodes: seq<NodeId>): (g: Graph)
    ensures g.adj.Keys == g.inDegree.Keys == set n | n in nodes
  {
    Graph(map n | n in nodes :: [], map n | n in nodes :: 0)
  }

  /** One edge: append to the source's list if the source is known, bump the target if known. */
  function AddEdge(g: Graph, e: Edge): Graph {
    Graph(
      if e.source in g.adj then g.adj[e.source := g.adj[e.source] + [e.target]] else g.adj,
      if e.target in g.inDegree then g.inDegree[e.target := g.inDegree[e.target] + 1] else g.inDegree)
  }

  function AddEdges(g: Graph, edges: seq<Edge>): Graph
    decreases |edges|
  {
    if |edges| == 0 then g else AddEdges(AddEdge(g, edges[0]), edges[1..])
  }

  /** Folding the edges in order appends, per known node, exactly its targets and counts its in-edges. */
  lemma {:induction false} AddEdgesMeaning(g: Graph, edges: seq<Edge>)
    ensures AddEdges(g, edges).adj.Keys == g.adj.Keys
    ensures AddEdges(g, edges).inDegree.Keys == g.inDegree.Keys
    ensures forall v :: v in g.adj ==> AddEdges(g, edges).adj[v] == g.adj[v] + Targets(edges, v)
    ensures forall v :: v in g.inDegree ==> AddEdges(g, edges).inDegree[v] == g.inDegree[v] + InCount(edges, v)
    decreases |edges|
  {
    if |edges| > 0 {
      var g' := AddEdge(g, edges[0]);
      AddEdgesMeaning(g', edges[1..]);
      forall v | v in g.adj
        ensures AddEdges(g, edges).adj[v] == g.adj[v] + Targets(edges, v)
      {
        assert g'.adj[v] == g.adj[v] + (if edges[0].source == v then [edges[0].target] else []);
      }
    }
  }

  /**
   * The adjacency lists and in-degrees after the two forEach loops: exactly the
   * listed ids are keys, each list holds that node's targets in edge order, and
   * each in-degree counts the edges entering it.
   */
  function BuildGraph(nodes: seq<NodeId>, edges: seq<Edge>): (g: Graph)
    ensures g.adj.Keys == g.inDegree.Keys == set n | n in nodes
    ensures forall v :: v in g.adj ==> g.adj[v] == Targets(edges, v)
    ensures forall v :: v in g.inDegree ==> g.inDegree[v] == InCount(edges, v)
  {
    AddEdgesMeaning(EmptyGraph(nodes), edges);
    AddEdges(EmptyGraph(nodes), edges)
  }

  /** `adj[id] || []` */
  function Children(g: Graph, id: NodeId): seq<NodeId> {
    if id in g.adj then g.adj[id] else []
  }

  /**
   * An edge shows up in its source's children iff the source is a listed node;
   * the target need not be listed (a dangling target is still a child), and it
   * counts towards an in-degree only when it is listed.
   */
  lemma EdgeBookkeeping(nodes: seq<NodeId>, edges: seq<Edge>, i: nat)
    requires i < |edges|
    ensures edges[i].target in Children(BuildGraph(nodes, edges), edges[i].source) <== edges[i].source in nodes
    ensures edges[i].source !in nodes ==> Children(BuildGraph(nodes, edges), edges[i].source) == []
    ensures edges[i].target in nodes <==> edges[i].target in BuildGraph(nodes, edges).inDegree
    ensures edges[i].target in nodes ==> BuildGraph(nodes, edges).inDegree[edges[i].target] > 0
  {
    var e := edges[i];
    TargetsMembers(edges, e.source, e.target);
    if e.target in nodes {
      InCountPositive(edges, i);
    }
  }

  lemma {:induction false} InCountPositive(edges: seq<Edge>, i: nat)
    requires i < |edges|
    ensures InCount(edges, edges[i].target) > 0
  {
    if i > 0 {
      InCountPositive(edges[1..], i - 1);
    }
  }

  /** Every child is the target of some edge. */
  lemma ChildIsTarget(nodes: seq<NodeId>, edges: seq<Edge>, v: NodeId, k: nat)
    requires k < |Children(BuildGraph(nodes, edges), v)|
    ensures exists i :: 0 <= i < |edges| && edges[i] == Edge(v, Children(BuildGraph(nodes, edges), v)[k])
  {
    var c := Children(BuildGraph(nodes, edges), v)[k];
    TargetsMembers(edges, v, c);
  }
}
