/**
 * Branch numbering for path colouring (the breadth-first pass of
 * getLayoutedElements in RoadmapCanvas.tsx).
 *
 * Roots (listed nodes with in-degree 0) enter the queue in node-list order with
 * branch ids 0, 1, 2, ...; a dequeued id that was already visited is skipped,
 * otherwise its arrival branch is recorded and its children are queued: the
 * first with the parent's branch, every later one with a fresh id.
 *
 * `Step`/`Drain` are the reference semantics of one dequeue and of the whole
 * loop; `AssignBranches` is the loop itself and is proved to compute `Drain`.
 */
module Branches {
  import opened RoadmapGraph

  /** A queue entry `{ id, branch }`. */
  datatype Item = Item(id: NodeId, branch: nat)

  /**
   * The loop state: the queue, the visited set, `nodeBranch`, `branchCounter`,
   * and the number of dequeues so far.
   */
  datatype Walk = Walk(queue: seq<Item>, visited: set<NodeId>, branchOf: map<NodeId, nat>,
                       counter: nat, steps: nat)

  // ------------------------------------------------------------------ roots

  function IsRoot(g: Graph, n: NodeId): bool {
    n in g.inDegree && g.inDegree[n] == 0
  }

  /** The roots in node-list order, numbered from `next`. */
  function RootItems(nodes: seq<NodeId>, g: Graph, next: nat): (r: seq<Item>)
    ensures |r| <= |nodes|
    ensures forall k :: 0 <= k < |r| ==> r[k].branch == next + k
    decreases |nodes|
  {
    if |nodes| == 0 then []
    else if IsRoot(g, nodes[0]) then [Item(nodes[0], next)] + RootItems(nodes[1..], g, next + 1)
    else RootItems(nodes[1..], g, next)
  }

  /** The queued roots are exactly the listed nodes whose in-degree is 0. */
  lemma {:induction false} RootItemsMembers(nodes: seq<NodeId>, g: Graph, next: nat)
    ensures QueueIds(RootItems(nodes, g, next)) == set n | n in nodes && IsRoot(g, n)
    decreases |nodes|
  {
    if |nodes| > 0 {
      var tail := nodes[1..];
      var nx := if IsRoot(g, nodes[0]) then next + 1 else next;
      var rest := RootItems(tail, g, nx);
      RootItemsMembers(tail, g, nx);
      assert (set n | n in nodes && IsRoot(g, n))
          == (if IsRoot(g, nodes[0]) then {nodes[0]} else {}) + (set n | n in tail && IsRoot(g, n));
      if IsRoot(g, nodes[0]) {
        QueueIdsCons(Item(nodes[0], next), rest);
      }
    }
  }

  /**
   * Roots are queued in node-list order: the roots of a prefix of the node list
   * come first, numbered from `next`, and the rest follow with the next ids.
   */
  lemma {:induction false} RootItemsSplit(nodes: seq<NodeId>, g: Graph, next: nat, m: nat)
    requires m <= |nodes|
    ensures RootItems(nodes, g, next)
         == RootItems(nodes[..m], g, next) + RootItems(nodes[m..], g, next + |RootItems(nodes[..m], g, next)|)
    decreases m
  {
    if m > 0 {
      var tail := nodes[1..];
      var pre := nodes[..m];
      assert pre[0] == nodes[0] && pre[1..] == tail[..m - 1];
      assert nodes[m..] == tail[m - 1..];
      if IsRoot(g, nodes[0]) {
        var head := [Item(nodes[0], next)];
        assert RootItems(nodes, g, next) == head + RootItems(tail, g, next + 1);
        assert RootItems(pre, g, next) == head + RootItems(tail[..m - 1], g, next + 1);
        RootItemsSplit(tail, g, next + 1, m - 1);
      } else {
        assert RootItems(nodes, g, next) == RootItems(tail, g, next);
        assert RootItems(pre, g, next) == RootItems(tail[..m - 1], g, next);
        RootItemsSplit(tail, g, next, m - 1);
      }
    } else {
      assert nodes[m..] == nodes;
      assert RootItems(nodes[..m], g, next) == [];
    }
  }

  // ------------------------------------------------------------------ one dequeue

  /** How many fresh ids expanding a node with these children mints. */
  function Minted(children: seq<NodeId>): nat {
    if |children| == 0 then 0 else |children| - 1
  }

  /** The items `children.forEach` pushes: index 0 keeps `branch`, index k > 0 takes `counter + k - 1`. */
  function Seed(children: seq<NodeId>, branch: nat, counter: nat): seq<Item> {
    seq(|children|, k requires 0 <= k < |children| => Item(children[k], if k == 0 then branch else counter + k - 1))
  }

  /** One turn of the while loop. */
  function Step(g: Graph, w: Walk): Walk
    requires |w.queue| > 0
  {
    var it := w.queue[0];
    if it.id in w.visited then
      w.(queue := w.queue[1..], steps := w.steps + 1)
    else
      var kids := Children(g, it.id);
      Walk(w.queue[1..] + Seed(kids, it.branch, w.counter), w.visited + {it.id},
           w.branchOf[it.id := it.branch], w.counter + Minted(kids), w.steps + 1)
  }

  /**
   * What one turn does: the queue loses its front and gains the children of a
   * new id at its back (the first child continuing the dequeued branch, each
   * later one taking the next fresh number), the dequeued id ends up visited,
   * a new id records its arrival branch, and an already visited id leaves
   * everything else as it was.
   */
  lemma StepEffect(g: Graph, w: Walk)
    requires |w.queue| > 0
    ensures var r := Step(g, w); r.steps == w.steps + 1 && w.counter <= r.counter
    ensures var r := Step(g, w);
      |r.queue| == |w.queue| - 1 + (if w.queue[0].id in w.visited then 0 else |Children(g, w.queue[0].id)|)
    ensures Step(g, w).visited == w.visited + {w.queue[0].id}
    ensures w.queue[0].id !in w.visited ==>
              w.queue[0].id in Step(g, w).branchOf && Step(g, w).branchOf[w.queue[0].id] == w.queue[0].branch
    ensures var r := Step(g, w); var kids := Children(g, w.queue[0].id);
      w.queue[0].id !in w.visited ==>
        r.queue[..|w.queue| - 1] == w.queue[1..]
        && forall k :: 0 <= k < |kids| ==>
             r.queue[|w.queue| - 1 + k] == Item(kids[k], if k == 0 then w.queue[0].branch else w.counter + k - 1)
    ensures var r := Step(g, w);
      w.queue[0].id in w.visited ==> r.queue == w.queue[1..] && r.branchOf == w.branchOf && r.counter == w.counter
  {
  }

  /** Every id that can ever be queued: the listed nodes and every edge target. */
  function Universe(nodes: seq<NodeId>, edges: seq<Edge>): set<NodeId> {
    (set n | n in nodes) + (set e | e in edges :: e.target)
  }

  ghost predicate Closed(g: Graph, u: set<NodeId>) {
    forall v, k :: v in g.adj && 0 <= k < |g.adj[v]| ==> g.adj[v][k] in u
  }

  /**
   * What keeps the loop finite: every id it can meet lies in the finite
   * universe `u`; and `nodeBranch` is defined exactly on the visited ids.
   */
  ghost predicate Inv(g: Graph, u: set<NodeId>, w: Walk) {
    && Closed(g, u)
    && (forall i :: 0 <= i < |w.queue| ==> w.queue[i].id in u)
    && w.visited <= u
    && w.branchOf.Keys == w.visited
  }

  /**
   * What keeps branch ids apart: every branch id in use is below the counter (so the ids the counter
   * hands out are fresh), and no two queued items carry the same branch (each
   * branch has a single frontier).
   */
  ghost predicate Fresh(w: Walk) {
    && (forall i :: 0 <= i < |w.queue| ==> w.queue[i].branch < w.counter)
    && (forall v :: v in w.branchOf ==> w.branchOf[v] < w.counter)
    && (forall i, j :: 0 <= i < j < |w.queue| ==> w.queue[i].branch != w.queue[j].branch)
  }

  /**
   * A dequeue keeps the invariant, never rewrites a recorded branch, and either
   * shrinks the queue with the visited set unchanged or visits a new id.
   */
  lemma StepKeeps(g: Graph, u: set<NodeId>, w: Walk)
    requires Inv(g, u, w) && |w.queue| > 0
    ensures Inv(g, u, Step(g, w))
    ensures w.visited <= Step(g, w).visited
    ensures forall v :: v in w.branchOf ==> Step(g, w).branchOf[v] == w.branchOf[v]
    ensures Step(g, w).visited == w.visited ==> |Step(g, w).queue| < |w.queue|
    ensures Step(g, w).visited != w.visited ==> |u - Step(g, w).visited| < |u - w.visited|
  {
    var it := w.queue[0];
    if it.id !in w.visited {
      ExpandInv(g, u, w);
      assert u - w.visited == (u - Step(g, w).visited) + {it.id};
    }
  }

  lemma ExpandInv(g: Graph, u: set<NodeId>, w: Walk)
    requires Inv(g, u, w) && |w.queue| > 0 && w.queue[0].id !in w.visited
    ensures Inv(g, u, Step(g, w))
  {
    var it := w.queue[0];
    var w' := Step(g, w);
    var kids := Children(g, it.id);
    var rest := w.queue[1..];
    assert w'.queue == rest + Seed(kids, it.branch, w.counter);
    forall i | 0 <= i < |w'.queue| ensures w'.queue[i].id in u {
      if i < |rest| {
        assert w'.queue[i] == w.queue[i + 1];
      } else {
        assert it.id in g.adj ==> w'.queue[i].id == g.adj[it.id][i - |rest|];
      }
    }
  }

  /** A dequeue hands out fresh branch ids only and keeps one frontier per branch. */
  lemma StepFresh(g: Graph, w: Walk)
    requires Fresh(w) && |w.queue| > 0
    ensures Fresh(Step(g, w))
    ensures w.counter <= Step(g, w).counter
  {
    var it := w.queue[0];
    if it.id !in w.visited {
      var w' := Step(g, w);
      var kids := Children(g, it.id);
      var seeds := Seed(kids, it.branch, w.counter);
      var rest := w.queue[1..];
      assert w'.queue == rest + seeds;
      forall i | 0 <= i < |w'.queue| ensures w'.queue[i].branch < w'.counter {
        if i < |rest| {
          assert w'.queue[i] == w.queue[i + 1];
        } else {
          assert w'.queue[i] == seeds[i - |rest|];
        }
      }
      forall i, j | 0 <= i < j < |w'.queue|
        ensures w'.queue[i].branch != w'.queue[j].branch
      {
        if j < |rest| {
          assert w'.queue[i] == w.queue[i + 1] && w'.queue[j] == w.queue[j + 1];
        } else if i < |rest| {
          assert w'.queue[i] == w.queue[i + 1];
          assert w.queue[i + 1].branch != it.branch;
          assert w'.queue[j] == seeds[j - |rest|];
        } else {
          assert w'.queue[i] == seeds[i - |rest|] && w'.queue[j] == seeds[j - |rest|];
        }
      }
    }
  }

  /** The whole loop: dequeue until the queue is empty. */
  function Drain(g: Graph, u: set<NodeId>, w: Walk): (r: Walk)
    requires Inv(g, u, w)
    ensures Inv(g, u, r) && |r.queue| == 0
    decreases |u - w.visited|, |w.queue|
  {
    if |w.queue| == 0 then w
    else
      StepKeeps(g, u, w);
      Drain(g, u, Step(g, w))
  }

  // ------------------------------------------------------------------ properties of the loop

  /** Once a branch is recorded for an id it is never changed: first arrival wins. */
  lemma {:induction false} DrainKeeps(g: Graph, u: set<NodeId>, w: Walk)
    requires Inv(g, u, w)
    ensures w.visited <= Drain(g, u, w).visited
    ensures forall v :: v in w.branchOf ==> Drain(g, u, w).branchOf[v] == w.branchOf[v]
    decreases |u - w.visited|, |w.queue|
  {
    if |w.queue| > 0 {
      StepKeeps(g, u, w);
      DrainKeeps(g, u, Step(g, w));
    }
  }

  /** Over the whole loop branch ids stay fresh: every recorded branch is below the final counter. */
  lemma {:induction false} DrainFresh(g: Graph, u: set<NodeId>, w: Walk)
    requires Inv(g, u, w) && Fresh(w)
    ensures Fresh(Drain(g, u, w))
    ensures w.counter <= Drain(g, u, w).counter
    decreases |u - w.visited|, |w.queue|
  {
    if |w.queue| > 0 {
      StepKeeps(g, u, w);
      StepFresh(g, w);
      DrainFresh(g, u, Step(g, w));
    }
  }

  /**
   * An unvisited id ends up with the branch of its earliest queue entry: later
   * arrivals at a merge point are skipped.
   */
  lemma {:induction false} DrainFirstArrival(g: Graph, u: set<NodeId>, w: Walk, i: nat)
    requires Inv(g, u, w)
    requires i < |w.queue| && w.queue[i].id !in w.visited
    requires forall j :: 0 <= j < i ==> w.queue[j].id != w.queue[i].id
    ensures w.queue[i].id in Drain(g, u, w).branchOf
    ensures Drain(g, u, w).branchOf[w.queue[i].id] == w.queue[i].branch
    decreases |u - w.visited|, |w.queue|
  {
    StepKeeps(g, u, w);
    var w' := Step(g, w);
    var id := w.queue[i].id;
    assert Drain(g, u, w) == Drain(g, u, w');
    if i == 0 {
      assert w'.branchOf[id] == w.queue[0].branch;
      DrainKeeps(g, u, w');
    } else {
      FirstArrivalShifts(g, w, i);
      DrainFirstArrival(g, u, w', i - 1);
    }
  }

  /** An entry behind the front keeps its first-arrival position, one place further forward. */
  lemma FirstArrivalShifts(g: Graph, w: Walk, i: nat)
    requires 0 < i < |w.queue| && w.queue[i].id !in w.visited
    requires forall j :: 0 <= j < i ==> w.queue[j].id != w.queue[i].id
    ensures Step(g, w).queue[i - 1] == w.queue[i] && w.queue[i].id !in Step(g, w).visited
    ensures forall j :: 0 <= j < i - 1 ==> Step(g, w).queue[j].id != w.queue[i].id
  {
    StepShifts(g, w);
    assert w.queue[0].id != w.queue[i].id;
  }

  /** A dequeue shifts the rest of the queue forward and visits at most the dequeued id. */
  lemma StepShifts(g: Graph, w: Walk)
    requires |w.queue| > 0
    ensures |w.queue| - 1 <= |Step(g, w).queue|
    ensures forall j :: 0 <= j < |w.queue| - 1 ==> Step(g, w).queue[j] == w.queue[j + 1]
    ensures Step(g, w).visited <= w.visited + {w.queue[0].id}
  {
  }

  function QueueIds(q: seq<Item>): set<NodeId> {
    set i | 0 <= i < |q| :: q[i].id
  }

  lemma QueueIdsCons(it: Item, q: seq<Item>)
    ensures QueueIds([it] + q) == {it.id} + QueueIds(q)
  {
    var q' := [it] + q;
    forall x | x in QueueIds(q') ensures x in {it.id} + QueueIds(q) {
      var i :| 0 <= i < |q'| && q'[i].id == x;
      if i > 0 {
        assert q[i - 1].id == x;
        assert x in QueueIds(q);
      }
    }
    forall x | x in QueueIds(q) ensures x in QueueIds(q') {
      var i :| 0 <= i < |q| && q[i].id == x;
      assert q'[i + 1].id == x;
    }
    assert q'[0].id == it.id;
    assert it.id in QueueIds(q');
  }

  /** Every child of a visited id is visited or still waiting in the queue. */
  ghost predicate Frontier(g: Graph, w: Walk) {
    forall v, k :: v in w.visited && 0 <= k < |Children(g, v)| ==>
      Children(g, v)[k] in w.visited + QueueIds(w.queue)
  }

  lemma StepFrontier(g: Graph, u: set<NodeId>, w: Walk)
    requires Inv(g, u, w) && Frontier(g, w) && |w.queue| > 0
    ensures Frontier(g, Step(g, w))
    ensures w.visited + QueueIds(w.queue) <= Step(g, w).visited + QueueIds(Step(g, w).queue)
  {
    var it := w.queue[0];
    var w' := Step(g, w);
    var rest := w.queue[1..];
    assert w.queue == [it] + rest;
    QueueIdsCons(it, rest);
    if it.id !in w.visited {
      var kids := Children(g, it.id);
      var seeds := Seed(kids, it.branch, w.counter);
      assert w'.queue == rest + seeds;
      forall x | x in QueueIds(rest) ensures x in QueueIds(w'.queue) {
        var i :| 0 <= i < |rest| && rest[i].id == x;
        assert w'.queue[i].id == x;
      }
      forall k | 0 <= k < |kids| ensures kids[k] in QueueIds(w'.queue) {
        assert w'.queue[|rest| + k].id == kids[k];
      }
    }
  }

  /** The loop closes the visited set under children and visits everything it queued. */
  lemma {:induction false} DrainCovers(g: Graph, u: set<NodeId>, w: Walk)
    requires Inv(g, u, w) && Frontier(g, w)
    ensures w.visited + QueueIds(w.queue) <= Drain(g, u, w).visited
    ensures forall v, k :: v in Drain(g, u, w).visited && 0 <= k < |Children(g, v)| ==>
              Children(g, v)[k] in Drain(g, u, w).visited
    decreases |u - w.visited|, |w.queue|
  {
    if |w.queue| == 0 {
      assert Frontier(g, w);
    } else {
      StepKeeps(g, u, w);
      StepFrontier(g, u, w);
      DrainCovers(g, u, Step(g, w));
    }
  }

  /** The loop visits nothing outside a set that holds its start and is closed under children. */
  lemma {:induction false} DrainWithin(g: Graph, u: set<NodeId>, w: Walk, reach: set<NodeId>)
    requires Inv(g, u, w)
    requires w.visited + QueueIds(w.queue) <= reach
    requires forall v, k :: v in reach && 0 <= k < |Children(g, v)| ==> Children(g, v)[k] in reach
    ensures Drain(g, u, w).visited <= reach
    decreases |u - w.visited|, |w.queue|
  {
    if |w.queue| > 0 {
      StepKeeps(g, u, w);
      StepWithin(g, w, reach);
      DrainWithin(g, u, Step(g, w), reach);
    }
  }

  lemma StepWithin(g: Graph, w: Walk, reach: set<NodeId>)
    requires |w.queue| > 0
    requires w.visited + QueueIds(w.queue) <= reach
    requires forall v, k :: v in reach && 0 <= k < |Children(g, v)| ==> Children(g, v)[k] in reach
    ensures Step(g, w).visited + QueueIds(Step(g, w).queue) <= reach
  {
    var it := w.queue[0];
    var w' := Step(g, w);
    assert w.queue[0].id in QueueIds(w.queue);
    forall x | x in QueueIds(w'.queue) ensures x in reach {
      var i :| 0 <= i < |w'.queue| && w'.queue[i].id == x;
      if i < |w.queue| - 1 {
        assert w'.queue[i] == w.queue[i + 1];
        assert w.queue[i + 1].id in QueueIds(w.queue);
      } else {
        var kids := Children(g, it.id);
        assert w'.queue == w.queue[1..] + Seed(kids, it.branch, w.counter);
        assert x == kids[i - (|w.queue| - 1)];
      }
    }
  }

  // ------------------------------------------------------------------ the pass over a roadmap

  function Initial(nodes: seq<NodeId>, edges: seq<Edge>): Walk {
    var roots := RootItems(nodes, BuildGraph(nodes, edges), 0);
    Walk(roots, {}, map[], |roots|, 0)
  }

  lemma InitialInv(nodes: seq<NodeId>, edges: seq<Edge>)
    ensures Inv(BuildGraph(nodes, edges), Universe(nodes, edges), Initial(nodes, edges))
    ensures Fresh(Initial(nodes, edges))
    ensures Frontier(BuildGraph(nodes, edges), Initial(nodes, edges))
  {
    var g := BuildGraph(nodes, edges);
    var u := Universe(nodes, edges);
    var w := Initial(nodes, edges);
    RootItemsMembers(nodes, g, 0);
    forall i | 0 <= i < |w.queue| ensures w.queue[i].id in u {
      assert w.queue[i].id in QueueIds(w.queue);
    }
    forall v, k | v in g.adj && 0 <= k < |g.adj[v]|
      ensures g.adj[v][k] in u
    {
      ChildIsTarget(nodes, edges, v, k);
      var i :| 0 <= i < |edges| && edges[i] == Edge(v, g.adj[v][k]);
      assert edges[i] in edges;
    }
  }

  /** `nodeBranch` after the loop. */
  function Branching(nodes: seq<NodeId>, edges: seq<Edge>): map<NodeId, nat> {
    InitialInv(nodes, edges);
    Drain(BuildGraph(nodes, edges), Universe(nodes, edges), Initial(nodes, edges)).branchOf
  }

  /**
   * Coverage: the ids given a branch are the roots, closed under children, and
   * lie inside every child-closed set holding the roots; so they are exactly the
   * ids reachable from a root. A node on a rootless cycle gets none.
   */
  lemma BranchingIsReachable(nodes: seq<NodeId>, edges: seq<Edge>, reach: set<NodeId>)
    ensures forall n :: n in nodes && IsRoot(BuildGraph(nodes, edges), n) ==> n in Branching(nodes, edges)
    ensures forall v, k :: v in Branching(nodes, edges) && 0 <= k < |Children(BuildGraph(nodes, edges), v)| ==>
              Children(BuildGraph(nodes, edges), v)[k] in Branching(nodes, edges)
    ensures (forall n :: n in nodes && IsRoot(BuildGraph(nodes, edges), n) ==> n in reach) &&
            (forall v, k :: v in reach && 0 <= k < |Children(BuildGraph(nodes, edges), v)| ==>
               Children(BuildGraph(nodes, edges), v)[k] in reach)
            ==> Branching(nodes, edges).Keys <= reach
  {
    var g := BuildGraph(nodes, edges);
    var u := Universe(nodes, edges);
    var w := Initial(nodes, edges);
    InitialInv(nodes, edges);
    var r := Drain(g, u, w);
    assert Branching(nodes, edges) == r.branchOf;
    assert r.branchOf.Keys == r.visited;
    RootItemsMembers(nodes, g, 0);
    assert QueueIds(w.queue) == set n | n in nodes && IsRoot(g, n);
    DrainCovers(g, u, w);
    if (forall n :: n in nodes && IsRoot(g, n) ==> n in reach) &&
       (forall v, k :: v in reach && 0 <= k < |Children(g, v)| ==> Children(g, v)[k] in reach) {
      DrainWithin(g, u, w, reach);
    }
  }

  /**
   * The k-th root entry, if its id was not listed as a root before, keeps
   * branch k: roots are numbered 0, 1, 2, ... in node-list order.
   */
  lemma RootBranch(nodes: seq<NodeId>, edges: seq<Edge>, k: nat)
    requires k < |Initial(nodes, edges).queue|
    requires forall j :: 0 <= j < k ==> Initial(nodes, edges).queue[j].id != Initial(nodes, edges).queue[k].id
    ensures Initial(nodes, edges).queue[k].id in Branching(nodes, edges)
    ensures Branching(nodes, edges)[Initial(nodes, edges).queue[k].id] == k
  {
    InitialInv(nodes, edges);
    DrainFirstArrival(BuildGraph(nodes, edges), Universe(nodes, edges), Initial(nodes, edges), k);
  }

  // ------------------------------------------------------------------ the loop as written

  /** Number of edges whose source is in `s`. */
  function Leaving(edges: seq<Edge>, s: set<NodeId>): nat
    ensures Leaving(edges, s) <= |edges|
  {
    if |edges| == 0 then 0
    else (if edges[0].source in s then 1 else 0) + Leaving(edges[1..], s)
  }

  lemma {:induction false} LeavingNone(edges: seq<Edge>)
    ensures Leaving(edges, {}) == 0
  {
    if |edges| > 0 {
      LeavingNone(edges[1..]);
    }
  }

  lemma {:induction false} LeavingAdd(edges: seq<Edge>, s: set<NodeId>, v: NodeId)
    requires v !in s
    ensures Leaving(edges, s + {v}) == Leaving(edges, s) + OutCount(edges, v)
  {
    if |edges| > 0 {
      LeavingAdd(edges[1..], s, v);
    }
  }

  lemma VisitKnown(visited: set<NodeId>, known: set<NodeId>, id: NodeId)
    requires id !in visited
    ensures id in known ==> (visited + {id}) * known == visited * known + {id} && id !in visited * known
    ensures id !in known ==> (visited + {id}) * known == visited * known
  {
  }

  lemma DrainStep(g: Graph, u: set<NodeId>, w: Walk)
    requires Inv(g, u, w) && |w.queue| > 0
    ensures Inv(g, u, Step(g, w))
    ensures Drain(g, u, w) == Drain(g, u, Step(g, w))
  {
    StepKeeps(g, u, w);
  }

  /** The state after expanding the front item, given field by field. */
  lemma ExpandState(g: Graph, w: Walk, queue: seq<Item>, visited: set<NodeId>,
                    branchOf: map<NodeId, nat>, counter: nat, steps: nat)
    requires |w.queue| > 0 && w.queue[0].id !in w.visited
    requires queue == w.queue[1..] + Seed(Children(g, w.queue[0].id), w.queue[0].branch, w.counter)
    requires visited == w.visited + {w.queue[0].id}
    requires branchOf == w.branchOf[w.queue[0].id := w.queue[0].branch]
    requires counter == w.counter + Minted(Children(g, w.queue[0].id))
    requires steps == w.steps + 1
    ensures Walk(queue, visited, branchOf, counter, steps) == Step(g, w)
  {
  }

  /** The state after dropping an already visited front item, given field by field. */
  lemma SkipState(g: Graph, w: Walk, queue: seq<Item>, steps: nat)
    requires |w.queue| > 0 && w.queue[0].id in w.visited
    requires queue == w.queue[1..] && steps == w.steps + 1
    ensures Walk(queue, w.visited, w.branchOf, w.counter, steps) == Step(g, w)
  {
  }

  lemma SeedSnoc(children: seq<NodeId>, branch: nat, counter: nat, i: nat)
    requires i < |children|
    ensures Seed(children[..i + 1], branch, counter)
         == Seed(children[..i], branch, counter) + [Item(children[i], if i == 0 then branch else counter + i - 1)]
  {
  }

  /**
   * `children.forEach((childId, index) => ...)`: append every child to the
   * queue, the first with the parent's branch and each later one with the
   * counter's next value, which it then bumps.
   */
  method PushChildren(queue: seq<Item>, children: seq<NodeId>, branch: nat, counter: nat)
    returns (queue': seq<Item>, counter': nat)
    ensures queue' == queue + Seed(children, branch, counter)
    ensures counter' == counter + Minted(children)
  {
    queue' := queue;
    counter' := counter;
    var i := 0;
    while i < |children|
      invariant 0 <= i <= |children|
      invariant queue' == queue + Seed(children[..i], branch, counter)
      invariant counter' == counter + Minted(children[..i])
    {
      var next := if i == 0 then branch else counter';
      if i > 0 {
        counter' := counter' + 1;
      }
      SeedSnoc(children, branch, counter, i);
      queue' := queue' + [Item(children[i], next)];
      i := i + 1;
    }
    assert children[..i] == children;
  }

  /**
   * The branch-assignment loop: an array-backed queue shifted from the front, a
   * visited set, and `branchCounter`. It computes `Branching`, dequeues at most
   * #roots + #edges times, and every branch id it hands out is below that bound.
   */
  method AssignBranches(nodes: seq<NodeId>, edges: seq<Edge>) returns (branchOf: map<NodeId, nat>, steps: nat)
    ensures branchOf == Branching(nodes, edges)
    ensures steps <= |Initial(nodes, edges).queue| + |edges|
    ensures forall v :: v in branchOf ==> branchOf[v] < |Initial(nodes, edges).queue| + |edges|
  {
    var g := BuildGraph(nodes, edges);
    var u := Universe(nodes, edges);
    var known := set n | n in nodes;
    var queue := RootItems(nodes, g, 0);
    var roots := |queue|;
    var visited: set<NodeId> := {};
    var counter: nat := |queue|;
    branchOf := map[];
    steps := 0;
    InitialInv(nodes, edges);
    ghost var start := Initial(nodes, edges);
    assert start == Walk(queue, visited, branchOf, counter, steps);
    LeavingNone(edges);
    assert visited * known == {};
    while |queue| > 0
      invariant Inv(g, u, Walk(queue, visited, branchOf, counter, steps))
      invariant Fresh(Walk(queue, visited, branchOf, counter, steps))
      invariant Drain(g, u, Walk(queue, visited, branchOf, counter, steps)) == Drain(g, u, start)
      invariant steps + |queue| == roots + Leaving(edges, visited * known)
      invariant counter <= steps + |queue|
      decreases |u - visited|, |queue|
    {
      ghost var w := Walk(queue, visited, branchOf, counter, steps);
      StepKeeps(g, u, w);
      StepFresh(g, w);
      var item := queue[0];
      queue := queue[1..];
      steps := steps + 1;
      if item.id !in visited {
        VisitKnown(visited, known, item.id);
        if item.id in known {
          LeavingAdd(edges, visited * known, item.id);
          TargetsLength(edges, item.id);
        }
        visited := visited + {item.id};
        branchOf := branchOf[item.id := item.branch];
        var kids := Children(g, item.id);
        queue, counter := PushChildren(queue, kids, item.branch, counter);
        ExpandState(g, w, queue, visited, branchOf, counter, steps);
        assert |queue| == |w.queue| - 1 + |kids|;
        assert counter <= w.counter + |kids|;
      } else {
        SkipState(g, w, queue, steps);
      }
      DrainStep(g, u, w);
    }
  }
}
