/**
 * The last part of the roadmap pass: the horizontal extent of the laid-out
 * nodes, the rank factor of each node, and the colours and position a node
 * receives from its branch (getLayoutedElements in RoadmapCanvas.tsx). The
 * layout engine is not modelled: node centres are an input.
 */
module PathColouring {
  import opened Wrappers
  import opened Colour
  import opened RoadmapGraph
  import opened Branches

  datatype Point = Point(x: real, y: real)

  /** Node centres as the layout engine places them; a node without an entry has no layout. */
  type Layout = map<NodeId, Point>

  const NodeWidth: real := 240.0
  const NodeHeight: real := 60.0

  datatype Extent = Extent(minX: real, maxX: real)

  /** What a styled node carries: its top-left position, branch, palette and the three derived colours. */
  datatype NodeStyle = NodeStyle(id: NodeId, position: Point, branch: nat, palette: PalettePair,
                                 base: string, shade: string, border: string)

  // ------------------------------------------------------------------ extent and range

  /**
   * `minX`/`maxX` over the nodes that have a layout, folding in list order
   * from +Infinity/-Infinity; None when no node has one (the infinities stay).
   */
  function XExtent(nodes: seq<NodeId>, layout: Layout): (r: Option<Extent>)
    decreases |nodes|
    ensures r.None? <==> forall n :: n in nodes ==> n !in layout
    ensures r.Some? ==> r.value.minX <= r.value.maxX
    ensures r.Some? ==> forall n :: n in nodes && n in layout ==> r.value.minX <= layout[n].x <= r.value.maxX
  {
    if |nodes| == 0 then None
    else
      var init := nodes[..|nodes| - 1];
      var n := nodes[|nodes| - 1];
      assert forall m :: m in nodes <==> m in init || m == n by {
        assert nodes == init + [n];
      }
      var prev := XExtent(init, layout);
      if n !in layout then prev
      else
        var x := layout[n].x;
        match prev
        case None => Some(Extent(x, x))
        case Some(e) => Some(Extent(if x < e.minX then x else e.minX, if x > e.maxX then x else e.maxX))
  }

  /** Both ends of the extent are the abscissa of some laid-out node. */
  lemma {:induction false} XExtentAttained(nodes: seq<NodeId>, layout: Layout)
    decreases |nodes|
    requires XExtent(nodes, layout).Some?
    ensures exists n :: n in nodes && n in layout && layout[n].x == XExtent(nodes, layout).value.minX
    ensures exists n :: n in nodes && n in layout && layout[n].x == XExtent(nodes, layout).value.maxX
  {
    var init := nodes[..|nodes| - 1];
    var last := nodes[|nodes| - 1];
    assert nodes == init + [last];
    var e := XExtent(nodes, layout).value;
    var prev := XExtent(init, layout);
    if prev.Some? {
      XExtentAttained(init, layout);
      var i :| i in init && i in layout && layout[i].x == prev.value.minX;
      var j :| j in init && j in layout && layout[j].x == prev.value.maxX;
      assert i in nodes && j in nodes;
      if last in layout {
        var x := layout[last].x;
        assert e.minX == x || e.minX == layout[i].x;
        assert e.maxX == x || e.maxX == layout[j].x;
      }
    } else {
      assert last in layout;
    }
  }

  /** `maxX - minX || 1`: zero (a single column) becomes one. */
  function Range(e: Extent): (r: real)
    ensures e.minX <= e.maxX ==> r > 0.0
    ensures e.minX < e.maxX ==> r == e.maxX - e.minX
    ensures e.minX == e.maxX ==> r == 1.0
  {
    if e.maxX - e.minX == 0.0 then 1.0 else e.maxX - e.minX
  }

  /** `range === 0 ? 0 : (x - minX) / range`. */
  function RankFactor(x: real, e: Extent): real {
    var range := Range(e);
    if range == 0.0 then 0.0 else (x - e.minX) / range
  }

  /**
   * For a node inside the extent the rank factor lies in [0, 1]: 0 at the left
   * edge, 1 at the right edge of a wider-than-zero extent. The zero test on
   * `range` never fires.
   */
  lemma RankFactorBounds(x: real, e: Extent)
    requires e.minX <= x <= e.maxX
    ensures Range(e) != 0.0
    ensures 0.0 <= RankFactor(x, e) <= 1.0
    ensures x == e.minX ==> RankFactor(x, e) == 0.0
    ensures e.minX < e.maxX && x == e.maxX ==> RankFactor(x, e) == 1.0
  {
    var range := Range(e);
    if e.minX < e.maxX {
      assert (x - e.minX) <= range;
      assert (x - e.minX) / range <= range / range;
    }
  }

  // ------------------------------------------------------------------ colours of one node

  /** `nodeBranch[node.id] ?? 0`. */
  function BranchOrZero(branchOf: map<NodeId, nat>, id: NodeId): (b: nat)
    ensures id in branchOf ==> b == branchOf[id]
    ensures id !in branchOf ==> b == 0
  {
    if id in branchOf then branchOf[id] else 0
  }

  /**
   * `baseColor`: the palette's start blended toward its end by half the rank
   * factor. Palette colours are well formed and the factor is in [0, 0.5], so
   * the blend is always determined.
   */
  function BaseColour(p: PalettePair, rank: real): (r: string)
    requires p in Palettes
    requires 0.0 <= rank <= 1.0
    ensures Canonical(r)
    ensures Some(r) == Interpolate(p.start, p.end, Num(rank * 0.5))
  {
    PalettesCanonical();
    InterpolateCanonical(p.start, p.end, rank * 0.5);
    Interpolate(p.start, p.end, Num(rank * 0.5)).value
  }

  /** A canonical colour blended 30% toward `target`; determined for canonical targets. */
  function Tint(base: string, target: string): (r: string)
    requires Canonical(base) && Canonical(target)
    ensures Canonical(r)
    ensures Some(r) == Interpolate(base, target, Num(0.3))
  {
    InterpolateCanonical(base, target, 0.3);
    Interpolate(base, target, Num(0.3)).value
  }

  const Black: string := "#000000"
  const White: string := "#ffffff"

  lemma BlackParses()
    ensures Canonical(Black) && ParseColour(Black) == Some(Rgb(0, 0, 0))
  {
    StripLeadingHash(Black);
    assert |Black| == 7 && Black[0] == '#';
    forall i | 1 <= i < 7 ensures IsLowerHex(Black[i]) {
      assert Black[i] == '0';
    }
    assert StripHash(Black) == "000000";
    assert ParseChannel('0', '0') == Some(0);
  }

  lemma WhiteParses()
    ensures Canonical(White) && ParseColour(White) == Some(Rgb(255, 255, 255))
  {
    StripLeadingHash(White);
    assert |White| == 7 && White[0] == '#';
    forall i | 1 <= i < 7 ensures IsLowerHex(White[i]) {
      assert White[i] == 'f';
    }
    assert StripHash(White) == "ffffff";
    assert ParseChannel('f', 'f') == Some(255);
  }

  lemma BlackAndWhite()
    ensures Canonical(Black) && Canonical(White)
    ensures ParseColour(Black) == Some(Rgb(0, 0, 0)) && ParseColour(White) == Some(Rgb(255, 255, 255))
  {
    BlackParses();
    WhiteParses();
  }

  /**
   * The gradient's dark end is no lighter than the base in any channel, and
   * the border is no darker.
   */
  lemma ShadeAndBorder(base: string)
    requires Canonical(base)
    ensures Canonical(Black) && Canonical(White)
    ensures ParseColour(Tint(base, Black)).Some? && ParseColour(Tint(base, White)).Some?
    ensures var b, d, l := ParseColour(base).value, ParseColour(Tint(base, Black)).value, ParseColour(Tint(base, White)).value;
      d.r <= b.r <= l.r && d.g <= b.g <= l.g && d.b <= b.b <= l.b
  {
    BlackAndWhite();
    FormatParseRoundTrip(base);
    InterpolateReadsBack(base, Black, 0.3);
    InterpolateReadsBack(base, White, 0.3);
  }

  // ------------------------------------------------------------------ the styling pass

  /** The style of one laid-out node inside the extent `e`. */
  function StyleNode(id: NodeId, at: Point, e: Extent, branchOf: map<NodeId, nat>): (s: NodeStyle)
    requires e.minX <= at.x <= e.maxX
    ensures s.id == id
    ensures s.position == Point(at.x - NodeWidth / 2.0, at.y - NodeHeight / 2.0)
    ensures s.branch == BranchOrZero(branchOf, id) && s.palette == PaletteFor(s.branch)
    ensures Canonical(s.base) && Canonical(s.shade) && Canonical(s.border)
    ensures Some(s.base) == Interpolate(s.palette.start, s.palette.end, Num(RankFactor(at.x, e) * 0.5))
    ensures Some(s.shade) == Interpolate(s.base, Black, Num(0.3))
    ensures Some(s.border) == Interpolate(s.base, White, Num(0.3))
  {
    RankFactorBounds(at.x, e);
    BlackAndWhite();
    var b := BranchOrZero(branchOf, id);
    var p := PaletteFor(b);
    var base := BaseColour(p, RankFactor(at.x, e));
    NodeStyle(id, Point(at.x - NodeWidth / 2.0, at.y - NodeHeight / 2.0), b, p,
              base, Tint(base, Black), Tint(base, White))
  }

  /** The nodes that have a layout, in list order. */
  function LaidOut(nodes: seq<NodeId>, layout: Layout): (r: seq<NodeId>)
    decreases |nodes|
    ensures |r| <= |nodes|
    ensures forall n :: n in r <==> n in nodes && n in layout
  {
    if |nodes| == 0 then []
    else
      var init := nodes[..|nodes| - 1];
      var last := nodes[|nodes| - 1];
      assert forall m :: m in nodes <==> m in init || m == last by {
        assert nodes == init + [last];
      }
      var rest := LaidOut(init, layout);
      if last in layout then rest + [last] else rest
  }

  /** A single node is kept exactly when it has a layout. */
  lemma LaidOutSingle(n: NodeId, layout: Layout)
    ensures LaidOut([n], layout) == if n in layout then [n] else []
  {
    assert [n][..0] == [];
    LaidOutLast([n], layout);
  }

  /**
   * Laying out keeps list order: the kept nodes of a prefix come first and
   * those of the rest follow. With `LaidOutSingle` this fixes the whole list,
   * one entry per listed node that has a layout.
   */
  lemma {:induction false} LaidOutSplit(nodes: seq<NodeId>, layout: Layout, m: nat)
    requires m <= |nodes|
    ensures LaidOut(nodes, layout) == LaidOut(nodes[..m], layout) + LaidOut(nodes[m..], layout)
    decreases |nodes|
  {
    if m == |nodes| {
      assert nodes[..m] == nodes;
      assert LaidOut(nodes[m..], layout) == [];
    } else {
      var init := nodes[..|nodes| - 1];
      var last := nodes[|nodes| - 1];
      var tail := nodes[m..];
      calc {
        LaidOut(nodes, layout);
      == { LaidOutLast(nodes, layout); }
        LaidOut(init, layout) + Kept(last, layout);
      == { LaidOutSplit(init, layout, m); assert init[..m] == nodes[..m]; }
        (LaidOut(nodes[..m], layout) + LaidOut(init[m..], layout)) + Kept(last, layout);
      ==
        LaidOut(nodes[..m], layout) + (LaidOut(init[m..], layout) + Kept(last, layout));
      == { LaidOutLast(tail, layout); assert tail[..|tail| - 1] == init[m..] && tail[|tail| - 1] == last; }
        LaidOut(nodes[..m], layout) + LaidOut(tail, layout);
      }
    }
  }

  /** The node itself when it has a layout, nothing otherwise. */
  function Kept(n: NodeId, layout: Layout): seq<NodeId> {
    if n in layout then [n] else []
  }

  /** One unfolding of `LaidOut` at the back of the list. */
  lemma LaidOutLast(nodes: seq<NodeId>, layout: Layout)
    requires |nodes| > 0
    ensures LaidOut(nodes, layout) == LaidOut(nodes[..|nodes| - 1], layout) + Kept(nodes[|nodes| - 1], layout)
  {
  }

  /** Styles for the nodes, in list order, skipping any node without a layout. */
  function StyleNodes(nodes: seq<NodeId>, layout: Layout, e: Extent, branchOf: map<NodeId, nat>): (r: seq<NodeStyle>)
    requires forall n :: n in nodes && n in layout ==> e.minX <= layout[n].x <= e.maxX
    ensures |r| <= |nodes|
    ensures forall i :: 0 <= i < |r| ==> r[i].id in nodes && r[i].id in layout
    ensures forall i :: 0 <= i < |r| ==> r[i] == StyleNode(r[i].id, layout[r[i].id], e, branchOf)
    ensures |r| == |LaidOut(nodes, layout)|
    ensures forall i :: 0 <= i < |r| ==> r[i].id == LaidOut(nodes, layout)[i]
  {
    var ids := LaidOut(nodes, layout);
    seq(|ids|, i requires 0 <= i < |ids| => StyleNode(ids[i], layout[ids[i]], e, branchOf))
  }

  /** Every node that has a layout receives a style. */
  lemma StyleNodesCover(nodes: seq<NodeId>, layout: Layout, e: Extent, branchOf: map<NodeId, nat>, n: NodeId)
    requires forall m :: m in nodes && m in layout ==> e.minX <= layout[m].x <= e.maxX
    requires n in nodes && n in layout
    ensures exists i :: 0 <= i < |StyleNodes(nodes, layout, e, branchOf)| && StyleNodes(nodes, layout, e, branchOf)[i].id == n
  {
    var ids := LaidOut(nodes, layout);
    var i :| 0 <= i < |ids| && ids[i] == n;
    assert StyleNodes(nodes, layout, e, branchOf)[i].id == n;
  }

  /** The styling pass over a roadmap: branches from the worklist, extent over the laid-out nodes. */
  function StyleRoadmap(nodes: seq<NodeId>, edges: seq<Edge>, layout: Layout): (r: seq<NodeStyle>)
    ensures |r| <= |nodes|
    ensures forall i :: 0 <= i < |r| ==> r[i].id in nodes && r[i].id in layout
    ensures forall i :: 0 <= i < |r| ==> r[i].branch == BranchOrZero(Branching(nodes, edges), r[i].id)
    ensures forall i :: 0 <= i < |r| ==> r[i].palette == Palettes[r[i].branch % 8]
    ensures |r| > 0 ==> XExtent(nodes, layout).Some?
    ensures forall i :: 0 <= i < |r| ==>
              r[i] == StyleNode(r[i].id, layout[r[i].id], XExtent(nodes, layout).value, Branching(nodes, edges))
  {
    match XExtent(nodes, layout)
    case None => []
    case Some(e) => StyleNodes(nodes, layout, e, Branching(nodes, edges))
  }

  /** Every laid-out node of the roadmap is styled. */
  lemma StyleRoadmapCovers(nodes: seq<NodeId>, edges: seq<Edge>, layout: Layout, n: NodeId)
    requires n in nodes && n in layout
    ensures exists i :: 0 <= i < |StyleRoadmap(nodes, edges, layout)| && StyleRoadmap(nodes, edges, layout)[i].id == n
  {
    var bo := Branching(nodes, edges);
    assert XExtent(nodes, layout).Some?;
    var e := XExtent(nodes, layout).value;
    assert StyleRoadmap(nodes, edges, layout) == StyleNodes(nodes, layout, e, bo);
    StyleNodesCover(nodes, layout, e, bo, n);
  }

  /** A style whose node has no branch entry falls back to branch 0 and its red palette. */
  lemma FallbackIsRed(branchOf: map<NodeId, nat>, s: NodeStyle)
    requires s.id !in branchOf
    requires s.branch == BranchOrZero(branchOf, s.id) && s.palette == Palettes[s.branch % 8]
    ensures s.branch == 0 && s.palette == PalettePair("#ef4444", "#b91c1c")
  {
  }

  /** A node no root reaches (for instance one on a rootless cycle) is drawn in branch 0's red. */
  lemma UnreachedIsRed(nodes: seq<NodeId>, edges: seq<Edge>, layout: Layout)
    ensures var r, bo := StyleRoadmap(nodes, edges, layout), Branching(nodes, edges);
      forall i :: 0 <= i < |r| && r[i].id !in bo ==>
        r[i].branch == 0 && r[i].palette == PalettePair("#ef4444", "#b91c1c")
  {
    var r, bo := StyleRoadmap(nodes, edges, layout), Branching(nodes, edges);
    forall i | 0 <= i < |r| && r[i].id !in bo
      ensures r[i].branch == 0 && r[i].palette == PalettePair("#ef4444", "#b91c1c")
    {
      FallbackIsRed(bo, r[i]);
    }
  }

  /** The gradient's dark end is no lighter than the base in any channel, and the border no darker. */
  ghost predicate ShadesOrdered(s: NodeStyle) {
    ParseColour(s.base).Some? && ParseColour(s.shade).Some? && ParseColour(s.border).Some?
    && var b, d, l := ParseColour(s.base).value, ParseColour(s.shade).value, ParseColour(s.border).value;
       d.r <= b.r <= l.r && d.g <= b.g <= l.g && d.b <= b.b <= l.b
  }

  /** A style built by the per-node rule has ordered shades. */
  lemma StyleNodeShades(id: NodeId, at: Point, e: Extent, branchOf: map<NodeId, nat>)
    requires e.minX <= at.x <= e.maxX
    ensures ShadesOrdered(StyleNode(id, at, e, branchOf))
  {
    var s := StyleNode(id, at, e, branchOf);
    BlackAndWhite();
    ShadeAndBorder(s.base);
    assert Some(s.shade) == Some(Tint(s.base, Black));
    assert Some(s.border) == Some(Tint(s.base, White));
  }

  /**
   * On the styled output: every node's base colour uses a blend factor in
   * [0, 0.5], and its shade and border are ordered around the base.
   */
  lemma StyledShades(nodes: seq<NodeId>, edges: seq<Edge>, layout: Layout)
    ensures var r := StyleRoadmap(nodes, edges, layout);
      forall i :: 0 <= i < |r| ==> (r[i].id in layout && XExtent(nodes, layout).Some?
                                    && 0.0 <= RankFactor(layout[r[i].id].x, XExtent(nodes, layout).value) * 0.5 <= 0.5)
    ensures forall s :: s in StyleRoadmap(nodes, edges, layout) ==> ShadesOrdered(s)
  {
    var r := StyleRoadmap(nodes, edges, layout);
    forall i | 0 <= i < |r|
      ensures r[i].id in layout && XExtent(nodes, layout).Some?
      ensures 0.0 <= RankFactor(layout[r[i].id].x, XExtent(nodes, layout).value) * 0.5 <= 0.5
      ensures ShadesOrdered(r[i])
    {
      var e := XExtent(nodes, layout).value;
      RankFactorBounds(layout[r[i].id].x, e);
      StyleNodeShades(r[i].id, layout[r[i].id], e, Branching(nodes, edges));
    }
  }

}
