/**
 * Quadtree grids of GCP-like nodes (`TypedGrid`): four corners, five optional midpoints and four
 * optional child grids. This module holds the grid as a value: mapping it, traversing it and the
 * specification of its adaptive refinement.
 */
module Grids {
  import opened Wrappers
  import opened Geometry
  import opened Refinement

  /** A `TypedRectangle`: the corners top-left, top-right, bottom-right, bottom-left. */
  datatype Quad<P> = Quad(tl: P, tr: P, br: P, bl: P)

  /** A `TypedGrid`: corners, midpoints (top, right, bottom, left and center) and children. */
  datatype Grid<P> = Grid(
    tl: P, tr: P, br: P, bl: P,
    tc: Option<P>, cr: Option<P>, bc: Option<P>, cl: Option<P>, cc: Option<P>,
    tlGrid: Option<Grid<P>>, trGrid: Option<Grid<P>>, brGrid: Option<Grid<P>>, blGrid: Option<Grid<P>>)

  /** A grid with only its four corners. */
  function CornerGrid<P>(corners: Quad<P>): Grid<P>
  {
    Grid(corners.tl, corners.tr, corners.br, corners.bl, None, None, None, None, None, None, None, None, None)
  }

  predicate IsLeaf<P>(g: Grid<P>)
  {
    g.tlGrid.None? && g.trGrid.None? && g.brGrid.None? && g.blGrid.None?
  }

  predicate MidsPresent<P>(g: Grid<P>)
  {
    g.tc.Some? && g.cr.Some? && g.bc.Some? && g.cl.Some? && g.cc.Some?
  }

  /** The corners the source gives each child: built from the parent's corners and midpoints. */
  function TlCorners<P>(g: Grid<P>): Quad<P> requires MidsPresent(g) { Quad(g.tl, g.tc.value, g.cc.value, g.cl.value) }
  function TrCorners<P>(g: Grid<P>): Quad<P> requires MidsPresent(g) { Quad(g.tc.value, g.tr, g.cr.value, g.cc.value) }
  function BrCorners<P>(g: Grid<P>): Quad<P> requires MidsPresent(g) { Quad(g.cc.value, g.cr.value, g.br, g.bc.value) }
  function BlCorners<P>(g: Grid<P>): Quad<P> requires MidsPresent(g) { Quad(g.cl.value, g.cc.value, g.bc.value, g.bl) }

  /**
   * `gcpGridToGcpRectangle`: the four corners of a grid, in the order top-left, top-right,
   * bottom-right, bottom-left; the grid is the corner grid of its rectangle exactly when it has
   * no midpoints and no children.
   */
  function GcpGridToGcpRectangle<P>(g: Grid<P>): (r: Quad<P>)
    ensures CornerGrid(r) == g <==>
      IsLeaf(g) && g.tc.None? && g.cr.None? && g.bc.None? && g.cl.None? && g.cc.None?
  {
    Quad(g.tl, g.tr, g.br, g.bl)
  }

  /**
   * Every child's corners are the parent's corners and midpoints, so that neighbouring children
   * share the nodes on their common edge, at every level.
   */
  predicate SharesCorners<P(==)>(g: Grid<P>)
  {
    && (g.tlGrid.Some? ==> MidsPresent(g) && GcpGridToGcpRectangle(g.tlGrid.value) == TlCorners(g) && SharesCorners(g.tlGrid.value))
    && (g.trGrid.Some? ==> MidsPresent(g) && GcpGridToGcpRectangle(g.trGrid.value) == TrCorners(g) && SharesCorners(g.trGrid.value))
    && (g.brGrid.Some? ==> MidsPresent(g) && GcpGridToGcpRectangle(g.brGrid.value) == BrCorners(g) && SharesCorners(g.brGrid.value))
    && (g.blGrid.Some? ==> MidsPresent(g) && GcpGridToGcpRectangle(g.blGrid.value) == BlCorners(g) && SharesCorners(g.blGrid.value))
  }

  function Max(a: nat, b: nat): nat { if a >= b then a else b }

  function ChildHeight<P>(child: Option<Grid<P>>): nat
  {
    if child.Some? then 1 + Height(child.value) else 0
  }

  /** The number of levels below a grid. */
  function Height<P>(g: Grid<P>): nat
  {
    Max(Max(ChildHeight(g.tlGrid), ChildHeight(g.trGrid)), Max(ChildHeight(g.brGrid), ChildHeight(g.blGrid)))
  }

  function ChildLeaves<P>(child: Option<Grid<P>>): seq<Quad<P>>
  {
    if child.Some? then Leaves(child.value) else []
  }

  /** The rectangles of the childless grids, children visited top-left, top-right, bottom-right, bottom-left. */
  function Leaves<P>(g: Grid<P>): seq<Quad<P>>
  {
    if IsLeaf(g) then [GcpGridToGcpRectangle(g)]
    else ChildLeaves(g.tlGrid) + ChildLeaves(g.trGrid) + ChildLeaves(g.brGrid) + ChildLeaves(g.blGrid)
  }

  lemma {:induction false} ChildLeavesBound<P>(child: Option<Grid<P>>, h: nat)
    requires ChildHeight(child) <= h
    ensures child.None? ==> |ChildLeaves(child)| == 0
    ensures child.Some? ==> h >= 1 && 1 <= |ChildLeaves(child)| <= Pow4(h - 1)
  {
    if child.Some? {
      LeavesBound(child.value);
      Pow4Monotone(Height(child.value), h - 1);
    }
  }

  /** A grid of height h has at most 4^h leaves. */
  lemma {:induction false} LeavesBound<P>(g: Grid<P>)
    ensures 1 <= |Leaves(g)| <= Pow4(Height(g))
  {
    if !IsLeaf(g) {
      var h := Height(g);
      ChildLeavesBound(g.tlGrid, h);
      ChildLeavesBound(g.trGrid, h);
      ChildLeavesBound(g.brGrid, h);
      ChildLeavesBound(g.blGrid, h);
    }
  }

  lemma {:induction false} Pow4Monotone(a: nat, b: nat)
    requires a <= b
    ensures Pow4(a) <= Pow4(b)
  {
    if a < b {
      Pow4Monotone(a, b - 1);
    }
  }

  /** One event of `forEachGcpGridRecursively`: a node handed to the node callback or a rectangle to the rectangle callback. */
  datatype Visit<P> = VisitNode(node: P) | VisitRectangle(rectangle: Quad<P>)

  function OptionalVisit<P>(node: Option<P>): seq<Visit<P>>
  {
    if node.Some? then [VisitNode(node.value)] else []
  }

  function ChildVisits<P>(child: Option<Grid<P>>, onlyFinest: bool): seq<Visit<P>>
  {
    if child.Some? then ForEachGcpGridRecursively(child.value, onlyFinest, !onlyFinest) else []
  }

  /**
   * `forEachGcpGridRecursively` as the sequence of callback calls it makes: the corners (when
   * `doOuter`), the midpoints, the grid's rectangle (for every grid, or only for childless grids when
   * `onlyFinest`), then the children in the order top-left, top-right, bottom-right, bottom-left.
   */
  function ForEachGcpGridRecursively<P>(g: Grid<P>, onlyFinest: bool, doOuter: bool): seq<Visit<P>>
  {
    NodeVisits(g, doOuter) + RectangleVisit(g, onlyFinest)
    + ChildVisits(g.tlGrid, onlyFinest) + ChildVisits(g.trGrid, onlyFinest)
    + ChildVisits(g.brGrid, onlyFinest) + ChildVisits(g.blGrid, onlyFinest)
  }

  /** The node callbacks of one grid: its corners when `doOuter`, then its midpoints, center first. */
  function NodeVisits<P>(g: Grid<P>, doOuter: bool): seq<Visit<P>>
  {
    (if doOuter then [VisitNode(g.tl), VisitNode(g.tr), VisitNode(g.br), VisitNode(g.bl)] else [])
    + OptionalVisit(g.cc) + OptionalVisit(g.tc) + OptionalVisit(g.cr) + OptionalVisit(g.bc) + OptionalVisit(g.cl)
  }

  function RectangleVisit<P>(g: Grid<P>, onlyFinest: bool): seq<Visit<P>>
  {
    if !onlyFinest || IsLeaf(g) then [VisitRectangle(GcpGridToGcpRectangle(g))] else []
  }

  /** The rectangles a visit sequence hands to the rectangle callback, in order. */
  function Rectangles<P>(visits: seq<Visit<P>>): seq<Quad<P>>
  {
    if |visits| == 0 then []
    else (if visits[0].VisitRectangle? then [visits[0].rectangle] else []) + Rectangles(visits[1..])
  }

  lemma {:induction false} RectanglesAppend<P>(a: seq<Visit<P>>, b: seq<Visit<P>>)
    ensures Rectangles(a + b) == Rectangles(a) + Rectangles(b)
  {
    if |a| > 0 {
      assert (a + b)[1..] == a[1..] + b;
      RectanglesAppend(a[1..], b);
    } else {
      assert a + b == b;
    }
  }

  lemma NodeVisitsHaveNoRectangles<P>(g: Grid<P>, doOuter: bool)
    ensures Rectangles(NodeVisits(g, doOuter)) == []
  {
    var s := NodeVisits(g, doOuter);
    assert forall i :: 0 <= i < |s| ==> s[i].VisitNode?;
    NoRectangles(s);
  }

  lemma {:induction false} NoRectangles<P>(s: seq<Visit<P>>)
    requires forall i :: 0 <= i < |s| ==> s[i].VisitNode?
    ensures Rectangles(s) == []
  {
    if |s| > 0 {
      NoRectangles(s[1..]);
    }
  }

  /** With `onlyFinest` the traversal hands exactly the leaf rectangles to the rectangle callback, in order. */
  lemma {:induction false} ForEachFinestVisitsLeaves<P>(g: Grid<P>, doOuter: bool)
    ensures Rectangles(ForEachGcpGridRecursively(g, true, doOuter)) == Leaves(g)
  {
    var nodes, own := NodeVisits(g, doOuter), RectangleVisit(g, true);
    var a, b, c, d := ChildVisits(g.tlGrid, true), ChildVisits(g.trGrid, true), ChildVisits(g.brGrid, true), ChildVisits(g.blGrid, true);
    if g.tlGrid.Some? { ForEachFinestVisitsLeaves(g.tlGrid.value, false); }
    if g.trGrid.Some? { ForEachFinestVisitsLeaves(g.trGrid.value, false); }
    if g.brGrid.Some? { ForEachFinestVisitsLeaves(g.brGrid.value, false); }
    if g.blGrid.Some? { ForEachFinestVisitsLeaves(g.blGrid.value, false); }
    var s1 := nodes + own;
    var s2 := s1 + a;
    var s3 := s2 + b;
    var s4 := s3 + c;
    var s5 := s4 + d;
    assert ForEachGcpGridRecursively(g, true, doOuter) == s5;
    NodeVisitsHaveNoRectangles(g, doOuter);
    RectanglesAppend(nodes, own);
    RectanglesAppend(s1, a);
    RectanglesAppend(s2, b);
    RectanglesAppend(s3, c);
    RectanglesAppend(s4, d);
    var r1 := Rectangles(own);
    var r2 := r1 + ChildLeaves(g.tlGrid);
    var r3 := r2 + ChildLeaves(g.trGrid);
    var r4 := r3 + ChildLeaves(g.brGrid);
    var r5 := r4 + ChildLeaves(g.blGrid);
    assert Rectangles(s1) == r1;
    assert Rectangles(s2) == r2;
    assert Rectangles(s3) == r3;
    assert Rectangles(s4) == r4;
    assert Rectangles(s5) == r5;
    if IsLeaf(g) {
      assert r5 == r1;
      assert r1 == [GcpGridToGcpRectangle(g)];
    } else {
      assert r1 == [];
      assert r2 == ChildLeaves(g.tlGrid);
      var leaves := ChildLeaves(g.tlGrid) + ChildLeaves(g.trGrid) + ChildLeaves(g.brGrid) + ChildLeaves(g.blGrid);
      assert r5 == leaves;
      assert Leaves(g) == leaves;
    }
  }

  function MapOption<P0, P1>(node: Option<P0>, f: P0 -> P1): Option<P1>
  {
    if node.Some? then Some(f(node.value)) else None
  }

  function MapQuad<P0, P1>(q: Quad<P0>, f: P0 -> P1): Quad<P1>
  {
    Quad(f(q.tl), f(q.tr), f(q.br), f(q.bl))
  }

  function MapChild<P0, P1(==)>(child: Option<Grid<P0>>, f: P0 -> P1, corners: Quad<P1>): Option<Grid<P1>>
  {
    if child.Some? then Some(MapGcpGridRecursively(child.value, f, Some(corners))) else None
  }

  /**
   * `mapGcpGridRecursively`: a fresh grid with every node mapped, where each child takes its corners
   * from the parent's mapped nodes instead of mapping them again; children are kept only when all
   * five midpoints are present. The result shares corners at every level.
   */
  function MapGcpGridRecursively<P0, P1(==)>(g: Grid<P0>, f: P0 -> P1, cornersFromParent: Option<Quad<P1>>): (r: Grid<P1>)
    ensures SharesCorners(r)
    ensures cornersFromParent.Some? ==> GcpGridToGcpRectangle(r) == cornersFromParent.value
    ensures cornersFromParent.None? ==> GcpGridToGcpRectangle(r) == MapQuad(GcpGridToGcpRectangle(g), f)
    ensures r.tlGrid.Some? <==> g.tlGrid.Some? && MidsPresent(g)
    ensures r.trGrid.Some? <==> g.trGrid.Some? && MidsPresent(g)
    ensures r.brGrid.Some? <==> g.brGrid.Some? && MidsPresent(g)
    ensures r.blGrid.Some? <==> g.blGrid.Some? && MidsPresent(g)
  {
    var corners := if cornersFromParent.Some? then cornersFromParent.value else MapQuad(GcpGridToGcpRectangle(g), f);
    var mapped := Grid(corners.tl, corners.tr, corners.br, corners.bl,
      MapOption(g.tc, f), MapOption(g.cr, f), MapOption(g.bc, f), MapOption(g.cl, f), MapOption(g.cc, f),
      None, None, None, None);
    if MidsPresent(mapped) then
      mapped.(
        tlGrid := MapChild(g.tlGrid, f, TlCorners(mapped)),
        trGrid := MapChild(g.trGrid, f, TrCorners(mapped)),
        brGrid := MapChild(g.brGrid, f, BrCorners(mapped)),
        blGrid := MapChild(g.blGrid, f, BlCorners(mapped)))
    else
      mapped
  }

  function MapNodesChild<P0, P1>(child: Option<Grid<P0>>, f: P0 -> P1): Option<Grid<P1>>
  {
    if child.Some? then Some(MapNodes(child.value, f)) else None
  }

  /** The plain node-by-node map of a grid: the reference `MapGcpGridRecursively` is compared with. */
  function MapNodes<P0, P1>(g: Grid<P0>, f: P0 -> P1): Grid<P1>
  {
    Grid(f(g.tl), f(g.tr), f(g.br), f(g.bl),
      MapOption(g.tc, f), MapOption(g.cr, f), MapOption(g.bc, f), MapOption(g.cl, f), MapOption(g.cc, f),
      MapNodesChild(g.tlGrid, f), MapNodesChild(g.trGrid, f), MapNodesChild(g.brGrid, f), MapNodesChild(g.blGrid, f))
  }

  /**
   * On a grid whose children share corners, reusing the parent's mapped nodes as child corners gives
   * the same grid as mapping every node: the map keeps the grid's shape and its nodes.
   */
  lemma {:induction false} MapSharedGridIsNodeMap<P0, P1>(g: Grid<P0>, f: P0 -> P1, cornersFromParent: Option<Quad<P1>>)
    requires SharesCorners(g)
    requires cornersFromParent.Some? ==> cornersFromParent.value == MapQuad(GcpGridToGcpRectangle(g), f)
    ensures MapGcpGridRecursively(g, f, cornersFromParent) == MapNodes(g, f)
  {
    var corners := MapQuad(GcpGridToGcpRectangle(g), f);
    var mapped := Grid(corners.tl, corners.tr, corners.br, corners.bl,
      MapOption(g.tc, f), MapOption(g.cr, f), MapOption(g.bc, f), MapOption(g.cl, f), MapOption(g.cc, f),
      None, None, None, None);
    if MidsPresent(mapped) {
      if g.tlGrid.Some? { MapSharedGridIsNodeMap(g.tlGrid.value, f, Some(TlCorners(mapped))); }
      if g.trGrid.Some? { MapSharedGridIsNodeMap(g.trGrid.value, f, Some(TrCorners(mapped))); }
      if g.brGrid.Some? { MapSharedGridIsNodeMap(g.brGrid.value, f, Some(BrCorners(mapped))); }
      if g.blGrid.Some? { MapSharedGridIsNodeMap(g.blGrid.value, f, Some(BlCorners(mapped))); }
    }
  }

  /** `rectangleToGcpGrid`: a grid whose corners are the rectangle's points turned into GCPs. */
  function RectangleToGcpGrid(rectangle: Quad<Point>, pointToGcp: Point -> Gcp): (g: Grid<Gcp>)
    ensures IsLeaf(g) && SharesCorners(g) && Height(g) == 0
    ensures GcpGridToGcpRectangle(g) == MapQuad(rectangle, pointToGcp)
  {
    CornerGrid(MapQuad(rectangle, pointToGcp))
  }

  /** The node on the refinement function at the source midpoint of two nodes. */
  function MidNode(a: Gcp, b: Gcp, refine: Point -> Point, options: RefinementOptions): (m: Gcp)
    ensures m.source == options.sourceMidPoint(a.source, b.source) && m.destination == refine(m.source)
  {
    var source := options.sourceMidPoint(a.source, b.source);
    Gcp(source, refine(source))
  }

  /** The diagonal from top-right to bottom-left, split once at most: the source's decision oracle. */
  function DiagonalSplit(g: Grid<Gcp>, refine: Point -> Point, options: RefinementOptions): seq<GcpLine>
  {
    SplitGcpLineRecursively(GcpLine(g.tr, g.bl), refine, options.(maxDepth := 1), 0)
  }

  /** The split test on the diagonal from top-right to bottom-left. */
  predicate DiagonalSplits(g: Grid<Gcp>, refine: Point -> Point, options: RefinementOptions)
  {
    ShouldSplit(GcpLine(g.tr, g.bl), refine, options)
  }

  /** The node at the source midpoint of the diagonal. */
  function DiagonalCenter(g: Grid<Gcp>, refine: Point -> Point, options: RefinementOptions): Gcp
  {
    MidGcp(GcpLine(g.tr, g.bl), refine, options)
  }

  /**
   * Splitting the diagonal with the maximum depth forced to 1 yields more than one line exactly when
   * the split test holds, and then its first line ends at the diagonal's source midpoint.
   */
  lemma DiagonalSplitOnce(g: Grid<Gcp>, refine: Point -> Point, options: RefinementOptions)
    ensures |DiagonalSplit(g, refine, options)| > 1 <==> DiagonalSplits(g, refine, options)
    ensures |DiagonalSplit(g, refine, options)| > 1 ==> DiagonalSplit(g, refine, options)[0].end == DiagonalCenter(g, refine, options)
  {
    var once := options.(maxDepth := 1);
    var line := GcpLine(g.tr, g.bl);
    assert ShouldSplit(line, refine, once) == ShouldSplit(line, refine, options);
    if ShouldSplit(line, refine, once) {
      var mid := MidGcp(line, refine, once);
      assert mid == DiagonalCenter(g, refine, options);
      var left := SplitGcpLineRecursively(GcpLine(line.start, mid), refine, once, 1);
      assert left == [GcpLine(line.start, mid)];
      assert DiagonalSplit(g, refine, options)[0] == left[0];
    }
  }

  /**
   * What `refineGcpGridRecursively` makes of a grid: below the maximum depth, when the diagonal
   * splits, the grid is subdivided around the diagonal's source midpoint; otherwise it is unchanged.
   */
  function RefineGrid(g: Grid<Gcp>, refine: Point -> Point, options: RefinementOptions, depth: int): Grid<Gcp>
    decreases Levels(options, depth), 1
  {
    if Stops(options, depth) then g
    else if DiagonalSplits(g, refine, options) then Subdivided(g, DiagonalCenter(g, refine, options), refine, options, depth)
    else g
  }

  /**
   * The grid with its five midpoints set (the edge midpoints on the refinement function, the center
   * given) and its four quadrants refined one level deeper.
   */
  function Subdivided(g: Grid<Gcp>, cc: Gcp, refine: Point -> Point, options: RefinementOptions, depth: int): Grid<Gcp>
    requires !Stops(options, depth)
    decreases Levels(options, depth), 0
  {
    var tc := MidNode(g.tl, g.tr, refine, options);
    var cr := MidNode(g.tr, g.br, refine, options);
    var bc := MidNode(g.br, g.bl, refine, options);
    var cl := MidNode(g.bl, g.tl, refine, options);
    Grid(g.tl, g.tr, g.br, g.bl, Some(tc), Some(cr), Some(bc), Some(cl), Some(cc),
      Some(RefineGrid(CornerGrid(Quad(g.tl, tc, cc, cl)), refine, options, depth + 1)),
      Some(RefineGrid(CornerGrid(Quad(tc, g.tr, cr, cc)), refine, options, depth + 1)),
      Some(RefineGrid(CornerGrid(Quad(cc, cr, g.br, bc)), refine, options, depth + 1)),
      Some(RefineGrid(CornerGrid(Quad(cl, cc, bc, g.bl)), refine, options, depth + 1)))
  }
  /** The grid with its four edge midpoints set on the refinement function and its center given. */
  function WithMidpoints(g: Grid<Gcp>, cc: Gcp, refine: Point -> Point, options: RefinementOptions): (m: Grid<Gcp>)
    ensures MidsPresent(m) && GcpGridToGcpRectangle(m) == GcpGridToGcpRectangle(g)
  {
    g.(tc := Some(MidNode(g.tl, g.tr, refine, options)), cr := Some(MidNode(g.tr, g.br, refine, options)),
       bc := Some(MidNode(g.br, g.bl, refine, options)), cl := Some(MidNode(g.bl, g.tl, refine, options)),
       cc := Some(cc))
  }

  /** The grid with its four quadrants, cornered by its corners and midpoints, refined at `depth`. */
  function WithRefinedQuadrants(m: Grid<Gcp>, refine: Point -> Point, options: RefinementOptions, depth: int): Grid<Gcp>
    requires MidsPresent(m)
  {
    m.(tlGrid := Some(RefineGrid(CornerGrid(TlCorners(m)), refine, options, depth)),
       trGrid := Some(RefineGrid(CornerGrid(TrCorners(m)), refine, options, depth)),
       brGrid := Some(RefineGrid(CornerGrid(BrCorners(m)), refine, options, depth)),
       blGrid := Some(RefineGrid(CornerGrid(BlCorners(m)), refine, options, depth)))
  }

  /** Subdividing is setting the midpoints, then refining the quadrants one level deeper. */
  lemma SubdividedInSteps(g: Grid<Gcp>, cc: Gcp, refine: Point -> Point, options: RefinementOptions, depth: int)
    requires !Stops(options, depth)
    ensures Subdivided(g, cc, refine, options, depth)
      == WithRefinedQuadrants(WithMidpoints(g, cc, refine, options), refine, options, depth + 1)
  {
  }


  /**
   * Refining keeps the grid's corners, and refining a grid without children gives a grid whose
   * children share corners, whose center node (when split) is the diagonal's source midpoint on the
   * refinement function, and whose height is at most the number of levels left.
   */
  lemma RefineGridShape(g: Grid<Gcp>, refine: Point -> Point, options: RefinementOptions, depth: int)
    requires IsLeaf(g)
    ensures GcpGridToGcpRectangle(RefineGrid(g, refine, options, depth)) == GcpGridToGcpRectangle(g)
    ensures SharesCorners(RefineGrid(g, refine, options, depth))
    ensures Height(RefineGrid(g, refine, options, depth)) <= Levels(options, depth)
    ensures Stops(options, depth) ==> RefineGrid(g, refine, options, depth) == g
    ensures !IsLeaf(RefineGrid(g, refine, options, depth)) <==> !Stops(options, depth) && DiagonalSplits(g, refine, options)
    ensures !IsLeaf(RefineGrid(g, refine, options, depth)) ==>
      RefineGrid(g, refine, options, depth).cc == Some(DiagonalCenter(g, refine, options))
  {
    RefineGridTop(g, refine, options, depth);
    RefineGridNested(g, refine, options, depth);
  }

  /** One level of refinement: the corners stay, and the grid splits at the diagonal center or not at all. */
  lemma RefineGridTop(g: Grid<Gcp>, refine: Point -> Point, options: RefinementOptions, depth: int)
    requires IsLeaf(g)
    ensures GcpGridToGcpRectangle(RefineGrid(g, refine, options, depth)) == GcpGridToGcpRectangle(g)
    ensures Stops(options, depth) ==> RefineGrid(g, refine, options, depth) == g
    ensures !IsLeaf(RefineGrid(g, refine, options, depth)) <==> !Stops(options, depth) && DiagonalSplits(g, refine, options)
    ensures !IsLeaf(RefineGrid(g, refine, options, depth)) ==>
      RefineGrid(g, refine, options, depth).cc == Some(DiagonalCenter(g, refine, options))
  {
  }

  /** All the levels of refinement: the children share corners with their parents, and the depth is bounded. */
  lemma {:induction false} RefineGridNested(g: Grid<Gcp>, refine: Point -> Point, options: RefinementOptions, depth: int)
    requires IsLeaf(g)
    decreases Levels(options, depth), 0
    ensures SharesCorners(RefineGrid(g, refine, options, depth))
    ensures Height(RefineGrid(g, refine, options, depth)) <= Levels(options, depth)
  {
    if !Stops(options, depth) && DiagonalSplits(g, refine, options) {
      var tc := MidNode(g.tl, g.tr, refine, options);
      var cr := MidNode(g.tr, g.br, refine, options);
      var bc := MidNode(g.br, g.bl, refine, options);
      var cl := MidNode(g.bl, g.tl, refine, options);
      var cc := DiagonalCenter(g, refine, options);
      RefineGridNestedChild(Quad(g.tl, tc, cc, cl), refine, options, depth + 1);
      RefineGridNestedChild(Quad(tc, g.tr, cr, cc), refine, options, depth + 1);
      RefineGridNestedChild(Quad(cc, cr, g.br, bc), refine, options, depth + 1);
      RefineGridNestedChild(Quad(cl, cc, bc, g.bl), refine, options, depth + 1);
    }
  }

  lemma {:induction false} RefineGridNestedChild(corners: Quad<Gcp>, refine: Point -> Point, options: RefinementOptions, depth: int)
    decreases Levels(options, depth), 1
    ensures GcpGridToGcpRectangle(RefineGrid(CornerGrid(corners), refine, options, depth)) == corners
    ensures SharesCorners(RefineGrid(CornerGrid(corners), refine, options, depth))
    ensures Height(RefineGrid(CornerGrid(corners), refine, options, depth)) <= Levels(options, depth)
  {
    RefineGridTop(CornerGrid(corners), refine, options, depth);
    RefineGridNested(CornerGrid(corners), refine, options, depth);
  }

  /** Refining a grid without children leaves at most 4^(levels left) rectangles. */
  lemma RefinedLeavesBound(g: Grid<Gcp>, refine: Point -> Point, options: RefinementOptions, depth: int)
    requires IsLeaf(g)
    ensures |Leaves(RefineGrid(g, refine, options, depth))| <= Pow4(Levels(options, depth))
  {
    var r := RefineGrid(g, refine, options, depth);
    RefineGridShape(g, refine, options, depth);
    LeavesBound(r);
    Pow4Monotone(Height(r), Levels(options, depth));
  }
}
