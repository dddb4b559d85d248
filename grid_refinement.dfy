/**
 * The in-place refinement of a quadtree of GCPs: `refineGcpGridRecursively` fills in a grid object's
 * midpoints and hangs freshly built child grids under it. Each method is proved against the pure
 * `Grids.RefineGrid` on the grid's value.
 */
module GridRefinement {
  import opened Wrappers
  import opened Geometry
  import opened Refinement
  import opened Grids

  /** A mutable `TypedGrid<GeneralGcp>` object; `Repr` is the set of grid objects it owns. */
  class GcpGrid {
    var tl: Gcp
    var tr: Gcp
    var br: Gcp
    var bl: Gcp
    var tc: Option<Gcp>
    var cr: Option<Gcp>
    var bc: Option<Gcp>
    var cl: Option<Gcp>
    var cc: Option<Gcp>
    var tlGrid: GcpGrid?
    var trGrid: GcpGrid?
    var brGrid: GcpGrid?
    var blGrid: GcpGrid?
    ghost var Repr: set<object>
    /** The grid this object currently holds, as a value. */
    ghost var Value: Grid<Gcp>

    /**
     * The object owns its children's objects, no object is its own descendant, and `Value` is the
     * grid held by the fields and the children.
     */
    ghost predicate Valid()
      reads this, Repr
      decreases Repr
    {
      && this in Repr
      && (tlGrid != null ==> tlGrid in Repr && tlGrid.Repr <= Repr && this !in tlGrid.Repr && tlGrid.Valid())
      && (trGrid != null ==> trGrid in Repr && trGrid.Repr <= Repr && this !in trGrid.Repr && trGrid.Valid())
      && (brGrid != null ==> brGrid in Repr && brGrid.Repr <= Repr && this !in brGrid.Repr && brGrid.Valid())
      && (blGrid != null ==> blGrid in Repr && blGrid.Repr <= Repr && this !in blGrid.Repr && blGrid.Valid())
      && Value == Grid(tl, tr, br, bl, tc, cr, bc, cl, cc,
        if tlGrid == null then None else Some(tlGrid.Value),
        if trGrid == null then None else Some(trGrid.Value),
        if brGrid == null then None else Some(brGrid.Value),
        if blGrid == null then None else Some(blGrid.Value))
    }

    /** The object literal `{ tl, tr, br, bl }`: a grid with corners only. */
    constructor (corners: Quad<Gcp>)
      ensures Valid() && fresh(Repr)
      ensures Value == CornerGrid(corners)
    {
      tl, tr, br, bl := corners.tl, corners.tr, corners.br, corners.bl;
      tc, cr, bc, cl, cc := None, None, None, None, None;
      tlGrid, trGrid, brGrid, blGrid := null, null, null, null;
      Repr := {this};
      Value := CornerGrid(corners);
    }
  }

  /** The four quadrant grid objects of a grid with the given corners and midpoints, refined. */
  method NewRefinedQuadrants(corners: Quad<Gcp>, tc: Gcp, cr: Gcp, bc: Gcp, cl: Gcp, cc: Gcp,
                             refine: Point -> Point, options: RefinementOptions, depth: int)
    returns (tlChild: GcpGrid, trChild: GcpGrid, brChild: GcpGrid, blChild: GcpGrid)
    decreases Levels(options, depth), 4
    ensures tlChild.Valid() && fresh(tlChild.Repr)
    ensures trChild.Valid() && fresh(trChild.Repr)
    ensures brChild.Valid() && fresh(brChild.Repr)
    ensures blChild.Valid() && fresh(blChild.Repr)
    ensures fresh(tlChild.Repr + trChild.Repr + brChild.Repr + blChild.Repr)
    ensures tlChild.Value == RefineGrid(CornerGrid(Quad(corners.tl, tc, cc, cl)), refine, options, depth)
    ensures trChild.Value == RefineGrid(CornerGrid(Quad(tc, corners.tr, cr, cc)), refine, options, depth)
    ensures brChild.Value == RefineGrid(CornerGrid(Quad(cc, cr, corners.br, bc)), refine, options, depth)
    ensures blChild.Value == RefineGrid(CornerGrid(Quad(cl, cc, bc, corners.bl)), refine, options, depth)
  {
    tlChild := NewRefinedChild(Quad(corners.tl, tc, cc, cl), refine, options, depth);
    label Tl:
    trChild := NewRefinedChild(Quad(tc, corners.tr, cr, cc), refine, options, depth);
    label Tr:
    brChild := NewRefinedChild(Quad(cc, cr, corners.br, bc), refine, options, depth);
    label Br:
    blChild := NewRefinedChild(Quad(cl, cc, bc, corners.bl), refine, options, depth);
    StillValid@Tl(tlChild);
    StillValid@Tr(trChild);
    StillValid@Br(brChild);
  }

  /** A child grid object with the given corners (the source's object literal), refined. */
  method NewRefinedChild(corners: Quad<Gcp>, refine: Point -> Point, options: RefinementOptions, depth: int)
    returns (child: GcpGrid)
    decreases Levels(options, depth), 3
    ensures child.Valid() && fresh(child.Repr)
    ensures child.Value == RefineGrid(CornerGrid(corners), refine, options, depth)
  {
    child := new GcpGrid(corners);
    child := RefineGcpGridRecursively(child, refine, options, depth);
  }

  /**
   * `refineGcpGridRecursively`: below the maximum depth, when the diagonal from top-right to
   * bottom-left splits, subdivide the grid object around the diagonal's first split node; return
   * the same object.
   */
  method RefineGcpGridRecursively(gcpGrid: GcpGrid, refine: Point -> Point, options: RefinementOptions, depth: int)
    returns (result: GcpGrid)
    requires gcpGrid.Valid()
    modifies gcpGrid
    decreases Levels(options, depth), 2
    ensures result == gcpGrid
    ensures gcpGrid.Valid() && fresh(gcpGrid.Repr - old(gcpGrid.Repr))
    ensures gcpGrid.Value == RefineGrid(old(gcpGrid.Value), refine, options, depth)
  {
    result := gcpGrid;
    if depth >= options.maxDepth || options.maxDepth <= 0 {
      return;
    }
    var gcpLine := GcpLine(gcpGrid.tr, gcpGrid.bl);
    assert gcpLine == GcpLine(gcpGrid.Value.tr, gcpGrid.Value.bl);
    var refinedGcpLines := SplitGcpLineRecursively(gcpLine, refine, options.(maxDepth := 1), 0);
    DiagonalSplitOnce(gcpGrid.Value, refine, options);
    if |refinedGcpLines| > 1 {
      SubdivideGcpGrid(gcpGrid, refinedGcpLines[0].end, refine, options, depth);
    }
  }

  /**
   * The split branch of `refineGcpGridRecursively`: set the center to the given node and the four
   * edge midpoints to the source midpoints of the corners and their refinements, then hang the four
   * refined quadrants under the grid object.
   */
  method SubdivideGcpGrid(gcpGrid: GcpGrid, center: Gcp, refine: Point -> Point, options: RefinementOptions, depth: int)
    requires gcpGrid.Valid() && !Stops(options, depth)
    modifies gcpGrid
    decreases Levels(options, depth), 1
    ensures gcpGrid.Valid() && fresh(gcpGrid.Repr - old(gcpGrid.Repr))
    ensures gcpGrid.Value == Subdivided(old(gcpGrid.Value), center, refine, options, depth)
  {
    SetMidpoints(gcpGrid, center, refine, options);
    ghost var newObjects := HangRefinedQuadrants(gcpGrid, refine, options, depth);
    SubdividedInSteps(old(gcpGrid.Value), center, refine, options, depth);
    forall o | o in gcpGrid.Repr - old(gcpGrid.Repr)
      ensures fresh(o)
    {
      assert o in newObjects;
    }
  }

  /**
   * The midpoint assignments of the refinement: the center is the given node, each edge midpoint is
   * the source midpoint of its corners with its refinement as destination.
   */
  method SetMidpoints(gcpGrid: GcpGrid, center: Gcp, refine: Point -> Point, options: RefinementOptions)
    requires gcpGrid.Valid()
    modifies gcpGrid
    ensures gcpGrid.Valid() && gcpGrid.Repr == old(gcpGrid.Repr)
    ensures gcpGrid.Value == WithMidpoints(old(gcpGrid.Value), center, refine, options)
  {
    label Before:
    var tl, tr, br, bl := gcpGrid.tl, gcpGrid.tr, gcpGrid.br, gcpGrid.bl;
    var sourceTcPoint := options.sourceMidPoint(tl.source, tr.source);
    var sourceCrPoint := options.sourceMidPoint(tr.source, br.source);
    var sourceBcPoint := options.sourceMidPoint(br.source, bl.source);
    var sourceClPoint := options.sourceMidPoint(bl.source, tl.source);
    gcpGrid.cc, gcpGrid.tc, gcpGrid.cr, gcpGrid.bc, gcpGrid.cl :=
      Some(center), Some(Gcp(sourceTcPoint, refine(sourceTcPoint))), Some(Gcp(sourceCrPoint, refine(sourceCrPoint))),
      Some(Gcp(sourceBcPoint, refine(sourceBcPoint))), Some(Gcp(sourceClPoint, refine(sourceClPoint)));
    gcpGrid.Value := WithMidpoints(gcpGrid.Value, center, refine, options);
    NodesChangedStillValid@Before(gcpGrid);
  }

  /**
   * The child assignments of the refinement: build the four quadrants from the grid object's
   * corners and midpoints, refine them one level deeper and hang them under the object.
   */
  method HangRefinedQuadrants(gcpGrid: GcpGrid, refine: Point -> Point, options: RefinementOptions, depth: int)
    returns (ghost newObjects: set<object>)
    requires gcpGrid.Valid() && MidsPresent(gcpGrid.Value) && !Stops(options, depth)
    modifies gcpGrid
    decreases Levels(options, depth), 0
    ensures gcpGrid.Valid() && gcpGrid.Repr == {gcpGrid} + newObjects && fresh(newObjects)
    ensures gcpGrid.Value == WithRefinedQuadrants(old(gcpGrid.Value), refine, options, depth + 1)
  {
    ghost var m := gcpGrid.Value;
    var tlChild, trChild, brChild, blChild := NewRefinedQuadrants(
      Quad(gcpGrid.tl, gcpGrid.tr, gcpGrid.br, gcpGrid.bl),
      gcpGrid.tc.value, gcpGrid.cr.value, gcpGrid.bc.value, gcpGrid.cl.value, gcpGrid.cc.value,
      refine, options, depth + 1);
    ghost var tlRepr, trRepr, brRepr, blRepr := tlChild.Repr, trChild.Repr, brChild.Repr, blChild.Repr;
    ghost var r := WithRefinedQuadrants(m, refine, options, depth + 1);
    assert r.tlGrid == Some(tlChild.Value) && r.trGrid == Some(trChild.Value);
    assert r.brGrid == Some(brChild.Value) && r.blGrid == Some(blChild.Value);
    AttachChildren(gcpGrid, tlChild, trChild, brChild, blChild);
    newObjects := tlRepr + trRepr + brRepr + blRepr;
  }

  /**
   * Hang four valid child grid objects under a grid object, replacing its children: the object
   * becomes valid, keeps its nodes and its value gets the children's values.
   */
  method AttachChildren(gcpGrid: GcpGrid, tlChild: GcpGrid, trChild: GcpGrid, brChild: GcpGrid, blChild: GcpGrid)
    requires tlChild.Valid() && gcpGrid !in tlChild.Repr
    requires trChild.Valid() && gcpGrid !in trChild.Repr
    requires brChild.Valid() && gcpGrid !in brChild.Repr
    requires blChild.Valid() && gcpGrid !in blChild.Repr
    modifies gcpGrid
    ensures gcpGrid.Valid()
    ensures gcpGrid.Repr == {gcpGrid} + tlChild.Repr + trChild.Repr + brChild.Repr + blChild.Repr
    ensures gcpGrid.Value == Grid(gcpGrid.tl, gcpGrid.tr, gcpGrid.br, gcpGrid.bl,
      gcpGrid.tc, gcpGrid.cr, gcpGrid.bc, gcpGrid.cl, gcpGrid.cc,
      Some(old(tlChild.Value)), Some(old(trChild.Value)), Some(old(brChild.Value)), Some(old(blChild.Value)))
    ensures gcpGrid.tl == old(gcpGrid.tl) && gcpGrid.tr == old(gcpGrid.tr) && gcpGrid.br == old(gcpGrid.br) && gcpGrid.bl == old(gcpGrid.bl)
    ensures gcpGrid.tc == old(gcpGrid.tc) && gcpGrid.cr == old(gcpGrid.cr) && gcpGrid.bc == old(gcpGrid.bc)
    ensures gcpGrid.cl == old(gcpGrid.cl) && gcpGrid.cc == old(gcpGrid.cc)
  {
    gcpGrid.tlGrid, gcpGrid.trGrid, gcpGrid.brGrid, gcpGrid.blGrid := tlChild, trChild, brChild, blChild;
    gcpGrid.Repr := {gcpGrid} + tlChild.Repr + trChild.Repr + brChild.Repr + blChild.Repr;
    gcpGrid.Value := Grid(gcpGrid.tl, gcpGrid.tr, gcpGrid.br, gcpGrid.bl, gcpGrid.tc, gcpGrid.cr, gcpGrid.bc, gcpGrid.cl, gcpGrid.cc,
      Some(tlChild.Value), Some(trChild.Value), Some(brChild.Value), Some(blChild.Value));
    StillValid(tlChild);
    StillValid(trChild);
    StillValid(brChild);
    StillValid(blChild);
  }

  /**
   * A grid object whose own nodes and value changed, but not its children, its footprint or the
   * objects below it, is still valid.
   */
  twostate lemma NodesChangedStillValid(g: GcpGrid)
    requires old(g.Valid()) && unchanged(old(g.Repr) - {g})
    requires g.Repr == old(g.Repr)
    requires g.tlGrid == old(g.tlGrid) && g.trGrid == old(g.trGrid) && g.brGrid == old(g.brGrid) && g.blGrid == old(g.blGrid)
    requires g.Value == Grid(g.tl, g.tr, g.br, g.bl, g.tc, g.cr, g.bc, g.cl, g.cc,
      old(g.Value.tlGrid), old(g.Value.trGrid), old(g.Value.brGrid), old(g.Value.blGrid))
    ensures g.Valid()
  {
    if g.tlGrid != null { StillValid(g.tlGrid); }
    if g.trGrid != null { StillValid(g.trGrid); }
    if g.brGrid != null { StillValid(g.brGrid); }
    if g.blGrid != null { StillValid(g.blGrid); }
  }

  /** A grid object none of whose objects changed is still valid and holds the same grid. */
  twostate lemma StillValid(g: GcpGrid)
    requires old(g.Valid()) && unchanged(old(g.Repr))
    ensures g.Valid() && g.Value == old(g.Value)
  {
  }

  /** `refineGcpGrid`: merge the options into the defaults and refine from depth 0. */
  method RefineGcpGrid(gcpGrid: GcpGrid, refine: Point -> Point, defaults: RefinementOptions,
                       partial: PartialRefinementOptions) returns (result: GcpGrid)
    requires gcpGrid.Valid()
    modifies gcpGrid
    ensures result == gcpGrid
    ensures gcpGrid.Valid() && fresh(gcpGrid.Repr - old(gcpGrid.Repr))
    ensures gcpGrid.Value == RefineGrid(old(gcpGrid.Value), refine, MergeOptions(defaults, partial), 0)
  {
    var options := MergeOptions(defaults, partial);
    result := RefineGcpGridRecursively(gcpGrid, refine, options, 0);
  }

  /**
   * `refineRectangleToGcpGrid` (taking `conformRing` as the identity): a new grid object on the
   * rectangle's points lifted through the refinement function, refined.
   */
  method RefineRectangleToGcpGrid(rectangle: Quad<Point>, refine: Point -> Point, defaults: RefinementOptions,
                                  partial: PartialRefinementOptions) returns (gcpGrid: GcpGrid)
    ensures gcpGrid.Valid() && fresh(gcpGrid.Repr)
    ensures gcpGrid.Value ==
      RefineGrid(RectangleToGcpGrid(rectangle, p => ToGcp(p, refine)), refine, MergeOptions(defaults, partial), 0)
  {
    var corners := GcpGridToGcpRectangle(RectangleToGcpGrid(rectangle, p => ToGcp(p, refine)));
    gcpGrid := new GcpGrid(corners);
    gcpGrid := RefineGcpGrid(gcpGrid, refine, defaults, partial);
  }

  function ProjectQuad(q: Quad<Gcp>, domain: Domain): Quad<Point>
  {
    Quad(Project(q.tl, domain), Project(q.tr, domain), Project(q.br, domain), Project(q.bl, domain))
  }

  function ProjectQuads(quads: seq<Quad<Gcp>>, domain: Domain): (r: seq<Quad<Point>>)
    ensures |r| == |quads| && forall i :: 0 <= i < |quads| ==> r[i] == ProjectQuad(quads[i], domain)
  {
    seq(|quads|, i requires 0 <= i < |quads| => ProjectQuad(quads[i], domain))
  }

  /**
   * `refineRectangleToRectangles`: refine the rectangle to a grid and collect, in traversal order, the
   * rectangles of its finest grids in the requested domain. The rectangles are those of the leaves of
   * the refined grid; there are at most 4^maxDepth of them, and exactly the input rectangle (lifted
   * and projected back) when refinement is disabled.
   */
  method RefineRectangleToRectangles(rectangle: Quad<Point>, refine: Point -> Point, defaults: RefinementOptions,
                                     partial: PartialRefinementOptions) returns (rectangles: seq<Quad<Point>>)
    ensures var options := MergeOptions(defaults, partial);
      var grid := RefineGrid(RectangleToGcpGrid(rectangle, p => ToGcp(p, refine)), refine, options, 0);
      rectangles == ProjectQuads(Rectangles(ForEachGcpGridRecursively(grid, true, true)), options.returnDomain)
    ensures var options := MergeOptions(defaults, partial);
      rectangles == ProjectQuads(Leaves(RefineGrid(RectangleToGcpGrid(rectangle, p => ToGcp(p, refine)), refine, options, 0)),
                                 options.returnDomain)
    ensures 1 <= |rectangles| <= Pow4(Levels(MergeOptions(defaults, partial), 0))
    ensures Stops(MergeOptions(defaults, partial), 0) ==>
      rectangles == [ProjectQuad(MapQuad(rectangle, p => ToGcp(p, refine)), MergeOptions(defaults, partial).returnDomain)]
  {
    var options := MergeOptions(defaults, partial);
    var gcpGrid := RefineRectangleToGcpGrid(rectangle, refine, defaults, partial);
    ghost var grid := gcpGrid.Value;
    var visited := RectanglesOfFinestGrids(gcpGrid);
    ForEachFinestVisitsLeaves(grid, true);
    rectangles := ProjectQuads(visited, options.returnDomain);
    ghost var leaf := RectangleToGcpGrid(rectangle, p => ToGcp(p, refine));
    RefinedLeavesBound(leaf, refine, options, 0);
    LeavesBound(grid);
    RefineGridShape(leaf, refine, options, 0);
  }

  /**
   * The rectangles `forEachGcpGridRecursively` hands to its rectangle callback with `onlyFinest`
   * (and the node callback doing nothing): the leaves of the grid, in traversal order.
   */
  method RectanglesOfFinestGrids(gcpGrid: GcpGrid) returns (rectangles: seq<Quad<Gcp>>)
    requires gcpGrid.Valid()
    decreases gcpGrid.Repr, 1
    ensures rectangles == Leaves(gcpGrid.Value)
  {
    ghost var g := gcpGrid.Value;
    if gcpGrid.tlGrid == null && gcpGrid.trGrid == null && gcpGrid.brGrid == null && gcpGrid.blGrid == null {
      return [Quad(gcpGrid.tl, gcpGrid.tr, gcpGrid.br, gcpGrid.bl)];
    }
    var a := ChildRectangles(gcpGrid, gcpGrid.tlGrid);
    var b := ChildRectangles(gcpGrid, gcpGrid.trGrid);
    var c := ChildRectangles(gcpGrid, gcpGrid.brGrid);
    var d := ChildRectangles(gcpGrid, gcpGrid.blGrid);
    rectangles := a + b + c + d;
  }

  /** The leaf rectangles under one (possibly absent) child of a grid object. */
  method ChildRectangles(parent: GcpGrid, child: GcpGrid?) returns (rectangles: seq<Quad<Gcp>>)
    requires child != null ==> child.Valid() && child.Repr < parent.Repr
    decreases parent.Repr, 0
    ensures rectangles == ChildLeaves(if child == null then None else Some(child.Value))
  {
    rectangles := [];
    if child != null {
      rectangles := RectanglesOfFinestGrids(child);
    }
  }
}
