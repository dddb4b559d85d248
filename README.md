# Allmaps core in Dafny

This project models the core of Allmaps. Allmaps georeferences IIIF images: ground control points (GCPs) tie positions in an image, the *resource*, to positions on the map, the *geo* side. The project covers five parts of the system:

- **Bounding boxes** (`packages/stdlib/src/bbox.ts`, module `BoundingBox` in `bbox.dfy`):
  - the min/max scan and the bbox of a point list;
  - combining two bboxes;
  - a bbox's rectangle, polygon and diagonal line, its center and its size;
  - the scale between two bboxes.
- **Refinement** (`packages/transform/src/shared/refinement-helper-functions.ts`):
  - adaptive splitting of a GCP line while the refinement function bends it (module `Refinement` in `refinement.dfy`);
  - refining line strings and rings;
  - the conversions between GCP lists and GCP lines;
  - the quadtree of GCPs (`TypedGrid`) as a value, with its map, its traversal and its refinement specification (module `Grids` in `grid.dfy`);
  - the in-place refinement of a mutable grid (class `GcpGrid`, module `GridRefinement` in `grid_refinement.dfy`).
- **Tiles** (`packages/render/src/shared/tiles.ts`):
  - choosing a zoom level, tile geometry, pruning, the tiles of another zoom level covering a tile, and cache keys (module `Tiles` in `tiles.dfy`);
  - the cells a line crosses (module `TileCells` in `tile_cells.dfy`);
  - the tiles a resource ring covers at a zoom level, in load order (module `RingTiles` in `ring_tiles.dfy`).
- **The GCP transformer** (`packages/transform/src/transformer.ts`, module `Transformer` in `transformer.dfy`):
  - a class with lazily created, cached forward and backward transformations;
  - the dispatch on the transformation type;
  - the defaulting of the `geographic` option.
- **The IIIF image descriptor** (`packages/iiif-parser/src/classes/image.ts`, module `IiifImage` in `iiif_image.dfy`):
  - reading the service URI, the Image API major version and the profile limits;
  - serialising an image request as a URL in the syntax of section 4 of the IIIF Image API 3.0.

Shared pieces are `Wrappers` (`Option`, `Result`) and `Geometry` in `geometry.dfy`. `Geometry` holds points and JavaScript's number values: `Infinity`, `NaN`, division, `Math.floor` and `Math.ceil`.

Numbers are modelled as follows:
- JavaScript numbers are real numbers. Float rounding is not modelled.
- Where the code relies on `Infinity` or `NaN`, those values are explicit.
- `Math.log2`, the distance and midpoint functions, the refinement function and the transformations' interpolants are parameters of the operations that use them.

State is modelled as follows:
- Code that changes state in place is a class or a method with loops. Examples: the grid refinement, the transformer's caches, the DDA walk, the column table and the tile loops.
- Each such method is proved against a pure specification function.
- The properties are proved about those functions.

## Model

| member | source | states |
|---|---|---|
| BoundingBox.ComputeMinMax | packages/stdlib/src/bbox.ts:19-33 | for no values the result is (+Infinity, -Infinity); otherwise min and max are values of the list and bound every value |
| BoundingBox.ComputeBbox | packages/stdlib/src/bbox.ts:36-58 | no points give [Infinity, Infinity, -Infinity, -Infinity]; otherwise the result is the bbox of the points |
| BoundingBox.BboxOfIsTight | packages/stdlib/src/bbox.ts:36-58 | the bbox of a non-empty point list is well formed and contains every point, and each of its four sides is attained by some point |
| BoundingBox.CombineBboxes | packages/stdlib/src/bbox.ts:61-68 | the combination contains both bboxes, and it is contained in every bbox that contains both |
| BoundingBox.CombineBboxesCommutes | packages/stdlib/src/bbox.ts:61-68 | combining is commutative |
| BoundingBox.CombineBboxesIdempotent | packages/stdlib/src/bbox.ts:61-68 | combining a bbox with itself gives it back |
| BoundingBox.BboxToRectangle | packages/stdlib/src/bbox.ts:70-77 | the four corners in the order (minX, minY), (maxX, minY), (maxX, maxY), (minX, maxY), all inside a well-formed bbox |
| BoundingBox.BboxOfRectangle | packages/stdlib/src/bbox.ts:70-77 | the bbox of the rectangle of a well-formed bbox is that bbox |
| BoundingBox.BboxToPolygon | packages/stdlib/src/bbox.ts:79-81 | the formula only: a polygon whose only ring is the bbox's rectangle (its corners are stated by BboxToRectangle and BboxOfRectangle) |
| BoundingBox.BboxOfLine | packages/stdlib/src/bbox.ts:83-88 | the bbox of the diagonal line of a well-formed bbox is that bbox |
| BoundingBox.BboxToLine | packages/stdlib/src/bbox.ts:83-88 | the two points (minX, minY) and (maxX, maxY), in that order |
| BoundingBox.BboxToCenter | packages/stdlib/src/bbox.ts:100-102 | the center is equally far from opposite sides and lies inside a well-formed bbox |
| BoundingBox.BboxToSize | packages/stdlib/src/bbox.ts:104-106 | min plus size is max, and the size is non-negative exactly when the bbox is well formed |
| BoundingBox.QuotientOf | packages/stdlib/src/bbox.ts:109-110 | JavaScript division: the real quotient for a non-zero divisor; `NaN` exactly for `0 / 0`; otherwise the infinity of the dividend's sign |
| BoundingBox.ExtMin | packages/stdlib/src/bbox.ts:111 | `Math.min`: `NaN` when either argument is `NaN`; otherwise one of the two arguments, and neither is smaller than it |
| BoundingBox.SizesToScale | packages/stdlib/src/bbox.ts:108-112 | `NaN` exactly when an axis has 0 / 0; for non-zero sides of size1, one of the two axis ratios and at most both; when a side of size1 is 0 and the same side of size0 positive, the other axis's ratio |
| BoundingBox.BboxesToScale | packages/stdlib/src/bbox.ts:114-116 | `NaN` exactly when both boxes are flat on the same axis; when bbox1 has positive sides, the largest factor by which bbox1's size fits inside bbox0's size on both axes, reached on one of them |
| BoundingBox.FitsWithin | packages/stdlib/src/bbox.ts:108-112 | for a positive divisor, being at most a ratio is being at most the dividend after multiplying |
| BoundingBox.BboxesToScaleOfScaledBox | packages/stdlib/src/bbox.ts:114-116 | a bbox scaled by k has scale k relative to the original |
| Refinement.DefaultRefinementOptions | packages/transform/src/shared/refinement-helper-functions.ts:32-41 | depth 0, ratio 0, infinite distance thresholds, destination domain |
| Refinement.MergeNothing | packages/transform/src/shared/refinement-helper-functions.ts:51-54 | merging no partial options gives the defaults |
| Refinement.MidGcp | packages/transform/src/shared/refinement-helper-functions.ts:217-220 | the new GCP's destination is the refinement function at its source |
| Refinement.SplitGcpLineRecursively | packages/transform/src/shared/refinement-helper-functions.ts:174-239 | the pieces form a chain from the line's start to its end; the line is split exactly when the depth allows it and the offset test fires; otherwise it is returned alone |
| Refinement.SplitCountBound | packages/transform/src/shared/refinement-helper-functions.ts:174-239 | at most 2^levels pieces, where levels is the depth still allowed |
| Refinement.SplitJointsOnRefine | packages/transform/src/shared/refinement-helper-functions.ts:217-235 | every inner joint of the pieces lies on the refinement function |
| Refinement.SplitHalves | packages/transform/src/shared/refinement-helper-functions.ts:222-235 | when both halves have their joints on the refinement function, so does the split line |
| Refinement.JointsConcat | packages/transform/src/shared/refinement-helper-functions.ts:231-235 | concatenating two piece lists joined at a point on the refinement function keeps the joints on it |
| Refinement.DefaultOptionsDoNotSplit | packages/transform/src/shared/refinement-helper-functions.ts:180-182 | with the default options no line is split |
| Refinement.LinearRefinementDoesNotSplit | packages/transform/src/shared/refinement-helper-functions.ts:210-216 | when the refinement function maps the source midpoint to the destination midpoint, the line is not split |
| Refinement.Edges | packages/transform/src/shared/refinement-helper-functions.ts:473-485 | n-1 lines (n when closed), line i joining GCP i to the next, wrapping to the first when closed |
| Refinement.GcpsToGcpLines | packages/transform/src/shared/refinement-helper-functions.ts:473-485 | the loop builds exactly those lines |
| Refinement.GcpLinesToGcps | packages/transform/src/shared/refinement-helper-functions.ts:487-496 | the starts of the lines, in order, plus the last line's end when closing; closing no lines is an error |
| Refinement.OpenLinesRoundTrip | packages/transform/src/shared/refinement-helper-functions.ts:473-496 | open lines read back with closing give the GCPs again |
| Refinement.ClosedLinesRoundTrip | packages/transform/src/shared/refinement-helper-functions.ts:473-496 | closed lines read back without closing give the GCPs again |
| Refinement.SplitNodesOnRefine | packages/transform/src/shared/refinement-helper-functions.ts:217-235 | splitting a line whose ends lie on the refinement function gives pieces whose ends all do |
| Refinement.SplitGcpLines | packages/transform/src/shared/refinement-helper-functions.ts:61-65 | the flattened split keeps at least as many lines, changes nothing at depth 0, and keeps a chain a chain |
| Refinement.SplitGcpLinesConcat | packages/transform/src/shared/refinement-helper-functions.ts:61-65 | the flattened split is the concatenation of the splits of the lines, in order |
| Refinement.ConcatPart | packages/transform/src/shared/refinement-helper-functions.ts:61-65 | `.flat(1)`: each part lies in the concatenation between its offset and the next, and the offsets end at the total length |
| Refinement.ConcatAppend | packages/transform/src/shared/refinement-helper-functions.ts:61-65 | flattening distributes over appending lists of parts |
| Refinement.SplitGcpLinesPieces | packages/transform/src/shared/refinement-helper-functions.ts:61-65 | between consecutive offsets of the flattened split lies the split of that line, which is not empty |
| Refinement.SplitGcpLinesBound | packages/transform/src/shared/refinement-helper-functions.ts:61-65 | splitting n lines from depth 0 gives at most n * 2^maxDepth lines |
| Refinement.RefinedNodesSplitEveryEdge | packages/transform/src/shared/refinement-helper-functions.ts:56-71 | the refined nodes are, edge after edge, the original node followed by the inserted split points of that edge, then the last node when open; so every original node survives in order |
| Refinement.RefinedNodesBound | packages/transform/src/shared/refinement-helper-functions.ts:56-71 | at most (n - 1) * 2^maxDepth + 1 nodes for an open list of n, n * 2^maxDepth for a closed one |
| Refinement.RefinedNodesOnRefine | packages/transform/src/shared/refinement-helper-functions.ts:56-71 | refining nodes on the refinement function gives nodes on it |
| Refinement.RefinedPointsKept | packages/transform/src/shared/refinement-helper-functions.ts:45-101 | every input point appears, projected, at the offset where its edge's split begins |
| Refinement.SplitGcpLinesNodesOnRefine | packages/transform/src/shared/refinement-helper-functions.ts:61-65 | the flattened split keeps every node on the refinement function |
| Refinement.ToGcp | packages/transform/src/shared/refinement-helper-functions.ts:56-59 | the formula only: the point becomes the source and its image the destination (stated as a property by LiftedNodesOnRefine) |
| Refinement.Lift | packages/transform/src/shared/refinement-helper-functions.ts:56-59 | the formula only: one GCP per point, in order (stated as a property by LiftedNodesOnRefine and ReadBackOnRefine) |
| Refinement.ProjectAll | packages/transform/src/shared/refinement-helper-functions.ts:67-71 | the formula only: one point per GCP, the side the domain selects, in order (stated as a property by ReadBackOnRefine) |
| Refinement.LiftedNodesOnRefine | packages/transform/src/shared/refinement-helper-functions.ts:56-60 | lines built from lifted points are chained and have their nodes on the refinement function |
| Refinement.ReadBackOnRefine | packages/transform/src/shared/refinement-helper-functions.ts:67-71 | the GCPs read back from such lines all lie on the refinement function |
| Refinement.RefineLineString | packages/transform/src/shared/refinement-helper-functions.ts:45-72 | defined exactly for two or more points; the result is the projection of the refined nodes of the lifted points: each input point kept in order at its edge's offset, only split points inserted between, at most (n - 1) * 2^maxDepth + 1 points; the first and last points' images at the ends; the plain images when refinement is off; the refined nodes all lie on the refinement function |
| Refinement.RefineRing | packages/transform/src/shared/refinement-helper-functions.ts:74-101 | the projection of the refined nodes of the closed ring: each input point kept in order at its edge's offset, only split points inserted, at least n and at most n * 2^maxDepth points; an empty ring gives an empty ring; the plain images when refinement is off; the refined nodes all lie on the refinement function |
| Refinement.GeneralGcpToGcp | packages/transform/src/shared/refinement-helper-functions.ts:469-471 | the source becomes the resource and the destination the geo position, and nothing is lost |
| Grids.LeavesBound | packages/transform/src/shared/refinement-helper-functions.ts:426-431 | a grid has between 1 and 4^height finest rectangles |
| Grids.ForEachFinestVisitsLeaves | packages/transform/src/shared/refinement-helper-functions.ts:406-465 | with `onlyFinest` the rectangles visited are exactly the grid's leaves, in order |
| Grids.ForEachGcpGridRecursively | packages/transform/src/shared/refinement-helper-functions.ts:406-465 | the callback sequence: corners when `doOuter`, midpoints, the rectangle (every grid, or only childless ones with `onlyFinest`), then the children top-left, top-right, bottom-right, bottom-left; its meaning is stated by ForEachFinestVisitsLeaves |
| Grids.NodeVisitsHaveNoRectangles | packages/transform/src/shared/refinement-helper-functions.ts:413-424 | the node callbacks contribute no rectangles |
| Grids.MapGcpGridRecursively | packages/transform/src/shared/refinement-helper-functions.ts:324-404 | the mapped grid shares corners with its children, takes the parent's corners when given, and keeps a quadrant exactly when the source has it and all midpoints |
| Grids.MapSharedGridIsNodeMap | packages/transform/src/shared/refinement-helper-functions.ts:324-404 | on a grid whose children share corners, mapping is applying the function to every node |
| Grids.RectangleToGcpGrid | packages/transform/src/shared/refinement-helper-functions.ts:498-508 | a leaf grid whose corners are the mapped rectangle |
| Grids.GcpGridToGcpRectangle | packages/transform/src/shared/refinement-helper-functions.ts:510-514 | the corners top-left, top-right, bottom-right, bottom-left; the grid is the corner grid of that rectangle exactly when it has no midpoints and no children, so RectangleToGcpGrid is its inverse |
| Grids.MidNode | packages/transform/src/shared/refinement-helper-functions.ts:260-293 | the formula only: a midpoint GCP, the source midpoint and its image (stated as a property by SubdividedInSteps) |
| Grids.DiagonalSplitOnce | packages/transform/src/shared/refinement-helper-functions.ts:251-260 | the diagonal is split exactly when its offset test fires, and the center is then the split point |
| Grids.WithMidpoints | packages/transform/src/shared/refinement-helper-functions.ts:260-293 | all midpoints are set and the corners are kept |
| Grids.SubdividedInSteps | packages/transform/src/shared/refinement-helper-functions.ts:259-318 | subdividing is setting the midpoints, then refining the four quadrants one level deeper |
| Grids.RefineGrid | packages/transform/src/shared/refinement-helper-functions.ts:241-322 | the grid unchanged at the depth limit or when the diagonal does not split, otherwise subdivided; its properties are stated by RefineGridShape and RefinedLeavesBound |
| Grids.RefineGridShape | packages/transform/src/shared/refinement-helper-functions.ts:241-322 | refinement keeps the corners, nests children on shared corners, stays within the depth, changes nothing at the depth limit, and subdivides exactly when the diagonal splits, with the split point as center |
| Grids.RefinedLeavesBound | packages/transform/src/shared/refinement-helper-functions.ts:241-322 | a refined grid has at most 4^levels finest rectangles |
| GridRefinement.RefineGcpGridRecursively | packages/transform/src/shared/refinement-helper-functions.ts:241-322 | the grid object is refined in place and returned; its new value is the refinement of its old value |
| GridRefinement.SubdivideGcpGrid | packages/transform/src/shared/refinement-helper-functions.ts:259-318 | the grid's new value is the subdivision of its old value |
| GridRefinement.SetMidpoints | packages/transform/src/shared/refinement-helper-functions.ts:260-293 | the midpoints are set in place and the footprint is unchanged |
| GridRefinement.HangRefinedQuadrants | packages/transform/src/shared/refinement-helper-functions.ts:295-318 | the four refined quadrants are fresh objects hung under the grid |
| GridRefinement.NewRefinedQuadrants | packages/transform/src/shared/refinement-helper-functions.ts:295-318 | four fresh, disjoint grids, each the refinement of its quadrant |
| GridRefinement.NewRefinedChild | packages/transform/src/shared/refinement-helper-functions.ts:295-300 | a fresh grid refined from the given corners |
| GridRefinement.GcpGrid.constructor | packages/transform/src/shared/refinement-helper-functions.ts:498-508 | a fresh, valid grid object holding only the four corners |
| GridRefinement.AttachChildren | packages/transform/src/shared/refinement-helper-functions.ts:295-318 | the four children are attached, and the nodes and footprint are as stated |
| GridRefinement.RefineGcpGrid | packages/transform/src/shared/refinement-helper-functions.ts:154-170 | refinement from depth 0 with the merged options |
| GridRefinement.RefineRectangleToGcpGrid | packages/transform/src/shared/refinement-helper-functions.ts:138-152 | a fresh grid holding the refinement of the rectangle's leaf grid |
| GridRefinement.RefineRectangleToRectangles | packages/transform/src/shared/refinement-helper-functions.ts:103-136 | the rectangles are the refined grid's leaves on the return side; there are between 1 and 4^maxDepth of them; at depth 0 there is only the rectangle itself |
| GridRefinement.RectanglesOfFinestGrids | packages/transform/src/shared/refinement-helper-functions.ts:120-133 | the rectangles collected from the object grid are the leaves of its value |
| GridRefinement.ChildRectangles | packages/transform/src/shared/refinement-helper-functions.ts:120-133 | the rectangles collected from a child, none for a missing child |
| Tiles.GetBestTileZoomLevelForScale | packages/render/src/shared/tiles.ts:66-121 | none exactly for no zoom levels; otherwise the first level closest to the corrected scale on the log2 scale |
| Tiles.TilePosition | packages/render/src/shared/tiles.ts:312-317 | the formula only: the column and row times the original tile size (stated as a property by AdjacentTilesAbut) |
| Tiles.AdjacentTilesAbut | packages/render/src/shared/tiles.ts:312-317 | the next column or row starts one original tile size further |
| Tiles.ComputeBboxTile | packages/render/src/shared/tiles.ts:363-381 | starts at the tile position and ends one tile further, clipped to the image |
| Tiles.TileInGridHasArea | packages/render/src/shared/tiles.ts:363-381 | a tile inside a zoom level's grid has a bbox of positive area |
| Tiles.TileCenter | packages/render/src/shared/tiles.ts:300-304 | the center of the tile's bbox |
| Tiles.PointInTile | packages/render/src/shared/tiles.ts:341-352 | closed containment in the tile's unclipped extent; related to the clipped bbox by InTileAndImageIsInBbox |
| Tiles.PointInImage | packages/render/src/shared/tiles.ts:354-361 | inside the image, open at the zero edges and closed at the far edges |
| Tiles.InTileAndImageIsInBbox | packages/render/src/shared/tiles.ts:341-361 | being in the tile and in the image is being in the tile's bbox with positive coordinates |
| Tiles.PointToTilePoint | packages/render/src/shared/tiles.ts:319-339 | none exactly when clipping a point outside the tile; otherwise the tile position plus the result times the scale factor is the point |
| Tiles.TilePointWithinTile | packages/render/src/shared/tiles.ts:319-339 | a point in the tile maps within the tile's pixel size |
| Tiles.OverlapsIffCommonPoint | packages/render/src/shared/tiles.ts:256-292 | two bboxes overlap exactly when they share a point |
| Tiles.PruneTile | packages/render/src/shared/tiles.ts:256-292 | pruned when its log2 scale factor is more than 6 above or more than 3 below the best one; otherwise pruned exactly when its bbox misses the viewport bbox |
| Tiles.VisibleBestTileIsKept | packages/render/src/shared/tiles.ts:256-292 | a tile at the best scale that shares a point with the viewport is kept |
| Tiles.GetTileZoomLevelFromScaleFactor | packages/render/src/shared/tiles.ts:383-400 | the level's columns and rows are the fewest original tiles covering the image |
| Tiles.CeilCovers | packages/render/src/shared/tiles.ts:383-400 | ceil(edge / size) tiles of the given size cover the edge, and one fewer does not |
| Tiles.TilesCoveringTileForScaleFactor | packages/render/src/shared/tiles.ts:402-444 | the tiles of the covering column and row ranges, column by column |
| Tiles.AppendColumn | packages/render/src/shared/tiles.ts:428-441 | the inner loop appends the column's tiles |
| Tiles.ColumnTilesMembers | packages/render/src/shared/tiles.ts:428-441 | a column's tiles are exactly the rows of the range, in increasing row order |
| Tiles.GridTilesMembers | packages/render/src/shared/tiles.ts:402-444 | a tile is listed exactly when it lies in the ranges; the list is in column-then-row order |
| Tiles.CoveringTilesCoverTile | packages/render/src/shared/tiles.ts:402-444 | the covering ranges span the original tile's extent on both axes |
| Tiles.CoveringColumns | packages/render/src/shared/tiles.ts:402-444 | the covering columns span the original tile's horizontal extent |
| Tiles.CoveringRows | packages/render/src/shared/tiles.ts:402-444 | the covering rows span the original tile's vertical extent |
| Tiles.CoveringZoomLevelSize | packages/render/src/shared/tiles.ts:402-444 | the covering level's original tile size is its tile size times the scale factor |
| Tiles.CreateKeyFromMapIdAndTileUrl | packages/render/src/shared/tiles.ts:37-42 | the map id, a colon and the tile URL |
| Tiles.KeyDeterminesPair | packages/render/src/shared/tiles.ts:37-42 | for map ids without a colon, the key determines the map id and the URL |
| Tiles.KeysOfColonMapIdsCollide | packages/render/src/shared/tiles.ts:37-42 | a map id containing a colon can give the same key as a different pair |
| TileCells.LineCells | packages/render/src/shared/tiles.ts:180-225 | starts in a's cell, ends in b's cell, and has one cell more than the Manhattan distance between them |
| TileCells.InitialHeading | packages/render/src/shared/tiles.ts:180-211 | the set-up state heads towards the end cell |
| TileCells.Walk | packages/render/src/shared/tiles.ts:212-222 | the walk has as many cells as the distance still to go and ends in the end cell |
| TileCells.WalkSteps | packages/render/src/shared/tiles.ts:212-222 | the walk is connected and stays within the span from the current cell to the end cell |
| TileCells.PointsIntersectingLine | packages/render/src/shared/tiles.ts:180-225 | the method computes the corrected cell walk |
| TileCells.WalkLoop | packages/render/src/shared/tiles.ts:212-222 | the loop produces the walk from its state |
| TileCells.StepCell | packages/render/src/shared/tiles.ts:213-219 | one step of the corrected loop body |
| TileCells.CorrectedStep | packages/render/src/shared/tiles.ts:213-219 | each step brings the walk one cell closer to the end cell |
| TileCells.StepMoves | packages/render/src/shared/tiles.ts:213-219 | each step moves to an adjacent cell inside the span of the line |
| TileCells.StepsAgreeOffEndLines | packages/render/src/shared/tiles.ts:213-219 | away from the end row and column the corrected step is the step as written |
| TileCells.LineCellsConnected | packages/render/src/shared/tiles.ts:180-225 | consecutive cells are adjacent, and every cell lies in the line's cell span |
| TileCells.HorizontalEdgeNeverEnds | packages/render/src/shared/tiles.ts:206-219 | as written, the line (0.5,1)-(2.5,1) never reaches its end cell |
| TileCells.HorizontalGridEdgeNeverEnds | packages/render/src/shared/tiles.ts:206-219 | every edge along a whole-number row that reaches another column never ends as written, for any fuel: the top edge (0, 0) to (2, 0) of a full image scaled to its own tiles is one |
| TileCells.StuckInRow | packages/render/src/shared/tiles.ts:212-219 | as written, a line with no y-step and NaN `tMaxY` never ends while x is off the end column |
| TileCells.HorizontalEdgeCells | packages/render/src/shared/tiles.ts:180-225 | corrected, that line gives the cells (0,1), (1,1), (2,1) |
| TileCells.CornerTieNeverEnds | packages/render/src/shared/tiles.ts:212-219 | as written, the line (0.5,1.5)-(1,1) steps past its end row and never ends |
| TileCells.PastEndRow | packages/render/src/shared/tiles.ts:212-219 | as written, once y is past the end row and steps away from it or not at all, the loop never ends |
| TileCells.PastEndColumn | packages/render/src/shared/tiles.ts:212-219 | as written, once x is past the end column and steps away from it, the loop never ends |
| TileCells.InitialConsistent | packages/render/src/shared/tiles.ts:180-211 | the steps are signs, and the `t` values are numbers exactly on the axes the line moves along |
| TileCells.AsWrittenAgrees | packages/render/src/shared/tiles.ts:212-222 | whenever the loop as written reaches the end cell, it has produced the corrected walk |
| TileCells.PointsIntersectingLineAsWritten | packages/render/src/shared/tiles.ts:180-225 | the function as written with at most `fuel` iterations; `None` when it has not ended by then |
| TileCells.AsWrittenEndsWithLineCells | packages/render/src/shared/tiles.ts:180-225 | whenever the function as written returns, it returns the corrected cells of the line |
| TileCells.CornerTieCells | packages/render/src/shared/tiles.ts:180-225 | corrected, that line gives the cells (0,1), (1,1) |
| RingTiles.RingToTilesByColumn | packages/render/src/shared/tiles.ts:156-178 | the table is the row ranges of the cells of all edges, the closing edge included, each edge walked by the corrected walk (LineCells), which is the source's result wherever its walk ends |
| RingTiles.RecordEdgeCells | packages/render/src/shared/tiles.ts:159-174 | one edge's cells, by the corrected walk, are recorded |
| RingTiles.RecordCells | packages/render/src/shared/tiles.ts:162-174 | the cells are recorded in order |
| RingTiles.TableOfRanges | packages/render/src/shared/tiles.ts:156-178 | a column is a key exactly when a cell lies in it; every cell lies within its column's range; both range ends are cells |
| RingTiles.ForInKeysOrdered | packages/render/src/shared/tiles.ts:233-238 | the keys are visited once each, non-negative keys ascending and before the negative ones |
| RingTiles.TilesByColumnToTiles | packages/render/src/shared/tiles.ts:227-254 | the tiles of the visited columns, up to the first column outside the grid |
| RingTiles.KeysToTiles | packages/render/src/shared/tiles.ts:233-251 | the loop with its `break` computes the tiles of the key sequence |
| RingTiles.KeyTilesMembers | packages/render/src/shared/tiles.ts:233-251 | a tile is listed exactly when its column is a visited key inside the grid and its row is in the clipped range |
| RingTiles.KeyTilesInOrder | packages/render/src/shared/tiles.ts:233-251 | the tiles are listed in column-then-row order |
| RingTiles.KeyTilesStopAtNegative | packages/render/src/shared/tiles.ts:236-238 | nothing after the first negative key contributes |
| RingTiles.ScaleResourcePoints | packages/render/src/shared/tiles.ts:145-154 | each scaled point times the original tile size is the resource point |
| RingTiles.ScaledCellIsTile | packages/render/src/shared/tiles.ts:145-154 | the cell of a scaled point is the tile that contains the resource point |
| RingTiles.DistanceTileToPoint | packages/render/src/shared/tiles.ts:296-298 | the formula only: the distance parameter applied to the tile's center (TileCenter) and the point; the sort key of ComputeTilesCoveringRingAtTileZoomLevel |
| RingTiles.SortBySortsAndPermutes | packages/render/src/shared/tiles.ts:136-140 | the sort orders by the key and is a permutation |
| RingTiles.InsertByPermutes | packages/render/src/shared/tiles.ts:136-140 | inserting adds exactly the element |
| RingTiles.InsertByKeepsOrder | packages/render/src/shared/tiles.ts:136-140 | inserting into a sorted list keeps it sorted |
| RingTiles.SortByKeepsElements | packages/render/src/shared/tiles.ts:136-140 | the sort keeps the elements and their distinctness |
| RingTiles.DistinctIffSingleCounts | packages/render/src/shared/tiles.ts:136-140 | a list has no repeats exactly when every multiplicity is at most one |
| RingTiles.ComputeTilesCoveringRingAtTileZoomLevel | packages/render/src/shared/tiles.ts:125-143 | the method computes the covering tiles: scale, collect, fill, sort by distance to the ring's center, with the edges walked by the corrected walk |
| RingTiles.ColumnOrderTilesMembers | packages/render/src/shared/tiles.ts:125-133 | a tile is produced exactly when it is in the grid and lies between two touched cells of its column |
| RingTiles.ColumnOrderTilesDistinct | packages/render/src/shared/tiles.ts:125-133 | no tile is produced twice |
| RingTiles.CoveringTilesProperties | packages/render/src/shared/tiles.ts:125-143 | the sorted tiles are the same set with no repeats, in non-decreasing distance of their centers to the ring's bbox center |
| Transformer.NormalizeGcps | packages/transform/src/transformer.ts:64-71 | `{resource, geo}` points become `{source, destination}` in order; other points are kept |
| Transformer.NormalizeGeneralGcps | packages/transform/src/transformer.ts:64-71 | normalising points written by `generalGcpToGcp` gives back the general GCPs |
| Transformer.NormalizedPositions | packages/transform/src/transformer.ts:72-73 | the source positions are the resource points and the destination positions the geo points |
| Transformer.CreateTransformation | packages/transform/src/transformer.ts:91-115 | success exactly for the seven supported types, built on the given lists; otherwise the unsupported-type error naming the type |
| Transformer.PolynomialOrders | packages/transform/src/transformer.ts:95-102 | `polynomial` and `polynomial1` are order 1; `polynomial2` and `polynomial3` are orders 2 and 3 |
| Transformer.BackwardSwapsLists | packages/transform/src/transformer.ts:77-89 | the backward transformation is the forward one with the lists swapped, and fails exactly when it fails |
| Transformer.GcpTransformer.constructor | packages/transform/src/transformer.ts:64-75 | a valid transformer with the normalised GCPs, the given type and empty caches |
| Transformer.CreatedAtMostOnce | packages/transform/src/transformer.ts:124-143 | over any sequence of calls, a cached transformation is never replaced, and an empty cache ends up holding the first one created; failures leave it empty |
| Transformer.CachedCallIgnoresCreation | packages/transform/src/transformer.ts:124-130 | a call on a filled cache applies the cached transformation |
| Transformer.GcpTransformer.CreateTransformationFrom | packages/transform/src/transformer.ts:91-115 | the if-chain computes the dispatch function |
| Transformer.GcpTransformer.CreateForwardTransformation | packages/transform/src/transformer.ts:77-82 | from the source to the destination positions |
| Transformer.GcpTransformer.CreateBackwardTransformation | packages/transform/src/transformer.ts:84-89 | from the destination to the source positions |
| Transformer.GcpTransformer.TransformForward | packages/transform/src/transformer.ts:124-130 | the forward cache and the result follow lazy initialisation; the invariant holds and nothing else changes |
| Transformer.GcpTransformer.TransformBackward | packages/transform/src/transformer.ts:137-143 | the same for the backward cache |
| Transformer.GcpTransformer.TransformToGeo | packages/transform/src/transformer.ts:152-154 | behaves as the forward transform |
| Transformer.GcpTransformer.TransformToResource | packages/transform/src/transformer.ts:161-163 | behaves as the backward transform |
| Transformer.GcpTransformer.TransformPositionForwardToPosition | packages/transform/src/transformer.ts:172-174 | behaves as the forward transform |
| Transformer.GcpTransformer.TransformPositionBackwardToPosition | packages/transform/src/transformer.ts:190-192 | behaves as the backward transform |
| Transformer.NewGcpTransformer | packages/transform/src/transformer.ts:57-75 | fails with "No control points." exactly for no points; otherwise a fresh, valid transformer with normalised GCPs, the given type (default `polynomial`) and empty caches |
| Transformer.GeographicByDefaultProperties | packages/transform/src/transformer.ts:228-230 | after defaulting, `geographic` is set, an explicit value is kept, and defaulting twice is defaulting once |
| Transformer.SetGeographicByDefault | packages/transform/src/transformer.ts:228-230 | the caller's options get `geographic` true when they lack it |
| IiifImage.IntToStringRoundTrip | packages/iiif-parser/src/classes/image.ts:153-186 | the numbers written into the URL read back as themselves and contain no `,` or `/` |
| IiifImage.NatToStringRoundTrip | packages/iiif-parser/src/classes/image.ts:153-186 | reading back the decimal digits of a natural number gives that number |
| IiifImage.Round | packages/iiif-parser/src/classes/image.ts:174-186 | `Math.round`: the nearest integer, halves rounded up |
| IiifImage.ParseFailureCases | packages/iiif-parser/src/classes/image.ts:51-143 | a descriptor is built exactly when there is a resource to read, with an `@id` or `id` and a version marker; the missing-service error arises exactly for an embedded image with no service or an empty service array; an unsupported resource is refused with its kind's message |
| IiifImage.UriPrecedence | packages/iiif-parser/src/classes/image.ts:62-68 | `@id` wins over `id` |
| IiifImage.VersionOrder | packages/iiif-parser/src/classes/image.ts:70-87 | `ImageService3` wins, a version 2 marker beats the version 1 context, and version 1 needs the version 1 context and no other marker |
| IiifImage.ImageService2TypeOnlyEmbedded | packages/iiif-parser/src/classes/image.ts:110-125 | a `type` of `ImageService2` marks version 2 for a service but not for an image |
| IiifImage.NoProfileNoLimits | packages/iiif-parser/src/classes/image.ts:89-100 | without a profile not every region and size is supported and no limit is set; with one, its properties are used |
| IiifImage.EmbeddedImage.constructor | packages/iiif-parser/src/classes/image.ts:51-143 | an embedded descriptor holding the given URI, version, profile fields and size |
| IiifImage.NewEmbeddedImage | packages/iiif-parser/src/classes/image.ts:51-143 | fails exactly as stated above; otherwise a fresh descriptor with the URI, version, profile fields and size read from the described resource |
| IiifImage.LimitErrorIff | packages/iiif-parser/src/classes/image.ts:194-218 | an error exactly when a set limit is exceeded; an exceeded width is reported first, then an exceeded height, each message giving the size and the limit |
| IiifImage.EmbeddedImage.GetImageUrl | packages/iiif-parser/src/classes/image.ts:145-223 | the URL, or the first limit error; its properties are stated by the three lemmas below |
| IiifImage.EmbeddedImage.GetImageUrlSucceedsIff | packages/iiif-parser/src/classes/image.ts:145-223 | a URL exactly when the requested size, or the image's size without one, is within every set limit; otherwise the limit error |
| IiifImage.EmbeddedImage.GetImageUrlSegments | packages/iiif-parser/src/classes/image.ts:153-222 | the URL is uri/region/size/0/quality.jpg; region `full` exactly without a region; size `full` (version 2) or `max` without a size, else the rounded width and a comma first; quality `native` exactly for version 1 |
| IiifImage.EmbeddedImage.ExactAspectRatioOmitsHeight | packages/iiif-parser/src/classes/image.ts:174-185 | when the region has no side of 0 and the recomputed height rounds back to the height, the size segment is the width and a comma |
| IiifImage.EmbeddedImage.ZeroRegionSideWritesHeight | packages/iiif-parser/src/classes/image.ts:174-185 | when the region has a side of 0, the size segment is the width, a comma and the height |

## Left out

- Float rounding throughout: numbers are reals, and `NaN` and the infinities appear only where they are modelled explicitly (bbox scales, the line walk, the empty bbox). `Math.log2` and the distance and midpoint functions are parameters with no properties assumed.
- The transformation algorithms (Helmert, polynomial, projective, thin-plate spline) are not part of this model. A transformation records its algorithm and position lists, and applying it is a parameter.
- Transformer.CreateTransformation: the algorithm constructors (Helmert, polynomial, projective, thin-plate spline) are taken to be total, so every supported type builds a transformation. A constructor that throws, for example on too few control points, is not modelled. The retry after a failed build is still stated for any sequence of build outcomes by CreatedAtMostOnce and LazyInit, but within GcpTransformer it is reached only through an unsupported type.
- The order of the default `Polynomial` class is not shown in the sources. `polynomial` is taken to be order 1, which agrees with `polynomial1` being dispatched to the same constructor call.
- The GeoJSON variants of the transformer, and `conformLineString`, `conformRing`, `mergeOptions` and the GeoJSON branch of `computeBbox`, are foreign helpers. Only the defaulting of `geographic` is modelled, and `mergeOptions` is a field-wise override.
- `PartialTransformOptions` fields other than `geographic` are not modelled. A `geographic` key that is present but `undefined` is not distinguished from an absent one.
- `getProfileProperties` (the IIIF profile reading) is not part of this model. A present profile is given as the properties it yields.
- `getThumbnail`, `getTileZoomLevels`, `getIiifTile`, the zod schemas and the `Image` subclass are not part of this model. The subclass's tile zoom levels and sizes come from foreign code.
- The constant `type: 'image'` field of `EmbeddedImage` is not modelled.
- IiifImage.EmbeddedImage.GetImageUrl: region coordinates are integers. A fractional region would be written in JavaScript's decimal number format, which is not modelled.
- IiifImage.EmbeddedImage.ExactAspectRatioOmitsHeight: for region sides that are not 0, the rounded height recomputed through the aspect ratio is a parameter, and only the exact-arithmetic case is proved, where it equals the height. For a side of 0 the recomputed height is `NaN`, and the model writes the height (ZeroRegionSideWritesHeight).
- The `@context` strings of IIIF Image API 1.1 and 2 are taken from those standards. The schema files defining them are not part of this model.
- An embedded image with no service, or an empty service array, is a distinct error. JavaScript raises a `TypeError` there.
- `createKeyFromTile` and `fetchableTilesToKeys` work on `FetchableTile` objects from foreign code.
- Tiles.GetBestTileZoomLevelForScale: `log2` is a total real function, so `NaN` differences (non-positive scale factors) are not modelled.
- RingTiles.ForInKeysOrdered: negative column keys are modelled in ascending order, whereas JavaScript visits them in insertion order. KeyTilesStopAtNegative shows that nothing after the first negative key contributes, so the result does not depend on that order.
- RingTiles.Update: a new column starts at `[+Infinity, -Infinity]` and is immediately narrowed to the cell's row. The model starts it at that row directly.
- RingTiles.Successor: `(i + 1) % n` is written as a conditional. For `0 <= i < n` the two are equal.
- RingTiles.ScaleResourcePoints: zero original tile sizes (division by zero) are excluded.
- RingTiles.RingToTilesByColumn: the ring pipeline (RingToTilesByColumn, RecordEdgeCells, ComputeTilesCoveringRingAtTileZoomLevel and CoveringTilesProperties) walks each edge with the corrected walk of the findings (LineCells). Where the walk as written ends, the result is the same (AsWrittenEndsWithLineCells). A ring with an edge along a whole-number row that reaches another column, such as the full image scaled to its own tiles, makes the source hang (HorizontalGridEdgeNeverEnds), while the model returns its tiles.
- RingTiles.SortBy: JavaScript's `sort` is modelled by a stable insertion sort. The model proves the ordering and the permutation, but not stability.
- Tiles.Overlaps: the `isOverlapping` function of the standard-library package is not part of this model; it is taken to be the closed-interval test on both axes.
- TileCells.PointsIntersectingLineAsWritten: the as-written loop is bounded by a fuel count. The lemmas show that on the two inputs in the findings it does not end for any bound, and that whenever it ends it agrees with the corrected walk.
- Some source functions are split into several methods so that each proof stays small. Examples: `refineGcpGridRecursively` into RefineGcpGridRecursively, SubdivideGcpGrid, SetMidpoints, HangRefinedQuadrants and AttachChildren; the loop bodies StepCell, RecordEdgeCells and AppendColumn.
- Concurrency: the code is single-threaded, and the caches are modelled as sequential lazy initialisation.

## Findings

| source | as written | input that shows it | evidently intended | confidence | as-written member | corrected member |
|---|---|---|---|---|---|---|
| packages/render/src/shared/tiles.ts:206-219 | for a horizontal line on an integer row, `tMaxY` is `0 / 0 = NaN`, so `tMaxX < tMaxY` is always false and the loop steps `y` by 0 forever | a = (0.5, 1), b = (2.5, 1) | step in x until the end column is reached: cells (0,1), (1,1), (2,1) | high, proved on the model; not executed | TileCells.HorizontalEdgeNeverEnds | TileCells.HorizontalEdgeCells |
| packages/render/src/shared/tiles.ts:212-219 | on a tie `tMaxX == tMaxY` the loop steps `y` even when `y` is already the end row, then moves away from it and never ends | a = (0.5, 1.5), b = (1, 1) | step x when y is at its end (and y when x is), so the walk ends at (1,1): cells (0,1), (1,1) | high, proved on the model; not executed | TileCells.CornerTieNeverEnds | TileCells.CornerTieCells |
