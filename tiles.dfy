/**
 * IIIF tiles of an image at a zoom level: choosing the zoom level for a scale, the geometry of a
 * tile in resource pixels, pruning tiles against a viewport, and the tiles of another zoom level
 * that cover a tile. `Math.log2` is a parameter.
 */
module Tiles {
  import opened Wrappers
  import opened Geometry
  import opened BoundingBox

  /** A `TileZoomLevel`: tiles of `width` x `height` pixels covering `originalWidth` x `originalHeight` resource pixels. */
  datatype TileZoomLevel = TileZoomLevel(
    scaleFactor: real,
    width: real,
    height: real,
    originalWidth: real,
    originalHeight: real,
    columns: int,
    rows: int)

  /** A `Tile`: a column and a row of a zoom level of an image of the given size. */
  datatype Tile = Tile(column: int, row: int, tileZoomLevel: TileZoomLevel, imageSize: Size)

  /** A zoom level as the IIIF parser produces them: positive sizes, original size = size times scale factor. */
  predicate ValidZoomLevel(z: TileZoomLevel)
  {
    && z.scaleFactor > 0.0 && z.width > 0.0 && z.height > 0.0
    && z.originalWidth == z.width * z.scaleFactor && z.originalHeight == z.height * z.scaleFactor
  }

  function MaxInt(a: int, b: int): int { if a >= b then a else b }

  function MinInt(a: int, b: int): int { if a <= b then a else b }

  /** `DEFAULT_TARGET_SCALE_FACTOR_CORRECTION`. */
  const DefaultTargetScaleFactorCorrection: real := 1.0

  /** `PRUNE_MAX_HIGHER_LOG2_SCALE_FACTOR_DIFF` and `PRUNE_MAX_LOWER_LOG2_SCALE_FACTOR_DIFF`. */
  const PruneMaxHigherLog2ScaleFactorDiff: real := 6.0
  const PruneMaxLowerLog2ScaleFactorDiff: real := 3.0

  // Choosing a zoom level

  /** How far a zoom level's scale factor is from the corrected scale, on a log2 scale. */
  function DiffLogScaleFactor(level: TileZoomLevel, resourceToCanvasScale: real, correction: real, log2: real -> real): real
  {
    Abs(log2(level.scaleFactor) - log2(resourceToCanvasScale + correction))
  }

  /** Level `k` is the first of the levels whose scale factor is closest to the corrected scale. */
  ghost predicate FirstClosest(levels: seq<TileZoomLevel>, k: int, resourceToCanvasScale: real, correction: real, log2: real -> real)
  {
    && 0 <= k < |levels|
    && (forall j :: 0 <= j < |levels| ==>
          DiffLogScaleFactor(levels[k], resourceToCanvasScale, correction, log2)
          <= DiffLogScaleFactor(levels[j], resourceToCanvasScale, correction, log2))
    && (forall j :: 0 <= j < k ==>
          DiffLogScaleFactor(levels[k], resourceToCanvasScale, correction, log2)
          < DiffLogScaleFactor(levels[j], resourceToCanvasScale, correction, log2))
  }

  /**
   * `getBestTileZoomLevelForScale`: a running minimum of the log2 distances, replaced only on a
   * strictly smaller distance, starting from the last level (`undefined` for no levels).
   * The result is the first level with the smallest distance.
   */
  method GetBestTileZoomLevelForScale(tileZoomLevels: seq<TileZoomLevel>, resourceToCanvasScale: real,
                                      targetScaleFactorCorrection: real, log2: real -> real)
    returns (bestTileZoomLevel: Option<TileZoomLevel>)
    ensures bestTileZoomLevel.None? <==> |tileZoomLevels| == 0
    ensures bestTileZoomLevel.Some? ==>
      exists k :: (FirstClosest(tileZoomLevels, k, resourceToCanvasScale, targetScaleFactorCorrection, log2)
                   && bestTileZoomLevel.value == tileZoomLevels[k])
  {
    var smallestdiffLogScaleFactor := PosInf;
    bestTileZoomLevel := if |tileZoomLevels| > 0 then Some(tileZoomLevels[|tileZoomLevels| - 1]) else None;
    ghost var bestIndex := -1;
    for i := 0 to |tileZoomLevels|
      invariant bestTileZoomLevel.None? <==> |tileZoomLevels| == 0
      invariant i == 0 ==> smallestdiffLogScaleFactor == PosInf
      invariant i > 0 ==> 0 <= bestIndex < i && bestTileZoomLevel == Some(tileZoomLevels[bestIndex])
      invariant i > 0 ==>
        smallestdiffLogScaleFactor == Fin(DiffLogScaleFactor(tileZoomLevels[bestIndex], resourceToCanvasScale, targetScaleFactorCorrection, log2))
      invariant i > 0 ==> FirstClosest(tileZoomLevels[..i], bestIndex, resourceToCanvasScale, targetScaleFactorCorrection, log2)
    {
      var diffLogScaleFactor := DiffLogScaleFactor(tileZoomLevels[i], resourceToCanvasScale, targetScaleFactorCorrection, log2);
      if ExtLess(Fin(diffLogScaleFactor), smallestdiffLogScaleFactor) {
        smallestdiffLogScaleFactor := Fin(diffLogScaleFactor);
        bestTileZoomLevel := Some(tileZoomLevels[i]);
        bestIndex := i;
      }
    }
    if |tileZoomLevels| > 0 {
      assert tileZoomLevels[..|tileZoomLevels|] == tileZoomLevels;
    }
  }

  // Tile geometry

  /** `tilePosition`: the resource position of the tile's top-left corner. */
  function TilePosition(tile: Tile): (p: Point)
    ensures p == Point(tile.column as real * tile.tileZoomLevel.originalWidth, tile.row as real * tile.tileZoomLevel.originalHeight)
  {
    Point(tile.column as real * tile.tileZoomLevel.originalWidth, tile.row as real * tile.tileZoomLevel.originalHeight)
  }

  /** Neighbouring tiles of a zoom level abut: a tile ends where the next column and the next row start. */
  lemma AdjacentTilesAbut(tile: Tile)
    ensures TilePosition(tile.(column := tile.column + 1)).x == TilePosition(tile).x + tile.tileZoomLevel.originalWidth
    ensures TilePosition(tile.(row := tile.row + 1)).y == TilePosition(tile).y + tile.tileZoomLevel.originalHeight
  {
    var z := tile.tileZoomLevel;
    assert (tile.column + 1) as real * z.originalWidth == tile.column as real * z.originalWidth + z.originalWidth;
    assert (tile.row + 1) as real * z.originalHeight == tile.row as real * z.originalHeight + z.originalHeight;
  }

  /**
   * `computeBboxTile`: from the tile's position to its far corner, clipped to the image size.
   * Each maximum is the unclipped end or the image edge, whichever is smaller.
   */
  function ComputeBboxTile(tile: Tile): (bbox: Bbox)
    ensures bbox.minX == TilePosition(tile).x && bbox.minY == TilePosition(tile).y
    ensures bbox.maxX <= TilePosition(tile).x + tile.tileZoomLevel.originalWidth && bbox.maxX <= tile.imageSize.width
    ensures bbox.maxY <= TilePosition(tile).y + tile.tileZoomLevel.originalHeight && bbox.maxY <= tile.imageSize.height
    ensures bbox.maxX == TilePosition(tile).x + tile.tileZoomLevel.originalWidth || bbox.maxX == tile.imageSize.width
    ensures bbox.maxY == TilePosition(tile).y + tile.tileZoomLevel.originalHeight || bbox.maxY == tile.imageSize.height
  {
    var position := TilePosition(tile);
    var resourceTileMaxX := MinReal(position.x + tile.tileZoomLevel.originalWidth, tile.imageSize.width);
    var resourceTileMaxY := MinReal(position.y + tile.tileZoomLevel.originalHeight, tile.imageSize.height);
    Bbox(position.x, position.y, resourceTileMaxX, resourceTileMaxY)
  }

  /** A tile inside the grid of its zoom level has a box of positive width and height. */
  lemma {:induction false} TileInGridHasArea(tile: Tile)
    requires ValidZoomLevel(tile.tileZoomLevel)
    requires tile.tileZoomLevel.columns == Ceil(tile.imageSize.width / tile.tileZoomLevel.originalWidth)
    requires tile.tileZoomLevel.rows == Ceil(tile.imageSize.height / tile.tileZoomLevel.originalHeight)
    requires 0 <= tile.column < tile.tileZoomLevel.columns && 0 <= tile.row < tile.tileZoomLevel.rows
    ensures ComputeBboxTile(tile).minX < ComputeBboxTile(tile).maxX
    ensures ComputeBboxTile(tile).minY < ComputeBboxTile(tile).maxY
  {
    var z := tile.tileZoomLevel;
    StartBeforeEdge(tile.column, z.originalWidth, tile.imageSize.width);
    StartBeforeEdge(tile.row, z.originalHeight, tile.imageSize.height);
  }

  /** A cell index below `ceil(edge / size)` starts before the edge. */
  lemma StartBeforeEdge(index: int, size: real, edge: real)
    requires size > 0.0 && 0 <= index < Ceil(edge / size)
    ensures index as real * size < edge
  {
    assert index as real < edge / size;
    assert index as real * size < (edge / size) * size;
  }

  /** `tileCenter`: half the box's extent from its minimum corner, the box's center. */
  function TileCenter(tile: Tile): (c: Point)
    ensures c == BboxToCenter(ComputeBboxTile(tile))
  {
    var bbox := ComputeBboxTile(tile);
    Point((bbox.maxX - bbox.minX) / 2.0 + bbox.minX, (bbox.maxY - bbox.minY) / 2.0 + bbox.minY)
  }

  /** `pointInTile`: closed containment in the tile's unclipped extent. */
  predicate PointInTile(resourcePoint: Point, tile: Tile)
  {
    var position := TilePosition(tile);
    && resourcePoint.x >= position.x
    && resourcePoint.x <= position.x + tile.tileZoomLevel.originalWidth
    && resourcePoint.y >= position.y
    && resourcePoint.y <= position.y + tile.tileZoomLevel.originalHeight
  }

  /** `pointInImage`: inside the image, open at the zero edges and closed at the far edges. */
  predicate PointInImage(resourcePoint: Point, tile: Tile)
  {
    && resourcePoint.x > 0.0
    && resourcePoint.x <= tile.imageSize.width
    && resourcePoint.y > 0.0
    && resourcePoint.y <= tile.imageSize.height
  }

  /**
   * A point lies in a tile and in the image exactly when it lies in the tile's clipped box and
   * away from the zero edges.
   */
  lemma InTileAndImageIsInBbox(resourcePoint: Point, tile: Tile)
    ensures PointInTile(resourcePoint, tile) && PointInImage(resourcePoint, tile)
      <==> Contains(ComputeBboxTile(tile), resourcePoint) && resourcePoint.x > 0.0 && resourcePoint.y > 0.0
  {
  }

  /**
   * `pointToTilePoint`: the point relative to the tile's position, in tile pixels; with `clip`,
   * `undefined` for points outside the tile.
   */
  function PointToTilePoint(resourcePoint: Point, tile: Tile, clip: bool): (r: Option<Point>)
    requires tile.tileZoomLevel.scaleFactor != 0.0
    ensures r.None? <==> clip && !PointInTile(resourcePoint, tile)
    ensures r.Some? ==>
      && TilePosition(tile).x + r.value.x * tile.tileZoomLevel.scaleFactor == resourcePoint.x
      && TilePosition(tile).y + r.value.y * tile.tileZoomLevel.scaleFactor == resourcePoint.y
  {
    var position := TilePosition(tile);
    var tilePoint := Point((resourcePoint.x - position.x) / tile.tileZoomLevel.scaleFactor,
                           (resourcePoint.y - position.y) / tile.tileZoomLevel.scaleFactor);
    if !clip || PointInTile(resourcePoint, tile) then Some(tilePoint) else None
  }

  /** A point inside a tile of a valid zoom level has tile coordinates within the tile's pixel size. */
  lemma {:induction false} TilePointWithinTile(resourcePoint: Point, tile: Tile)
    requires ValidZoomLevel(tile.tileZoomLevel) && PointInTile(resourcePoint, tile)
    ensures var p := PointToTilePoint(resourcePoint, tile, true).value;
      0.0 <= p.x <= tile.tileZoomLevel.width && 0.0 <= p.y <= tile.tileZoomLevel.height
  {
    var z := tile.tileZoomLevel;
    var p := PointToTilePoint(resourcePoint, tile, true).value;
    var position := TilePosition(tile);
    assert p.x * z.scaleFactor == resourcePoint.x - position.x;
    assert p.y * z.scaleFactor == resourcePoint.y - position.y;
    assert p.x * z.scaleFactor <= z.width * z.scaleFactor;
    assert p.y * z.scaleFactor <= z.height * z.scaleFactor;
  }

  // Pruning

  /** `isOverlapping` on boxes: the closed extents overlap on both axes. */
  predicate Overlaps(bbox0: Bbox, bbox1: Bbox)
  {
    bbox0.minX <= bbox1.maxX && bbox1.minX <= bbox0.maxX && bbox0.minY <= bbox1.maxY && bbox1.minY <= bbox0.maxY
  }

  /** Two well-formed boxes overlap exactly when they have a point in common. */
  lemma OverlapsIffCommonPoint(bbox0: Bbox, bbox1: Bbox)
    requires WellFormed(bbox0) && WellFormed(bbox1)
    ensures Overlaps(bbox0, bbox1) <==> exists p :: Contains(bbox0, p) && Contains(bbox1, p)
  {
    if Overlaps(bbox0, bbox1) {
      var p := Point(MaxReal(bbox0.minX, bbox1.minX), MaxReal(bbox0.minY, bbox1.minY));
      assert Contains(bbox0, p) && Contains(bbox1, p);
    }
  }

  /**
   * `pruneTile`: a tile whose log2 scale factor is more than 6 above or more than 3 below the best
   * one is pruned; otherwise it is pruned when its box misses the viewport's box.
   */
  function PruneTile(tile: Tile, bestScaleFactor: real, resourceViewportRingBbox: Bbox, log2: real -> real): (prune: bool)
    ensures log2(tile.tileZoomLevel.scaleFactor) - log2(bestScaleFactor) > PruneMaxHigherLog2ScaleFactorDiff ==> prune
    ensures log2(bestScaleFactor) - log2(tile.tileZoomLevel.scaleFactor) > PruneMaxLowerLog2ScaleFactorDiff ==> prune
    ensures -PruneMaxLowerLog2ScaleFactorDiff <= log2(tile.tileZoomLevel.scaleFactor) - log2(bestScaleFactor)
              <= PruneMaxHigherLog2ScaleFactorDiff
      ==> (prune <==> !Overlaps(ComputeBboxTile(tile), resourceViewportRingBbox))
  {
    var log2ScaleFactorDiff := log2(tile.tileZoomLevel.scaleFactor) - log2(bestScaleFactor);
    var tileScaleFactorTooHigh := log2ScaleFactorDiff > PruneMaxHigherLog2ScaleFactorDiff;
    var tileScaleFactorTooLow := -log2ScaleFactorDiff > PruneMaxLowerLog2ScaleFactorDiff;
    if tileScaleFactorTooHigh || tileScaleFactorTooLow then true
    else !Overlaps(ComputeBboxTile(tile), resourceViewportRingBbox)
  }

  /** A tile at the best scale factor that shares a point with the viewport box is kept. */
  lemma VisibleBestTileIsKept(tile: Tile, resourceViewportRingBbox: Bbox, p: Point, log2: real -> real)
    requires Contains(ComputeBboxTile(tile), p) && Contains(resourceViewportRingBbox, p)
    ensures !PruneTile(tile, tile.tileZoomLevel.scaleFactor, resourceViewportRingBbox, log2)
  {
  }

  // Zoom levels from scale factors and covering tiles

  /**
   * `getTileZoomLevelFromScaleFactor`: tiles of the given pixel size at the given scale factor,
   * with as many columns and rows as it takes to cover the image.
   */
  function GetTileZoomLevelFromScaleFactor(imageSize: Size, tileSize: Size, scaleFactor: real): (z: TileZoomLevel)
    requires tileSize.width > 0.0 && tileSize.height > 0.0 && scaleFactor > 0.0
    ensures ValidZoomLevel(z) && z.scaleFactor == scaleFactor
    ensures z.width == tileSize.width && z.height == tileSize.height
    ensures (z.columns - 1) as real * z.originalWidth < imageSize.width <= z.columns as real * z.originalWidth
    ensures (z.rows - 1) as real * z.originalHeight < imageSize.height <= z.rows as real * z.originalHeight
  {
    var originalWidth := tileSize.width * scaleFactor;
    var originalHeight := tileSize.height * scaleFactor;
    var z := TileZoomLevel(scaleFactor, tileSize.width, tileSize.height, originalWidth, originalHeight,
      Ceil(imageSize.width / originalWidth), Ceil(imageSize.height / originalHeight));
    CeilCovers(imageSize.width, originalWidth);
    CeilCovers(imageSize.height, originalHeight);
    z
  }

  /** `ceil(edge / size)` cells of the given size are the fewest that reach the edge. */
  lemma CeilCovers(edge: real, size: real)
    requires size > 0.0
    ensures (Ceil(edge / size) - 1) as real * size < edge <= Ceil(edge / size) as real * size
  {
    var n := Ceil(edge / size);
    assert (n - 1) as real < edge / size <= n as real;
    assert (n - 1) as real * size < (edge / size) * size;
    assert (edge / size) * size <= n as real * size;
  }

  /** The first cell of a covering on one axis: the floor of the start in the new scale factor, at least 0. */
  function AxisStart(index: int, s0: real, s1: real): int
    requires s1 != 0.0
  {
    var start := Floor(index as real * s0 / s1);
    if start >= 0 then start else 0
  }

  /** The last cell of a covering on one axis: the ceiling of the end in the new scale factor, minus 1. */
  function AxisEnd(index: int, s0: real, s1: real): int
    requires s1 != 0.0
  {
    Ceil((index + 1) as real * s0 / s1 - 1.0)
  }

  /** The zoom level of the covering tiles: the tile's pixel size at the new scale factor. */
  function CoveringZoomLevel(tile: Tile, scaleFactor: real): TileZoomLevel
    requires tile.tileZoomLevel.width > 0.0 && tile.tileZoomLevel.height > 0.0 && scaleFactor > 0.0
  {
    GetTileZoomLevelFromScaleFactor(tile.imageSize, Size(tile.tileZoomLevel.width, tile.tileZoomLevel.height), scaleFactor)
  }

  /** The tiles of one column from `rowStart` to `rowEnd`, in row order. */
  function ColumnTiles(column: int, rowStart: int, rowEnd: int, z: TileZoomLevel, imageSize: Size): seq<Tile>
    decreases rowEnd - rowStart
  {
    if rowStart > rowEnd then [] else [Tile(column, rowStart, z, imageSize)] + ColumnTiles(column, rowStart + 1, rowEnd, z, imageSize)
  }

  /** The tiles of the columns from `columnStart` to `columnEnd`, column by column. */
  function GridTiles(columnStart: int, columnEnd: int, rowStart: int, rowEnd: int, z: TileZoomLevel, imageSize: Size): seq<Tile>
    decreases columnEnd - columnStart
  {
    if columnStart > columnEnd then []
    else ColumnTiles(columnStart, rowStart, rowEnd, z, imageSize) + GridTiles(columnStart + 1, columnEnd, rowStart, rowEnd, z, imageSize)
  }

  /**
   * `tilesCoveringTileForScaleFactor`: column by column, row by row, every tile of the new zoom
   * level from the start to the end column and row.
   */
  method TilesCoveringTileForScaleFactor(tile: Tile, scaleFactor: real) returns (tiles: seq<Tile>)
    requires tile.tileZoomLevel.width > 0.0 && tile.tileZoomLevel.height > 0.0 && scaleFactor > 0.0
    ensures var s0 := tile.tileZoomLevel.scaleFactor;
      tiles == GridTiles(AxisStart(tile.column, s0, scaleFactor), AxisEnd(tile.column, s0, scaleFactor),
                         AxisStart(tile.row, s0, scaleFactor), AxisEnd(tile.row, s0, scaleFactor),
                         CoveringZoomLevel(tile, scaleFactor), tile.imageSize)
  {
    var columnStart := AxisStart(tile.column, tile.tileZoomLevel.scaleFactor, scaleFactor);
    var rowStart := AxisStart(tile.row, tile.tileZoomLevel.scaleFactor, scaleFactor);
    var columnEnd := AxisEnd(tile.column, tile.tileZoomLevel.scaleFactor, scaleFactor);
    var rowEnd := AxisEnd(tile.row, tile.tileZoomLevel.scaleFactor, scaleFactor);
    var zoomLevel := GetTileZoomLevelFromScaleFactor(tile.imageSize, Size(tile.tileZoomLevel.width, tile.tileZoomLevel.height), scaleFactor);
    tiles := [];
    var column := columnStart;
    while column <= columnEnd
      invariant tiles + GridTiles(column, columnEnd, rowStart, rowEnd, zoomLevel, tile.imageSize)
        == GridTiles(columnStart, columnEnd, rowStart, rowEnd, zoomLevel, tile.imageSize)
      decreases columnEnd - column
    {
      ghost var rest := GridTiles(column + 1, columnEnd, rowStart, rowEnd, zoomLevel, tile.imageSize);
      ghost var columnTiles := ColumnTiles(column, rowStart, rowEnd, zoomLevel, tile.imageSize);
      assert GridTiles(column, columnEnd, rowStart, rowEnd, zoomLevel, tile.imageSize) == columnTiles + rest;
      ghost var previous := tiles;
      tiles := AppendColumn(tiles, column, rowStart, rowEnd, zoomLevel, tile.imageSize);
      assert previous + (columnTiles + rest) == tiles + rest;
      column := column + 1;
    }
  }

  /** The inner loop of `tilesCoveringTileForScaleFactor`: the tiles of one column, appended row by row. */
  method AppendColumn(tiles: seq<Tile>, column: int, rowStart: int, rowEnd: int, z: TileZoomLevel, imageSize: Size)
    returns (result: seq<Tile>)
    ensures result == tiles + ColumnTiles(column, rowStart, rowEnd, z, imageSize)
  {
    result := tiles;
    var row := rowStart;
    while row <= rowEnd
      invariant result + ColumnTiles(column, row, rowEnd, z, imageSize) == tiles + ColumnTiles(column, rowStart, rowEnd, z, imageSize)
      decreases rowEnd - row
    {
      ghost var rest := ColumnTiles(column, row + 1, rowEnd, z, imageSize);
      assert ColumnTiles(column, row, rowEnd, z, imageSize) == [Tile(column, row, z, imageSize)] + rest;
      assert result + ([Tile(column, row, z, imageSize)] + rest) == (result + [Tile(column, row, z, imageSize)]) + rest;
      result := result + [Tile(column, row, z, imageSize)];
      row := row + 1;
    }
    assert result + ColumnTiles(column, row, rowEnd, z, imageSize) == result;
  }

  /** A tile is in a column's tiles exactly when it has the column, the zoom level, the size and a row in range. */
  lemma {:induction false} ColumnTilesMembers(column: int, rowStart: int, rowEnd: int, z: TileZoomLevel, imageSize: Size)
    decreases rowEnd - rowStart
    ensures forall t :: t in ColumnTiles(column, rowStart, rowEnd, z, imageSize) <==>
      t.column == column && rowStart <= t.row <= rowEnd && t.tileZoomLevel == z && t.imageSize == imageSize
    ensures forall i, j :: 0 <= i < j < |ColumnTiles(column, rowStart, rowEnd, z, imageSize)| ==>
      ColumnTiles(column, rowStart, rowEnd, z, imageSize)[i].row < ColumnTiles(column, rowStart, rowEnd, z, imageSize)[j].row
  {
    if rowStart <= rowEnd {
      ColumnTilesMembers(column, rowStart + 1, rowEnd, z, imageSize);
    }
  }

  /**
   * The covering's tiles are exactly the tiles of the zoom level and size in the column and row
   * ranges, each once, in column-major order.
   */
  lemma {:induction false} GridTilesMembers(columnStart: int, columnEnd: int, rowStart: int, rowEnd: int, z: TileZoomLevel, imageSize: Size)
    decreases columnEnd - columnStart
    ensures forall t :: t in GridTiles(columnStart, columnEnd, rowStart, rowEnd, z, imageSize) <==>
      columnStart <= t.column <= columnEnd && rowStart <= t.row <= rowEnd && t.tileZoomLevel == z && t.imageSize == imageSize
    ensures forall i, j :: 0 <= i < j < |GridTiles(columnStart, columnEnd, rowStart, rowEnd, z, imageSize)| ==>
      Before(GridTiles(columnStart, columnEnd, rowStart, rowEnd, z, imageSize)[i], GridTiles(columnStart, columnEnd, rowStart, rowEnd, z, imageSize)[j])
  {
    if columnStart <= columnEnd {
      var head := ColumnTiles(columnStart, rowStart, rowEnd, z, imageSize);
      var tail := GridTiles(columnStart + 1, columnEnd, rowStart, rowEnd, z, imageSize);
      ColumnTilesMembers(columnStart, rowStart, rowEnd, z, imageSize);
      GridTilesMembers(columnStart + 1, columnEnd, rowStart, rowEnd, z, imageSize);
      var all := head + tail;
      forall i, j | 0 <= i < j < |all|
        ensures Before(all[i], all[j])
      {
        if j < |head| {
          assert all[i] == head[i] && all[j] == head[j];
        } else if i < |head| {
          assert all[i] in head && all[j] in tail;
        } else {
          assert all[i] == tail[i - |head|] && all[j] == tail[j - |head|];
        }
      }
    }
  }

  /** Tiles in column-major order: an earlier column, or the same column and an earlier row. */
  predicate Before(t0: Tile, t1: Tile)
  {
    t0.column < t1.column || (t0.column == t1.column && t0.row < t1.row)
  }

  /**
   * On one axis, the cells `start..end` of `newSize` cover the span from `low` to `high`: the
   * first starts at or before it, the last ends at or after it, and the first and the last reach into it.
   */
  predicate AxisCovers(start: int, end: int, newSize: real, low: real, high: real)
  {
    && start as real * newSize <= low
    && high <= (end + 1) as real * newSize
    && low < (start + 1) as real * newSize
    && end as real * newSize < high
  }

  /**
   * The covering tiles cover the tile on both axes, and the first and the last column and row of
   * them reach into it.
   */
  lemma CoveringTilesCoverTile(tile: Tile, scaleFactor: real)
    requires ValidZoomLevel(tile.tileZoomLevel) && scaleFactor > 0.0
    requires tile.column >= 0 && tile.row >= 0
    ensures var s0 := tile.tileZoomLevel.scaleFactor;
      AxisCovers(AxisStart(tile.column, s0, scaleFactor), AxisEnd(tile.column, s0, scaleFactor),
                 CoveringZoomLevel(tile, scaleFactor).originalWidth, TilePosition(tile).x, TilePosition(tile).x + tile.tileZoomLevel.originalWidth)
    ensures var s0 := tile.tileZoomLevel.scaleFactor;
      AxisCovers(AxisStart(tile.row, s0, scaleFactor), AxisEnd(tile.row, s0, scaleFactor),
                 CoveringZoomLevel(tile, scaleFactor).originalHeight, TilePosition(tile).y, TilePosition(tile).y + tile.tileZoomLevel.originalHeight)
  {
    CoveringColumns(tile, scaleFactor);
    CoveringRows(tile, scaleFactor);
  }

  lemma CoveringColumns(tile: Tile, scaleFactor: real)
    requires ValidZoomLevel(tile.tileZoomLevel) && scaleFactor > 0.0 && tile.column >= 0
    ensures var s0 := tile.tileZoomLevel.scaleFactor;
      AxisCovers(AxisStart(tile.column, s0, scaleFactor), AxisEnd(tile.column, s0, scaleFactor),
                 CoveringZoomLevel(tile, scaleFactor).originalWidth, TilePosition(tile).x, TilePosition(tile).x + tile.tileZoomLevel.originalWidth)
  {
    var z0 := tile.tileZoomLevel;
    CoveringZoomLevelSize(tile, scaleFactor);
    CoveringAxis(tile.column, z0.scaleFactor, scaleFactor, z0.width,
      CoveringZoomLevel(tile, scaleFactor).originalWidth, TilePosition(tile).x, z0.originalWidth);
  }

  lemma CoveringRows(tile: Tile, scaleFactor: real)
    requires ValidZoomLevel(tile.tileZoomLevel) && scaleFactor > 0.0 && tile.row >= 0
    ensures var s0 := tile.tileZoomLevel.scaleFactor;
      AxisCovers(AxisStart(tile.row, s0, scaleFactor), AxisEnd(tile.row, s0, scaleFactor),
                 CoveringZoomLevel(tile, scaleFactor).originalHeight, TilePosition(tile).y, TilePosition(tile).y + tile.tileZoomLevel.originalHeight)
  {
    var z0 := tile.tileZoomLevel;
    CoveringZoomLevelSize(tile, scaleFactor);
    CoveringAxis(tile.row, z0.scaleFactor, scaleFactor, z0.height,
      CoveringZoomLevel(tile, scaleFactor).originalHeight, TilePosition(tile).y, z0.originalHeight);
  }

  lemma CoveringZoomLevelSize(tile: Tile, scaleFactor: real)
    requires ValidZoomLevel(tile.tileZoomLevel) && scaleFactor > 0.0
    ensures CoveringZoomLevel(tile, scaleFactor).originalWidth == tile.tileZoomLevel.width * scaleFactor
    ensures CoveringZoomLevel(tile, scaleFactor).originalHeight == tile.tileZoomLevel.height * scaleFactor
  {
  }

  /**
   * On one axis: cell `index`, of `oldSize = size * s0` at `position`, is covered by the cells of
   * `newSize = size * s1` from `AxisStart` to `AxisEnd`.
   */
  lemma {:induction false} CoveringAxis(index: int, s0: real, s1: real, size: real, newSize: real, position: real, oldSize: real)
    requires index >= 0 && s0 > 0.0 && s1 > 0.0 && size > 0.0
    requires newSize == size * s1
    requires oldSize == size * s0
    requires position == index as real * oldSize
    ensures AxisCovers(AxisStart(index, s0, s1), AxisEnd(index, s0, s1), newSize, position, position + oldSize)
  {
    var start := AxisStart(index, s0, s1);
    var end := AxisEnd(index, s0, s1);
    var q0 := index as real * s0 / s1;
    var q1 := (index + 1) as real * s0 / s1;
    assert q0 >= 0.0;
    assert start == Floor(q0);
    QuotientScale(index as real, s0, s1, size);
    QuotientScale((index + 1) as real, s0, s1, size);
    assert position + oldSize == (index + 1) as real * (size * s0);
    ScaledCover(q0, q1, start, end, newSize, position, position + oldSize);
  }

  /** `n * s0 / s1` cells of `size * s1` span `n` cells of `size * s0`. */
  lemma QuotientScale(n: real, s0: real, s1: real, size: real)
    requires s1 > 0.0
    ensures (n * s0 / s1) * (size * s1) == n * (size * s0)
  {
    var q := n * s0 / s1;
    assert q * s1 == n * s0;
    assert q * (size * s1) == size * (q * s1);
  }

  /** Cells `start..end` of `newSize` cover the span from `q0` to `q1` cells of `newSize`. */
  lemma ScaledCover(q0: real, q1: real, start: int, end: int, newSize: real, low: real, high: real)
    requires newSize > 0.0
    requires start as real <= q0 < (start + 1) as real && end as real < q1 <= (end + 1) as real
    requires low == q0 * newSize && high == q1 * newSize
    ensures AxisCovers(start, end, newSize, low, high)
  {
    ScaleLe(start as real, q0, newSize);
    ScaleLe(q1, (end + 1) as real, newSize);
    ScaleLt(q0, (start + 1) as real, newSize);
    ScaleLt(end as real, q1, newSize);
  }

  lemma ScaleLe(a: real, b: real, k: real)
    requires k > 0.0 && a <= b
    ensures a * k <= b * k
  {
  }

  lemma ScaleLt(a: real, b: real, k: real)
    requires k > 0.0 && a < b
    ensures a * k < b * k
  {
  }

  // Keys

  /** `createKeyFromMapIdAndTileUrl`: the map id and the tile URL joined by a colon. */
  function CreateKeyFromMapIdAndTileUrl(mapId: string, tileUrl: string): (key: string)
    ensures |key| == |mapId| + 1 + |tileUrl| && key[..|mapId|] == mapId && key[|mapId|] == ':' && key[|mapId| + 1..] == tileUrl
  {
    mapId + ":" + tileUrl
  }

  /** Keys of map ids without a colon determine the map id and the tile URL. */
  lemma {:induction false} KeyDeterminesPair(mapId0: string, tileUrl0: string, mapId1: string, tileUrl1: string)
    requires ':' !in mapId0 && ':' !in mapId1
    requires CreateKeyFromMapIdAndTileUrl(mapId0, tileUrl0) == CreateKeyFromMapIdAndTileUrl(mapId1, tileUrl1)
    ensures mapId0 == mapId1 && tileUrl0 == tileUrl1
  {
  }

  /** With a colon in a map id, two different pairs can share a key. */
  lemma KeysOfColonMapIdsCollide()
    ensures CreateKeyFromMapIdAndTileUrl("a:b", "c") == CreateKeyFromMapIdAndTileUrl("a", "b:c")
  {
  }
}
