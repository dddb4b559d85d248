/**
 * The tiles of a zoom level that a resource ring touches (`computeTilesCoveringRingAtTileZoomLevel`):
 * the ring is scaled to the tile grid, each edge is walked cell by cell, the lowest and highest row
 * touched in each column are collected, each column is filled in between them, and the tiles are
 * sorted by the distance of their centers to the center of the ring.
 */
module RingTiles {
  import opened Wrappers
  import opened Geometry
  import opened BoundingBox
  import opened Tiles
  import opened TileCells

  // Collecting the rows of each column (`ringToTilesByColumn`)

  /** The index after `i` in a ring of `n` points: `(i + 1) % n` for `0 <= i < n`. */
  function Successor(i: nat, n: nat): (j: nat)
    requires i < n
    ensures j < n
  {
    if i + 1 < n then i + 1 else 0
  }

  /** The cells of the first `k` edges of a ring; edge `i` runs from point `i` to the point after it. */
  function EdgeCells(ring: seq<Point>, k: nat): seq<Cell>
    requires k <= |ring|
  {
    if k == 0 then [] else EdgeCells(ring, k - 1) + LineCells(ring[k - 1], ring[Successor(k - 1, |ring|)])
  }

  /** The cells of all edges of a ring, the closing edge included, in the order they are walked. */
  function RingCells(ring: seq<Point>): seq<Cell>
  {
    EdgeCells(ring, |ring|)
  }

  /** The lowest and the highest row touched in a column. */
  datatype RowRange = RowRange(minY: int, maxY: int)

  /**
   * Records one cell: a column seen for the first time starts at `[+Infinity, -Infinity]`, which
   * both comparisons then replace by the cell's row; otherwise each bound moves out to the row if it lies beyond.
   */
  function Update(table: map<int, RowRange>, c: Cell): map<int, RowRange>
  {
    if c.x !in table then table[c.x := RowRange(c.y, c.y)]
    else
      var range := table[c.x];
      var minY := if c.y < range.minY then c.y else range.minY;
      var maxY := if c.y > range.maxY then c.y else range.maxY;
      table[c.x := RowRange(minY, maxY)]
  }

  /** `table` after recording `cells` one by one. */
  function Record(table: map<int, RowRange>, cells: seq<Cell>): map<int, RowRange>
  {
    if |cells| == 0 then table else Update(Record(table, cells[..|cells| - 1]), cells[|cells| - 1])
  }

  /** The rows by column of a sequence of cells. */
  function TableOf(cells: seq<Cell>): map<int, RowRange>
  {
    Record(map[], cells)
  }

  lemma RecordAppendOne(table: map<int, RowRange>, cells: seq<Cell>, c: Cell)
    ensures Record(table, cells + [c]) == Update(Record(table, cells), c)
  {
    assert (cells + [c])[..|cells|] == cells;
  }

  /** Recording two sequences one after the other is recording their concatenation. */
  lemma {:induction false} RecordAppend(table: map<int, RowRange>, cells0: seq<Cell>, cells1: seq<Cell>)
    decreases |cells1|
    ensures Record(table, cells0 + cells1) == Record(Record(table, cells0), cells1)
  {
    if |cells1| == 0 {
      assert cells0 + cells1 == cells0;
    } else {
      var init, last := cells1[..|cells1| - 1], cells1[|cells1| - 1];
      assert cells1 == init + [last];
      assert cells0 + cells1 == (cells0 + init) + [last];
      RecordAppend(table, cells0, init);
      RecordAppendOne(table, cells0 + init, last);
      RecordAppendOne(Record(table, cells0), init, last);
    }
  }

  /**
   * `ringToTilesByColumn`: for each edge of the ring, closing edge included, the cells it passes
   * through, each recorded in the table of its column.
   */
  method RingToTilesByColumn(ring: seq<Point>) returns (table: map<int, RowRange>)
    ensures table == TableOf(RingCells(ring))
  {
    table := map[];
    for i := 0 to |ring|
      invariant table == TableOf(EdgeCells(ring, i))
    {
      RecordEdge(ring, i);
      table := RecordEdgeCells(table, ring, i);
    }
  }

  /** One iteration of `ringToTilesByColumn`: walk the edge from point `i` and record its cells. */
  method RecordEdgeCells(table: map<int, RowRange>, ring: seq<Point>, i: nat) returns (result: map<int, RowRange>)
    requires i < |ring|
    ensures result == Record(table, LineCells(ring[i], ring[Successor(i, |ring|)]))
  {
    var points := PointsIntersectingLine(ring[i], ring[Successor(i, |ring|)]);
    result := RecordCells(table, points);
  }

  /** Recording the cells of one more edge. */
  lemma RecordEdge(ring: seq<Point>, i: nat)
    requires i < |ring|
    ensures TableOf(EdgeCells(ring, i + 1)) == Record(TableOf(EdgeCells(ring, i)), LineCells(ring[i], ring[Successor(i, |ring|)]))
  {
    RecordAppend(map[], EdgeCells(ring, i), LineCells(ring[i], ring[Successor(i, |ring|)]));
  }

  /** The `points.forEach` of `ringToTilesByColumn`: record each cell in turn. */
  method RecordCells(table: map<int, RowRange>, points: seq<Cell>) returns (result: map<int, RowRange>)
    ensures result == Record(table, points)
  {
    result := table;
    var j := 0;
    while j < |points|
      invariant 0 <= j <= |points|
      invariant result == Record(table, points[..j])
    {
      var c := points[j];
      if c.x !in result {
        result := result[c.x := RowRange(c.y, c.y)];
      } else {
        var range := result[c.x];
        if c.y < range.minY {
          range := range.(minY := c.y);
        }
        if c.y > range.maxY {
          range := range.(maxY := c.y);
        }
        result := result[c.x := range];
      }
      assert points[..j + 1] == points[..j] + [c];
      RecordAppendOne(table, points[..j], c);
      j := j + 1;
    }
    assert points[..j] == points;
  }

  /**
   * The table has a column exactly for the columns of the cells, and each column's range runs from
   * the lowest to the highest row of the cells in it: every cell lies in it and both ends are rows of cells.
   */
  lemma {:induction false} TableOfRanges(cells: seq<Cell>)
    decreases |cells|
    ensures forall x :: x in TableOf(cells) <==> exists c :: c in cells && c.x == x
    ensures forall c :: c in cells ==> c.x in TableOf(cells) && TableOf(cells)[c.x].minY <= c.y <= TableOf(cells)[c.x].maxY
    ensures forall x :: x in TableOf(cells) ==>
      Cell(x, TableOf(cells)[x].minY) in cells && Cell(x, TableOf(cells)[x].maxY) in cells
  {
    if |cells| > 0 {
      var init, last := cells[..|cells| - 1], cells[|cells| - 1];
      assert cells == init + [last];
      TableOfRanges(init);
      assert TableOf(cells) == Update(TableOf(init), last);
      forall c | c in cells
        ensures c.x in TableOf(cells) && TableOf(cells)[c.x].minY <= c.y <= TableOf(cells)[c.x].maxY
      {
        if c != last {
          assert c in init;
        }
      }
      forall x | x in TableOf(cells)
        ensures Cell(x, TableOf(cells)[x].minY) in cells && Cell(x, TableOf(cells)[x].maxY) in cells
      {
        if x != last.x {
          assert TableOf(cells)[x] == TableOf(init)[x];
        }
      }
    }
  }

  // Enumerating the columns (`for (const xKey in tilesByColumn)`)

  predicate IsLeast(m: int, keys: set<int>)
  {
    m in keys && forall k :: k in keys ==> m <= k
  }

  /** The least element of a non-empty set of integers. */
  function Least(keys: set<int>): (m: int)
    requires keys != {}
    ensures IsLeast(m, keys)
  {
    LeastExists(keys);
    var m :| IsLeast(m, keys);
    m
  }

  lemma {:induction false} LeastExists(keys: set<int>)
    requires keys != {}
    decreases |keys|
    ensures exists m :: IsLeast(m, keys)
  {
    assert (forall k :: k !in keys) ==> keys == {};
    var k0 :| k0 in keys;
    var others := keys - {k0};
    if others != {} {
      LeastExists(others);
      var m :| IsLeast(m, others);
      var least := if m < k0 then m else k0;
      forall k | k in keys
        ensures least <= k
      {
        assert k == k0 || k in others;
      }
      assert IsLeast(least, keys);
    } else {
      forall k | k in keys
        ensures k0 <= k
      {
        assert k == k0 || k in others;
      }
      assert IsLeast(k0, keys);
    }
  }

  /** The elements of a set of integers in ascending order. */
  function Ascending(keys: set<int>): (r: seq<int>)
    decreases |keys|
    ensures forall k :: k in r <==> k in keys
    ensures forall i, j :: 0 <= i < j < |r| ==> r[i] < r[j]
  {
    if keys == {} then []
    else
      var m := Least(keys);
      [m] + Ascending(keys - {m})
  }

  /**
   * The order in which `for..in` visits the integer keys of an object: the array-index keys
   * (the non-negative ones) in ascending order, then the others. The others are listed ascending
   * here; the engine lists them in insertion order, which the loop below never reaches past the first of them.
   */
  function ForInKeys(table: map<int, RowRange>): seq<int>
  {
    Ascending(set k | k in table && k >= 0) + Ascending(set k | k in table && k < 0)
  }

  /** Every non-negative key comes after only smaller non-negative keys. */
  predicate ForInOrder(keys: seq<int>)
  {
    forall i, j :: 0 <= i < j < |keys| && keys[j] >= 0 ==> 0 <= keys[i] < keys[j]
  }

  /** `ForInKeys` lists exactly the keys of the table, in `for..in` order. */
  lemma ForInKeysOrdered(table: map<int, RowRange>)
    ensures forall k :: k in ForInKeys(table) <==> k in table
    ensures ForInOrder(ForInKeys(table))
  {
    ForInKeysMembers(table);
    ForInKeysOrder(table);
  }

  lemma ForInKeysMembers(table: map<int, RowRange>)
    ensures forall k :: k in ForInKeys(table) <==> k in table
  {
    var nonNegativeKeys := set k | k in table && k >= 0;
    var negativeKeys := set k | k in table && k < 0;
    var keys := Ascending(nonNegativeKeys) + Ascending(negativeKeys);
    assert keys == ForInKeys(table);
    forall k | k in table
      ensures k in keys
    {
      if k >= 0 {
        assert k in nonNegativeKeys;
      } else {
        assert k in negativeKeys;
      }
    }
  }

  lemma ForInKeysOrder(table: map<int, RowRange>)
    ensures ForInOrder(ForInKeys(table))
  {
    var nonNegativeKeys := set k | k in table && k >= 0;
    var negativeKeys := set k | k in table && k < 0;
    var nonNegative, negative := Ascending(nonNegativeKeys), Ascending(negativeKeys);
    var keys := nonNegative + negative;
    assert keys == ForInKeys(table);
    var n := |nonNegative|;
    AllNonNegative(nonNegativeKeys);
    AllNegative(negativeKeys);
    forall i, j | 0 <= i < j < |keys| && keys[j] >= 0
      ensures 0 <= keys[i] < keys[j]
    {
      assert j < n;
      assert keys[i] == nonNegative[i] && keys[j] == nonNegative[j];
    }
  }

  lemma AllNonNegative(keys: set<int>)
    requires forall k :: k in keys ==> k >= 0
    ensures forall i :: 0 <= i < |Ascending(keys)| ==> Ascending(keys)[i] >= 0
  {
    var r := Ascending(keys);
    forall i | 0 <= i < |r|
      ensures r[i] >= 0
    {
      assert r[i] in r;
    }
  }

  lemma AllNegative(keys: set<int>)
    requires forall k :: k in keys ==> k < 0
    ensures forall i :: 0 <= i < |Ascending(keys)| ==> Ascending(keys)[i] < 0
  {
    var r := Ascending(keys);
    forall i | 0 <= i < |r|
      ensures r[i] < 0
    {
      assert r[i] in r;
    }
  }

  // Filling in the columns (`tilesByColumnToTiles`)

  /**
   * The tiles of the columns `keys`, in order, up to the first key outside `0..columns - 1`: each
   * column from its lowest row (at least 0) to its highest row (at most `rows - 1`).
   */
  function KeyTiles(table: map<int, RowRange>, keys: seq<int>, z: TileZoomLevel, imageSize: Size): seq<Tile>
    requires forall k :: k in keys ==> k in table
  {
    if |keys| == 0 then []
    else
      var x := keys[0];
      if x < 0 || x >= z.columns then []
      else (ColumnTiles(x, MaxInt(table[x].minY, 0), MinInt(table[x].maxY, z.rows - 1), z, imageSize)
        + KeyTiles(table, keys[1..], z, imageSize))
  }

  /**
   * `tilesByColumnToTiles`: visit the columns in `for..in` order, stop at the first one outside the
   * grid, and append the tiles of each column between its clamped lowest and highest row.
   */
  method TilesByColumnToTiles(table: map<int, RowRange>, z: TileZoomLevel, imageSize: Size) returns (tiles: seq<Tile>)
    ensures tiles == KeyTiles(table, ForInKeys(table), z, imageSize)
  {
    var keys := ForInKeys(table);
    ForInKeysMembers(table);
    tiles := KeysToTiles(table, keys, z, imageSize);
  }

  /** The loop of `tilesByColumnToTiles` over the keys `keys` of the table. */
  method KeysToTiles(table: map<int, RowRange>, keys: seq<int>, z: TileZoomLevel, imageSize: Size) returns (tiles: seq<Tile>)
    requires forall k :: k in keys ==> k in table
    ensures tiles == KeyTiles(table, keys, z, imageSize)
  {
    tiles := [];
    var i := 0;
    while i < |keys|
      invariant 0 <= i <= |keys|
      invariant tiles + KeyTiles(table, keys[i..], z, imageSize) == KeyTiles(table, keys, z, imageSize)
    {
      var x := keys[i];
      if x < 0 || x >= z.columns {
        KeyTilesUnfold(table, keys, i, z, imageSize);
        break;
      }
      var fromY := MaxInt(table[x].minY, 0);
      var toY := MinInt(table[x].maxY, z.rows - 1);
      KeyTilesUnfold(table, keys, i, z, imageSize);
      AppendAssociates(tiles, ColumnTiles(x, fromY, toY, z, imageSize), KeyTiles(table, keys[i + 1..], z, imageSize));
      tiles := AppendColumn(tiles, x, fromY, toY, z, imageSize);
      i := i + 1;
    }
    if i == |keys| {
      assert keys[i..] == [];
    }
  }

  /** The tiles from key `i` on: none at a key outside the grid, else that column's and the rest. */
  lemma KeyTilesUnfold(table: map<int, RowRange>, keys: seq<int>, i: nat, z: TileZoomLevel, imageSize: Size)
    requires forall k :: k in keys ==> k in table
    requires i < |keys|
    ensures keys[i] < 0 || keys[i] >= z.columns ==> KeyTiles(table, keys[i..], z, imageSize) == []
    ensures 0 <= keys[i] < z.columns ==>
      KeyTiles(table, keys[i..], z, imageSize) ==
        ColumnTiles(keys[i], MaxInt(table[keys[i]].minY, 0), MinInt(table[keys[i]].maxY, z.rows - 1), z, imageSize)
        + KeyTiles(table, keys[i + 1..], z, imageSize)
  {
    assert keys[i..][1..] == keys[i + 1..];
  }

  /**
   * Once the keys are in `for..in` order, the tiles are exactly those of the table's columns inside
   * the grid, each between its column's clamped rows.
   */
  lemma {:induction false} KeyTilesMembers(table: map<int, RowRange>, keys: seq<int>, z: TileZoomLevel, imageSize: Size)
    requires forall k :: k in keys ==> k in table
    requires ForInOrder(keys)
    decreases |keys|
    ensures forall t :: t in KeyTiles(table, keys, z, imageSize) <==>
      && t.column in keys && 0 <= t.column < z.columns
      && MaxInt(table[t.column].minY, 0) <= t.row <= MinInt(table[t.column].maxY, z.rows - 1)
      && t.tileZoomLevel == z && t.imageSize == imageSize
  {
    if |keys| > 0 {
      var x := keys[0];
      if x < 0 || x >= z.columns {
        forall k | k in keys
          ensures k < 0 || k >= z.columns
        {
          var j :| 0 <= j < |keys| && keys[j] == k;
          if j > 0 && k >= 0 {
            assert 0 <= keys[0] < keys[j];
          }
        }
      } else {
        var tail := keys[1..];
        TailInOrder(keys);
        KeyTilesMembers(table, tail, z, imageSize);
        var fromY, toY := MaxInt(table[x].minY, 0), MinInt(table[x].maxY, z.rows - 1);
        ColumnTilesMembers(x, fromY, toY, z, imageSize);
        assert keys == [x] + tail;
        assert KeyTiles(table, keys, z, imageSize) == ColumnTiles(x, fromY, toY, z, imageSize) + KeyTiles(table, tail, z, imageSize);
      }
    }
  }

  lemma TailInOrder(keys: seq<int>)
    requires |keys| > 0 && ForInOrder(keys)
    ensures ForInOrder(keys[1..])
  {
    var tail := keys[1..];
    forall i, j | 0 <= i < j < |tail| && tail[j] >= 0
      ensures 0 <= tail[i] < tail[j]
    {
      assert tail[i] == keys[i + 1] && tail[j] == keys[j + 1];
    }
  }

  /** The tiles come in column-major order, so no tile comes twice. */
  lemma {:induction false} KeyTilesInOrder(table: map<int, RowRange>, keys: seq<int>, z: TileZoomLevel, imageSize: Size)
    requires forall k :: k in keys ==> k in table
    requires ForInOrder(keys)
    decreases |keys|
    ensures forall i, j :: 0 <= i < j < |KeyTiles(table, keys, z, imageSize)| ==>
      Before(KeyTiles(table, keys, z, imageSize)[i], KeyTiles(table, keys, z, imageSize)[j])
  {
    if |keys| > 0 && 0 <= keys[0] < z.columns {
      var x := keys[0];
      var tail := keys[1..];
      TailInOrder(keys);
      KeyTilesInOrder(table, tail, z, imageSize);
      KeyTilesMembers(table, tail, z, imageSize);
      var fromY, toY := MaxInt(table[x].minY, 0), MinInt(table[x].maxY, z.rows - 1);
      ColumnTilesMembers(x, fromY, toY, z, imageSize);
      var head := ColumnTiles(x, fromY, toY, z, imageSize);
      var rest := KeyTiles(table, tail, z, imageSize);
      forall t | t in rest
        ensures x < t.column
      {
        var j :| 0 <= j < |tail| && tail[j] == t.column;
        assert keys[j + 1] == t.column;
      }
      var all := head + rest;
      assert KeyTiles(table, keys, z, imageSize) == all;
      forall i, j | 0 <= i < j < |all|
        ensures Before(all[i], all[j])
      {
        if j < |head| {
          assert all[i] == head[i] && all[j] == head[j];
        } else if i < |head| {
          assert all[i] in head && all[j] in rest;
        } else {
          assert all[i] == rest[i - |head|] && all[j] == rest[j - |head|];
        }
      }
    }
  }

  /** The keys after the first negative one do not matter, so neither does their order. */
  lemma {:induction false} KeyTilesStopAtNegative(table: map<int, RowRange>, keys: seq<int>, negative: seq<int>, z: TileZoomLevel, imageSize: Size)
    requires forall k :: k in keys + negative ==> k in table
    requires |negative| > 0 && negative[0] < 0
    decreases |keys|
    ensures KeyTiles(table, keys + negative, z, imageSize) == KeyTiles(table, keys + [negative[0]], z, imageSize)
  {
    if |keys| > 0 {
      assert (keys + negative)[1..] == keys[1..] + negative;
      assert (keys + [negative[0]])[1..] == keys[1..] + [negative[0]];
      KeyTilesStopAtNegative(table, keys[1..], negative, z, imageSize);
    }
  }

  // Scaling the ring to the grid (`scaleResourcePoints`)

  /** Each point divided by the resource size of a tile: one unit of the result is one tile. */
  function ScaleResourcePoints(points: seq<Point>, z: TileZoomLevel): (r: seq<Point>)
    requires z.originalWidth != 0.0 && z.originalHeight != 0.0
    ensures |r| == |points|
    ensures forall i :: 0 <= i < |r| ==> r[i].x * z.originalWidth == points[i].x && r[i].y * z.originalHeight == points[i].y
  {
    seq(|points|, i requires 0 <= i < |points| => Point(points[i].x / z.originalWidth, points[i].y / z.originalHeight))
  }

  /** The cell of a scaled point is the tile whose resource extent holds the point. */
  lemma ScaledCellIsTile(points: seq<Point>, i: nat, z: TileZoomLevel, imageSize: Size)
    requires z.originalWidth > 0.0 && z.originalHeight > 0.0 && i < |points|
    ensures var q := ScaleResourcePoints(points, z)[i];
      var tile := Tile(Floor(q.x), Floor(q.y), z, imageSize);
      && TilePosition(tile).x <= points[i].x < TilePosition(tile).x + z.originalWidth
      && TilePosition(tile).y <= points[i].y < TilePosition(tile).y + z.originalHeight
  {
    var q := ScaleResourcePoints(points, z)[i];
    FloorScaled(q.x, z.originalWidth, points[i].x);
    FloorScaled(q.y, z.originalHeight, points[i].y);
  }

  lemma FloorScaled(v: real, k: real, p: real)
    requires k > 0.0 && v * k == p
    ensures Floor(v) as real * k <= p < Floor(v) as real * k + k
  {
    var f := Floor(v) as real;
    ScaleLe(f, v, k);
    ScaleLt(v, f + 1.0, k);
    assert v * k < (f + 1.0) * k;
    assert (f + 1.0) * k == f * k + k;
    assert p < f * k + k;
  }

  // Sorting by distance (`tiles.sort`)

  /** `distanceTileToPoint`: the distance from the tile's center to the point; `distance` is a parameter. */
  function DistanceTileToPoint(tile: Tile, point: Point, distance: (Point, Point) -> real): real
  {
    distance(TileCenter(tile), point)
  }

  predicate SortedBy<T>(s: seq<T>, key: T -> real)
  {
    forall i, j :: 0 <= i < j < |s| ==> key(s[i]) <= key(s[j])
  }

  /** Insert `x` after the elements whose key is at most its own. */
  function InsertBy<T>(x: T, s: seq<T>, key: T -> real): seq<T>
  {
    if |s| == 0 then [x]
    else if key(x) < key(s[0]) then [x] + s
    else [s[0]] + InsertBy(x, s[1..], key)
  }

  /** A stable sort by key, as `Array.prototype.sort` with the comparator `key(a) - key(b)`. */
  function SortBy<T>(s: seq<T>, key: T -> real): seq<T>
  {
    if |s| == 0 then [] else InsertBy(s[|s| - 1], SortBy(s[..|s| - 1], key), key)
  }

  lemma {:induction false} InsertByPermutes<T>(x: T, s: seq<T>, key: T -> real)
    decreases |s|
    ensures multiset(InsertBy(x, s, key)) == multiset(s) + multiset{x}
  {
    if |s| > 0 && key(x) >= key(s[0]) {
      InsertByPermutes(x, s[1..], key);
      assert s == [s[0]] + s[1..];
    }
  }

  /** Inserting keeps a lower bound that `x` and every element of `s` respect. */
  lemma {:induction false} InsertByKeepsBound<T>(x: T, s: seq<T>, key: T -> real, b: real)
    requires b <= key(x) && forall i :: 0 <= i < |s| ==> b <= key(s[i])
    decreases |s|
    ensures forall i :: 0 <= i < |InsertBy(x, s, key)| ==> b <= key(InsertBy(x, s, key)[i])
  {
    if |s| > 0 && key(x) >= key(s[0]) {
      var tail := s[1..];
      assert forall i :: 0 <= i < |tail| ==> tail[i] == s[i + 1];
      InsertByKeepsBound(x, tail, key, b);
      var r := [s[0]] + InsertBy(x, tail, key);
      assert forall i :: 0 < i < |r| ==> r[i] == InsertBy(x, tail, key)[i - 1];
    }
  }

  lemma {:induction false} InsertByKeepsOrder<T>(x: T, s: seq<T>, key: T -> real)
    requires SortedBy(s, key)
    decreases |s|
    ensures SortedBy(InsertBy(x, s, key), key)
  {
    if |s| > 0 && key(x) >= key(s[0]) {
      var tail := s[1..];
      assert forall i :: 0 <= i < |tail| ==> tail[i] == s[i + 1];
      InsertByKeepsOrder(x, tail, key);
      InsertByKeepsBound(x, tail, key, key(s[0]));
      var inserted := InsertBy(x, tail, key);
      var r := [s[0]] + inserted;
      forall i, j | 0 <= i < j < |r|
        ensures key(r[i]) <= key(r[j])
      {
        assert r[j] == inserted[j - 1];
        if i > 0 {
          assert r[i] == inserted[i - 1];
        }
      }
    } else if |s| > 0 {
      var r := [x] + s;
      forall i, j | 0 <= i < j < |r|
        ensures key(r[i]) <= key(r[j])
      {
        assert r[j] == s[j - 1];
        if i > 0 {
          assert r[i] == s[i - 1];
        } else {
          assert key(s[0]) <= key(s[j - 1]);
        }
      }
    }
  }

  /** The sorted sequence is in key order and holds the same elements as many times each. */
  lemma {:induction false} SortBySortsAndPermutes<T>(s: seq<T>, key: T -> real)
    decreases |s|
    ensures SortedBy(SortBy(s, key), key)
    ensures multiset(SortBy(s, key)) == multiset(s)
  {
    if |s| > 0 {
      var init := s[..|s| - 1];
      SortBySortsAndPermutes(init, key);
      InsertByKeepsOrder(s[|s| - 1], SortBy(init, key), key);
      InsertByPermutes(s[|s| - 1], SortBy(init, key), key);
      assert s == init + [s[|s| - 1]];
    }
  }

  predicate Distinct<T(==)>(s: seq<T>)
  {
    forall i, j :: 0 <= i < j < |s| ==> s[i] != s[j]
  }

  /** A sequence has no element twice exactly when its multiset counts every element at most once. */
  lemma {:induction false} DistinctIffSingleCounts<T>(s: seq<T>)
    decreases |s|
    ensures Distinct(s) <==> forall x :: multiset(s)[x] <= 1
  {
    if |s| > 0 {
      var h, t := s[0], s[1..];
      assert s == [h] + t;
      DistinctIffSingleCounts(t);
      if Distinct(s) {
        forall i, j | 0 <= i < j < |t|
          ensures t[i] != t[j]
        {
          assert t[i] == s[i + 1] && t[j] == s[j + 1];
        }
        forall m | 0 <= m < |t|
          ensures t[m] != h
        {
          assert t[m] == s[m + 1];
        }
        assert h !in multiset(t);
      } else {
        var i, j :| 0 <= i < j < |s| && s[i] == s[j];
        if i == 0 {
          assert s[j] == t[j - 1];
          assert multiset(s)[h] >= 2;
        } else {
          assert t[i - 1] == t[j - 1];
          var x :| multiset(t)[x] > 1;
          assert multiset(s)[x] >= multiset(t)[x];
        }
      }
    }
  }

  /** Sorting neither adds nor drops an element, nor makes a sequence without repeats repeat one. */
  lemma SortByKeepsElements<T>(s: seq<T>, key: T -> real)
    ensures forall t :: t in SortBy(s, key) <==> t in s
    ensures Distinct(s) ==> Distinct(SortBy(s, key))
  {
    SortBySortsAndPermutes(s, key);
    var sorted := SortBy(s, key);
    forall t
      ensures t in sorted <==> t in s
    {
      assert t in sorted <==> t in multiset(sorted);
      assert t in s <==> t in multiset(s);
    }
    DistinctIffSingleCounts(s);
    DistinctIffSingleCounts(sorted);
  }

  // Putting it together (`computeTilesCoveringRingAtTileZoomLevel`)

  /** The tiles of the columns the scaled ring passes through, in the order the columns are visited. */
  function ColumnOrderTiles(ring: seq<Point>, z: TileZoomLevel, imageSize: Size): seq<Tile>
    requires z.originalWidth != 0.0 && z.originalHeight != 0.0
  {
    var table := TableOf(RingCells(ScaleResourcePoints(ring, z)));
    KeyTiles(table, ForInKeys(table), z, imageSize)
  }

  /**
   * The tiles covering a ring: those of the columns the scaled ring passes through, inside the grid,
   * between the lowest and the highest row it touches there; sorted by the distance of their
   * centers to the center of the ring's bounding box when the ring has points.
   */
  function CoveringTiles(ring: seq<Point>, z: TileZoomLevel, imageSize: Size, distance: (Point, Point) -> real): seq<Tile>
    requires z.originalWidth != 0.0 && z.originalHeight != 0.0
  {
    var tiles := ColumnOrderTiles(ring, z, imageSize);
    if |ring| == 0 then tiles
    else
      var center := BboxToCenter(BboxOf(ring));
      SortBy(tiles, t => DistanceTileToPoint(t, center, distance))
  }

  /**
   * `computeTilesCoveringRingAtTileZoomLevel`: scale the ring, collect the rows by column, fill in
   * the columns, and sort by distance to the center of the ring's bounding box.
   */
  method ComputeTilesCoveringRingAtTileZoomLevel(resourceRing: seq<Point>, z: TileZoomLevel, imageSize: Size,
                                                 distance: (Point, Point) -> real) returns (tiles: seq<Tile>)
    requires z.originalWidth != 0.0 && z.originalHeight != 0.0
    ensures tiles == CoveringTiles(resourceRing, z, imageSize, distance)
  {
    var scaledResourceRing := ScaleResourcePoints(resourceRing, z);
    var tilesByColumn := RingToTilesByColumn(scaledResourceRing);
    tiles := TilesByColumnToTiles(tilesByColumn, z, imageSize);
    var bbox := ComputeBbox(resourceRing);
    if bbox.minX.Fin? {
      // With no points the box is infinite and there are no tiles to sort.
      var center := BboxToCenter(Bbox(bbox.minX.r, bbox.minY.r, bbox.maxX.r, bbox.maxY.r));
      assert Bbox(bbox.minX.r, bbox.minY.r, bbox.maxX.r, bbox.maxY.r) == BboxOf(resourceRing);
      tiles := SortBy(tiles, t => DistanceTileToPoint(t, center, distance));
    }
  }

  /**
   * A tile of zoom level `z` inside the grid whose column holds two of the cells, one at or above
   * its row and one at or below it.
   */
  predicate Spans(cells: seq<Cell>, t: Tile, z: TileZoomLevel, imageSize: Size)
  {
    && t.tileZoomLevel == z && t.imageSize == imageSize
    && 0 <= t.column < z.columns && 0 <= t.row < z.rows
    && exists c0, c1 :: c0 in cells && c1 in cells && c0.x == t.column == c1.x && c0.y <= t.row <= c1.y
  }

  /** The column-ordered tiles are exactly the tiles the scaled ring's cells span. */
  lemma ColumnOrderTilesMembers(ring: seq<Point>, z: TileZoomLevel, imageSize: Size)
    requires z.originalWidth != 0.0 && z.originalHeight != 0.0
    ensures forall t :: t in ColumnOrderTiles(ring, z, imageSize) <==> Spans(RingCells(ScaleResourcePoints(ring, z)), t, z, imageSize)
  {
    var cells := RingCells(ScaleResourcePoints(ring, z));
    CellTableTilesSpan(cells, z, imageSize);
    CellTableTilesComplete(cells, z, imageSize);
  }

  lemma CellTableTilesSpan(cells: seq<Cell>, z: TileZoomLevel, imageSize: Size)
    ensures forall t :: t in KeyTiles(TableOf(cells), ForInKeys(TableOf(cells)), z, imageSize) ==> Spans(cells, t, z, imageSize)
  {
    var table := TableOf(cells);
    TableOfRanges(cells);
    ForInKeysOrdered(table);
    KeyTilesMembers(table, ForInKeys(table), z, imageSize);
    forall t | t in KeyTiles(table, ForInKeys(table), z, imageSize)
      ensures Spans(cells, t, z, imageSize)
    {
      var range := table[t.column];
      assert Cell(t.column, range.minY) in cells && Cell(t.column, range.maxY) in cells;
    }
  }

  lemma CellTableTilesComplete(cells: seq<Cell>, z: TileZoomLevel, imageSize: Size)
    ensures forall t :: Spans(cells, t, z, imageSize) ==> t in KeyTiles(TableOf(cells), ForInKeys(TableOf(cells)), z, imageSize)
  {
    var table := TableOf(cells);
    TableOfRanges(cells);
    ForInKeysOrdered(table);
    KeyTilesMembers(table, ForInKeys(table), z, imageSize);
    forall t | Spans(cells, t, z, imageSize)
      ensures t in KeyTiles(table, ForInKeys(table), z, imageSize)
    {
      var c0, c1 :| c0 in cells && c1 in cells && c0.x == t.column == c1.x && c0.y <= t.row <= c1.y;
      assert table[t.column].minY <= c0.y && c1.y <= table[t.column].maxY;
    }
  }

  lemma ColumnOrderTilesDistinct(ring: seq<Point>, z: TileZoomLevel, imageSize: Size)
    requires z.originalWidth != 0.0 && z.originalHeight != 0.0
    ensures Distinct(ColumnOrderTiles(ring, z, imageSize))
  {
    var table := TableOf(RingCells(ScaleResourcePoints(ring, z)));
    var keys := ForInKeys(table);
    var tiles := KeyTiles(table, keys, z, imageSize);
    ForInKeysOrdered(table);
    KeyTilesInOrder(table, keys, z, imageSize);
    forall i, j | 0 <= i < j < |tiles|
      ensures tiles[i] != tiles[j]
    {
      assert Before(tiles[i], tiles[j]);
    }
  }

  /**
   * A tile covers the ring exactly when it is a tile of the zoom level inside the grid and its
   * column holds two cells of the scaled ring, one at or above its row and one at or below it. So
   * every grid cell the ring passes through is covered, no tile comes twice, and the tiles come
   * nearest first.
   */
  lemma CoveringTilesProperties(ring: seq<Point>, z: TileZoomLevel, imageSize: Size, distance: (Point, Point) -> real)
    requires z.originalWidth != 0.0 && z.originalHeight != 0.0
    ensures forall t :: t in CoveringTiles(ring, z, imageSize, distance) <==> Spans(RingCells(ScaleResourcePoints(ring, z)), t, z, imageSize)
    ensures Distinct(CoveringTiles(ring, z, imageSize, distance))
    ensures |ring| > 0 ==>
      var center := BboxToCenter(BboxOf(ring));
      SortedBy(CoveringTiles(ring, z, imageSize, distance), t => DistanceTileToPoint(t, center, distance))
  {
    ColumnOrderTilesMembers(ring, z, imageSize);
    ColumnOrderTilesDistinct(ring, z, imageSize);
    if |ring| > 0 {
      var center := BboxToCenter(BboxOf(ring));
      var key := t => DistanceTileToPoint(t, center, distance);
      SortBySortsAndPermutes(ColumnOrderTiles(ring, z, imageSize), key);
      SortByKeepsElements(ColumnOrderTiles(ring, z, imageSize), key);
    }
  }
}
