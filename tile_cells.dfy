/**
 * The cells of the tile grid that a line passes through (`pointsIntersectingLine`): a walk from
 * the cell of one end to the cell of the other, one neighbouring cell at a time, with the step
 * rule corrected and as written, and what the loop as written does when it ends and when it does not.
 */
module TileCells {
  import opened Wrappers
  import opened Geometry
  import opened BoundingBox
  import opened Tiles

  /** A cell of the scaled grid: the column and the row of a tile. */
  datatype Cell = Cell(x: int, y: int)

  /** What stays fixed while a line is walked: the end cell, the step on each axis, and the `t` per cell. */
  datatype LineWalk = LineWalk(endX: int, endY: int, stepX: int, stepY: int, tDeltaX: JsNum, tDeltaY: JsNum)

  /** The walk's current cell and the `t` at which the line leaves it on each axis. */
  datatype WalkState = WalkState(x: int, y: int, tMaxX: JsNum, tMaxY: JsNum)

  function AbsInt(n: int): nat
  {
    if n < 0 then -n else n
  }

  // Walking a line (`pointsIntersectingLine`)

  /** The fixed part of the walk from `a` to `b`. */
  function Setup(a: Point, b: Point): LineWalk
  {
    var vX := Abs(a.x - b.x);
    var vY := Abs(a.y - b.y);
    LineWalk(Floor(b.x), Floor(b.y), Sign(b.x - a.x), Sign(b.y - a.y), JsDiv(1.0, vX), JsDiv(1.0, vY))
  }

  /** The first state of the walk from `a` to `b`: the cell of `a`, and `t` at its first cell borders. */
  function InitialState(a: Point, b: Point): WalkState
  {
    var x := Floor(a.x);
    var y := Floor(a.y);
    var toX := Abs(a.x - x as real - MaxReal(0.0, Sign(b.x - a.x) as real));
    var toY := Abs(a.y - y as real - MaxReal(0.0, Sign(b.y - a.y) as real));
    WalkState(x, y, JsDiv(toX, Abs(a.x - b.x)), JsDiv(toY, Abs(a.y - b.y)))
  }

  predicate AtEnd(w: LineWalk, s: WalkState)
  {
    s.x == w.endX && s.y == w.endY
  }

  /** Each axis is either done or its step points towards the end cell. */
  predicate Heading(w: LineWalk, s: WalkState)
  {
    && (s.x < w.endX ==> w.stepX == 1) && (s.x > w.endX ==> w.stepX == -1)
    && (s.y < w.endY ==> w.stepY == 1) && (s.y > w.endY ==> w.stepY == -1)
  }

  /** Two cells that share a side. */
  predicate Adjacent(c0: Cell, c1: Cell)
  {
    AbsInt(c1.x - c0.x) + AbsInt(c1.y - c0.y) == 1
  }

  /** Consecutive cells share a side. */
  predicate Connected(cells: seq<Cell>)
  {
    forall i :: 0 <= i < |cells| - 1 ==> Adjacent(cells[i], cells[i + 1])
  }

  /** Cells still to walk. */
  function Distance(w: LineWalk, s: WalkState): nat
  {
    AbsInt(w.endX - s.x) + AbsInt(w.endY - s.y)
  }

  /** The walk starts heading towards the end: different cells on an axis mean the step points the right way. */
  lemma InitialHeading(a: Point, b: Point)
    ensures Heading(Setup(a, b), InitialState(a, b))
  {
  }

  /**
   * One step of the walk: along x while x has not reached its end and either y has or the line
   * leaves the cell through its x border first; along y otherwise. Each step moves one cell closer.
   */
  function CorrectedStep(w: LineWalk, s: WalkState): (r: WalkState)
    requires Heading(w, s) && !AtEnd(w, s)
    ensures Heading(w, r) && Distance(w, r) + 1 == Distance(w, s)
  {
    if s.x != w.endX && (s.y == w.endY || JsLess(s.tMaxX, s.tMaxY)) then
      WalkState(s.x + w.stepX, s.y, JsAdd(s.tMaxX, w.tDeltaX), s.tMaxY)
    else
      WalkState(s.x, s.y + w.stepY, s.tMaxX, JsAdd(s.tMaxY, w.tDeltaY))
  }

  /** A step moves to a neighbouring cell, inside the rectangle spanned by the current and the end cell. */
  lemma StepMoves(w: LineWalk, s: WalkState)
    requires Heading(w, s) && !AtEnd(w, s)
    ensures var r := CorrectedStep(w, s);
      && Adjacent(Cell(s.x, s.y), Cell(r.x, r.y))
      && MinInt(s.x, w.endX) <= r.x <= MaxInt(s.x, w.endX) && MinInt(s.y, w.endY) <= r.y <= MaxInt(s.y, w.endY)
  {
  }

  /** The cells after `s` up to and including the end cell. */
  function Walk(w: LineWalk, s: WalkState): (r: seq<Cell>)
    requires Heading(w, s)
    decreases Distance(w, s)
    ensures |r| == Distance(w, s)
    ensures |r| > 0 ==> r[|r| - 1] == Cell(w.endX, w.endY)
  {
    if AtEnd(w, s) then []
    else
      var next := CorrectedStep(w, s);
      [Cell(next.x, next.y)] + Walk(w, next)
  }

  /** The cells the line from `a` to `b` passes through, from the cell of `a` to the cell of `b`. */
  function LineCells(a: Point, b: Point): (r: seq<Cell>)
    ensures |r| == 1 + AbsInt(Floor(b.x) - Floor(a.x)) + AbsInt(Floor(b.y) - Floor(a.y))
    ensures r[0] == Cell(Floor(a.x), Floor(a.y)) && r[|r| - 1] == Cell(Floor(b.x), Floor(b.y))
  {
    InitialHeading(a, b);
    [Cell(Floor(a.x), Floor(a.y))] + Walk(Setup(a, b), InitialState(a, b))
  }

  /**
   * `pointsIntersectingLine`, with the step rule corrected (see `PointsIntersectingLineAsWritten`):
   * a grid traversal from the cell of `a` to the cell of `b`.
   */
  method PointsIntersectingLine(a: Point, b: Point) returns (points: seq<Cell>)
    ensures points == LineCells(a, b)
  {
    var x := Floor(a.x);
    var y := Floor(a.y);
    var endX := Floor(b.x);
    var endY := Floor(b.y);
    points := [Cell(x, y)];
    if x == endX && y == endY {
      return;
    }
    var stepX := Sign(b.x - a.x);
    var stepY := Sign(b.y - a.y);
    var toX := Abs(a.x - x as real - MaxReal(0.0, stepX as real));
    var toY := Abs(a.y - y as real - MaxReal(0.0, stepY as real));
    var vX := Abs(a.x - b.x);
    var vY := Abs(a.y - b.y);
    var tMaxX := JsDiv(toX, vX);
    var tMaxY := JsDiv(toY, vY);
    var tDeltaX := JsDiv(1.0, vX);
    var tDeltaY := JsDiv(1.0, vY);
    var w := LineWalk(endX, endY, stepX, stepY, tDeltaX, tDeltaY);
    var s := WalkState(x, y, tMaxX, tMaxY);
    assert w == Setup(a, b) && s == InitialState(a, b);
    InitialHeading(a, b);
    var rest := WalkLoop(w, s);
    points := points + rest;
  }

  /** The loop of `pointsIntersectingLine`: step and record the cell until the end cell is reached. */
  method WalkLoop(w: LineWalk, s: WalkState) returns (points: seq<Cell>)
    requires Heading(w, s)
    ensures points == Walk(w, s)
  {
    var x, y, tMaxX, tMaxY := s.x, s.y, s.tMaxX, s.tMaxY;
    points := [];
    while !(x == w.endX && y == w.endY)
      invariant Heading(w, WalkState(x, y, tMaxX, tMaxY))
      invariant points + Walk(w, WalkState(x, y, tMaxX, tMaxY)) == Walk(w, s)
      decreases Distance(w, WalkState(x, y, tMaxX, tMaxY))
    {
      ghost var current := WalkState(x, y, tMaxX, tMaxY);
      WalkUnfolds(w, current);
      x, y, tMaxX, tMaxY := StepCell(w, x, y, tMaxX, tMaxY);
      AppendAssociates(points, [Cell(x, y)], Walk(w, WalkState(x, y, tMaxX, tMaxY)));
      points := points + [Cell(x, y)];
    }
  }

  /** One pass of the loop of `pointsIntersectingLine`: the step along x or along y. */
  method StepCell(w: LineWalk, x: int, y: int, tMaxX: JsNum, tMaxY: JsNum) returns (x': int, y': int, tMaxX': JsNum, tMaxY': JsNum)
    requires Heading(w, WalkState(x, y, tMaxX, tMaxY)) && !AtEnd(w, WalkState(x, y, tMaxX, tMaxY))
    ensures WalkState(x', y', tMaxX', tMaxY') == CorrectedStep(w, WalkState(x, y, tMaxX, tMaxY))
  {
    x', y', tMaxX', tMaxY' := x, y, tMaxX, tMaxY;
    if x != w.endX && (y == w.endY || JsLess(tMaxX, tMaxY)) {
      tMaxX' := JsAdd(tMaxX, w.tDeltaX);
      x' := x + w.stepX;
    } else {
      tMaxY' := JsAdd(tMaxY, w.tDeltaY);
      y' := y + w.stepY;
    }
  }

  lemma WalkUnfolds(w: LineWalk, s: WalkState)
    requires Heading(w, s) && !AtEnd(w, s)
    ensures var next := CorrectedStep(w, s); Walk(w, s) == [Cell(next.x, next.y)] + Walk(w, next)
  {
  }

  lemma {:induction false} WalkSteps(w: LineWalk, s: WalkState)
    requires Heading(w, s)
    decreases Distance(w, s)
    ensures Connected([Cell(s.x, s.y)] + Walk(w, s))
    ensures forall c :: c in Walk(w, s) ==>
      MinInt(s.x, w.endX) <= c.x <= MaxInt(s.x, w.endX) && MinInt(s.y, w.endY) <= c.y <= MaxInt(s.y, w.endY)
  {
    if !AtEnd(w, s) {
      var next := CorrectedStep(w, s);
      StepMoves(w, s);
      WalkSteps(w, next);
      var r := [Cell(s.x, s.y)] + Walk(w, s);
      var rest := [Cell(next.x, next.y)] + Walk(w, next);
      assert r == [Cell(s.x, s.y)] + rest;
      forall i | 0 <= i < |r| - 1
        ensures Adjacent(r[i], r[i + 1])
      {
        if i > 0 {
          assert r[i] == rest[i - 1] && r[i + 1] == rest[i];
        } else {
          assert r[0] == Cell(s.x, s.y) && r[1] == rest[0] == Cell(next.x, next.y);
        }
      }
    }
  }

  /**
   * The cells of a line form a path of neighbouring cells from the cell of `a` to the cell of `b`
   * inside the rectangle those two cells span.
   */
  lemma LineCellsConnected(a: Point, b: Point)
    ensures Connected(LineCells(a, b))
    ensures forall c :: c in LineCells(a, b) ==>
      && MinInt(Floor(a.x), Floor(b.x)) <= c.x <= MaxInt(Floor(a.x), Floor(b.x))
      && MinInt(Floor(a.y), Floor(b.y)) <= c.y <= MaxInt(Floor(a.y), Floor(b.y))
  {
    var w, s := Setup(a, b), InitialState(a, b);
    InitialHeading(a, b);
    WalkSteps(w, s);
    assert s.x == Floor(a.x) && s.y == Floor(a.y) && w.endX == Floor(b.x) && w.endY == Floor(b.y);
    assert LineCells(a, b) == [Cell(s.x, s.y)] + Walk(w, s);
  }

  lemma AppendAssociates<T>(s0: seq<T>, s1: seq<T>, s2: seq<T>)
    ensures s0 + (s1 + s2) == (s0 + s1) + s2
  {
  }

  /** A walk one cell from its end steps into the end cell. */
  lemma OneStepWalk(w: LineWalk, s: WalkState)
    requires Heading(w, s) && Distance(w, s) == 1
    ensures Walk(w, s) == [Cell(w.endX, w.endY)]
  {
  }

  /** A walk two cells from its end steps into one cell and then into the end cell. */
  lemma TwoStepWalk(w: LineWalk, s: WalkState)
    requires Heading(w, s) && Distance(w, s) == 2
    ensures var next := CorrectedStep(w, s); Walk(w, s) == [Cell(next.x, next.y), Cell(w.endX, w.endY)]
  {
    WalkUnfolds(w, s);
  }

  lemma DisplayOfTwo<T>(c0: T, c1: T)
    ensures [c0] + [c1] == [c0, c1]
  {
  }

  lemma DisplayOfThree<T>(c0: T, c1: T, c2: T)
    ensures [c0] + [c1, c2] == [c0, c1, c2]
  {
  }

  // The walk as written

  /**
   * The step of `pointsIntersectingLine` as written: along x exactly when `tMaxX < tMaxY`,
   * whether or not x has reached its end.
   */
  function AsWrittenStep(w: LineWalk, s: WalkState): WalkState
  {
    if JsLess(s.tMaxX, s.tMaxY) then WalkState(s.x + w.stepX, s.y, JsAdd(s.tMaxX, w.tDeltaX), s.tMaxY)
    else WalkState(s.x, s.y + w.stepY, s.tMaxX, JsAdd(s.tMaxY, w.tDeltaY))
  }

  /** Away from the end row and the end column, the two step rules agree. */
  lemma StepsAgreeOffEndLines(w: LineWalk, s: WalkState)
    requires Heading(w, s) && s.x != w.endX && s.y != w.endY
    ensures AsWrittenStep(w, s) == CorrectedStep(w, s)
  {
  }

  /** The as-written loop run for at most `fuel` steps: `None` when it has not reached the end cell by then. */
  function AsWrittenWalk(w: LineWalk, s: WalkState, fuel: nat): Option<seq<Cell>>
    decreases fuel
  {
    if AtEnd(w, s) then Some([])
    else if fuel == 0 then None
    else
      var next := AsWrittenStep(w, s);
      match AsWrittenWalk(w, next, fuel - 1)
      case Some(rest) => Some([Cell(next.x, next.y)] + rest)
      case None => None
  }

  /** `pointsIntersectingLine` as written, with at most `fuel` loop iterations. */
  function PointsIntersectingLineAsWritten(a: Point, b: Point, fuel: nat): Option<seq<Cell>>
  {
    var first := Cell(Floor(a.x), Floor(a.y));
    if first == Cell(Floor(b.x), Floor(b.y)) then Some([first])
    else
      match AsWrittenWalk(Setup(a, b), InitialState(a, b), fuel)
      case Some(rest) => Some([first] + rest)
      case None => None
  }

  /** A walk whose `tMaxY` is `NaN` and that does not move in y never leaves its row. */
  lemma {:induction false} StuckInRow(w: LineWalk, s: WalkState, fuel: nat)
    requires w.stepY == 0 && s.tMaxY == NaN && s.x != w.endX
    decreases fuel
    ensures AsWrittenWalk(w, s, fuel) == None
  {
    if fuel > 0 {
      StuckInRow(w, AsWrittenStep(w, s), fuel - 1);
    }
  }

  /**
   * A horizontal edge on a grid line, from (0.5, 1) to (2.5, 1): `tMaxY` is `0 / 0`, so `tMaxX < tMaxY`
   * never holds, y steps by 0 for ever, and the loop never ends.
   */
  lemma HorizontalEdgeNeverEnds(a: Point, b: Point, fuel: nat)
    requires a == Point(0.5, 1.0) && b == Point(2.5, 1.0)
    ensures PointsIntersectingLineAsWritten(a, b, fuel) == None
  {
    HorizontalEdgeSetup(a, b);
    StuckInRow(Setup(a, b), InitialState(a, b), fuel);
  }

  /**
   * The same hang for every edge along a horizontal grid line that reaches another column, such
   * as the top edge (0, 0) to (2, 0) of a full image scaled to its own tiles.
   */
  lemma HorizontalGridEdgeNeverEnds(a: Point, b: Point, fuel: nat)
    requires a.y == b.y && a.y == Floor(a.y) as real && Floor(a.x) != Floor(b.x)
    ensures PointsIntersectingLineAsWritten(a, b, fuel) == None
  {
    assert Setup(a, b).stepY == 0;
    assert InitialState(a, b).tMaxY == NaN;
    StuckInRow(Setup(a, b), InitialState(a, b), fuel);
  }

  /** The corrected walk of the horizontal edge gives its three cells. */
  lemma HorizontalEdgeCells(a: Point, b: Point)
    requires a == Point(0.5, 1.0) && b == Point(2.5, 1.0)
    ensures LineCells(a, b) == [Cell(0, 1), Cell(1, 1), Cell(2, 1)]
  {
    HorizontalEdgeSetup(a, b);
    HorizontalEdgeWalk(Setup(a, b), InitialState(a, b));
    DisplayOfThree(Cell(0, 1), Cell(1, 1), Cell(2, 1));
  }

  lemma HorizontalEdgeSetup(a: Point, b: Point)
    requires a == Point(0.5, 1.0) && b == Point(2.5, 1.0)
    ensures Floor(a.x) == 0 && Floor(a.y) == 1 && Floor(b.x) == 2 && Floor(b.y) == 1
    ensures Setup(a, b) == LineWalk(2, 1, 1, 0, Num(0.5), Infinity)
    ensures InitialState(a, b) == WalkState(0, 1, Num(0.25), NaN)
  {
    assert Floor(a.x) == 0 && Floor(a.y) == 1 && Floor(b.x) == 2 && Floor(b.y) == 1;
  }

  /** The corrected walk of the horizontal edge: two steps right. */
  lemma HorizontalEdgeWalk(w: LineWalk, s: WalkState)
    requires w == LineWalk(2, 1, 1, 0, Num(0.5), Infinity) && s == WalkState(0, 1, Num(0.25), NaN)
    ensures Heading(w, s) && Walk(w, s) == [Cell(1, 1), Cell(2, 1)]
  {
    assert CorrectedStep(w, s) == WalkState(1, 1, Num(0.75), NaN);
    TwoStepWalk(w, s);
  }

  /** A walk that has gone past its end row and steps away from it, or not at all, never reaches the end. */
  lemma {:induction false} PastEndRow(w: LineWalk, s: WalkState, fuel: nat)
    requires (w.stepY <= 0 && s.y < w.endY) || (w.stepY >= 0 && s.y > w.endY)
    decreases fuel
    ensures AsWrittenWalk(w, s, fuel) == None
  {
    if fuel > 0 {
      PastEndRow(w, AsWrittenStep(w, s), fuel - 1);
    }
  }

  /** A walk that has gone past its end column, stepping away from it in x, never reaches the end. */
  lemma {:induction false} PastEndColumn(w: LineWalk, s: WalkState, fuel: nat)
    requires (w.stepX == -1 && s.x < w.endX) || (w.stepX == 1 && s.x > w.endX)
    decreases fuel
    ensures AsWrittenWalk(w, s, fuel) == None
  {
    if fuel > 0 {
      PastEndColumn(w, AsWrittenStep(w, s), fuel - 1);
    }
  }

  /**
   * The steps are signs, and the `t` values are numbers exactly on the axes the line moves along:
   * on an axis it does not move along, the distance is 0 and `1 / 0` and `toX / 0` are `Infinity` or `NaN`.
   */
  predicate Consistent(w: LineWalk, s: WalkState)
  {
    && -1 <= w.stepX <= 1 && -1 <= w.stepY <= 1
    && (w.stepX != 0 <==> w.tDeltaX.Num?) && (w.stepX != 0 <==> s.tMaxX.Num?)
    && (w.stepY != 0 <==> w.tDeltaY.Num?) && (w.stepY != 0 <==> s.tMaxY.Num?)
  }

  lemma InitialConsistent(a: Point, b: Point)
    ensures Consistent(Setup(a, b), InitialState(a, b))
  {
  }

  /**
   * Whenever the loop as written ends, it has walked the corrected walk: where the two step rules
   * differ, the step as written leaves the end column or the end row for good, or the walk sits in
   * the end row with `tMaxY` `NaN` and never steps in x again.
   */
  lemma {:induction false} AsWrittenAgrees(w: LineWalk, s: WalkState, fuel: nat)
    requires Heading(w, s) && Consistent(w, s)
    decreases fuel
    ensures AsWrittenWalk(w, s, fuel).Some? ==> AsWrittenWalk(w, s, fuel).value == Walk(w, s)
  {
    if !AtEnd(w, s) && fuel > 0 {
      var next := AsWrittenStep(w, s);
      if next == CorrectedStep(w, s) {
        AsWrittenAgrees(w, next, fuel - 1);
        WalkUnfolds(w, s);
      } else if JsLess(s.tMaxX, s.tMaxY) {
        PastEndColumn(w, next, fuel - 1);
      } else if w.stepY != 0 {
        PastEndRow(w, next, fuel - 1);
      } else {
        StuckInRow(w, s, fuel);
      }
    }
  }

  /** Whenever `pointsIntersectingLine` as written returns, it returns the cells of the corrected walk. */
  lemma AsWrittenEndsWithLineCells(a: Point, b: Point, fuel: nat)
    ensures PointsIntersectingLineAsWritten(a, b, fuel).Some? ==> PointsIntersectingLineAsWritten(a, b, fuel).value == LineCells(a, b)
  {
    InitialHeading(a, b);
    InitialConsistent(a, b);
    AsWrittenAgrees(Setup(a, b), InitialState(a, b), fuel);
  }

  /**
   * A line through a grid corner, from (0.5, 1.5) to (1, 1): `tMaxX == tMaxY`, so the first step
   * goes down to row 0, past the end row 1, and the loop never ends.
   */
  lemma CornerTieNeverEnds(a: Point, b: Point, fuel: nat)
    requires a == Point(0.5, 1.5) && b == Point(1.0, 1.0)
    ensures PointsIntersectingLineAsWritten(a, b, fuel) == None
  {
    CornerTieSetup(a, b);
    CornerTieAsWritten(Setup(a, b), InitialState(a, b), fuel);
  }

  /** The corrected walk through the corner steps right into the end cell. */
  lemma CornerTieCells(a: Point, b: Point)
    requires a == Point(0.5, 1.5) && b == Point(1.0, 1.0)
    ensures LineCells(a, b) == [Cell(0, 1), Cell(1, 1)]
  {
    CornerTieSetup(a, b);
    CornerTieWalk(Setup(a, b), InitialState(a, b));
    DisplayOfTwo(Cell(0, 1), Cell(1, 1));
  }

  lemma CornerTieSetup(a: Point, b: Point)
    requires a == Point(0.5, 1.5) && b == Point(1.0, 1.0)
    ensures Floor(a.x) == 0 && Floor(a.y) == 1 && Floor(b.x) == 1 && Floor(b.y) == 1
    ensures Setup(a, b) == LineWalk(1, 1, 1, -1, Num(2.0), Num(2.0))
    ensures InitialState(a, b) == WalkState(0, 1, Num(1.0), Num(1.0))
  {
    assert Floor(a.x) == 0 && Floor(a.y) == 1 && Floor(b.x) == 1 && Floor(b.y) == 1;
  }

  /** The as-written walk through the corner: one step down, past the end row. */
  lemma CornerTieAsWritten(w: LineWalk, s: WalkState, fuel: nat)
    requires w == LineWalk(1, 1, 1, -1, Num(2.0), Num(2.0)) && s == WalkState(0, 1, Num(1.0), Num(1.0))
    ensures AsWrittenWalk(w, s, fuel) == None
  {
    if fuel > 0 {
      assert AsWrittenStep(w, s) == WalkState(0, 0, Num(1.0), Num(3.0));
      PastEndRow(w, AsWrittenStep(w, s), fuel - 1);
    }
  }

  /** The corrected walk through the corner: one step right, into the end cell. */
  lemma CornerTieWalk(w: LineWalk, s: WalkState)
    requires w == LineWalk(1, 1, 1, -1, Num(2.0), Num(2.0)) && s == WalkState(0, 1, Num(1.0), Num(1.0))
    ensures Heading(w, s) && Walk(w, s) == [Cell(1, 1)]
  {
    OneStepWalk(w, s);
  }
}
