/** Bounding boxes of point lists: scanning, combining and converting them. */
module BoundingBox {
  import opened Geometry
  import opened Wrappers

  /** A bounding box `[minX, minY, maxX, maxY]`. */
  datatype Bbox = Bbox(minX: real, minY: real, maxX: real, maxY: real)

  /** A bounding box whose bounds may be infinite, as `computeBbox` returns for no points. */
  datatype ExtBbox = ExtBbox(minX: Ext, minY: Ext, maxX: Ext, maxY: Ext)

  /** A size `[width, height]`. */
  datatype Size = Size(width: real, height: real)

  predicate WellFormed(b: Bbox)
  {
    b.minX <= b.maxX && b.minY <= b.maxY
  }

  predicate Contains(b: Bbox, p: Point)
  {
    b.minX <= p.x <= b.maxX && b.minY <= p.y <= b.maxY
  }

  predicate ContainsBbox(outer: Bbox, inner: Bbox)
  {
    outer.minX <= inner.minX && outer.minY <= inner.minY &&
    inner.maxX <= outer.maxX && inner.maxY <= outer.maxY
  }

  function Finite(b: Bbox): ExtBbox
  {
    ExtBbox(Fin(b.minX), Fin(b.minY), Fin(b.maxX), Fin(b.maxY))
  }

  /** The smallest bounding box around a non-empty point list, built one point at a time. */
  function BboxOf(points: seq<Point>): Bbox
    requires |points| > 0
  {
    var p := points[|points| - 1];
    if |points| == 1 then Bbox(p.x, p.y, p.x, p.y)
    else CombineBboxes(BboxOf(points[..|points| - 1]), Bbox(p.x, p.y, p.x, p.y))
  }

  /** `BboxOf` contains every point, and each of its bounds is a coordinate of one of the points. */
  lemma {:induction false} BboxOfIsTight(points: seq<Point>)
    requires |points| > 0
    ensures WellFormed(BboxOf(points))
    ensures forall i :: 0 <= i < |points| ==> Contains(BboxOf(points), points[i])
    ensures exists i :: 0 <= i < |points| && points[i].x == BboxOf(points).minX
    ensures exists i :: 0 <= i < |points| && points[i].y == BboxOf(points).minY
    ensures exists i :: 0 <= i < |points| && points[i].x == BboxOf(points).maxX
    ensures exists i :: 0 <= i < |points| && points[i].y == BboxOf(points).maxY
  {
    var n := |points|;
    if n > 1 {
      var init := points[..n - 1];
      BboxOfIsTight(init);
      var b, p := BboxOf(init), points[n - 1];
      assert forall i :: 0 <= i < n - 1 ==> points[i] == init[i];
      var i0 :| 0 <= i0 < n - 1 && init[i0].x == b.minX;
      var i1 :| 0 <= i1 < n - 1 && init[i1].y == b.minY;
      var i2 :| 0 <= i2 < n - 1 && init[i2].x == b.maxX;
      var i3 :| 0 <= i3 < n - 1 && init[i3].y == b.maxY;
      var r := BboxOf(points);
      assert r.minX == points[if b.minX <= p.x then i0 else n - 1].x;
      assert r.minY == points[if b.minY <= p.y then i1 else n - 1].y;
      assert r.maxX == points[if b.maxX >= p.x then i2 else n - 1].x;
      assert r.maxY == points[if b.maxY >= p.y then i3 else n - 1].y;
    } else {
      assert points[0] == points[n - 1];
    }
  }

  /**
   * `computeMinMax`: a running minimum and maximum over the values.
   * With no values the result stays `[Infinity, -Infinity]`.
   */
  method ComputeMinMax(values: seq<real>) returns (min: Ext, max: Ext)
    ensures |values| == 0 ==> min == PosInf && max == NegInf
    ensures |values| > 0 ==> min.Fin? && max.Fin? && min.r in values && max.r in values
    ensures |values| > 0 ==> forall i :: 0 <= i < |values| ==> min.r <= values[i] <= max.r
  {
    min, max := PosInf, NegInf;
    for i := 0 to |values|
      invariant i == 0 ==> min == PosInf && max == NegInf
      invariant i > 0 ==> min.Fin? && max.Fin? && min.r in values[..i] && max.r in values[..i]
      invariant i > 0 ==> forall j :: 0 <= j < i ==> min.r <= values[j] <= max.r
    {
      var value := values[i];
      if ExtLess(Fin(value), min) {
        min := Fin(value);
      }
      if ExtLess(max, Fin(value)) {
        max := Fin(value);
      }
    }
  }

  /**
   * `computeBbox` on a point list: collect the x and y coordinates, then take their extremes.
   * The result is the tight box around the points, or `[Infinity, Infinity, -Infinity, -Infinity]`
   * for no points.
   */
  method ComputeBbox(points: seq<Point>) returns (bbox: ExtBbox)
    ensures |points| == 0 ==> bbox == ExtBbox(PosInf, PosInf, NegInf, NegInf)
    ensures |points| > 0 ==> bbox == Finite(BboxOf(points))
  {
    var xs: seq<real> := [];
    var ys: seq<real> := [];
    for i := 0 to |points|
      invariant |xs| == i && |ys| == i
      invariant forall j :: 0 <= j < i ==> xs[j] == points[j].x && ys[j] == points[j].y
    {
      xs := xs + [points[i].x];
      ys := ys + [points[i].y];
    }
    var minX, maxX := ComputeMinMax(xs);
    var minY, maxY := ComputeMinMax(ys);
    bbox := ExtBbox(minX, minY, maxX, maxY);
    if |points| > 0 {
      BboxOfIsTight(points);
      var b := BboxOf(points);
      assert b.minX in xs && b.maxX in xs && b.minY in ys && b.maxY in ys;
    }
  }

  /** `combineBboxes`: the smallest box containing both boxes. */
  function CombineBboxes(bbox1: Bbox, bbox2: Bbox): (r: Bbox)
    ensures ContainsBbox(r, bbox1) && ContainsBbox(r, bbox2)
    ensures forall b :: ContainsBbox(b, bbox1) && ContainsBbox(b, bbox2) ==> ContainsBbox(b, r)
  {
    Bbox(MinReal(bbox1.minX, bbox2.minX), MinReal(bbox1.minY, bbox2.minY),
         MaxReal(bbox1.maxX, bbox2.maxX), MaxReal(bbox1.maxY, bbox2.maxY))
  }

  lemma CombineBboxesCommutes(bbox1: Bbox, bbox2: Bbox)
    ensures CombineBboxes(bbox1, bbox2) == CombineBboxes(bbox2, bbox1)
  {
  }

  lemma CombineBboxesIdempotent(bbox: Bbox)
    ensures CombineBboxes(bbox, bbox) == bbox
  {
  }

  /** `bboxToRectangle`: the four corners, counter-clockwise from the minimum corner. */
  function BboxToRectangle(bbox: Bbox): (r: seq<Point>)
    ensures |r| == 4
    ensures r[0] == Point(bbox.minX, bbox.minY) && r[1] == Point(bbox.maxX, bbox.minY)
    ensures r[2] == Point(bbox.maxX, bbox.maxY) && r[3] == Point(bbox.minX, bbox.maxY)
    ensures WellFormed(bbox) ==> forall i :: 0 <= i < 4 ==> Contains(bbox, r[i])
  {
    [Point(bbox.minX, bbox.minY), Point(bbox.maxX, bbox.minY),
     Point(bbox.maxX, bbox.maxY), Point(bbox.minX, bbox.maxY)]
  }

  /** The bounding box of a well-formed box's rectangle is the box itself. */
  lemma BboxOfRectangle(bbox: Bbox)
    requires WellFormed(bbox)
    ensures BboxOf(BboxToRectangle(bbox)) == bbox
  {
    var r := BboxToRectangle(bbox);
    assert r[..3][..|r[..3]| - 1] == r[..2];
    assert r[..2][..|r[..2]| - 1] == [r[0]];
    assert BboxOf(r[..2]) == Bbox(bbox.minX, bbox.minY, bbox.maxX, bbox.minY);
    assert BboxOf(r[..3]) == bbox;
  }

  /** `bboxToPolygon`: a polygon with the rectangle as its only ring. */
  function BboxToPolygon(bbox: Bbox): (r: seq<seq<Point>>)
    ensures |r| == 1 && r[0] == BboxToRectangle(bbox)
  {
    [BboxToRectangle(bbox)]
  }

  /** `bboxToLine`: the diagonal from the minimum corner to the maximum corner. */
  function BboxToLine(bbox: Bbox): (r: seq<Point>)
    ensures |r| == 2
    ensures r[0] == Point(bbox.minX, bbox.minY) && r[1] == Point(bbox.maxX, bbox.maxY)
  {
    [Point(bbox.minX, bbox.minY), Point(bbox.maxX, bbox.maxY)]
  }

  /** The diagonal of a well-formed box spans the box. */
  lemma BboxOfLine(bbox: Bbox)
    requires WellFormed(bbox)
    ensures BboxOf(BboxToLine(bbox)) == bbox
  {
    var l := BboxToLine(bbox);
    assert l[..1] == [l[0]];
  }

  /** `bboxToCenter`: the coordinate-wise midpoint, inside the box and equally far from both sides. */
  function BboxToCenter(bbox: Bbox): (c: Point)
    ensures c.x - bbox.minX == bbox.maxX - c.x && c.y - bbox.minY == bbox.maxY - c.y
    ensures WellFormed(bbox) ==> Contains(bbox, c)
  {
    Point((bbox.minX + bbox.maxX) / 2.0, (bbox.minY + bbox.maxY) / 2.0)
  }

  /** `bboxToSize`: width and height; non-negative exactly when the box is well-formed. */
  function BboxToSize(bbox: Bbox): (s: Size)
    ensures WellFormed(bbox) <==> s.width >= 0.0 && s.height >= 0.0
    ensures bbox.minX + s.width == bbox.maxX && bbox.minY + s.height == bbox.maxY
  {
    Size(bbox.maxX - bbox.minX, bbox.maxY - bbox.minY)
  }

  /** JavaScript's `a / b` for finite `a` and `b`, with `None` for `NaN`: a non-zero number over
      zero is the infinity of its sign and `0 / 0` is `NaN`. Sides computed as `max - min` are
      never the negative zero, so `b == 0` is the positive zero. */
  function QuotientOf(a: real, b: real): (q: Option<Ext>)
    ensures b != 0.0 ==> q == Some(Fin(a / b))
    ensures q.None? <==> a == 0.0 && b == 0.0
    ensures b == 0.0 && a != 0.0 ==> q.Some? && !q.value.Fin? && (q.value == PosInf <==> a > 0.0)
  {
    if b != 0.0 then Some(Fin(a / b))
    else if a > 0.0 then Some(PosInf)
    else if a < 0.0 then Some(NegInf)
    else None
  }

  /** `Math.min` of two such numbers: `NaN` if either is `NaN`, otherwise the smaller one. */
  function ExtMin(a: Option<Ext>, b: Option<Ext>): (m: Option<Ext>)
    ensures m.None? <==> a.None? || b.None?
    ensures m.Some? ==> (m == a || m == b) && !ExtLess(a.value, m.value) && !ExtLess(b.value, m.value)
  {
    if a.None? || b.None? then None
    else if ExtLess(b.value, a.value) then b
    else a
  }

  /** `sizesToScale`: the smaller of the two axis ratios `size0 / size1`, with JavaScript's
      division, so that a zero side of `size1` gives an infinite ratio that the other axis
      wins over, and `0 / 0` makes the whole scale `NaN`. */
  function SizesToScale(size0: Size, size1: Size): (scale: Option<Ext>)
    ensures scale.None? <==>
      (size0.width == 0.0 && size1.width == 0.0) || (size0.height == 0.0 && size1.height == 0.0)
    ensures size1.width != 0.0 && size1.height != 0.0 ==>
      scale.Some? && scale.value.Fin? &&
      scale.value.r <= size0.width / size1.width && scale.value.r <= size0.height / size1.height &&
      (scale.value.r == size0.width / size1.width || scale.value.r == size0.height / size1.height)
    ensures size1.width == 0.0 && size0.width > 0.0 && size1.height != 0.0 ==>
      scale == Some(Fin(size0.height / size1.height))
    ensures size1.height == 0.0 && size0.height > 0.0 && size1.width != 0.0 ==>
      scale == Some(Fin(size0.width / size1.width))
  {
    ExtMin(QuotientOf(size0.width, size1.width), QuotientOf(size0.height, size1.height))
  }

  /** `bboxesToScale`: the scale between the sizes of two boxes. When `bbox1` has positive sides
      this is the largest factor by which `bbox1`'s size fits inside `bbox0`'s size. */
  function BboxesToScale(bbox0: Bbox, bbox1: Bbox): (scale: Option<Ext>)
    ensures scale.None? <==>
      (bbox0.maxX == bbox0.minX && bbox1.maxX == bbox1.minX) ||
      (bbox0.maxY == bbox0.minY && bbox1.maxY == bbox1.minY)
    ensures bbox1.maxX > bbox1.minX && bbox1.maxY > bbox1.minY ==>
      scale.Some? && scale.value.Fin? &&
      scale.value.r * (bbox1.maxX - bbox1.minX) <= bbox0.maxX - bbox0.minX &&
      scale.value.r * (bbox1.maxY - bbox1.minY) <= bbox0.maxY - bbox0.minY &&
      (scale.value.r * (bbox1.maxX - bbox1.minX) == bbox0.maxX - bbox0.minX ||
       scale.value.r * (bbox1.maxY - bbox1.minY) == bbox0.maxY - bbox0.minY)
  {
    var s0 := BboxToSize(bbox0);
    var s1 := BboxToSize(bbox1);
    var scale := SizesToScale(s0, s1);
    if s1.width > 0.0 && s1.height > 0.0 then
      FitsWithin(scale.value.r, s0.width, s1.width);
      FitsWithin(scale.value.r, s0.height, s1.height);
      scale
    else
      scale
  }

  /** For a positive `d`, `k <= n / d` is `k * d <= n`, and equality matches equality. */
  lemma FitsWithin(k: real, n: real, d: real)
    requires d > 0.0
    ensures k <= n / d <==> k * d <= n
    ensures k == n / d <==> k * d == n
  {
    if k <= n / d {
      assert k * d <= (n / d) * d;
    }
    if k * d <= n {
      assert k == (k * d) / d;
    }
  }

  /** A box that is `k` times another box in both directions has scale `k` against it. */
  lemma BboxesToScaleOfScaledBox(bbox: Bbox, k: real)
    requires bbox.maxX != bbox.minX && bbox.maxY != bbox.minY
    ensures BboxesToScale(Bbox(k * bbox.minX, k * bbox.minY, k * bbox.maxX, k * bbox.maxY), bbox) == Some(Fin(k))
  {
    var s := BboxToSize(bbox);
    var scaled := BboxToSize(Bbox(k * bbox.minX, k * bbox.minY, k * bbox.maxX, k * bbox.maxY));
    assert scaled.width == k * s.width && scaled.height == k * s.height;
    CancelFactor(k, s.width, scaled.width);
    CancelFactor(k, s.height, scaled.height);
  }

  /** Dividing `k` times a non-zero number by that number gives `k`. */
  lemma CancelFactor(k: real, d: real, product: real)
    requires d != 0.0 && product == k * d
    ensures QuotientOf(product, d) == Some(Fin(k))
  {
    assert product / d == k;
  }
}
