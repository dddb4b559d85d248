/**
 * Adaptive refinement of lines: a line between two GCP-like nodes is split at its source midpoint
 * while the refinement function bends it too much, up to a maximum depth.
 * The refinement function, the midpoint functions and the distance function are parameters.
 */
module Refinement {
  import opened Wrappers
  import opened Geometry

  /** A general GCP: a source position and its destination. */
  datatype Gcp = Gcp(source: Point, destination: Point)

  /** A GCP as the transformer takes it: a resource position and its geo position. */
  datatype GeoGcp = GeoGcp(resource: Point, geo: Point)

  /** `generalGcpToGcp`: the source becomes the resource position and the destination the geo position. */
  function GeneralGcpToGcp(gcp: Gcp): (r: GeoGcp)
    ensures Gcp(r.resource, r.geo) == gcp
  {
    GeoGcp(gcp.source, gcp.destination)
  }

  /** A `TypedLine`: the line from `start` to `end`. */
  datatype GcpLine = GcpLine(start: Gcp, end: Gcp)

  /** Which side of the GCPs a refinement returns. */
  datatype Domain = SourceDomain | DestinationDomain

  datatype RefinementOptions = RefinementOptions(
    maxOffsetRatio: real,
    maxDepth: int,
    minOffsetDistance: Ext,
    minLineDistance: Ext,
    sourceMidPoint: (Point, Point) -> Point,
    destinationMidPoint: (Point, Point) -> Point,
    destinationDistance: (Point, Point) -> real,
    returnDomain: Domain)

  /** `Partial<RefinementOptions>`: a field that is `None` is absent. */
  datatype PartialRefinementOptions = PartialRefinementOptions(
    maxOffsetRatio: Option<real>,
    maxDepth: Option<int>,
    minOffsetDistance: Option<Ext>,
    minLineDistance: Option<Ext>,
    sourceMidPoint: Option<(Point, Point) -> Point>,
    destinationMidPoint: Option<(Point, Point) -> Point>,
    destinationDistance: Option<(Point, Point) -> real>,
    returnDomain: Option<Domain>)

  /**
   * `defaultRefinementOptions`, given the library's `midPoint` and `distance`:
   * depth 0 and infinite distance caps, returning destinations.
   */
  function DefaultRefinementOptions(midPoint: (Point, Point) -> Point, distance: (Point, Point) -> real): (options: RefinementOptions)
    ensures options.maxDepth == 0 && options.maxOffsetRatio == 0.0
    ensures options.minOffsetDistance == PosInf && options.minLineDistance == PosInf
    ensures options.returnDomain == DestinationDomain
  {
    RefinementOptions(0.0, 0, PosInf, PosInf, midPoint, midPoint, distance, DestinationDomain)
  }

  function Pick<T>(given: Option<T>, default: T): T
  {
    if given.Some? then given.value else default
  }

  /** `mergeOptions(defaults, partial)`: every field given in `partial` overrides the default. */
  function MergeOptions(defaults: RefinementOptions, partial: PartialRefinementOptions): RefinementOptions
  {
    RefinementOptions(
      Pick(partial.maxOffsetRatio, defaults.maxOffsetRatio),
      Pick(partial.maxDepth, defaults.maxDepth),
      Pick(partial.minOffsetDistance, defaults.minOffsetDistance),
      Pick(partial.minLineDistance, defaults.minLineDistance),
      Pick(partial.sourceMidPoint, defaults.sourceMidPoint),
      Pick(partial.destinationMidPoint, defaults.destinationMidPoint),
      Pick(partial.destinationDistance, defaults.destinationDistance),
      Pick(partial.returnDomain, defaults.returnDomain))
  }

  /** The options object that sets nothing. */
  function NoPartialOptions(): PartialRefinementOptions
  {
    PartialRefinementOptions(None, None, None, None, None, None, None, None)
  }

  /** Merging nothing into the defaults gives the defaults. */
  lemma MergeNothing(defaults: RefinementOptions)
    ensures MergeOptions(defaults, NoPartialOptions()) == defaults
  {
  }

  /**
   * `offset / lineDistance > maxOffsetRatio` in JavaScript numbers: dividing a positive offset
   * by zero gives `Infinity` (greater than any ratio) and `0 / 0` gives `NaN` (greater than nothing).
   */
  predicate OffsetRatioExceeds(offset: real, lineDistance: real, maxOffsetRatio: real)
  {
    if lineDistance == 0.0 then offset > 0.0 else offset / lineDistance > maxOffsetRatio
  }

  /** The node inserted when a line is split: the source midpoint and its refinement. */
  function MidGcp(line: GcpLine, refine: Point -> Point, options: RefinementOptions): (mid: Gcp)
    ensures mid.destination == refine(mid.source)
  {
    var sourceMidPoint := options.sourceMidPoint(line.start.source, line.end.source);
    Gcp(sourceMidPoint, refine(sourceMidPoint))
  }

  /** The three-way test that decides whether a line below the maximum depth is split. */
  predicate ShouldSplit(line: GcpLine, refine: Point -> Point, options: RefinementOptions)
  {
    var destinationMidPoint := options.destinationMidPoint(line.start.destination, line.end.destination);
    var refinedMidPoint := MidGcp(line, refine, options).destination;
    var lineDistance := options.destinationDistance(line.start.destination, line.end.destination);
    var refinedLineDistance := options.destinationDistance(refine(line.start.source), refine(line.end.source));
    var offset := options.destinationDistance(destinationMidPoint, refinedMidPoint);
    && OffsetRatioExceeds(offset, lineDistance, options.maxOffsetRatio)
    && ExtLess(Fin(offset), options.minOffsetDistance)
    && ExtLess(Fin(refinedLineDistance), options.minLineDistance)
  }

  /** Refinement stops at the maximum depth, and never starts when the maximum depth is not positive. */
  predicate Stops(options: RefinementOptions, depth: int)
  {
    depth >= options.maxDepth || options.maxDepth <= 0
  }

  /** `lines` runs from `a` to `b`, each line starting where the previous one ends. */
  predicate IsChain(lines: seq<GcpLine>, a: Gcp, b: Gcp)
  {
    && |lines| > 0
    && lines[0].start == a
    && lines[|lines| - 1].end == b
    && Chained(lines)
  }

  /** Each line starts where the previous one ends. */
  predicate Chained(lines: seq<GcpLine>)
  {
    forall i :: 0 <= i < |lines| - 1 ==> lines[i].end == lines[i + 1].start
  }

  /** Every joint between consecutive lines is a node on the refinement function. */
  predicate JointsOnRefine(lines: seq<GcpLine>, refine: Point -> Point)
  {
    forall i :: 0 <= i < |lines| - 1 ==> lines[i].end.destination == refine(lines[i].end.source)
  }

  function Pow2(n: nat): (p: nat)
    ensures p >= 1
  {
    if n == 0 then 1 else 2 * Pow2(n - 1)
  }

  function Pow4(n: nat): (p: nat)
    ensures p >= 1
  {
    if n == 0 then 1 else 4 * Pow4(n - 1)
  }

  /** The number of levels left below `depth`. */
  function Levels(options: RefinementOptions, depth: int): nat
  {
    if depth < options.maxDepth then options.maxDepth - depth else 0
  }

  /** Two chains meeting at `m` concatenate into one chain. */
  lemma ConcatChains(left: seq<GcpLine>, right: seq<GcpLine>, a: Gcp, m: Gcp, b: Gcp)
    requires IsChain(left, a, m) && IsChain(right, m, b)
    ensures IsChain(left + right, a, b)
  {
    var both := left + right;
    forall i | 0 <= i < |both| - 1
      ensures both[i].end == both[i + 1].start
    {
      if i < |left| - 1 {
        assert both[i] == left[i] && both[i + 1] == left[i + 1];
      } else if i == |left| - 1 {
        assert both[i] == left[i] && both[i + 1] == right[0];
      } else {
        assert both[i] == right[i - |left|] && both[i + 1] == right[i - |left| + 1];
      }
    }
  }

  /**
   * `splitGcpLineRecursively`: the result is a chain of lines from the line's start to its end,
   * and it has more than one line exactly when the line is below the maximum depth and passes the
   * split test; otherwise it is the line itself.
   */
  function SplitGcpLineRecursively(line: GcpLine, refine: Point -> Point, options: RefinementOptions, depth: int): (lines: seq<GcpLine>)
    decreases Levels(options, depth)
    ensures IsChain(lines, line.start, line.end)
    ensures |lines| > 1 <==> !Stops(options, depth) && ShouldSplit(line, refine, options)
    ensures |lines| == 1 ==> lines == [line]
  {
    if depth >= options.maxDepth || options.maxDepth <= 0 then
      [line]
    else if ShouldSplit(line, refine, options) then
      var mid := MidGcp(line, refine, options);
      var left := SplitGcpLineRecursively(GcpLine(line.start, mid), refine, options, depth + 1);
      var right := SplitGcpLineRecursively(GcpLine(mid, line.end), refine, options, depth + 1);
      ConcatChains(left, right, line.start, mid, line.end);
      left + right
    else
      [line]
  }

  /** A line split from `depth` has at most 2^(maxDepth - depth) pieces. */
  lemma {:induction false} SplitCountBound(line: GcpLine, refine: Point -> Point, options: RefinementOptions, depth: int)
    decreases Levels(options, depth)
    ensures |SplitGcpLineRecursively(line, refine, options, depth)| <= Pow2(Levels(options, depth))
  {
    if !Stops(options, depth) && ShouldSplit(line, refine, options) {
      var mid := MidGcp(line, refine, options);
      SplitCountBound(GcpLine(line.start, mid), refine, options, depth + 1);
      SplitCountBound(GcpLine(mid, line.end), refine, options, depth + 1);
    }
  }

  /** Every node that splitting inserts is the source midpoint of a line with its refined destination. */
  lemma {:induction false} SplitJointsOnRefine(line: GcpLine, refine: Point -> Point, options: RefinementOptions, depth: int)
    decreases Levels(options, depth)
    ensures JointsOnRefine(SplitGcpLineRecursively(line, refine, options, depth), refine)
  {
    if !Stops(options, depth) && ShouldSplit(line, refine, options) {
      var mid := MidGcp(line, refine, options);
      SplitJointsOnRefine(GcpLine(line.start, mid), refine, options, depth + 1);
      SplitJointsOnRefine(GcpLine(mid, line.end), refine, options, depth + 1);
      SplitHalves(line, refine, options, depth);
    }
  }

  /** A split line is the split of its first half followed by the split of its second half, joined at the midpoint. */
  lemma SplitHalves(line: GcpLine, refine: Point -> Point, options: RefinementOptions, depth: int)
    requires !Stops(options, depth) && ShouldSplit(line, refine, options)
    requires JointsOnRefine(SplitGcpLineRecursively(GcpLine(line.start, MidGcp(line, refine, options)), refine, options, depth + 1), refine)
    requires JointsOnRefine(SplitGcpLineRecursively(GcpLine(MidGcp(line, refine, options), line.end), refine, options, depth + 1), refine)
    ensures JointsOnRefine(SplitGcpLineRecursively(line, refine, options, depth), refine)
  {
    var mid := MidGcp(line, refine, options);
    var left := SplitGcpLineRecursively(GcpLine(line.start, mid), refine, options, depth + 1);
    var right := SplitGcpLineRecursively(GcpLine(mid, line.end), refine, options, depth + 1);
    assert SplitGcpLineRecursively(line, refine, options, depth) == left + right;
    JointsConcat(left, right, refine);
  }

  /** Two sequences whose joints are on the refinement function, joined at such a node, have all their joints on it. */
  lemma JointsConcat(left: seq<GcpLine>, right: seq<GcpLine>, refine: Point -> Point)
    requires |left| > 0 && left[|left| - 1].end.destination == refine(left[|left| - 1].end.source)
    requires JointsOnRefine(left, refine) && JointsOnRefine(right, refine)
    ensures JointsOnRefine(left + right, refine)
  {
    var both := left + right;
    forall i | 0 <= i < |both| - 1
      ensures both[i].end.destination == refine(both[i].end.source)
    {
      if i < |left| {
        assert both[i] == left[i];
      } else {
        assert both[i] == right[i - |left|];
      }
    }
  }

  /** With the default options refinement never splits a line: it is disabled by default. */
  lemma DefaultOptionsDoNotSplit(line: GcpLine, refine: Point -> Point, midPoint: (Point, Point) -> Point,
                                 distance: (Point, Point) -> real, depth: int)
    ensures SplitGcpLineRecursively(line, refine, MergeOptions(DefaultRefinementOptions(midPoint, distance), NoPartialOptions()), depth) == [line]
  {
  }

  /**
   * A refinement function that maps the source midpoint to the destination midpoint (a linear map
   * for arithmetic midpoints) gives offset zero, so the line is not split.
   */
  lemma LinearRefinementDoesNotSplit(line: GcpLine, refine: Point -> Point, options: RefinementOptions, depth: int)
    requires refine(options.sourceMidPoint(line.start.source, line.end.source))
             == options.destinationMidPoint(line.start.destination, line.end.destination)
    requires forall p :: options.destinationDistance(p, p) == 0.0
    requires options.maxOffsetRatio >= 0.0
    ensures SplitGcpLineRecursively(line, refine, options, depth) == [line]
  {
    var m := options.destinationMidPoint(line.start.destination, line.end.destination);
    assert options.destinationDistance(m, m) == 0.0;
    assert !ShouldSplit(line, refine, options);
  }

  /** The number of lines `gcpsToGcpLines` makes: one fewer than the nodes when open, as many when closed. */
  function LineCount(n: nat, close: bool): nat
  {
    if close then n else if n == 0 then 0 else n - 1
  }

  /** Line `i` joins node `i` to node `i + 1`, wrapping around to node 0. */
  predicate LinesJoinNodes(gcps: seq<Gcp>, lines: seq<GcpLine>)
  {
    && 0 < |gcps| && |lines| <= |gcps|
    && forall i :: 0 <= i < |lines| ==> lines[i] == GcpLine(gcps[i], gcps[(i + 1) % |gcps|])
  }

  /** The lines `gcpsToGcpLines` makes: line i joins node i to node i + 1, the last wrapping round to node 0 when closing. */
  function Edges(gcps: seq<Gcp>, close: bool): (lines: seq<GcpLine>)
    ensures |lines| == LineCount(|gcps|, close)
    ensures |gcps| > 0 ==> LinesJoinNodes(gcps, lines)
  {
    if |gcps| == 0 then []
    else seq(LineCount(|gcps|, close), i requires 0 <= i < LineCount(|gcps|, close) => GcpLine(gcps[i], gcps[(i + 1) % |gcps|]))
  }

  /** `gcpsToGcpLines`: n - 1 lines for an open list, n for a closed one, line i = [gcps[i], gcps[(i + 1) % n]]. */
  method GcpsToGcpLines(gcps: seq<Gcp>, close: bool) returns (lines: seq<GcpLine>)
    ensures lines == Edges(gcps, close)
    ensures |lines| == LineCount(|gcps|, close)
    ensures |gcps| > 0 ==> LinesJoinNodes(gcps, lines)
  {
    var lineCount := |gcps| - (if close then 0 else 1);
    lines := [];
    var index := 0;
    while index < lineCount
      invariant 0 <= index <= LineCount(|gcps|, close) <= |gcps| && |lines| == index
      invariant forall i :: 0 <= i < index ==> lines[i] == GcpLine(gcps[i], gcps[(i + 1) % |gcps|])
    {
      lines := lines + [GcpLine(gcps[index], gcps[(index + 1) % |gcps|])];
      index := index + 1;
    }
    assert lines == Edges(gcps, close);
  }

  /**
   * `gcpLinesToGcps`: the start of every line, followed by the end of the last line when closing.
   * Closing an empty list reads past its end and throws, modelled as `None`.
   */
  function GcpLinesToGcps(lines: seq<GcpLine>, close: bool): (gcps: Option<seq<Gcp>>)
    ensures gcps.None? <==> close && |lines| == 0
    ensures gcps.Some? ==> |gcps.value| == |lines| + (if close then 1 else 0)
    ensures gcps.Some? ==> forall i :: 0 <= i < |lines| ==> gcps.value[i] == lines[i].start
    ensures gcps.Some? && close ==> gcps.value[|lines|] == lines[|lines| - 1].end
  {
    if !close then Some(Starts(lines))
    else if |lines| == 0 then None
    else Some(Starts(lines) + [lines[|lines| - 1].end])
  }

  /** The start node of every line, in order. */
  function Starts(lines: seq<GcpLine>): (starts: seq<Gcp>)
    ensures |starts| == |lines| && forall i :: 0 <= i < |lines| ==> starts[i] == lines[i].start
  {
    seq(|lines|, i requires 0 <= i < |lines| => lines[i].start)
  }

  /** Opening n >= 2 nodes into lines and closing the lines again gives back the nodes. */
  lemma OpenLinesRoundTrip(gcps: seq<Gcp>, lines: seq<GcpLine>)
    requires |gcps| >= 2 && |lines| == LineCount(|gcps|, false) && LinesJoinNodes(gcps, lines)
    ensures GcpLinesToGcps(lines, true) == Some(gcps)
  {
    var n := |gcps|;
    var r := GcpLinesToGcps(lines, true).value;
    assert (n - 2 + 1) % n == n - 1;
    assert r[n - 1] == lines[n - 2].end == gcps[n - 1];
    assert forall i :: 0 <= i < n - 1 ==> r[i] == lines[i].start == gcps[i];
    assert r == gcps;
  }

  /** Closing n >= 1 nodes into a ring of lines and reading the starts gives back the nodes. */
  lemma ClosedLinesRoundTrip(gcps: seq<Gcp>, lines: seq<GcpLine>)
    requires |gcps| >= 1 && |lines| == LineCount(|gcps|, true) && LinesJoinNodes(gcps, lines)
    ensures GcpLinesToGcps(lines, false) == Some(gcps)
  {
    var r := GcpLinesToGcps(lines, false).value;
    assert forall i :: 0 <= i < |gcps| ==> r[i] == lines[i].start == gcps[i];
    assert r == gcps;
  }

  /** Both nodes of every line lie on the refinement function. */
  predicate NodesOnRefine(lines: seq<GcpLine>, refine: Point -> Point)
  {
    forall i :: 0 <= i < |lines| ==>
      lines[i].start.destination == refine(lines[i].start.source) && lines[i].end.destination == refine(lines[i].end.source)
  }

  /** A split chain whose two ends lie on the refinement function has all its nodes on it. */
  lemma {:induction false} SplitNodesOnRefine(line: GcpLine, refine: Point -> Point, options: RefinementOptions, depth: int)
    requires line.start.destination == refine(line.start.source) && line.end.destination == refine(line.end.source)
    ensures NodesOnRefine(SplitGcpLineRecursively(line, refine, options, depth), refine)
  {
    var lines := SplitGcpLineRecursively(line, refine, options, depth);
    SplitJointsOnRefine(line, refine, options, depth);
    forall i | 0 <= i < |lines|
      ensures lines[i].start.destination == refine(lines[i].start.source)
      ensures lines[i].end.destination == refine(lines[i].end.source)
    {
      if i > 0 {
        assert lines[i - 1].end == lines[i].start;
      }
    }
  }

  /** `.map(splitGcpLineRecursively).flat(1)`: every line split from depth 0, in order. */
  function SplitGcpLines(lines: seq<GcpLine>, refine: Point -> Point, options: RefinementOptions): (refined: seq<GcpLine>)
    ensures |refined| >= |lines|
    ensures Stops(options, 0) ==> refined == lines
    ensures |lines| > 0 && Chained(lines) ==> IsChain(refined, lines[0].start, lines[|lines| - 1].end)
  {
    if |lines| == 0 then []
    else
      var init := SplitGcpLines(lines[..|lines| - 1], refine, options);
      var last := SplitGcpLineRecursively(lines[|lines| - 1], refine, options, 0);
      if |lines| > 1 && Chained(lines) then
        assert lines[|lines| - 2].end == lines[|lines| - 1].start;
        assert Chained(lines[..|lines| - 1]);
        ConcatChains(init, last, lines[0].start, lines[|lines| - 2].end, lines[|lines| - 1].end);
        init + last
      else
        init + last
  }

  /** The split of every line from depth 0, one sequence of pieces per line. */
  function SplitPieces(lines: seq<GcpLine>, refine: Point -> Point, options: RefinementOptions): (pieces: seq<seq<GcpLine>>)
    ensures |pieces| == |lines|
    ensures forall i :: 0 <= i < |lines| ==> pieces[i] == SplitGcpLineRecursively(lines[i], refine, options, 0)
  {
    seq(|lines|, i requires 0 <= i < |lines| => SplitGcpLineRecursively(lines[i], refine, options, 0))
  }

  /** The parts one after the other, as `.flat(1)` joins them. */
  function Concat<T>(parts: seq<seq<T>>): seq<T>
  {
    if |parts| == 0 then [] else Concat(parts[..|parts| - 1]) + parts[|parts| - 1]
  }

  /** Where each part begins in `Concat(parts)`, and finally the total length. */
  function Offsets<T>(parts: seq<seq<T>>): (offsets: seq<nat>)
    ensures |offsets| == |parts| + 1
  {
    seq(|parts| + 1, i requires 0 <= i <= |parts| => |Concat(parts[..i])|)
  }

  /** Concatenation distributes over appending sequences of parts. */
  lemma {:induction false} ConcatAppend<T>(p: seq<seq<T>>, q: seq<seq<T>>)
    ensures Concat(p + q) == Concat(p) + Concat(q)
  {
    if |q| == 0 {
      assert p + q == p;
    } else {
      ConcatAppend(p, q[..|q| - 1]);
      assert (p + q)[..|p + q| - 1] == p + q[..|q| - 1];
    }
  }

  /** Part i sits in the concatenation between offsets i and i + 1, and the last offset is the total length. */
  lemma ConcatPart<T>(parts: seq<seq<T>>, i: int)
    requires 0 <= i < |parts|
    ensures Offsets(parts)[|parts|] == |Concat(parts)|
    ensures Offsets(parts)[i] + |parts[i]| == Offsets(parts)[i + 1] <= |Concat(parts)|
    ensures Concat(parts)[Offsets(parts)[i]..Offsets(parts)[i + 1]] == parts[i]
  {
    var pre, post := parts[..i], parts[i + 1..];
    assert parts[..|parts|] == parts;
    assert parts[..i + 1] == pre + [parts[i]];
    assert (pre + [parts[i]])[..i] == pre;
    assert parts == (pre + [parts[i]]) + post;
    ConcatAppend(pre + [parts[i]], post);
  }

  /** Splitting a sequence of lines concatenates the splits of the lines, in order. */
  lemma {:induction false} SplitGcpLinesConcat(lines: seq<GcpLine>, refine: Point -> Point, options: RefinementOptions)
    ensures SplitGcpLines(lines, refine, options) == Concat(SplitPieces(lines, refine, options))
  {
    if |lines| > 0 {
      var n := |lines|;
      SplitGcpLinesConcat(lines[..n - 1], refine, options);
      assert SplitPieces(lines[..n - 1], refine, options) == SplitPieces(lines, refine, options)[..n - 1];
      SplitGcpLinesLast(lines, refine, options);
    }
  }

  /** Where the split of each line begins in `SplitGcpLines(lines, ..)`, and finally its length. */
  function SplitOffsets(lines: seq<GcpLine>, refine: Point -> Point, options: RefinementOptions): (offsets: seq<nat>)
    ensures |offsets| == |lines| + 1
  {
    Offsets(SplitPieces(lines, refine, options))
  }

  /** Between offsets i and i + 1 of the split of `lines` lies the split of line i, which is not empty. */
  predicate PieceAt(lines: seq<GcpLine>, refine: Point -> Point, options: RefinementOptions, i: int)
    requires 0 <= i < |lines|
  {
    var offsets := SplitOffsets(lines, refine, options);
    && offsets[i] < offsets[i + 1] <= offsets[|lines|] == |SplitGcpLines(lines, refine, options)|
    && SplitGcpLines(lines, refine, options)[offsets[i]..offsets[i + 1]] == SplitGcpLineRecursively(lines[i], refine, options, 0)
  }

  /** The split of a sequence of lines is the split of each line in turn. */
  lemma SplitGcpLinesPieces(lines: seq<GcpLine>, refine: Point -> Point, options: RefinementOptions)
    ensures SplitOffsets(lines, refine, options)[|lines|] == |SplitGcpLines(lines, refine, options)|
    ensures forall i :: 0 <= i < |lines| ==> PieceAt(lines, refine, options, i)
  {
    var pieces := SplitPieces(lines, refine, options);
    SplitGcpLinesConcat(lines, refine, options);
    assert pieces[..|lines|] == pieces;
    forall i | 0 <= i < |lines|
      ensures PieceAt(lines, refine, options, i)
    {
      ConcatPart(pieces, i);
    }
  }

  /** The split of a non-empty sequence of lines is the split of all but the last, then the split of the last. */
  lemma SplitGcpLinesLast(lines: seq<GcpLine>, refine: Point -> Point, options: RefinementOptions)
    requires |lines| > 0
    ensures SplitGcpLines(lines, refine, options)
      == SplitGcpLines(lines[..|lines| - 1], refine, options) + SplitGcpLineRecursively(lines[|lines| - 1], refine, options, 0)
  {
  }

  /** Splitting n lines from depth 0 gives at most n * 2^maxDepth lines. */
  lemma {:induction false} SplitGcpLinesBound(lines: seq<GcpLine>, refine: Point -> Point, options: RefinementOptions)
    ensures |SplitGcpLines(lines, refine, options)| <= |lines| * Pow2(Levels(options, 0))
  {
    if |lines| > 0 {
      var n := |lines|;
      var p := Pow2(Levels(options, 0));
      SplitGcpLinesBound(lines[..n - 1], refine, options);
      SplitCountBound(lines[n - 1], refine, options, 0);
      SplitGcpLinesLast(lines, refine, options);
      assert n * p == (n - 1) * p + p;
    }
  }

  /** A slice inside the first part of a concatenation is a slice of that part. */
  lemma SliceOfPrefix<T>(a: seq<T>, b: seq<T>, lo: int, hi: int)
    requires 0 <= lo <= hi <= |a|
    ensures (a + b)[lo..hi] == a[lo..hi]
  {
    assert forall k :: lo <= k < hi ==> (a + b)[k] == a[k];
  }

  /** Splitting lines whose nodes lie on the refinement function only inserts nodes on it. */
  lemma {:induction false} SplitGcpLinesNodesOnRefine(lines: seq<GcpLine>, refine: Point -> Point, options: RefinementOptions)
    requires NodesOnRefine(lines, refine)
    ensures NodesOnRefine(SplitGcpLines(lines, refine, options), refine)
  {
    if |lines| > 0 {
      var init := lines[..|lines| - 1];
      SplitGcpLinesNodesOnRefine(init, refine, options);
      SplitNodesOnRefine(lines[|lines| - 1], refine, options, 0);
      var a, b := SplitGcpLines(init, refine, options), SplitGcpLineRecursively(lines[|lines| - 1], refine, options, 0);
      assert forall i :: 0 <= i < |a| ==> (a + b)[i] == a[i];
      assert forall i :: 0 <= i < |b| ==> (a + b)[|a| + i] == b[i];
    }
  }

  /** The GCP of a point: the point with its refinement as destination. */
  function ToGcp(point: Point, refine: Point -> Point): (gcp: Gcp)
    ensures gcp.source == point && gcp.destination == refine(point)
  {
    Gcp(point, refine(point))
  }

  function Lift(points: seq<Point>, refine: Point -> Point): (gcps: seq<Gcp>)
    ensures |gcps| == |points| && forall i :: 0 <= i < |points| ==> gcps[i] == ToGcp(points[i], refine)
  {
    seq(|points|, i requires 0 <= i < |points| => ToGcp(points[i], refine))
  }

  /** The side of a GCP that `returnDomain` selects. */
  function Project(gcp: Gcp, domain: Domain): Point
  {
    if domain == DestinationDomain then gcp.destination else gcp.source
  }

  function ProjectAll(gcps: seq<Gcp>, domain: Domain): (points: seq<Point>)
    ensures |points| == |gcps| && forall i :: 0 <= i < |gcps| ==> points[i] == Project(gcps[i], domain)
  {
    seq(|gcps|, i requires 0 <= i < |gcps| => Project(gcps[i], domain))
  }

  predicate AllOnRefine(gcps: seq<Gcp>, refine: Point -> Point)
  {
    forall i :: 0 <= i < |gcps| ==> gcps[i].destination == refine(gcps[i].source)
  }

  lemma SmallMod(a: int, n: int)
    requires 0 <= a < n
    ensures a % n == a
  {
  }

  lemma LiftedNodesOnRefine(gcps: seq<Gcp>, lines: seq<GcpLine>, refine: Point -> Point)
    requires AllOnRefine(gcps, refine) && LinesJoinNodes(gcps, lines)
    ensures NodesOnRefine(lines, refine) && Chained(lines)
  {
    forall i | 0 <= i < |lines|
      ensures lines[i].start.destination == refine(lines[i].start.source)
      ensures lines[i].end.destination == refine(lines[i].end.source)
    {
      var j := (i + 1) % |gcps|;
      assert lines[i] == GcpLine(gcps[i], gcps[j]);
    }
    forall i | 0 <= i < |lines| - 1
      ensures lines[i].end == lines[i + 1].start
    {
      SmallMod(i + 1, |gcps|);
      assert lines[i] == GcpLine(gcps[i], gcps[i + 1]);
    }
  }

  /** The nodes read back from lines whose nodes lie on the refinement function lie on it too. */
  lemma ReadBackOnRefine(lines: seq<GcpLine>, close: bool, refine: Point -> Point)
    requires NodesOnRefine(lines, refine) && GcpLinesToGcps(lines, close).Some?
    ensures AllOnRefine(GcpLinesToGcps(lines, close).value, refine)
  {
  }

  /**
   * The nodes that refinement reads back from `gcps`: the start of every line of the split edges,
   * followed by the last node when the list is open.
   */
  function RefinedNodes(gcps: seq<Gcp>, close: bool, refine: Point -> Point, options: RefinementOptions): seq<Gcp>
  {
    Starts(SplitGcpLines(Edges(gcps, close), refine, options)) + (if close || |gcps| == 0 then [] else [gcps[|gcps| - 1]])
  }

  /**
   * Edge i of `gcps` in the refined nodes: node i sits at the offset where the split of edge i
   * begins, and up to the next offset follow the starts of that split, the inserted midpoints.
   */
  predicate EdgeAt(gcps: seq<Gcp>, close: bool, refine: Point -> Point, options: RefinementOptions, i: int)
    requires 0 <= i < LineCount(|gcps|, close)
  {
    var lines := Edges(gcps, close);
    var offsets := SplitOffsets(lines, refine, options);
    var nodes := RefinedNodes(gcps, close, refine, options);
    && offsets[i] < offsets[i + 1] <= |nodes|
    && nodes[offsets[i]] == gcps[i]
    && nodes[offsets[i]..offsets[i + 1]] == Starts(SplitGcpLineRecursively(lines[i], refine, options, 0))
  }

  /**
   * Refinement keeps every original node, in order, and only inserts the split points of each edge
   * between an edge's two nodes: the refined nodes are, edge after edge, the starts of that edge's
   * split, then the last node when open.
   */
  lemma RefinedNodesSplitEveryEdge(gcps: seq<Gcp>, close: bool, refine: Point -> Point, options: RefinementOptions)
    ensures |RefinedNodes(gcps, close, refine, options)|
      == SplitOffsets(Edges(gcps, close), refine, options)[LineCount(|gcps|, close)] + (if close || |gcps| == 0 then 0 else 1)
    ensures forall i :: 0 <= i < LineCount(|gcps|, close) ==> EdgeAt(gcps, close, refine, options, i)
    ensures !close && |gcps| > 0 ==>
      RefinedNodes(gcps, close, refine, options)[SplitOffsets(Edges(gcps, close), refine, options)[|gcps| - 1]] == gcps[|gcps| - 1]
  {
    var lines := Edges(gcps, close);
    SplitGcpLinesPieces(lines, refine, options);
    forall i | 0 <= i < |lines|
      ensures EdgeAt(gcps, close, refine, options, i)
    {
      EdgeOfPiece(gcps, close, refine, options, i);
    }
  }

  /** One edge of `RefinedNodesSplitEveryEdge`: the split of edge i, read as nodes. */
  lemma EdgeOfPiece(gcps: seq<Gcp>, close: bool, refine: Point -> Point, options: RefinementOptions, i: int)
    requires 0 <= i < LineCount(|gcps|, close)
    requires PieceAt(Edges(gcps, close), refine, options, i)
    ensures EdgeAt(gcps, close, refine, options, i)
  {
    var lines := Edges(gcps, close);
    var refined := SplitGcpLines(lines, refine, options);
    var offsets := SplitOffsets(lines, refine, options);
    var tail := if close || |gcps| == 0 then [] else [gcps[|gcps| - 1]];
    var piece := SplitGcpLineRecursively(lines[i], refine, options, 0);
    SliceOfPrefix(Starts(refined), tail, offsets[i], offsets[i + 1]);
    StartsOfSlice(refined, offsets[i], offsets[i + 1]);
    assert piece[0].start == lines[i].start;
  }

  /** The starts of a slice are the slice of the starts. */
  lemma StartsOfSlice(lines: seq<GcpLine>, lo: int, hi: int)
    requires 0 <= lo <= hi <= |lines|
    ensures Starts(lines)[lo..hi] == Starts(lines[lo..hi])
  {
  }

  /** Refining the n nodes of an open list gives at most (n - 1) * 2^maxDepth + 1 nodes, of a closed one n * 2^maxDepth. */
  lemma RefinedNodesBound(gcps: seq<Gcp>, close: bool, refine: Point -> Point, options: RefinementOptions)
    ensures |RefinedNodes(gcps, close, refine, options)|
      <= LineCount(|gcps|, close) * Pow2(Levels(options, 0)) + (if close || |gcps| == 0 then 0 else 1)
  {
    SplitGcpLinesBound(Edges(gcps, close), refine, options);
  }

  /** Refining nodes on the refinement function gives nodes on the refinement function. */
  lemma RefinedNodesOnRefine(gcps: seq<Gcp>, close: bool, refine: Point -> Point, options: RefinementOptions)
    requires AllOnRefine(gcps, refine)
    ensures AllOnRefine(RefinedNodes(gcps, close, refine, options), refine)
  {
    if |gcps| > 0 {
      LiftedNodesOnRefine(gcps, Edges(gcps, close), refine);
      SplitGcpLinesNodesOnRefine(Edges(gcps, close), refine, options);
    }
  }

  /** Point i of the input sits in the refined result at the offset where the split of edge i begins. */
  predicate PointKept(result: seq<Point>, points: seq<Point>, close: bool, refine: Point -> Point, options: RefinementOptions, i: int)
    requires 0 <= i < |points|
  {
    var offsets := SplitOffsets(Edges(Lift(points, refine), close), refine, options);
    && i < |offsets|
    && offsets[i] < |result|
    && result[offsets[i]] == Project(ToGcp(points[i], refine), options.returnDomain)
  }

  /** Every input point is kept, at the offset where its edge's split begins, in the projected refined nodes. */
  lemma RefinedPointsKept(points: seq<Point>, close: bool, refine: Point -> Point, options: RefinementOptions)
    ensures forall i :: 0 <= i < |points| ==>
      PointKept(ProjectAll(RefinedNodes(Lift(points, refine), close, refine, options), options.returnDomain), points, close, refine, options, i)
  {
    forall i | 0 <= i < |points|
      ensures PointKept(ProjectAll(RefinedNodes(Lift(points, refine), close, refine, options), options.returnDomain), points, close, refine, options, i)
    {
      PointKeptAt(points, close, refine, options, i);
    }
  }

  /** One point of `RefinedPointsKept`: the start of its edge's split, or the last node of an open list. */
  lemma PointKeptAt(points: seq<Point>, close: bool, refine: Point -> Point, options: RefinementOptions, i: int)
    requires 0 <= i < |points|
    ensures PointKept(ProjectAll(RefinedNodes(Lift(points, refine), close, refine, options), options.returnDomain), points, close, refine, options, i)
  {
    var gcps := Lift(points, refine);
    RefinedNodesSplitEveryEdge(gcps, close, refine, options);
    if i < LineCount(|gcps|, close) {
      assert EdgeAt(gcps, close, refine, options, i);
    }
    NodeKeptAt(points, close, refine, options, i);
  }

  /** A node kept at its offset projects to the point kept at its offset. */
  lemma NodeKeptAt(points: seq<Point>, close: bool, refine: Point -> Point, options: RefinementOptions, i: int)
    requires 0 <= i < |points|
    requires var offsets := SplitOffsets(Edges(Lift(points, refine), close), refine, options);
      && i < |offsets|
      && offsets[i] < |RefinedNodes(Lift(points, refine), close, refine, options)|
      && RefinedNodes(Lift(points, refine), close, refine, options)[offsets[i]] == Lift(points, refine)[i]
    ensures PointKept(ProjectAll(RefinedNodes(Lift(points, refine), close, refine, options), options.returnDomain), points, close, refine, options, i)
  {
  }

  /**
   * `refineLineString` (taking `conformLineString` as the identity): lift every point to a GCP
   * through the refinement function, split the open lines between consecutive points, and read the
   * nodes back in the requested domain. Fewer than two points throw (closing no lines).
   * The result starts and ends at the original ends, has at least as many points, consists of
   * nodes on the refinement function, and is the input itself when refinement is disabled.
   */
  method RefineLineString(lineString: seq<Point>, refine: Point -> Point, defaults: RefinementOptions,
                          partial: PartialRefinementOptions) returns (result: Option<seq<Point>>)
    ensures result.Some? <==> |lineString| >= 2
    ensures result.Some? ==> |result.value| >= |lineString|
    ensures result.Some? ==>
      var domain := MergeOptions(defaults, partial).returnDomain;
      && result.value[0] == Project(ToGcp(lineString[0], refine), domain)
      && result.value[|result.value| - 1] == Project(ToGcp(lineString[|lineString| - 1], refine), domain)
    ensures result.Some? && Stops(MergeOptions(defaults, partial), 0) ==>
      result.value == ProjectAll(Lift(lineString, refine), MergeOptions(defaults, partial).returnDomain)
    ensures result.Some? ==> AllOnRefine(RefinedNodes(Lift(lineString, refine), false, refine, MergeOptions(defaults, partial)), refine)
    ensures result.Some? ==>
      result.value == ProjectAll(RefinedNodes(Lift(lineString, refine), false, refine, MergeOptions(defaults, partial)), MergeOptions(defaults, partial).returnDomain)
    ensures result.Some? ==> forall i :: 0 <= i < |lineString| ==> PointKept(result.value, lineString, false, refine, MergeOptions(defaults, partial), i)
    ensures result.Some? ==> |result.value| <= (|lineString| - 1) * Pow2(Levels(MergeOptions(defaults, partial), 0)) + 1
  {
    var options := MergeOptions(defaults, partial);
    var gcps := Lift(lineString, refine);
    var gcpLines := GcpsToGcpLines(gcps, false);
    var refinedGcpLines := SplitGcpLines(gcpLines, refine, options);
    var refinedGcps := GcpLinesToGcps(refinedGcpLines, true);
    if refinedGcps.None? {
      return None;
    }
    var nodes := refinedGcps.value;
    result := Some(ProjectAll(nodes, options.returnDomain));
    LiftedNodesOnRefine(gcps, gcpLines, refine);
    SplitGcpLinesNodesOnRefine(gcpLines, refine, options);
    ReadBackOnRefine(refinedGcpLines, true, refine);
    assert AllOnRefine(nodes, refine);
    var n := |gcps|;
    SmallMod(n - 1, n);
    assert gcpLines[|gcpLines| - 1].end == gcps[n - 1];
    assert IsChain(refinedGcpLines, gcps[0], gcps[n - 1]);
    assert nodes[0] == gcps[0] && nodes[|nodes| - 1] == gcps[n - 1];
    if Stops(options, 0) {
      OpenLinesRoundTrip(gcps, gcpLines);
    }
    assert nodes == RefinedNodes(gcps, false, refine, options);
    RefinedNodesBound(gcps, false, refine, options);
    RefinedPointsKept(lineString, false, refine, options);
  }

  /**
   * `refineRing` (taking `conformRing` as the identity): as `RefineLineString`, but over the closed
   * cycle of lines (the last point joins the first), read back without repeating the first point.
   * The result keeps the first point, has at least as many points, consists of nodes on the
   * refinement function, and is the input itself when refinement is disabled.
   */
  method RefineRing(ring: seq<Point>, refine: Point -> Point, defaults: RefinementOptions,
                    partial: PartialRefinementOptions) returns (result: seq<Point>)
    ensures |result| >= |ring|
    ensures |ring| == 0 ==> result == []
    ensures |ring| > 0 ==> result[0] == Project(ToGcp(ring[0], refine), MergeOptions(defaults, partial).returnDomain)
    ensures Stops(MergeOptions(defaults, partial), 0) ==>
      result == ProjectAll(Lift(ring, refine), MergeOptions(defaults, partial).returnDomain)
    ensures AllOnRefine(RefinedNodes(Lift(ring, refine), true, refine, MergeOptions(defaults, partial)), refine)
    ensures result == ProjectAll(RefinedNodes(Lift(ring, refine), true, refine, MergeOptions(defaults, partial)), MergeOptions(defaults, partial).returnDomain)
    ensures forall i :: 0 <= i < |ring| ==> PointKept(result, ring, true, refine, MergeOptions(defaults, partial), i)
    ensures |result| <= |ring| * Pow2(Levels(MergeOptions(defaults, partial), 0))
  {
    var options := MergeOptions(defaults, partial);
    var gcps := Lift(ring, refine);
    var gcpLines := GcpsToGcpLines(gcps, true);
    var refinedGcpLines := SplitGcpLines(gcpLines, refine, options);
    var refinedGcps := GcpLinesToGcps(refinedGcpLines, false);
    result := ProjectAll(refinedGcps.value, options.returnDomain);
    if |ring| > 0 {
      LiftedNodesOnRefine(gcps, gcpLines, refine);
      SplitGcpLinesNodesOnRefine(gcpLines, refine, options);
      ReadBackOnRefine(refinedGcpLines, false, refine);
      if Stops(options, 0) {
        ClosedLinesRoundTrip(gcps, gcpLines);
      }
    } else {
      assert AllOnRefine(refinedGcps.value, refine);
    }
    assert refinedGcps.value == RefinedNodes(gcps, true, refine, options);
    RefinedNodesBound(gcps, true, refine, options);
    RefinedPointsKept(ring, true, refine, options);
  }
}
