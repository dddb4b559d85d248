/**
 * The ground control point transformer (`GCPTransformer`): it keeps the control points and the
 * transformation type, and builds the forward and the backward transformation lazily, at most once
 * each. The transformation algorithms themselves are not modelled: a `Transformation` records which
 * algorithm was chosen and the positions it was built from, and applying it is a parameter.
 */
module Transformer {
  import opened Wrappers
  import opened Geometry
  import opened Refinement

  /** The control points the constructor accepts: all `{ source, destination }` or all `{ resource, geo }`. */
  datatype ControlPoints = TransformGcps(transformGcps: seq<Gcp>) | ResourceGeoGcps(geoGcps: seq<GeoGcp>)

  /** The algorithm behind a transformation, with the order of a polynomial. */
  datatype Algorithm = Helmert | Polynomial(order: nat) | Projective | ThinPlateSpline

  /** A transformation: the algorithm and the two position lists it was built from. */
  datatype Transformation = Transformation(algorithm: Algorithm, sourcePositions: seq<Point>, destinationPositions: seq<Point>)

  const DefaultTransformationType := "polynomial"

  const NoControlPointsError := "No control points."

  function Count(points: ControlPoints): nat
  {
    match points
    case TransformGcps(gcps) => |gcps|
    case ResourceGeoGcps(gcps) => |gcps|
  }

  /** The control points as `{ source, destination }`: a `{ resource, geo }` point has the resource as source. */
  function NormalizeGcps(points: ControlPoints): (gcps: seq<Gcp>)
    ensures |gcps| == Count(points)
    ensures points.ResourceGeoGcps? ==>
      forall i :: 0 <= i < |gcps| ==> gcps[i].source == points.geoGcps[i].resource && gcps[i].destination == points.geoGcps[i].geo
    ensures points.TransformGcps? ==> gcps == points.transformGcps
  {
    match points
    case TransformGcps(gcps) => gcps
    case ResourceGeoGcps(geoGcps) =>
      seq(|geoGcps|, i requires 0 <= i < |geoGcps| => Gcp(geoGcps[i].resource, geoGcps[i].geo))
  }

  /** Normalising control points written by `generalGcpToGcp` gives back the general GCPs. */
  lemma NormalizeGeneralGcps(gcps: seq<Gcp>)
    ensures NormalizeGcps(ResourceGeoGcps(seq(|gcps|, i requires 0 <= i < |gcps| => GeneralGcpToGcp(gcps[i])))) == gcps
  {
    var written := seq(|gcps|, i requires 0 <= i < |gcps| => GeneralGcpToGcp(gcps[i]));
    assert forall i :: 0 <= i < |gcps| ==> NormalizeGcps(ResourceGeoGcps(written))[i] == gcps[i];
  }

  function Sources(gcps: seq<Gcp>): (positions: seq<Point>)
    ensures |positions| == |gcps|
    ensures forall i :: 0 <= i < |gcps| ==> positions[i] == gcps[i].source
  {
    seq(|gcps|, i requires 0 <= i < |gcps| => gcps[i].source)
  }

  function Destinations(gcps: seq<Gcp>): (positions: seq<Point>)
    ensures |positions| == |gcps|
    ensures forall i :: 0 <= i < |gcps| ==> positions[i] == gcps[i].destination
  {
    seq(|gcps|, i requires 0 <= i < |gcps| => gcps[i].destination)
  }

  /** The source positions are the resource points and the destination positions the geo points, in order. */
  lemma NormalizedPositions(geoGcps: seq<GeoGcp>)
    ensures var gcps := NormalizeGcps(ResourceGeoGcps(geoGcps));
      && |Sources(gcps)| == |Destinations(gcps)| == |geoGcps|
      && forall i :: 0 <= i < |geoGcps| ==> Sources(gcps)[i] == geoGcps[i].resource && Destinations(gcps)[i] == geoGcps[i].geo
  {
  }

  /** The transformation types the dispatch knows. */
  const SupportedTypes: set<string> :=
    {"helmert", "polynomial", "polynomial1", "polynomial2", "polynomial3", "projective", "thinPlateSpline"}

  /** The algorithm a supported type names. */
  function AlgorithmOf(transformationType: string): Algorithm
    requires transformationType in SupportedTypes
  {
    match transformationType
    case "helmert" => Helmert
    case "polynomial2" => Polynomial(2)
    case "polynomial3" => Polynomial(3)
    case "projective" => Projective
    case "thinPlateSpline" => ThinPlateSpline
    case _ => Polynomial(1)
  }

  /**
   * `createTransformation` as a function: the transformation of the named algorithm from the first
   * list to the second, or the error for a type outside the supported ones.
   */
  function CreateTransformation(transformationType: string, sourcePositions: seq<Point>, destinationPositions: seq<Point>)
    : (r: Result<Transformation, string>)
    ensures r.Success? <==> transformationType in SupportedTypes
    ensures r.Success? ==> r.value.sourcePositions == sourcePositions && r.value.destinationPositions == destinationPositions
    ensures r.Failure? ==> r.error == "Unsupported transformation type: " + transformationType
  {
    if transformationType in SupportedTypes then
      Success(Transformation(AlgorithmOf(transformationType), sourcePositions, destinationPositions))
    else
      Failure("Unsupported transformation type: " + transformationType)
  }

  /**
   * The default type is a first-order polynomial, as is `polynomial1`; `polynomial2` and
   * `polynomial3` select orders 2 and 3.
   */
  lemma PolynomialOrders(sourcePositions: seq<Point>, destinationPositions: seq<Point>)
    ensures CreateTransformation(DefaultTransformationType, sourcePositions, destinationPositions)
      == CreateTransformation("polynomial1", sourcePositions, destinationPositions)
      == Success(Transformation(Polynomial(1), sourcePositions, destinationPositions))
    ensures CreateTransformation("polynomial2", sourcePositions, destinationPositions).value.algorithm == Polynomial(2)
    ensures CreateTransformation("polynomial3", sourcePositions, destinationPositions).value.algorithm == Polynomial(3)
  {
  }

  /** The backward transformation is the forward one's algorithm on the swapped lists. */
  lemma BackwardSwapsLists(transformationType: string, sourcePositions: seq<Point>, destinationPositions: seq<Point>)
    ensures var forward := CreateTransformation(transformationType, sourcePositions, destinationPositions);
      var backward := CreateTransformation(transformationType, destinationPositions, sourcePositions);
      && (forward.Success? <==> backward.Success?)
      && (forward.Success? ==> backward.value == forward.value.(sourcePositions := destinationPositions, destinationPositions := sourcePositions))
      && (forward.Failure? ==> backward == forward)
  {
  }

  // Lazy initialisation of a cached transformation

  /**
   * `if (!cached) cached = create(); return cached`: the new cache and the outcome. A cached value is
   * used as it is; otherwise a created transformation is stored, and a failure leaves the cache empty.
   */
  function LazyInit(cache: Option<Transformation>, created: Result<Transformation, string>)
    : (Option<Transformation>, Result<Transformation, string>)
  {
    if cache.Some? then (cache, Success(cache.value))
    else if created.Success? then (Some(created.value), created)
    else (None, created)
  }

  /** The cache after a sequence of calls, each of which would create `attempts[i]` if it had to. */
  function AfterCalls(cache: Option<Transformation>, attempts: seq<Result<Transformation, string>>): Option<Transformation>
    decreases |attempts|
  {
    if |attempts| == 0 then cache else AfterCalls(LazyInit(cache, attempts[0]).0, attempts[1..])
  }

  /** The first successful creation among the attempts, if any. */
  function FirstCreated(attempts: seq<Result<Transformation, string>>): Option<Transformation>
    decreases |attempts|
  {
    if |attempts| == 0 then None
    else if attempts[0].Success? then Some(attempts[0].value)
    else FirstCreated(attempts[1..])
  }

  /**
   * The transformation is created at most once: over any sequence of calls, a filled cache is never
   * replaced, and an empty one ends up holding the first transformation that was created, failed
   * creations leaving it empty for the next call to retry.
   */
  lemma {:induction false} CreatedAtMostOnce(cache: Option<Transformation>, attempts: seq<Result<Transformation, string>>)
    decreases |attempts|
    ensures cache.Some? ==> AfterCalls(cache, attempts) == cache
    ensures cache.None? ==> AfterCalls(cache, attempts) == FirstCreated(attempts)
  {
    if |attempts| > 0 {
      CreatedAtMostOnce(LazyInit(cache, attempts[0]).0, attempts[1..]);
      if cache.None? && attempts[0].Success? {
        CreatedAtMostOnce(Some(attempts[0].value), attempts[1..]);
      }
    }
  }

  /** The outcome of a call: the cached or created transformation applied to the position. */
  function Apply(outcome: Result<Transformation, string>, interpolant: (Transformation, Point) -> Point, position: Point)
    : Result<Point, string>
  {
    if outcome.Success? then Success(interpolant(outcome.value, position)) else Failure(outcome.error)
  }

  /** A call on a filled cache returns the cached transformation's value and creates nothing. */
  lemma CachedCallIgnoresCreation(cache: Transformation, created: Result<Transformation, string>,
                                  interpolant: (Transformation, Point) -> Point, position: Point)
    ensures LazyInit(Some(cache), created).0 == Some(cache)
    ensures Apply(LazyInit(Some(cache), created).1, interpolant, position) == Success(interpolant(cache, position))
  {
  }

  /** `GCPTransformer`: the control points, their two position lists, the type and the two caches. */
  class GcpTransformer {
    var gcps: seq<Gcp>
    var sourcePositions: seq<Point>
    var destinationPositions: seq<Point>
    var transformationType: string
    var forwardTransformation: Option<Transformation>
    var backwardTransformation: Option<Transformation>

    /** The position lists are the projections of the control points, and a cached transformation is the one the lists give. */
    ghost predicate Valid()
      reads this
    {
      && |gcps| > 0
      && sourcePositions == Sources(gcps)
      && destinationPositions == Destinations(gcps)
      && (forwardTransformation.Some? ==>
            CreateTransformation(transformationType, sourcePositions, destinationPositions) == Success(forwardTransformation.value))
      && (backwardTransformation.Some? ==>
            CreateTransformation(transformationType, destinationPositions, sourcePositions) == Success(backwardTransformation.value))
    }

    /** The field initialisation of the constructor, once the empty list has been ruled out. */
    constructor (points: ControlPoints, transformationType: string)
      requires Count(points) > 0
      ensures Valid()
      ensures gcps == NormalizeGcps(points) && this.transformationType == transformationType
      ensures forwardTransformation == None && backwardTransformation == None
    {
      gcps := NormalizeGcps(points);
      sourcePositions := Sources(NormalizeGcps(points));
      destinationPositions := Destinations(NormalizeGcps(points));
      this.transformationType := transformationType;
      forwardTransformation := None;
      backwardTransformation := None;
    }

    /** `createTransformation`: the type dispatch, from `sourcePositions` to `destinationPositions`. */
    method CreateTransformationFrom(sourcePositions: seq<Point>, destinationPositions: seq<Point>)
      returns (r: Result<Transformation, string>)
      ensures r == CreateTransformation(transformationType, sourcePositions, destinationPositions)
    {
      if transformationType == "helmert" {
        r := Success(Transformation(Helmert, sourcePositions, destinationPositions));
      } else if transformationType == "polynomial1" || transformationType == "polynomial" {
        r := Success(Transformation(Polynomial(1), sourcePositions, destinationPositions));
      } else if transformationType == "polynomial2" {
        r := Success(Transformation(Polynomial(2), sourcePositions, destinationPositions));
      } else if transformationType == "polynomial3" {
        r := Success(Transformation(Polynomial(3), sourcePositions, destinationPositions));
      } else if transformationType == "projective" {
        r := Success(Transformation(Projective, sourcePositions, destinationPositions));
      } else if transformationType == "thinPlateSpline" {
        r := Success(Transformation(ThinPlateSpline, sourcePositions, destinationPositions));
      } else {
        r := Failure("Unsupported transformation type: " + transformationType);
      }
    }

    /** `createForwardTransformation`: from the source positions to the destination positions. */
    method CreateForwardTransformation() returns (r: Result<Transformation, string>)
      ensures r == CreateTransformation(transformationType, sourcePositions, destinationPositions)
    {
      r := CreateTransformationFrom(sourcePositions, destinationPositions);
    }

    /** `createBackwardTransformation`: from the destination positions to the source positions. */
    method CreateBackwardTransformation() returns (r: Result<Transformation, string>)
      ensures r == CreateTransformation(transformationType, destinationPositions, sourcePositions)
    {
      r := CreateTransformationFrom(destinationPositions, sourcePositions);
    }

    /** `transformForward`: create the forward transformation if it is not cached, then apply it. */
    method TransformForward(position: Point, interpolant: (Transformation, Point) -> Point) returns (r: Result<Point, string>)
      requires Valid()
      modifies this
      ensures Valid()
      ensures var step := LazyInit(old(forwardTransformation), CreateTransformation(transformationType, sourcePositions, destinationPositions));
        forwardTransformation == step.0 && r == Apply(step.1, interpolant, position)
      ensures backwardTransformation == old(backwardTransformation)
      ensures gcps == old(gcps) && sourcePositions == old(sourcePositions) && destinationPositions == old(destinationPositions)
      ensures transformationType == old(transformationType)
    {
      if forwardTransformation.None? {
        var created := CreateForwardTransformation();
        if created.Failure? {
          return Failure(created.error);
        }
        forwardTransformation := Some(created.value);
      }
      r := Success(interpolant(forwardTransformation.value, position));
    }

    /** `transformBackward`: create the backward transformation if it is not cached, then apply it. */
    method TransformBackward(position: Point, interpolant: (Transformation, Point) -> Point) returns (r: Result<Point, string>)
      requires Valid()
      modifies this
      ensures Valid()
      ensures var step := LazyInit(old(backwardTransformation), CreateTransformation(transformationType, destinationPositions, sourcePositions));
        backwardTransformation == step.0 && r == Apply(step.1, interpolant, position)
      ensures forwardTransformation == old(forwardTransformation)
      ensures gcps == old(gcps) && sourcePositions == old(sourcePositions) && destinationPositions == old(destinationPositions)
      ensures transformationType == old(transformationType)
    {
      if backwardTransformation.None? {
        var created := CreateBackwardTransformation();
        if created.Failure? {
          return Failure(created.error);
        }
        backwardTransformation := Some(created.value);
      }
      r := Success(interpolant(backwardTransformation.value, position));
    }

    /** `transformToGeo`, an alias of `transformForward`. */
    method TransformToGeo(position: Point, interpolant: (Transformation, Point) -> Point) returns (r: Result<Point, string>)
      requires Valid()
      modifies this
      ensures Valid()
      ensures var step := LazyInit(old(forwardTransformation), CreateTransformation(transformationType, sourcePositions, destinationPositions));
        forwardTransformation == step.0 && r == Apply(step.1, interpolant, position)
      ensures backwardTransformation == old(backwardTransformation)
      ensures gcps == old(gcps) && sourcePositions == old(sourcePositions) && destinationPositions == old(destinationPositions)
      ensures transformationType == old(transformationType)
    {
      r := TransformForward(position, interpolant);
    }

    /** `transformToResource`, an alias of `transformBackward`. */
    method TransformToResource(position: Point, interpolant: (Transformation, Point) -> Point) returns (r: Result<Point, string>)
      requires Valid()
      modifies this
      ensures Valid()
      ensures var step := LazyInit(old(backwardTransformation), CreateTransformation(transformationType, destinationPositions, sourcePositions));
        backwardTransformation == step.0 && r == Apply(step.1, interpolant, position)
      ensures forwardTransformation == old(forwardTransformation)
      ensures gcps == old(gcps) && sourcePositions == old(sourcePositions) && destinationPositions == old(destinationPositions)
      ensures transformationType == old(transformationType)
    {
      r := TransformBackward(position, interpolant);
    }

    /** `transformPositionForwardToPosition`, an alias of `transformForward`. */
    method TransformPositionForwardToPosition(position: Point, interpolant: (Transformation, Point) -> Point) returns (r: Result<Point, string>)
      requires Valid()
      modifies this
      ensures Valid()
      ensures var step := LazyInit(old(forwardTransformation), CreateTransformation(transformationType, sourcePositions, destinationPositions));
        forwardTransformation == step.0 && r == Apply(step.1, interpolant, position)
      ensures backwardTransformation == old(backwardTransformation)
      ensures gcps == old(gcps) && sourcePositions == old(sourcePositions) && destinationPositions == old(destinationPositions)
      ensures transformationType == old(transformationType)
    {
      r := TransformForward(position, interpolant);
    }

    /** `transformPositionBackwardToPosition`, an alias of `transformBackward`. */
    method TransformPositionBackwardToPosition(position: Point, interpolant: (Transformation, Point) -> Point) returns (r: Result<Point, string>)
      requires Valid()
      modifies this
      ensures Valid()
      ensures var step := LazyInit(old(backwardTransformation), CreateTransformation(transformationType, destinationPositions, sourcePositions));
        backwardTransformation == step.0 && r == Apply(step.1, interpolant, position)
      ensures forwardTransformation == old(forwardTransformation)
      ensures gcps == old(gcps) && sourcePositions == old(sourcePositions) && destinationPositions == old(destinationPositions)
      ensures transformationType == old(transformationType)
    {
      r := TransformBackward(position, interpolant);
    }
  }

  /**
   * The constructor: an empty list is refused with "No control points."; otherwise the control points
   * are normalised and the type defaults to `polynomial`.
   */
  method NewGcpTransformer(points: ControlPoints, transformationType: Option<string>) returns (r: Result<GcpTransformer, string>)
    ensures r.Failure? <==> Count(points) == 0
    ensures r.Failure? ==> r.error == NoControlPointsError
    ensures r.Success? ==>
      && fresh(r.value) && r.value.Valid()
      && r.value.gcps == NormalizeGcps(points)
      && r.value.transformationType == (if transformationType.Some? then transformationType.value else DefaultTransformationType)
      && r.value.forwardTransformation == None && r.value.backwardTransformation == None
  {
    if Count(points) == 0 {
      return Failure(NoControlPointsError);
    }
    var t := new GcpTransformer(points, if transformationType.Some? then transformationType.value else DefaultTransformationType);
    r := Success(t);
  }

  // The options of the GeoJSON variants

  /** The part of `PartialTransformOptions` the transformer itself touches: whether `geographic` is set, and to what. */
  class PartialTransformOptions {
    var geographic: Option<bool>

    constructor (geographic: Option<bool>)
      ensures this.geographic == geographic
    {
      this.geographic := geographic;
    }
  }

  /** `geographic` after the defaulting: an explicit setting is kept, an absent one becomes `true`. */
  function GeographicByDefault(geographic: Option<bool>): (r: Option<bool>)
  {
    if geographic.None? then Some(true) else geographic
  }

  /** After the defaulting `geographic` is always set, an explicit setting is never overridden, and defaulting twice is defaulting once. */
  lemma GeographicByDefaultProperties(geographic: Option<bool>)
    ensures GeographicByDefault(geographic).Some?
    ensures geographic.Some? ==> GeographicByDefault(geographic) == geographic
    ensures geographic.None? ==> GeographicByDefault(geographic) == Some(true)
    ensures GeographicByDefault(GeographicByDefault(geographic)) == GeographicByDefault(geographic)
  {
  }

  /**
   * `if (options && !('geographic' in options)) options.geographic = true`, the first step of the four
   * GeoJSON variants: the caller's options object is changed in place, and absent options stay absent.
   */
  method SetGeographicByDefault(options: PartialTransformOptions?)
    modifies options
    ensures options != null ==> options.geographic == GeographicByDefault(old(options.geographic))
  {
    if options != null && options.geographic.None? {
      options.geographic := Some(true);
    }
  }
}
