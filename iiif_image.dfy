/**
 * The IIIF image descriptor (`EmbeddedImage`): reading the image service URI, the Image API major
 * version and the profile limits from a parsed IIIF resource, and serialising an image request as a
 * URL in the syntax of section 4 of the IIIF Image API 3.0.
 */
module IiifImage {
  import opened Wrappers
  import opened Geometry

  // Integers as JavaScript's `String(n)` writes them

  function Digit(d: nat): (c: char)
    requires d < 10
    ensures '0' <= c <= '9'
  {
    "0123456789"[d]
  }

  function DigitValue(c: char): (d: nat)
    requires '0' <= c <= '9'
    ensures d < 10 && Digit(d) == c
  {
    (c as int - '0' as int)
  }

  predicate IsDigits(s: string)
  {
    forall i :: 0 <= i < |s| ==> '0' <= s[i] <= '9'
  }

  /** The decimal digits of `n`, without leading zeros. */
  function NatToString(n: nat): (s: string)
    ensures |s| > 0 && IsDigits(s)
    ensures s[0] == '0' ==> n == 0 && s == "0"
    decreases n
  {
    if n < 10 then [Digit(n)] else NatToString(n / 10) + [Digit(n % 10)]
  }

  /** `String(n)` for an integer `n`: a minus sign before the digits of a negative number. */
  function IntToString(n: int): (s: string)
  {
    if n < 0 then "-" + NatToString(-n) else NatToString(n)
  }

  /** The value of a string of decimal digits. */
  function ParseNat(s: string): (n: nat)
    requires IsDigits(s)
    decreases |s|
  {
    if |s| == 0 then 0 else ParseNat(s[..|s| - 1]) * 10 + DigitValue(s[|s| - 1])
  }

  /** The value of an optional minus sign followed by decimal digits. */
  function ParseInt(s: string): Option<int>
  {
    if |s| > 0 && s[0] == '-' then
      if |s| > 1 && IsDigits(s[1..]) then Some(-(ParseNat(s[1..]) as int)) else None
    else if |s| > 0 && IsDigits(s) then Some(ParseNat(s))
    else None
  }

  lemma {:induction false} NatToStringRoundTrip(n: nat)
    decreases n
    ensures ParseNat(NatToString(n)) == n
  {
    if n >= 10 {
      var s := NatToString(n);
      assert s[..|s| - 1] == NatToString(n / 10);
      NatToStringRoundTrip(n / 10);
    }
  }

  /** `String` is read back by the integer parser, and never writes a `,` or a `/`, the separators of the URL. */
  lemma IntToStringRoundTrip(n: int)
    ensures ParseInt(IntToString(n)) == Some(n)
    ensures forall i :: 0 <= i < |IntToString(n)| ==> IntToString(n)[i] != ',' && IntToString(n)[i] != '/'
  {
    if n < 0 {
      NegativeRoundTrip(n);
    } else {
      NatToStringRoundTrip(n);
    }
  }

  /** A negative number is written as a minus sign and the digits of its magnitude. */
  lemma NegativeRoundTrip(n: int)
    requires n < 0
    ensures ParseInt(IntToString(n)) == Some(n)
    ensures forall i :: 1 <= i < |IntToString(n)| ==> '0' <= IntToString(n)[i] <= '9'
  {
    var digits := NatToString(-n);
    assert IntToString(n) == "-" + digits;
    assert ("-" + digits)[1..] == digits;
    NatToStringRoundTrip(-n);
  }

  // The parsed resource

  /** The `@context` value of a version 1 image service (IIIF Image API 1.1). */
  const Image1ContextString := "http://library.stanford.edu/iiif/image-api/1.1/context.json"

  /** The `@context` value of a version 2 image service (IIIF Image API 2). */
  const Image2ContextString := "http://iiif.io/api/image/2/context.json"

  const UnsupportedServiceMessage := "Unsupported IIIF Image Service"

  const UnsupportedImageMessage := "Unsupported IIIF Image"

  /** What the profile of a service allows; the limits are absent when the profile does not set them. */
  datatype ProfileProperties = ProfileProperties(supportsAnyRegionAndSize: bool, maxWidth: Option<int>, maxHeight: Option<int>, maxArea: Option<int>)

  /**
   * The properties of a IIIF image service or image object that the descriptor reads; an absent
   * property is `None`. A present `profile` is given as the properties its profile grants.
   */
  datatype IiifResource = IiifResource(
    atId: Option<string>,
    id: Option<string>,
    typeName: Option<string>,
    atTypeName: Option<string>,
    context: Option<string>,
    profile: Option<ProfileProperties>)

  /** The `service` property of an embedded image: one service, or an array of them. */
  datatype ServiceProperty = SingleService(service: IiifResource) | ServiceArray(services: seq<IiifResource>)

  /** A parsed image: its own properties, its `service` property and its size. */
  datatype ParsedImage = ParsedImage(resource: IiifResource, service: Option<ServiceProperty>, width: int, height: int)

  type MajorVersion = v: int | 1 <= v <= 3 witness 1

  /** Why the descriptor cannot be built: an unsupported resource, or no image service to read from. */
  datatype ParseError = Unsupported(message: string) | MissingImageService

  /** The service an embedded image describes itself by: the single one, or the first of an array. */
  function ImageService(parsed: ParsedImage): Option<IiifResource>
  {
    match parsed.service
    case None => None
    case Some(SingleService(service)) => Some(service)
    case Some(ServiceArray(services)) => if |services| > 0 then Some(services[0]) else None
  }

  /** The URI: `@id` when present, otherwise `id`. */
  function UriOf(resource: IiifResource): Option<string>
  {
    if resource.atId.Some? then resource.atId else resource.id
  }

  /** The major version of an embedded image service, tested in the order 3, 2, 1. */
  function ServiceVersionOf(service: IiifResource): Option<MajorVersion>
  {
    if service.typeName == Some("ImageService3") then Some(3)
    else if service.typeName == Some("ImageService2") || service.atTypeName == Some("ImageService2")
         || service.context == Some(Image2ContextString) then Some(2)
    else if service.context == Some(Image1ContextString) then Some(1)
    else None
  }

  /** The major version of an image that is itself an image service, tested in the order 3, 2, 1. */
  function ImageVersionOf(image: IiifResource): Option<MajorVersion>
  {
    if image.typeName == Some("ImageService3") then Some(3)
    else if image.atTypeName == Some("iiif:Image") || image.context == Some(Image2ContextString) then Some(2)
    else if image.context == Some(Image1ContextString) then Some(1)
    else None
  }

  /** The profile's properties, or no support for any region and size and no limits when there is no profile. */
  function ProfileOf(resource: IiifResource): ProfileProperties
  {
    if resource.profile.Some? then resource.profile.value else ProfileProperties(false, None, None, None)
  }

  /** The resource the descriptor reads: the image service when embedded, the image itself otherwise. */
  function Described(parsed: ParsedImage, embedded: bool): Option<IiifResource>
  {
    if embedded then ImageService(parsed) else Some(parsed.resource)
  }

  function VersionOf(resource: IiifResource, embedded: bool): Option<MajorVersion>
  {
    if embedded then ServiceVersionOf(resource) else ImageVersionOf(resource)
  }

  /** The first reason, in the constructor's order, why no descriptor can be built; `None` when one can. */
  function ParseFailure(parsed: ParsedImage, embedded: bool): Option<ParseError>
  {
    var message := if embedded then UnsupportedServiceMessage else UnsupportedImageMessage;
    match Described(parsed, embedded)
    case None => Some(MissingImageService)
    case Some(resource) =>
      if UriOf(resource).None? then Some(Unsupported(message))
      else if VersionOf(resource, embedded).None? then Some(Unsupported(message))
      else None
  }

  /**
   * A descriptor is built exactly when there is a resource to read, it has an `@id` or an `id`, and
   * it carries one of the version markers; an unsupported resource is refused with the message of
   * its kind.
   */
  lemma ParseFailureCases(parsed: ParsedImage, embedded: bool)
    ensures ParseFailure(parsed, embedded).None? <==>
      && Described(parsed, embedded).Some?
      && (Described(parsed, embedded).value.atId.Some? || Described(parsed, embedded).value.id.Some?)
      && VersionOf(Described(parsed, embedded).value, embedded).Some?
    ensures ParseFailure(parsed, embedded) == Some(MissingImageService) <==>
      embedded && (parsed.service.None? || parsed.service == Some(ServiceArray([])))
    ensures ParseFailure(parsed, embedded).Some? && ParseFailure(parsed, embedded).value.Unsupported? ==>
      ParseFailure(parsed, embedded).value.message == (if embedded then UnsupportedServiceMessage else UnsupportedImageMessage)
  {
  }

  /** `@id` takes precedence over `id`; `id` is used only when `@id` is absent. */
  lemma UriPrecedence(resource: IiifResource)
    ensures resource.atId.Some? ==> UriOf(resource) == resource.atId
    ensures resource.atId.None? ==> UriOf(resource) == resource.id
  {
  }

  /**
   * The version markers are tested in the order 3, 2, 1: a `type` of `ImageService3` wins over any
   * context, and a version 2 marker wins over the version 1 context.
   */
  lemma VersionOrder(resource: IiifResource, embedded: bool)
    ensures resource.typeName == Some("ImageService3") ==> VersionOf(resource, embedded) == Some(3)
    ensures resource.typeName != Some("ImageService3") && resource.context == Some(Image2ContextString) ==>
      VersionOf(resource, embedded) == Some(2)
    ensures VersionOf(resource, embedded) == Some(1) <==>
      && resource.context == Some(Image1ContextString)
      && resource.typeName != Some("ImageService3")
      && (if embedded then resource.typeName != Some("ImageService2") && resource.atTypeName != Some("ImageService2")
          else resource.atTypeName != Some("iiif:Image"))
  {
  }

  /** A service's `type` of `ImageService2` marks version 2 only for an embedded service, not for an image. */
  lemma ImageService2TypeOnlyEmbedded()
    ensures var resource := IiifResource(Some("uri"), None, Some("ImageService2"), None, None, None);
      VersionOf(resource, true) == Some(2) && VersionOf(resource, false) == None
  {
  }

  /** Without a profile, not every region and size is supported and no limit is set. */
  lemma NoProfileNoLimits(resource: IiifResource)
    ensures resource.profile.None? ==>
      && !ProfileOf(resource).supportsAnyRegionAndSize
      && ProfileOf(resource).maxWidth.None? && ProfileOf(resource).maxHeight.None? && ProfileOf(resource).maxArea.None?
    ensures resource.profile.Some? ==> ProfileOf(resource) == resource.profile.value
  {
  }

  // The request

  /** A region `x,y,w,h` in pixels of the full image. */
  datatype Region = Region(x: int, y: int, width: int, height: int)

  /** A requested size in pixels; it is rounded to integers before use. */
  datatype Size = Size(width: real, height: real)

  datatype ImageRequest = ImageRequest(region: Option<Region>, size: Option<Size>)

  /** `Math.round`: the nearest integer, halves rounded up. */
  function Round(r: real): (n: int)
    ensures r - 0.5 < n as real <= r + 0.5
  {
    Floor(r + 0.5)
  }

  /** The region segment: `full`, or `x,y,w,h`. */
  function RegionString(region: Option<Region>): string
  {
    if region.Some? then
      IntToString(region.value.x) + "," + IntToString(region.value.y) + ","
        + IntToString(region.value.width) + "," + IntToString(region.value.height)
    else "full"
  }

  /** The requested width and height: the rounded size, or the image's own size when no size is asked for. */
  function RequestedSize(size: Option<Size>, imageWidth: int, imageHeight: int): (int, int)
  {
    if size.Some? then (Round(size.value.width), Round(size.value.height)) else (imageWidth, imageHeight)
  }

  /** The region's width and height: the requested region's, or the image's own without one. */
  function RegionSize(region: Option<Region>, imageWidth: int, imageHeight: int): (int, int)
  {
    if region.Some? then (region.value.width, region.value.height) else (imageWidth, imageHeight)
  }

  /**
   * The size segment. With a size it is `w,` when the height follows from the region's aspect ratio and
   * `w,h` otherwise. For region sides that are not 0, `roundedAspectRatioHeight(h, regionWidth, regionHeight)`
   * is the rounded height recomputed through the aspect ratio in floating point. When a side is 0 the
   * aspect ratio is 0 or an infinity, the recomputed height is `0 / 0` or `Infinity / Infinity`, which is
   * `NaN` and never equal to the height, so the height is written. Without a size it is `full` for
   * version 2 and `max` otherwise.
   */
  function SizeString(size: Option<Size>, majorVersion: MajorVersion, regionWidth: int, regionHeight: int,
                      roundedAspectRatioHeight: (int, int, int) -> int): string
  {
    if size.Some? then
      var (width, height) := RequestedSize(size, 0, 0);
      var heightFollows := regionWidth != 0 && regionHeight != 0 && height == roundedAspectRatioHeight(height, regionWidth, regionHeight);
      IntToString(width) + "," + (if heightFollows then "" else IntToString(height))
    else if majorVersion == 2 then "full"
    else "max"
  }

  function Quality(majorVersion: MajorVersion): string
  {
    if majorVersion == 1 then "native" else "default"
  }

  /** The first limit, in the order width, height, area, that the requested size exceeds, as an error message. */
  function LimitError(width: int, height: int, maxWidth: Option<int>, maxHeight: Option<int>, maxArea: Option<int>): Option<string>
  {
    if maxWidth.Some? && width > maxWidth.value then
      Some("Width of requested image is too large: " + IntToString(width) + " > " + IntToString(maxWidth.value))
    else if maxHeight.Some? && height > maxHeight.value then
      Some("Height of requested image is too large: " + IntToString(height) + " > " + IntToString(maxHeight.value))
    else if maxArea.Some? && width * height > maxArea.value then
      Some("Area of requested image is too large: " + IntToString(width * height) + " > " + IntToString(maxArea.value))
    else None
  }

  /** Every limit that is set is respected; a limit that is not set constrains nothing. */
  predicate WithinLimits(width: int, height: int, maxWidth: Option<int>, maxHeight: Option<int>, maxArea: Option<int>)
  {
    && (maxWidth.Some? ==> width <= maxWidth.value)
    && (maxHeight.Some? ==> height <= maxHeight.value)
    && (maxArea.Some? ==> width * height <= maxArea.value)
  }

  /** The request is refused exactly when a set limit is exceeded, and the message reports the first one. */
  lemma LimitErrorIff(width: int, height: int, maxWidth: Option<int>, maxHeight: Option<int>, maxArea: Option<int>)
    ensures LimitError(width, height, maxWidth, maxHeight, maxArea).None? <==> WithinLimits(width, height, maxWidth, maxHeight, maxArea)
    ensures maxWidth.Some? && width > maxWidth.value ==>
      LimitError(width, height, maxWidth, maxHeight, maxArea)
        == Some("Width of requested image is too large: " + IntToString(width) + " > " + IntToString(maxWidth.value))
    ensures (maxWidth.None? || width <= maxWidth.value) && maxHeight.Some? && height > maxHeight.value ==>
      LimitError(width, height, maxWidth, maxHeight, maxArea)
        == Some("Height of requested image is too large: " + IntToString(height) + " > " + IntToString(maxHeight.value))
  {
  }

  /** `EmbeddedImage`: the fields the constructor sets. */
  class EmbeddedImage {
    var embedded: bool
    var uri: string
    var maxWidth: Option<int>
    var maxHeight: Option<int>
    var maxArea: Option<int>
    var supportsAnyRegionAndSize: bool
    var width: int
    var height: int
    var majorVersion: MajorVersion

    /** The field assignments once the URI, the version and the profile have been read. */
    constructor (uri: string, majorVersion: MajorVersion, profile: ProfileProperties, width: int, height: int)
      ensures this.embedded && this.uri == uri && this.majorVersion == majorVersion
      ensures supportsAnyRegionAndSize == profile.supportsAnyRegionAndSize
      ensures maxWidth == profile.maxWidth && maxHeight == profile.maxHeight && maxArea == profile.maxArea
      ensures this.width == width && this.height == height
    {
      embedded := true;
      this.uri := uri;
      this.majorVersion := majorVersion;
      supportsAnyRegionAndSize := profile.supportsAnyRegionAndSize;
      maxWidth := profile.maxWidth;
      maxHeight := profile.maxHeight;
      maxArea := profile.maxArea;
      this.width := width;
      this.height := height;
    }

    /**
     * `getImageUrl`: `uri/region/size/0/quality.jpg`, or the error for the first limit the requested
     * size exceeds.
     */
    function GetImageUrl(request: ImageRequest, roundedAspectRatioHeight: (int, int, int) -> int): (r: Result<string, string>)
      reads this
    {
      var (requestedWidth, requestedHeight) := RequestedSize(request.size, width, height);
      var (regionWidth, regionHeight) := RegionSize(request.region, width, height);
      var limitError := LimitError(requestedWidth, requestedHeight, maxWidth, maxHeight, maxArea);
      if limitError.Some? then Failure(limitError.value)
      else
        Success(uri + "/" + RegionString(request.region) + "/"
                + SizeString(request.size, majorVersion, regionWidth, regionHeight, roundedAspectRatioHeight)
                + "/0/" + Quality(majorVersion) + ".jpg")
    }

    /** The URL is refused exactly when the requested size, or the image's size without one, exceeds a set limit. */
    lemma GetImageUrlSucceedsIff(request: ImageRequest, roundedAspectRatioHeight: (int, int, int) -> int)
      ensures var (w, h) := RequestedSize(request.size, width, height);
        && (GetImageUrl(request, roundedAspectRatioHeight).Success? <==> WithinLimits(w, h, maxWidth, maxHeight, maxArea))
        && (GetImageUrl(request, roundedAspectRatioHeight).Failure? ==>
              Some(GetImageUrl(request, roundedAspectRatioHeight).error) == LimitError(w, h, maxWidth, maxHeight, maxArea))
    {
      var (w, h) := RequestedSize(request.size, width, height);
      LimitErrorIff(w, h, maxWidth, maxHeight, maxArea);
    }

    /**
     * The segments of a URL: the region is `full` exactly when no region is asked for; without a size the
     * size is `full` for version 2 and `max` otherwise; a size starts with the rounded width and a comma;
     * the rotation is `0`, and the quality `native` exactly for version 1.
     */
    lemma GetImageUrlSegments(request: ImageRequest, roundedAspectRatioHeight: (int, int, int) -> int)
      requires GetImageUrl(request, roundedAspectRatioHeight).Success?
      ensures exists sizeSegment: string ::
        && GetImageUrl(request, roundedAspectRatioHeight).value
             == uri + "/" + RegionString(request.region) + "/" + sizeSegment + "/0/" + Quality(majorVersion) + ".jpg"
        && (request.size.None? ==> sizeSegment == (if majorVersion == 2 then "full" else "max"))
        && (request.size.Some? ==> sizeSegment[..|IntToString(Round(request.size.value.width))| + 1]
                                     == IntToString(Round(request.size.value.width)) + ",")
      ensures RegionString(request.region) == "full" <==> request.region.None?
      ensures Quality(majorVersion) == "native" <==> majorVersion == 1
    {
      var (regionWidth, regionHeight) := RegionSize(request.region, width, height);
      var sizeSegment := SizeString(request.size, majorVersion, regionWidth, regionHeight, roundedAspectRatioHeight);
      if request.size.Some? {
        var prefix := IntToString(Round(request.size.value.width)) + ",";
        assert sizeSegment[..|prefix|] == prefix;
      }
      if request.region.Some? {
        assert RegionString(request.region)[|IntToString(request.region.value.x)|] == ',';
        IntToStringRoundTrip(request.region.value.x);
      }
    }

    /**
     * When the region has no side of 0 and the height recomputed through the aspect ratio rounds back to
     * the requested height, as it does in exact arithmetic, the size segment is the width and a comma alone.
     */
    lemma ExactAspectRatioOmitsHeight(request: ImageRequest, roundedAspectRatioHeight: (int, int, int) -> int)
      requires request.size.Some?
      requires forall h, rw, rh :: rw != 0 && rh != 0 ==> roundedAspectRatioHeight(h, rw, rh) == h
      requires RegionSize(request.region, width, height).0 != 0 && RegionSize(request.region, width, height).1 != 0
      requires WithinLimits(Round(request.size.value.width), Round(request.size.value.height), maxWidth, maxHeight, maxArea)
      ensures GetImageUrl(request, roundedAspectRatioHeight)
        == Success(uri + "/" + RegionString(request.region) + "/" + IntToString(Round(request.size.value.width)) + ","
                   + "/0/" + Quality(majorVersion) + ".jpg")
    {
      LimitErrorIff(Round(request.size.value.width), Round(request.size.value.height), maxWidth, maxHeight, maxArea);
      var (regionWidth, regionHeight) := RegionSize(request.region, width, height);
      var widthSegment := IntToString(Round(request.size.value.width)) + ",";
      assert SizeString(request.size, majorVersion, regionWidth, regionHeight, roundedAspectRatioHeight) == widthSegment;
      var head := uri + "/" + RegionString(request.region) + "/";
      assert head + widthSegment == head + IntToString(Round(request.size.value.width)) + ",";
    }

    /**
     * When the region has a side of 0 the aspect ratio is 0 or an infinity, the recomputed height is
     * `NaN`, and the size segment always carries the height, whatever the rounding.
     */
    lemma ZeroRegionSideWritesHeight(request: ImageRequest, roundedAspectRatioHeight: (int, int, int) -> int)
      requires request.size.Some?
      requires RegionSize(request.region, width, height).0 == 0 || RegionSize(request.region, width, height).1 == 0
      requires WithinLimits(Round(request.size.value.width), Round(request.size.value.height), maxWidth, maxHeight, maxArea)
      ensures GetImageUrl(request, roundedAspectRatioHeight)
        == Success(uri + "/" + RegionString(request.region) + "/" + IntToString(Round(request.size.value.width)) + ","
                   + IntToString(Round(request.size.value.height)) + "/0/" + Quality(majorVersion) + ".jpg")
    {
      LimitErrorIff(Round(request.size.value.width), Round(request.size.value.height), maxWidth, maxHeight, maxArea);
      var (regionWidth, regionHeight) := RegionSize(request.region, width, height);
      var sizeSegment := IntToString(Round(request.size.value.width)) + "," + IntToString(Round(request.size.value.height));
      assert SizeString(request.size, majorVersion, regionWidth, regionHeight, roundedAspectRatioHeight) == sizeSegment;
      var head := uri + "/" + RegionString(request.region) + "/";
      assert head + sizeSegment == head + IntToString(Round(request.size.value.width)) + "," + IntToString(Round(request.size.value.height));
    }
  }

  /**
   * The constructor: read the URI, the version and the profile from the image service (embedded) or
   * from the image itself, refusing an unsupported resource, then take the size from the image.
   */
  method NewEmbeddedImage(parsed: ParsedImage, embedded: bool) returns (r: Result<EmbeddedImage, ParseError>)
    ensures r.Failure? <==> ParseFailure(parsed, embedded).Some?
    ensures r.Failure? ==> r.error == ParseFailure(parsed, embedded).value
    ensures r.Success? ==>
      var resource := Described(parsed, embedded).value;
      && fresh(r.value) && r.value.embedded
      && r.value.uri == UriOf(resource).value
      && r.value.majorVersion == VersionOf(resource, embedded).value
      && r.value.supportsAnyRegionAndSize == ProfileOf(resource).supportsAnyRegionAndSize
      && r.value.maxWidth == ProfileOf(resource).maxWidth
      && r.value.maxHeight == ProfileOf(resource).maxHeight
      && r.value.maxArea == ProfileOf(resource).maxArea
      && r.value.width == parsed.width && r.value.height == parsed.height
  {
    var resource: IiifResource;
    var message: string;
    if embedded {
      message := UnsupportedServiceMessage;
      match parsed.service {
        case None =>
          return Failure(MissingImageService);
        case Some(SingleService(service)) =>
          resource := service;
        case Some(ServiceArray(services)) =>
          if |services| == 0 {
            return Failure(MissingImageService);
          }
          resource := services[0];
      }
    } else {
      message := UnsupportedImageMessage;
      resource := parsed.resource;
    }

    var uri: string;
    if resource.atId.Some? {
      uri := resource.atId.value;
    } else if resource.id.Some? {
      uri := resource.id.value;
    } else {
      return Failure(Unsupported(message));
    }

    var majorVersion: MajorVersion;
    if resource.typeName == Some("ImageService3") {
      majorVersion := 3;
    } else if (embedded && (resource.typeName == Some("ImageService2") || resource.atTypeName == Some("ImageService2")))
              || (!embedded && resource.atTypeName == Some("iiif:Image"))
              || resource.context == Some(Image2ContextString) {
      majorVersion := 2;
    } else if resource.context == Some(Image1ContextString) {
      majorVersion := 1;
    } else {
      return Failure(Unsupported(message));
    }

    var profile := ProfileProperties(false, None, None, None);
    if resource.profile.Some? {
      profile := resource.profile.value;
    }

    var image := new EmbeddedImage(uri, majorVersion, profile, parsed.width, parsed.height);
    r := Success(image);
  }
}
