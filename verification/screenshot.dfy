/**
  The still-capture pipeline (`captureAndProcessScreenshot` in
  server-control/src/screen-utils.ts): take a raw frame, look up the display
  scale, derive the logical size as `floor(physical / scale)`, strip the row
  padding `byteWidth - width * 4`, and hand the packed RGBA pixels to the
  image library for a nearest-neighbour resize to the logical size and PNG
  encoding. Every failure is rethrown with the prefix "截图处理失败: ".
*/
module Screenshot {
  import opened Base
  import opened RowPadding
  import opened DisplayScaling

  /** What `robot.screen.capture()` returns; `image` is `None` when the buffer is missing. */
  datatype RawFrame = RawFrame(width: nat, height: nat, image: Option<seq<Byte>>, byteWidth: nat)

  const BytesPerPixel: nat := 4

  /**
    The layout robotjs guarantees for a frame with an image: each row holds
    at least `width` four-byte pixels and the buffer reaches the last row's
    pixels.
  */
  predicate WellFormed(f: RawFrame) {
    f.image.Some? ==>
      && f.byteWidth >= f.width * BytesPerPixel
      && CoversRows(f.image.value, f.width * BytesPerPixel, f.byteWidth - f.width * BytesPerPixel, f.height)
  }

  /**
    A JavaScript number that came out of `Math.floor(n / scale)`: a finite
    natural number, or `Infinity`/`NaN` when the scale is zero or not a number.
  */
  datatype Extent = Finite(n: nat) | NonFinite

  /**
    `Math.floor(physical / scale)` with the scale `r.physical / r.logical`
    computed exactly: finite exactly when the scale's pixel count is
    positive, and then the greatest `n` with `n * scale <= physical`. A
    logical count of 0 makes the scale infinite and the extent 0, as in the
    source.
  */
  function LogicalExtent(physical: nat, r: Ratio): (e: Extent)
    ensures e.Finite? <==> r.physical > 0
    ensures e.Finite? ==> e.n * r.physical <= physical * r.logical < (e.n + 1) * r.physical
  {
    if r.physical == 0 then NonFinite else Finite(physical * r.logical / r.physical)
  }

  /** At identity scale the logical extent is the physical one. */
  lemma IdentityKeepsExtent(physical: nat)
    ensures LogicalExtent(physical, Ratio(1, 1)) == Finite(physical)
  {
  }

  /**
    A scale of `k` pixels per point, however the profiler's two numbers
    spell it (`k * logical` over `logical`), divides the extent by `k`,
    rounding down.
  */
  lemma ProportionalScaleDivides(physical: nat, k: nat, logical: nat)
    requires k > 0 && logical > 0
    ensures LogicalExtent(physical, Ratio(k * logical, logical)) == Finite(physical / k)
  {
    var n, rem := physical / k, physical % k;
    var d := k * logical;
    assert physical * logical == n * d + rem * logical by {
      assert physical == n * k + rem;
    }
    assert rem * logical < d;
    DivOfSum(n, d, rem * logical);
  }

  /** Dividing `q * d + r` by `d` gives `q` when `r` is below `d`. */
  lemma DivOfSum(q: nat, d: nat, r: nat)
    requires 0 <= r < d
    ensures (q * d + r) / d == q
  {
    var a := q * d + r;
    var q', r' := a / d, a % d;
    assert a == q' * d + r';
    if q' > q {
      MulLe(q + 1, q', d);
      assert false;
    } else if q' < q {
      MulLe(q' + 1, q, d);
      assert false;
    }
  }

  lemma MulLe(a: nat, b: nat, d: nat)
    requires a <= b
    ensures a * d <= b * d
  {
    assert b * d == a * d + (b - a) * d;
  }

  /** Caller options; absent fields take the defaults quality 80 and compression level 6. */
  datatype ScreenshotOptions = ScreenshotOptions(quality: Option<int>, compressionLevel: Option<int>)

  const DefaultQuality: int := 80
  const DefaultCompressionLevel: int := 6

  /**
    What is handed to the image library: packed RGBA pixels of the physical
    size, to be resized (nearest neighbour, fill) to the target size and
    encoded as PNG with the given settings.
  */
  datatype EncodeRequest = EncodeRequest(
    pixels: seq<Byte>, width: nat, height: nat,
    targetWidth: Extent, targetHeight: Extent,
    quality: int, compressionLevel: int)

  datatype ScreenshotResult = ScreenshotResult(
    logicalWidth: Extent, logicalHeight: Extent,
    physicalWidth: nat, physicalHeight: nat,
    scaling: Scaling, request: EncodeRequest)

  const ErrorPrefix: string := "截图处理失败: "
  const CaptureFailedMessage: string := "屏幕截图捕获失败"

  /** `s` starts with `prefix`. */
  predicate StartsWith(s: string, prefix: string) {
    |prefix| <= |s| && s[..|prefix|] == prefix
  }

  /**
    The frame's pixels with the row padding `byteWidth - width * 4` removed:
    exactly `width * height * 4` bytes, where byte `i` of row `y` is the
    frame's byte `i` of row `y` read at stride `byteWidth`.
  */
  function PackedPixels(f: RawFrame): (pixels: seq<Byte>)
    requires f.image.Some? && WellFormed(f)
    ensures |pixels| == f.width * f.height * BytesPerPixel
    ensures forall y, i :: 0 <= y < f.height && 0 <= i < f.width * BytesPerPixel ==>
              && At(f.width * BytesPerPixel, y, i) < |pixels|
              && At(f.byteWidth, y, i) < |f.image.value|
              && pixels[At(f.width * BytesPerPixel, y, i)] == f.image.value[At(f.byteWidth, y, i)]
  {
    RemoveRowPadding(f.image.value, f.width, f.height, BytesPerPixel, f.byteWidth - f.width * BytesPerPixel)
  }

  /**
    The request a capture with an image hands to the image library: the
    packed pixels at the physical size, the logical size as the resize
    target, and the options with their defaults filled in.
  */
  function RequestFor(options: ScreenshotOptions, f: RawFrame, report: ProfilerReport): EncodeRequest
    requires f.image.Some? && WellFormed(f)
  {
    var scaling := GetDisplayScaling(report);
    var quality := match options.quality case Some(q) => q case None => DefaultQuality;
    var level := match options.compressionLevel case Some(c) => c case None => DefaultCompressionLevel;
    EncodeRequest(PackedPixels(f), f.width, f.height,
                  LogicalExtent(f.width, scaling.x), LogicalExtent(f.height, scaling.y), quality, level)
  }

  /**
    One still capture. `capture` is what robotjs returned (`None` for no
    result), `report` is the display query, and `encode` is the image
    library: it returns `Some(message)` when it throws on a request.

    A capture without an image fails with the prefixed capture-failure
    message, before the image library is asked anything. Otherwise the
    image library is handed the packed pixels at the physical size, with
    the logical size (the physical size over the display scale, rounded
    down) as resize target and quality 80 / compression level 6 unless
    given; the capture succeeds exactly when the library accepts that
    request, and a library failure is rethrown with the same prefix.
  */
  function CaptureAndProcessScreenshot(options: ScreenshotOptions, capture: Option<RawFrame>,
                                       report: ProfilerReport, encode: EncodeRequest -> Option<string>)
    : (r: Result<ScreenshotResult, string>)
    requires capture.Some? ==> WellFormed(capture.value)
    ensures capture.None? || capture.value.image.None? ==> r == Err(ErrorPrefix + CaptureFailedMessage)
    ensures r.Err? ==> StartsWith(r.error, ErrorPrefix)
    ensures capture.Some? && capture.value.image.Some? ==>
              var f := capture.value;
              var scaling := GetDisplayScaling(report);
              var request := EncodeRequest(
                PackedPixels(f), f.width, f.height,
                LogicalExtent(f.width, scaling.x), LogicalExtent(f.height, scaling.y),
                if options.quality.Some? then options.quality.value else DefaultQuality,
                if options.compressionLevel.Some? then options.compressionLevel.value else DefaultCompressionLevel);
              && (r.Ok? <==> encode(request).None?)
              && (r.Ok? ==> r.value == ScreenshotResult(request.targetWidth, request.targetHeight,
                                                         f.width, f.height, scaling, request))
              && (r.Err? ==> r.error == ErrorPrefix + encode(request).value)
  {
    match capture
    case None => Err(ErrorPrefix + CaptureFailedMessage)
    case Some(f) =>
      match f.image
      case None => Err(ErrorPrefix + CaptureFailedMessage)
      case Some(image) =>
        var request := RequestFor(options, f, report);
        match encode(request)
        case Some(message) => Err(ErrorPrefix + message)
        case None =>
          Ok(ScreenshotResult(request.targetWidth, request.targetHeight, f.width, f.height,
                              GetDisplayScaling(report), request))
  }

  /**
    When the display query fails the scale is the identity, so a successful
    capture keeps its physical size as its logical size.
  */
  lemma UnknownScaleKeepsSize(options: ScreenshotOptions, capture: Option<RawFrame>, encode: EncodeRequest -> Option<string>)
    requires capture.Some? ==> WellFormed(capture.value)
    ensures var r := CaptureAndProcessScreenshot(options, capture, None, encode);
            r.Ok? ==> (r.value.logicalWidth == Finite(r.value.physicalWidth)
                       && r.value.logicalHeight == Finite(r.value.physicalHeight))
  {
    var r := CaptureAndProcessScreenshot(options, capture, None, encode);
    if r.Ok? {
      IdentityKeepsExtent(capture.value.width);
      IdentityKeepsExtent(capture.value.height);
    }
  }

  /**
    On a display scaled by a whole factor `k` on both axes (a Retina
    display reports twice as many pixels as points), a successful capture's
    logical size is its physical size divided by `k`, rounded down.
  */
  lemma UniformScaleDividesSize(options: ScreenshotOptions, f: RawFrame, report: ProfilerReport,
                                encode: EncodeRequest -> Option<string>, k: nat, lw: nat, lh: nat)
    requires f.image.Some? && WellFormed(f)
    requires k > 0 && lw > 0 && lh > 0
    requires GetDisplayScaling(report) == Scaling(Ratio(k * lw, lw), Ratio(k * lh, lh))
    ensures var r := CaptureAndProcessScreenshot(options, Some(f), report, encode);
            r.Ok? ==> (&& r.value.logicalWidth.Finite? && r.value.logicalWidth.n == f.width / k
                       && r.value.logicalHeight.Finite? && r.value.logicalHeight.n == f.height / k)
  {
    LogicalSizeOfCapture(options, f, report, encode);
    ProportionalScaleDivides(f.width, k, lw);
    ProportionalScaleDivides(f.height, k, lh);
  }

  /** A successful capture's logical size is its physical size over the display scale. */
  lemma LogicalSizeOfCapture(options: ScreenshotOptions, f: RawFrame, report: ProfilerReport,
                             encode: EncodeRequest -> Option<string>)
    requires f.image.Some? && WellFormed(f)
    ensures var r := CaptureAndProcessScreenshot(options, Some(f), report, encode);
            r.Ok? ==> (r.value.logicalWidth == LogicalExtent(f.width, GetDisplayScaling(report).x)
                       && r.value.logicalHeight == LogicalExtent(f.height, GetDisplayScaling(report).y))
  {
  }

  /**
    A frame without row padding is handed on unchanged: the packed pixels
    are the first `width * height * 4` bytes of the captured buffer.
  */
  lemma UnpaddedFramePassesThrough(options: ScreenshotOptions, f: RawFrame, report: ProfilerReport,
                                   encode: EncodeRequest -> Option<string>)
    requires f.image.Some? && WellFormed(f) && f.byteWidth == f.width * BytesPerPixel
    ensures f.width * f.height * BytesPerPixel <= |f.image.value|
    ensures var r := CaptureAndProcessScreenshot(options, Some(f), report, encode);
            r.Ok? ==> r.value.request.pixels == f.image.value[..f.width * f.height * BytesPerPixel]
  {
    NoPaddingIsPrefix(f.image.value, f.width, f.height, BytesPerPixel);
  }
}
