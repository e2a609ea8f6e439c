/**
  The screen routes of server-control/src/server.ts.

  `/screen/info` reports the primary display, the first display flagged
  main or else the first display. `/screen/analyze` captures the screen,
  rejects a capture without an image, and converts robotjs's BGRA bytes to
  the RGBA bytes of a canvas `ImageData` by swapping the red and blue
  channels of every pixel.

  The route's conversion reads the captured buffer at the packed offset
  `(y * width + x) * 4` and ignores the row stride `byteWidth` that the
  still-capture pipeline honours. `ConvertImageData` models the loop as
  written and `AnalyzeCapture` runs it on the captured buffer, as the
  route does; `AsWrittenReadsPadding` exhibits a padded frame the route
  misreads. `ConvertCapture` is the corrected conversion of the packed
  rows, and `AnalyzeUnpaddedIsCorrect` shows the route agrees with it
  whenever the capture has no row padding.
*/
module ServerScreen {
  import opened Base
  import opened RowPadding
  import opened Screenshot
  import opened VideoStreamer

  /**
    `displays.find(d => d.main) || displays[0]`: the first display flagged
    main, else the first display. With no display at all the route fails
    reading a property of `undefined`, which is `None` here.
  */
  function PrimaryIndex(displays: seq<GraphicsDisplay>): (r: Option<nat>)
    ensures r.None? <==> |displays| == 0
    ensures r.Some? ==> r.value < |displays|
    ensures r.Some? && displays[r.value].main ==> forall j :: 0 <= j < r.value ==> !displays[j].main
    ensures r.Some? && !displays[r.value].main ==> r.value == 0 && forall j :: 0 <= j < |displays| ==> !displays[j].main
  {
    match FindFirst(displays, IsMainGraphics)
    case Some(k) => Some(k)
    case None => if |displays| == 0 then None else Some(0)
  }

  /**
    Whenever a main display exists, the display the info route reports is
    the one the streamer sizes its capture by.
  */
  lemma PrimaryIsStreamedDisplay(displays: seq<GraphicsDisplay>)
    ensures FindFirst(displays, IsMainGraphics).Some? ==> PrimaryIndex(displays) == FindFirst(displays, IsMainGraphics)
    ensures (exists j :: 0 <= j < |displays| && displays[j].main) ==> displays[PrimaryIndex(displays).value].main
  {
  }

  /**
    Byte `k` of `bgraData` as the route stores it into the canvas: a read
    past the end of the buffer yields `undefined`, which the clamped byte
    array stores as 0.
  */
  function Channel(b: seq<Byte>, k: nat): Byte {
    if k < |b| then b[k] else 0
  }

  /** Position of channel `c` of pixel `p` in a buffer of four-byte pixels. */
  function Px(p: nat, c: nat): nat {
    4 * p + c
  }

  /** The BGRA position read for RGBA position `k`: red and blue trade places, green and alpha stay. */
  function SwapSource(k: nat): nat {
    var c := k % 4;
    if c == 0 then k + 2 else if c == 2 then k - 2 else k
  }

  /**
    The RGBA image of `width * height` pixels made from BGRA bytes: pixel
    `p`'s red is the source's byte 2 of that pixel, green stays byte 1,
    blue is byte 0 and alpha stays byte 3.
  */
  function BgraToRgba(bgra: seq<Byte>, width: nat, height: nat): (rgba: seq<Byte>)
    ensures |rgba| == width * height * 4
    ensures forall p :: 0 <= p < width * height ==>
              && rgba[Px(p, 0)] == Channel(bgra, Px(p, 2))
              && rgba[Px(p, 1)] == Channel(bgra, Px(p, 1))
              && rgba[Px(p, 2)] == Channel(bgra, Px(p, 0))
              && rgba[Px(p, 3)] == Channel(bgra, Px(p, 3))
  {
    var rgba := seq(width * height * 4, k requires 0 <= k < width * height * 4 => Channel(bgra, SwapSource(k)));
    forall p | 0 <= p < width * height
      ensures && rgba[Px(p, 0)] == Channel(bgra, Px(p, 2))
              && rgba[Px(p, 1)] == Channel(bgra, Px(p, 1))
              && rgba[Px(p, 2)] == Channel(bgra, Px(p, 0))
              && rgba[Px(p, 3)] == Channel(bgra, Px(p, 3))
    {
      SwapWithinPixel(p);
    }
    rgba
  }

  /** Inside pixel `p`, bytes 0 and 2 trade places and bytes 1 and 3 stay. */
  lemma SwapWithinPixel(p: nat)
    ensures SwapSource(Px(p, 0)) == Px(p, 2) && SwapSource(Px(p, 1)) == Px(p, 1)
    ensures SwapSource(Px(p, 2)) == Px(p, 0) && SwapSource(Px(p, 3)) == Px(p, 3)
  {
  }

  /** A swapped position stays inside a buffer of whole pixels, and swapping twice gives it back. */
  lemma SwapSourceInvolution(k: nat, n: nat)
    requires k < n && n % 4 == 0
    ensures SwapSource(k) < n && SwapSource(SwapSource(k)) == k
  {
  }

  /** Converting twice restores the original pixels. */
  lemma {:induction false} ConvertTwiceRestores(bgra: seq<Byte>, width: nat, height: nat)
    requires width * height * 4 <= |bgra|
    ensures BgraToRgba(BgraToRgba(bgra, width, height), width, height) == bgra[..width * height * 4]
  {
    var n := width * height * 4;
    var once := BgraToRgba(bgra, width, height);
    var twice := BgraToRgba(once, width, height);
    forall k | 0 <= k < n
      ensures twice[k] == bgra[k]
    {
      SwapSourceInvolution(k, n);
    }
  }

  /** Bytes past the last pixel play no part in the conversion. */
  lemma {:induction false} ConvertIgnoresTail(bgra: seq<Byte>, width: nat, height: nat)
    requires width * height * 4 <= |bgra|
    ensures BgraToRgba(bgra[..width * height * 4], width, height) == BgraToRgba(bgra, width, height)
  {
    var n := width * height * 4;
    var a := BgraToRgba(bgra[..n], width, height);
    var b := BgraToRgba(bgra, width, height);
    forall k | 0 <= k < n
      ensures a[k] == b[k]
    {
      SwapSourceInvolution(k, n);
    }
  }

  /**
    The canvas bytes after the loop has filled positions below `m`: those
    hold the converted bytes, the rest are still 0.
  */
  function Filled(bgra: seq<Byte>, n: nat, m: nat): (data: seq<Byte>)
    ensures |data| == n
  {
    seq(n, k requires 0 <= k < n => if k < m then Channel(bgra, SwapSource(k)) else 0)
  }

  /** Filling the four bytes of the pixel at `q` extends the filled prefix by one pixel. */
  lemma FillPixel(bgra: seq<Byte>, n: nat, q: nat)
    requires q % 4 == 0 && q + 4 <= n
    ensures Filled(bgra, n, q)[q := Channel(bgra, q + 2)][q + 1 := Channel(bgra, q + 1)]
                              [q + 2 := Channel(bgra, q)][q + 3 := Channel(bgra, q + 3)]
            == Filled(bgra, n, q + 4)
  {
    assert SwapSource(q) == q + 2 && SwapSource(q + 1) == q + 1;
    assert SwapSource(q + 2) == q && SwapSource(q + 3) == q + 3;
  }

  /**
    Where the loop writes pixel `x` of row `y`: `(y * width + x) * 4`,
    four bytes that lie inside the canvas, with the next column's pixel
    right after them.
  */
  lemma PixelStart(width: nat, height: nat, y: nat, x: nat)
    requires y < height && x < width
    ensures (y * width + x) * 4 == 4 * At(width, y, x)
    ensures 4 * At(width, y, x) + 4 <= width * height * 4
    ensures At(width, y, x + 1) == At(width, y, x) + 1
  {
    AtIsProduct(width, y, x);
    AtShift(width, y, x);
    AtShift(width, y, x + 1);
    PixelInFrame(width, height, y, x);
  }

  /** The last column of row `y` ends where row `y + 1` starts, and row `height` ends the canvas. */
  lemma RowEnds(width: nat, height: nat, y: nat)
    ensures At(width, y, width) == At(width, y + 1, 0)
    ensures 4 * At(width, height, 0) == width * height * 4
  {
    AtShift(width, y, width);
    AtIsProduct(width, height, 0);
  }

  /**
    The route's loop: `imageData.data` starts as `width * height * 4` zero
    bytes, and for every row `y` and column `x` the four bytes at
    `idx = (y * width + x) * 4` are filled from `bgraData` at `idx + 2`,
    `idx + 1`, `idx` and `idx + 3`. The result is the BGRA to RGBA
    conversion of `bgraData` read as packed rows.
  */
  method ConvertImageData(bgra: seq<Byte>, width: nat, height: nat) returns (data: seq<Byte>)
    ensures data == BgraToRgba(bgra, width, height)
  {
    var n := width * height * 4;
    data := seq(n, _ => 0);
    assert data == Filled(bgra, n, 0);
    var y := 0;
    while y < height
      invariant 0 <= y <= height
      invariant data == Filled(bgra, n, 4 * At(width, y, 0))
    {
      data := ConvertRow(bgra, width, height, y, data);
      RowEnds(width, height, y);
      y := y + 1;
    }
    RowEnds(width, height, y);
    assert data == Filled(bgra, n, n);
  }

  /** The inner loop of the route: the pixels of row `y`, left to right. */
  method ConvertRow(bgra: seq<Byte>, width: nat, height: nat, y: nat, before: seq<Byte>) returns (data: seq<Byte>)
    requires y < height
    requires before == Filled(bgra, width * height * 4, 4 * At(width, y, 0))
    ensures data == Filled(bgra, width * height * 4, 4 * At(width, y, width))
  {
    var n := width * height * 4;
    data := before;
    var x := 0;
    while x < width
      invariant 0 <= x <= width
      invariant data == Filled(bgra, n, 4 * At(width, y, x))
    {
      PixelStart(width, height, y, x);
      var idx := (y * width + x) * 4;
      FillPixel(bgra, n, idx);
      data := data[idx := Channel(bgra, idx + 2)][idx + 1 := Channel(bgra, idx + 1)]
                  [idx + 2 := Channel(bgra, idx)][idx + 3 := Channel(bgra, idx + 3)];
      x := x + 1;
    }
  }

  /** Pixel `x` of row `y` in a packed buffer of `width`-pixel rows, channel by channel. */
  lemma {:induction false} AtPixel(width: nat, y: nat, x: nat, c: nat)
    ensures At(width * BytesPerPixel, y, Px(x, c)) == Px(At(width, y, x), c)
  {
    if y > 0 {
      AtPixel(width, y - 1, x, c);
    }
  }

  /**
    The conversion of a captured frame that honours its row stride: strip
    the padding first, then swap the channels of the packed pixels.
  */
  function ConvertCapture(f: RawFrame): (rgba: seq<Byte>)
    requires f.image.Some? && WellFormed(f)
    ensures |rgba| == f.width * f.height * BytesPerPixel
  {
    BgraToRgba(PackedPixels(f), f.width, f.height)
  }

  /**
    Every pixel of the converted capture comes from the same pixel of the
    captured rows, read at stride `byteWidth`, with red and blue swapped.
  */
  lemma {:induction false} ConvertCaptureReadsRows(f: RawFrame, y: nat, x: nat)
    requires f.image.Some? && WellFormed(f)
    requires y < f.height && x < f.width
    ensures var rgba, image, out, row := ConvertCapture(f), f.image.value, f.width * BytesPerPixel, f.byteWidth;
            && At(out, y, Px(x, 3)) < |rgba|
            && At(row, y, Px(x, 3)) < |image|
            && rgba[At(out, y, Px(x, 0))] == image[At(row, y, Px(x, 2))]
            && rgba[At(out, y, Px(x, 1))] == image[At(row, y, Px(x, 1))]
            && rgba[At(out, y, Px(x, 2))] == image[At(row, y, Px(x, 0))]
            && rgba[At(out, y, Px(x, 3))] == image[At(row, y, Px(x, 3))]
  {
    var image, out, row := f.image.value, f.width * BytesPerPixel, f.byteWidth;
    var packed := PackedPixels(f);
    var rgba := BgraToRgba(packed, f.width, f.height);
    assert ConvertCapture(f) == rgba;
    var p := At(f.width, y, x);
    PixelInFrame(f.width, f.height, y, x);
    assert rgba[Px(p, 0)] == Channel(packed, Px(p, 2)) && rgba[Px(p, 1)] == Channel(packed, Px(p, 1));
    assert rgba[Px(p, 2)] == Channel(packed, Px(p, 0)) && rgba[Px(p, 3)] == Channel(packed, Px(p, 3));
    ChannelOfPacked(f, y, x, 0);
    ChannelOfPacked(f, y, x, 1);
    ChannelOfPacked(f, y, x, 2);
    ChannelOfPacked(f, y, x, 3);
  }

  /** Pixel `x` of row `y` is one of the `width * height` pixels. */
  lemma PixelInFrame(width: nat, height: nat, y: nat, x: nat)
    requires y < height && x < width
    ensures At(width, y, x) < width * height
  {
    AtShift(width, y, x);
    AtShift(width, y + 1, 0);
    AtMonotone(width, y + 1, height);
    AtIsProduct(width, height, 0);
  }

  /** Channel `c` of pixel `x` of row `y` of the packed pixels, read from the captured rows. */
  lemma ChannelOfPacked(f: RawFrame, y: nat, x: nat, c: nat)
    requires f.image.Some? && WellFormed(f)
    requires y < f.height && x < f.width && c < 4
    ensures var p := Px(At(f.width, y, x), c);
            && p < |PackedPixels(f)|
            && At(f.byteWidth, y, Px(x, c)) < |f.image.value|
            && PackedPixels(f)[p] == f.image.value[At(f.byteWidth, y, Px(x, c))]
            && At(f.width * BytesPerPixel, y, Px(x, c)) == p
  {
    AtPixel(f.width, y, x, c);
    var packed := PackedPixels(f);
    assert Px(x, c) < f.width * BytesPerPixel;
    assert packed[At(f.width * BytesPerPixel, y, Px(x, c))] == f.image.value[At(f.byteWidth, y, Px(x, c))];
  }

  /** Without row padding the route's loop and the stride-aware conversion agree. */
  lemma UnpaddedCaptureAgrees(f: RawFrame)
    requires f.image.Some? && WellFormed(f) && f.byteWidth == f.width * BytesPerPixel
    ensures ConvertCapture(f) == BgraToRgba(f.image.value, f.width, f.height)
  {
    NoPaddingIsPrefix(f.image.value, f.width, f.height, BytesPerPixel);
    ConvertIgnoresTail(f.image.value, f.width, f.height);
  }

  /**
    A one-pixel-wide frame of two rows, each row padded to eight bytes:
    pixel (0, 0) is B=10 G=20 R=30 A=40, pixel (0, 1) is B=50 G=60 R=70 A=80,
    and the padding bytes are 0.
  */
  const PaddedFrame: RawFrame := RawFrame(1, 2, Some([10, 20, 30, 40, 0, 0, 0, 0, 50, 60, 70, 80]), 8)

  /**
    On the padded frame the route's loop reads the first row's padding as
    the second pixel, while the stride-aware conversion yields the second
    row's pixel.
  */
  lemma AsWrittenReadsPadding()
    ensures WellFormed(PaddedFrame)
    ensures BgraToRgba(PaddedFrame.image.value, 1, 2) == [30, 20, 10, 40, 0, 0, 0, 0]
    ensures ConvertCapture(PaddedFrame) == [30, 20, 10, 40, 70, 60, 50, 80]
    ensures AnalyzeCapture(Some(PaddedFrame)) == Ok([30, 20, 10, 40, 0, 0, 0, 0])
  {
    var image := PaddedFrame.image.value;
    var asWritten := BgraToRgba(image, 1, 2);
    assert asWritten[Px(0, 0)] == Channel(image, Px(0, 2)) && asWritten[Px(1, 0)] == Channel(image, Px(1, 2));
    assert asWritten[Px(0, 1)] == Channel(image, Px(0, 1)) && asWritten[Px(1, 1)] == Channel(image, Px(1, 1));
    assert asWritten[Px(0, 2)] == Channel(image, Px(0, 0)) && asWritten[Px(1, 2)] == Channel(image, Px(1, 0));
    assert asWritten[Px(0, 3)] == Channel(image, Px(0, 3)) && asWritten[Px(1, 3)] == Channel(image, Px(1, 3));
    PaddedFramePacks();
    ConvertPackedPair(PackedPixels(PaddedFrame));
  }

  /** The padded frame strips to its two pixels, one after the other. */
  lemma PaddedFramePacks()
    ensures WellFormed(PaddedFrame)
    ensures PackedPixels(PaddedFrame) == [10, 20, 30, 40, 50, 60, 70, 80]
  {
    var image := PaddedFrame.image.value;
    assert At(8, 1, 4) == 12;
    var packed := PackedPixels(PaddedFrame);
    assert packed[At(4, 0, 0)] == image[At(8, 0, 0)] && packed[At(4, 0, 1)] == image[At(8, 0, 1)];
    assert packed[At(4, 0, 2)] == image[At(8, 0, 2)] && packed[At(4, 0, 3)] == image[At(8, 0, 3)];
    assert packed[At(4, 1, 0)] == image[At(8, 1, 0)] && packed[At(4, 1, 1)] == image[At(8, 1, 1)];
    assert packed[At(4, 1, 2)] == image[At(8, 1, 2)] && packed[At(4, 1, 3)] == image[At(8, 1, 3)];
  }

  /** Two packed pixels convert to the same two pixels with red and blue swapped. */
  lemma ConvertPackedPair(packed: seq<Byte>)
    requires packed == [10, 20, 30, 40, 50, 60, 70, 80]
    ensures BgraToRgba(packed, 1, 2) == [30, 20, 10, 40, 70, 60, 50, 80]
  {
    var rgba := BgraToRgba(packed, 1, 2);
    assert rgba[Px(0, 0)] == Channel(packed, Px(0, 2)) && rgba[Px(1, 0)] == Channel(packed, Px(1, 2));
    assert rgba[Px(0, 1)] == Channel(packed, Px(0, 1)) && rgba[Px(1, 1)] == Channel(packed, Px(1, 1));
    assert rgba[Px(0, 2)] == Channel(packed, Px(0, 0)) && rgba[Px(1, 2)] == Channel(packed, Px(1, 0));
    assert rgba[Px(0, 3)] == Channel(packed, Px(0, 3)) && rgba[Px(1, 3)] == Channel(packed, Px(1, 3));
  }

  /**
    The analyze route up to the saved image: a missing capture or a capture
    without an image fails with "屏幕截图捕获失败" (which the route turns
    into a 500 response); otherwise the route's loop converts the captured
    buffer as it stands, reading pixel `(x, y)` at `(y * width + x) * 4`
    whatever the capture's `byteWidth`, and bytes past the end read as 0.
  */
  function AnalyzeCapture(capture: Option<RawFrame>): (r: Result<seq<Byte>, string>)
    ensures r.Err? <==> capture.None? || capture.value.image.None?
    ensures r.Err? ==> r.error == CaptureFailedMessage
    ensures r.Ok? ==> |r.value| == capture.value.width * capture.value.height * BytesPerPixel
    ensures r.Ok? ==> r.value == BgraToRgba(capture.value.image.value, capture.value.width, capture.value.height)
  {
    match capture
    case None => Err(CaptureFailedMessage)
    case Some(f) =>
      if f.image.None? then Err(CaptureFailedMessage)
      else Ok(BgraToRgba(f.image.value, f.width, f.height))
  }

  /** On a capture without row padding the route's output is the corrected, stride-aware conversion. */
  lemma AnalyzeUnpaddedIsCorrect(f: RawFrame)
    requires f.image.Some? && WellFormed(f) && f.byteWidth == f.width * BytesPerPixel
    ensures AnalyzeCapture(Some(f)) == Ok(ConvertCapture(f))
  {
    UnpaddedCaptureAgrees(f);
  }
}
