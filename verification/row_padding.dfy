/**
  Row-stride normalisation of a captured frame (`removeRowPadding` in
  server-control/src/screen-utils.ts).

  A raw frame stores `height` rows of `width * bytesPerPixel` pixel bytes,
  each followed by `paddingBytes` bytes of alignment padding, so row `y`
  starts at `y * (width * bytesPerPixel + paddingBytes)`. Normalisation
  copies every row's pixel bytes, and only those, into a buffer of exactly
  `width * height * bytesPerPixel` bytes with row `y` at
  `y * width * bytesPerPixel`.
*/
module RowPadding {
  import opened Base

  /**
    Position of byte `i` of row `y` in a buffer whose rows start `stride`
    bytes apart, that is `y * stride + i` (see `AtIsProduct`); written as a
    sum over rows so that proofs about rows stay linear.
  */
  function At(stride: nat, y: nat, i: nat): nat {
    if y == 0 then i else At(stride, y - 1, i) + stride
  }

  lemma {:induction false} AtIsProduct(stride: nat, y: nat, i: nat)
    ensures At(stride, y, i) == y * stride + i
  {
    if y > 0 {
      AtIsProduct(stride, y - 1, i);
    }
  }

  /** Offsets within a row add to the row start. */
  lemma {:induction false} AtShift(stride: nat, y: nat, i: nat)
    ensures At(stride, y, i) == At(stride, y, 0) + i
  {
    if y > 0 {
      AtShift(stride, y - 1, i);
    }
  }

  /** Later rows start later. */
  lemma {:induction false} AtMonotone(stride: nat, y: nat, z: nat)
    requires y <= z
    ensures At(stride, y, 0) <= At(stride, z, 0)
    decreases z
  {
    if y < z {
      AtMonotone(stride, y, z - 1);
    }
  }

  /**
    Every row's pixel bytes lie inside `image`; the padding after the last
    row need not be present.
  */
  predicate CoversRows(image: seq<Byte>, rowBytes: nat, paddingBytes: nat, height: nat) {
    height == 0 || At(rowBytes + paddingBytes, height - 1, rowBytes) <= |image|
  }

  /** Coverage of `height` rows implies coverage of one row fewer. */
  lemma CoversFewerRows(image: seq<Byte>, rowBytes: nat, paddingBytes: nat, height: nat)
    requires CoversRows(image, rowBytes, paddingBytes, height)
    requires height > 0
    ensures CoversRows(image, rowBytes, paddingBytes, height - 1)
  {
    var stride := rowBytes + paddingBytes;
    if height > 1 {
      AtShift(stride, height - 2, rowBytes);
      AtShift(stride, height - 1, rowBytes);
    }
  }

  /** The pixel bytes of the first `height` rows, each `rowBytes` long, rows `rowBytes + paddingBytes` apart. */
  function StripRows(image: seq<Byte>, rowBytes: nat, paddingBytes: nat, height: nat): (r: seq<Byte>)
    requires CoversRows(image, rowBytes, paddingBytes, height)
    ensures |r| == At(rowBytes, height, 0)
    decreases height
  {
    if height == 0 then []
    else
      CoversFewerRows(image, rowBytes, paddingBytes, height);
      var stride := rowBytes + paddingBytes;
      var start := At(stride, height - 1, 0);
      AtShift(stride, height - 1, rowBytes);
      StripRows(image, rowBytes, paddingBytes, height - 1) + image[start..start + rowBytes]
  }

  /** Byte `i` of row `y` of the stripped rows is byte `i` of row `y` of the padded input. */
  lemma {:induction false} StripRowsAt(image: seq<Byte>, rowBytes: nat, paddingBytes: nat, height: nat, y: nat, i: nat)
    requires CoversRows(image, rowBytes, paddingBytes, height)
    requires y < height && i < rowBytes
    ensures At(rowBytes, y, i) < At(rowBytes, height, 0)
    ensures At(rowBytes + paddingBytes, y, i) < |image|
    ensures StripRows(image, rowBytes, paddingBytes, height)[At(rowBytes, y, i)] == image[At(rowBytes + paddingBytes, y, i)]
    decreases height
  {
    var stride := rowBytes + paddingBytes;
    StripLastRow(image, rowBytes, paddingBytes, height);
    var prefix := StripRows(image, rowBytes, paddingBytes, height - 1);
    var start := At(stride, height - 1, 0);
    AtShift(rowBytes, y, i);
    AtShift(stride, y, i);
    if y < height - 1 {
      AtMonotone(rowBytes, y + 1, height - 1);
      StripRowsAt(image, rowBytes, paddingBytes, height - 1, y, i);
      assert At(rowBytes, y, i) < |prefix|;
    } else {
      assert At(rowBytes, y, i) == |prefix| + i;
      assert At(stride, y, i) == start + i;
    }
  }

  /**
    The frame with its row padding removed: it holds exactly
    `width * height * bytesPerPixel` bytes, and for every row `y < height`
    and every offset `i` inside a row, output byte `y * rowBytes + i` is
    input byte `y * (rowBytes + paddingBytes) + i`, where `rowBytes` is
    `width * bytesPerPixel`.
  */
  function RemoveRowPadding(image: seq<Byte>, width: nat, height: nat, bytesPerPixel: nat, paddingBytes: nat): (r: seq<Byte>)
    requires CoversRows(image, width * bytesPerPixel, paddingBytes, height)
    ensures |r| == width * height * bytesPerPixel
    ensures forall y, i :: 0 <= y < height && 0 <= i < width * bytesPerPixel ==>
              && At(width * bytesPerPixel, y, i) < |r|
              && At(width * bytesPerPixel + paddingBytes, y, i) < |image|
              && r[At(width * bytesPerPixel, y, i)] == image[At(width * bytesPerPixel + paddingBytes, y, i)]
  {
    ProductRows(width, height, bytesPerPixel);
    StripRowsEverywhere(image, width, height, bytesPerPixel, paddingBytes);
    StripRows(image, width * bytesPerPixel, paddingBytes, height)
  }

  /**
    `RemoveRowPadding` in the source's own offsets: output byte
    `y * rowBytes + i` is input byte `y * (rowBytes + paddingBytes) + i`.
  */
  lemma RemoveRowPaddingAtProduct(image: seq<Byte>, width: nat, height: nat, bytesPerPixel: nat, paddingBytes: nat,
                                  y: nat, i: nat)
    requires CoversRows(image, width * bytesPerPixel, paddingBytes, height)
    requires y < height && i < width * bytesPerPixel
    ensures 0 <= y * (width * bytesPerPixel) <= y * (width * bytesPerPixel + paddingBytes)
    ensures y * (width * bytesPerPixel) + i < |RemoveRowPadding(image, width, height, bytesPerPixel, paddingBytes)|
    ensures y * (width * bytesPerPixel + paddingBytes) + i < |image|
    ensures RemoveRowPadding(image, width, height, bytesPerPixel, paddingBytes)[y * (width * bytesPerPixel) + i]
            == image[y * (width * bytesPerPixel + paddingBytes) + i]
  {
    var rowBytes := width * bytesPerPixel;
    AtIsProduct(rowBytes, y, i);
    AtIsProduct(rowBytes + paddingBytes, y, i);
    AtIsProduct(rowBytes, y, 0);
    AtIsProduct(paddingBytes, y, 0);
    assert y * (rowBytes + paddingBytes) == y * rowBytes + y * paddingBytes;
  }

  /** `height` packed rows of `width * bytesPerPixel` bytes end at `width * height * bytesPerPixel`. */
  lemma {:induction false} ProductRows(width: nat, height: nat, bytesPerPixel: nat)
    ensures At(width * bytesPerPixel, height, 0) == width * height * bytesPerPixel
  {
    if height > 0 {
      ProductRows(width, height - 1, bytesPerPixel);
      assert width * height == width * (height - 1) + width;
      assert (width * (height - 1) + width) * bytesPerPixel == width * (height - 1) * bytesPerPixel + width * bytesPerPixel;
    }
  }

  /** `StripRowsAt` for every row and offset of rows of `width * bytesPerPixel` bytes. */
  lemma StripRowsEverywhere(image: seq<Byte>, width: nat, height: nat, bytesPerPixel: nat, paddingBytes: nat)
    requires CoversRows(image, width * bytesPerPixel, paddingBytes, height)
    ensures At(width * bytesPerPixel, height, 0) == width * height * bytesPerPixel
    ensures forall y, i :: 0 <= y < height && 0 <= i < width * bytesPerPixel ==>
              && At(width * bytesPerPixel, y, i) < At(width * bytesPerPixel, height, 0)
              && At(width * bytesPerPixel + paddingBytes, y, i) < |image|
              && StripRows(image, width * bytesPerPixel, paddingBytes, height)[At(width * bytesPerPixel, y, i)]
                 == image[At(width * bytesPerPixel + paddingBytes, y, i)]
  {
    var rowBytes := width * bytesPerPixel;
    ProductRows(width, height, bytesPerPixel);
    forall y, i | 0 <= y < height && 0 <= i < rowBytes
      ensures && At(rowBytes, y, i) < At(rowBytes, height, 0)
              && At(rowBytes + paddingBytes, y, i) < |image|
              && StripRows(image, rowBytes, paddingBytes, height)[At(rowBytes, y, i)]
                 == image[At(rowBytes + paddingBytes, y, i)]
    {
      StripRowsAt(image, rowBytes, paddingBytes, height, y, i);
    }
  }

  /** With no padding, stripping `height` rows keeps the first `height` rows' bytes unchanged. */
  lemma {:induction false} StripNoPadding(image: seq<Byte>, rowBytes: nat, height: nat)
    requires CoversRows(image, rowBytes, 0, height)
    ensures At(rowBytes, height, 0) <= |image|
    ensures StripRows(image, rowBytes, 0, height) == image[..At(rowBytes, height, 0)]
    decreases height
  {
    if height > 0 {
      CoversFewerRows(image, rowBytes, 0, height);
      StripNoPadding(image, rowBytes, height - 1);
      AtShift(rowBytes, height - 1, rowBytes);
      var n := At(rowBytes, height, 0);
      var m := At(rowBytes, height - 1, 0);
      assert image[..n] == image[..m] + image[m..n];
    }
  }

  /**
    With no padding the rows are already contiguous, so the output is the
    first `width * height * bytesPerPixel` bytes of the input.
  */
  lemma NoPaddingIsPrefix(image: seq<Byte>, width: nat, height: nat, bytesPerPixel: nat)
    requires CoversRows(image, width * bytesPerPixel, 0, height)
    ensures width * height * bytesPerPixel <= |image|
    ensures RemoveRowPadding(image, width, height, bytesPerPixel, 0) == image[..width * height * bytesPerPixel]
  {
    StripNoPadding(image, width * bytesPerPixel, height);
    AtIsProduct(width * bytesPerPixel, height, 0);
    assert width * height * bytesPerPixel == height * (width * bytesPerPixel);
  }

  /**
    A padded frame built from tightly packed pixel rows: after each of the
    `height` rows of `rowBytes` bytes comes that row's padding `fill[y]`,
    whose content is arbitrary.
  */
  function PadRows(pixels: seq<Byte>, rowBytes: nat, height: nat, fill: seq<seq<Byte>>, paddingBytes: nat): (r: seq<Byte>)
    requires |pixels| == At(rowBytes, height, 0)
    requires |fill| == height
    requires forall y :: 0 <= y < height ==> |fill[y]| == paddingBytes
    ensures |r| == At(rowBytes + paddingBytes, height, 0)
    decreases height
  {
    if height == 0 then []
    else
      var before := At(rowBytes, height - 1, 0);
      PadRows(pixels[..before], rowBytes, height - 1, fill[..height - 1], paddingBytes)
        + pixels[before..] + fill[height - 1]
  }

  /** Stripping `height` rows strips the first `height - 1` rows and appends the last row's pixels. */
  lemma StripLastRow(image: seq<Byte>, rowBytes: nat, paddingBytes: nat, height: nat)
    requires CoversRows(image, rowBytes, paddingBytes, height) && height > 0
    ensures CoversRows(image, rowBytes, paddingBytes, height - 1)
    ensures var start := At(rowBytes + paddingBytes, height - 1, 0);
            && start + rowBytes == At(rowBytes + paddingBytes, height - 1, rowBytes) <= |image|
            && StripRows(image, rowBytes, paddingBytes, height)
               == StripRows(image, rowBytes, paddingBytes, height - 1) + image[start..start + rowBytes]
  {
    CoversFewerRows(image, rowBytes, paddingBytes, height);
    AtShift(rowBytes + paddingBytes, height - 1, rowBytes);
  }

  /** Two buffers that agree up to `end` agree on every slice that ends by `end`. */
  lemma AgreeOnSlice(a: seq<Byte>, b: seq<Byte>, end: nat, i: nat, j: nat)
    requires end <= |a| && end <= |b| && a[..end] == b[..end]
    requires i <= j <= end
    ensures a[i..j] == b[i..j]
  {
    assert a[i..j] == a[..end][i..j];
    assert b[i..j] == b[..end][i..j];
  }

  /**
    Rows are read only inside the span of the rows themselves, so two
    buffers that agree on that span strip to the same bytes.
  */
  lemma {:induction false} StripDependsOnlyOnRows(a: seq<Byte>, b: seq<Byte>, rowBytes: nat, paddingBytes: nat, height: nat)
    requires CoversRows(a, rowBytes, paddingBytes, height)
    requires CoversRows(b, rowBytes, paddingBytes, height)
    requires height > 0 ==> (var end := At(rowBytes + paddingBytes, height - 1, rowBytes); a[..end] == b[..end])
    ensures StripRows(a, rowBytes, paddingBytes, height) == StripRows(b, rowBytes, paddingBytes, height)
    decreases height
  {
    var stride := rowBytes + paddingBytes;
    if height > 0 {
      var end := At(stride, height - 1, rowBytes);
      var start := At(stride, height - 1, 0);
      StripLastRow(a, rowBytes, paddingBytes, height);
      StripLastRow(b, rowBytes, paddingBytes, height);
      if height > 1 {
        var end' := At(stride, height - 2, rowBytes);
        AtShift(stride, height - 2, rowBytes);
        assert end' <= start <= end;
        AgreeOnSlice(a, b, end, 0, end');
        assert a[..end'] == a[0..end'] && b[..end'] == b[0..end'];
      }
      StripDependsOnlyOnRows(a, b, rowBytes, paddingBytes, height - 1);
      assert start <= end <= |a| && end <= |b|;
      AgreeOnSlice(a, b, end, start, end);
    }
  }

  /** A sequence is its prefix followed by the rest. */
  lemma SplitAt(s: seq<Byte>, k: nat)
    requires k <= |s|
    ensures s[..k] + s[k..] == s
  {
  }

  /**
    The last row of a padded buffer: the first `height - 1` padded rows,
    then the last row's pixels at the last row start, then its padding.
  */
  lemma PadLastRow(pixels: seq<Byte>, rowBytes: nat, height: nat, fill: seq<seq<Byte>>, paddingBytes: nat)
    requires |pixels| == At(rowBytes, height, 0)
    requires |fill| == height
    requires forall y :: 0 <= y < height ==> |fill[y]| == paddingBytes
    requires height > 0
    ensures var before, start := At(rowBytes, height - 1, 0), At(rowBytes + paddingBytes, height - 1, 0);
            var padded := PadRows(pixels, rowBytes, height, fill, paddingBytes);
            && before <= |pixels| && start + rowBytes <= |padded|
            && |pixels[..before]| == At(rowBytes, height - 1, 0)
            && padded[..start] == PadRows(pixels[..before], rowBytes, height - 1, fill[..height - 1], paddingBytes)
            && padded[start..start + rowBytes] == pixels[before..]
            && CoversRows(padded, rowBytes, paddingBytes, height)
  {
    var before := At(rowBytes, height - 1, 0);
    var stride := rowBytes + paddingBytes;
    AtShift(rowBytes, height - 1, rowBytes);
    AtShift(stride, height - 1, rowBytes);
    var padded := PadRows(pixels, rowBytes, height, fill, paddingBytes);
    var shorter := PadRows(pixels[..before], rowBytes, height - 1, fill[..height - 1], paddingBytes);
    assert padded == shorter + pixels[before..] + fill[height - 1];
  }

  /**
    A buffer whose first `height - 1` rows are those of `shorter` and whose
    last row holds `row` strips to what `shorter` strips to, then `row`.
  */
  lemma StripAppendedRow(padded: seq<Byte>, shorter: seq<Byte>, rowBytes: nat, paddingBytes: nat, height: nat,
                         row: seq<Byte>)
    requires height > 0 && CoversRows(padded, rowBytes, paddingBytes, height)
    requires CoversRows(shorter, rowBytes, paddingBytes, height - 1)
    requires var start := At(rowBytes + paddingBytes, height - 1, 0);
             && start <= |shorter| <= |padded| && padded[..start] == shorter[..start]
             && start + rowBytes <= |padded| && padded[start..start + rowBytes] == row
    ensures StripRows(padded, rowBytes, paddingBytes, height)
            == StripRows(shorter, rowBytes, paddingBytes, height - 1) + row
  {
    var stride := rowBytes + paddingBytes;
    var start := At(stride, height - 1, 0);
    StripLastRow(padded, rowBytes, paddingBytes, height);
    if height > 1 {
      var end' := At(stride, height - 2, rowBytes);
      AtShift(stride, height - 2, rowBytes);
      assert end' <= start;
      AgreeOnSlice(padded, shorter, start, 0, end');
      assert padded[..end'] == padded[0..end'] && shorter[..end'] == shorter[0..end'];
    }
    StripDependsOnlyOnRows(padded, shorter, rowBytes, paddingBytes, height - 1);
  }

  /** Stripping the padding that `PadRows` inserted gives the packed rows back. */
  lemma {:induction false} StripPadRows(pixels: seq<Byte>, rowBytes: nat, height: nat, fill: seq<seq<Byte>>, paddingBytes: nat)
    requires |pixels| == At(rowBytes, height, 0)
    requires |fill| == height
    requires forall y :: 0 <= y < height ==> |fill[y]| == paddingBytes
    ensures CoversRows(PadRows(pixels, rowBytes, height, fill, paddingBytes), rowBytes, paddingBytes, height)
    ensures StripRows(PadRows(pixels, rowBytes, height, fill, paddingBytes), rowBytes, paddingBytes, height) == pixels
    decreases height
  {
    if height > 0 {
      var before := At(rowBytes, height - 1, 0);
      PadLastRow(pixels, rowBytes, height, fill, paddingBytes);
      var padded := PadRows(pixels, rowBytes, height, fill, paddingBytes);
      var shorter := PadRows(pixels[..before], rowBytes, height - 1, fill[..height - 1], paddingBytes);
      StripPadRows(pixels[..before], rowBytes, height - 1, fill[..height - 1], paddingBytes);
      StripAppendedRow(padded, shorter, rowBytes, paddingBytes, height, pixels[before..]);
      SplitAt(pixels, before);
    }
  }

  /**
    Round trip: padding each row of a tightly packed buffer with arbitrary
    bytes and then removing that padding gives the original buffer back, so
    no padding byte reaches the output.
  */
  lemma RemovePaddedRows(pixels: seq<Byte>, width: nat, height: nat, bytesPerPixel: nat,
                         fill: seq<seq<Byte>>, paddingBytes: nat)
    requires |pixels| == width * height * bytesPerPixel
    requires |fill| == height
    requires forall y :: 0 <= y < height ==> |fill[y]| == paddingBytes
    ensures |pixels| == At(width * bytesPerPixel, height, 0)
    ensures CoversRows(PadRows(pixels, width * bytesPerPixel, height, fill, paddingBytes), width * bytesPerPixel, paddingBytes, height)
    ensures RemoveRowPadding(PadRows(pixels, width * bytesPerPixel, height, fill, paddingBytes),
                             width, height, bytesPerPixel, paddingBytes) == pixels
  {
    ProductRows(width, height, bytesPerPixel);
    StripPadRows(pixels, width * bytesPerPixel, height, fill, paddingBytes);
  }
}
