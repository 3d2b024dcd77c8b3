/** The integer-only pixel filters: the channel clamp, the in-place
    grayscale and invert passes over a flat buffer, and the outline,
    channel-offset and mosaic passes that read an untouched snapshot and
    write a destination buffer of the same image. */
module Filters {
  import opened Pixels
  import Arith

  // ---------------------------------------------------------------------------
  // Clamp

  /** Clamps a computed channel value into the byte range. */
  function CorrectRGB(channel: int): (r: int)
    ensures 0 <= r <= 255
    ensures r == channel <==> 0 <= channel <= 255
    ensures forall v: byte :: Distance(channel, r) <= Distance(channel, v)
  {
    if channel > 255 then 255
    else if channel < 0 then 0
    else channel
  }

  function Distance(a: int, b: int): nat
  {
    Arith.Abs(a - b)
  }

  lemma CorrectRGBExamples()
    ensures CorrectRGB(-5) == 0 && CorrectRGB(260) == 255 && CorrectRGB(128) == 128
  {
  }

  // ---------------------------------------------------------------------------
  // Grayscale and invert: in-place passes over whole pixels

  /** Whether byte `k` of a buffer of `n` bytes is a colour byte that the
      in-place passes rewrite. They step over pixel starts `i` while
      `i < n - 4`, so the final pixel (and any trailing partial pixel) and
      every alpha byte are left alone. */
  predicate Rewritten(n: int, k: int)
  {
    k % 4 < 3 && k - k % 4 + 4 < n
  }

  /** The source's `(r + g + b) / 3` on unsigned bytes: the floor of the mean. */
  function Mean(r: byte, g: byte, b: byte): byte
  {
    (r as int + g as int + b as int) / 3
  }

  /** What the grayscale pass leaves in byte `k`: a rewritten colour byte
      becomes the mean of its pixel's three colour channels. */
  function GrayAt(data: seq<byte>, k: int): byte
    requires 0 <= k < |data|
  {
    if Rewritten(|data|, k) then
      var p := k - k % 4;
      Mean(data[p], data[p + 1], data[p + 2])
    else data[k]
  }

  /** The colour bytes of a rewritten pixel all become its mean; its alpha stays. */
  lemma GrayAtPixel(data: seq<byte>, p: int)
    requires 0 <= p && p % 4 == 0 && p + 4 < |data|
    ensures var m := Mean(data[p], data[p + 1], data[p + 2]);
      GrayAt(data, p) == m && GrayAt(data, p + 1) == m && GrayAt(data, p + 2) == m
    ensures GrayAt(data, p + 3) == data[p + 3]
  {
    assert (p + 1) % 4 == 1 && (p + 2) % 4 == 2 && (p + 3) % 4 == 3;
  }

  /** The buffer the grayscale pass leaves behind. */
  function Grayscaled(data: seq<byte>): (r: seq<byte>)
  {
    seq(|data|, k requires 0 <= k < |data| => GrayAt(data, k))
  }

  /** Per pixel: every pixel but the last has R = G = B = floor((r+g+b)/3)
      and keeps its alpha; the last pixel is untouched. */
  lemma GrayscalePixel(data: seq<byte>, p: int)
    requires 0 <= p && p % 4 == 0 && p + 4 <= |data|
    ensures var r := Grayscaled(data);
      && r[p + 3] == data[p + 3]
      && (p + 4 < |data| ==>
            r[p] == r[p + 1] == r[p + 2] == Mean(data[p], data[p + 1], data[p + 2]))
      && (p + 4 == |data| ==> r[p..p + 4] == data[p..p + 4])
  {
    var r := Grayscaled(data);
    assert r[p] == GrayAt(data, p) && r[p + 1] == GrayAt(data, p + 1);
    assert r[p + 2] == GrayAt(data, p + 2) && r[p + 3] == GrayAt(data, p + 3);
    assert (p + 1) % 4 == 1 && (p + 2) % 4 == 2 && (p + 3) % 4 == 3;
    if p + 4 == |data| {
      assert !Rewritten(|data|, p) && !Rewritten(|data|, p + 1) && !Rewritten(|data|, p + 2);
      assert r[p..p + 4] == [r[p], r[p + 1], r[p + 2], r[p + 3]];
      assert data[p..p + 4] == [data[p], data[p + 1], data[p + 2], data[p + 3]];
    } else {
      GrayAtPixel(data, p);
    }
  }

  /** Once the loop index, a multiple of four, has reached the last pixel,
      no byte from there on is rewritten. */
  lemma PastLastPixel(n: int, i: int)
    requires 0 <= i && i % 4 == 0 && i >= n - 4
    ensures forall k | i <= k :: !Rewritten(n, k)
  {
    forall k | i <= k
      ensures !Rewritten(n, k)
    {
      Arith.TileBase(k, k / 4, 4);
      Arith.TileBase(i, i / 4, 4);
      assert i / 4 <= k / 4;
      Arith.MulMonotone(i / 4, k / 4, 4);
    }
  }

  /** The source's grayscale loop. */
  method Grayscale(pixelData: seq<byte>) returns (out: seq<byte>)
    ensures out == Grayscaled(pixelData)
  {
    out := pixelData;
    var i := 0;
    while i < |pixelData| - 4
      invariant 0 <= i && i % 4 == 0 && (i == 0 || i < |pixelData|)
      invariant |out| == |pixelData|
      invariant forall k | 0 <= k < i :: out[k] == GrayAt(pixelData, k)
      invariant forall k | i <= k < |out| :: out[k] == pixelData[k]
    {
      var grey := Mean(out[i], out[i + 1], out[i + 2]);
      GrayAtPixel(pixelData, i);
      out := out[i := grey][i + 1 := grey][i + 2 := grey];
      assert out[i] == GrayAt(pixelData, i) && out[i + 1] == GrayAt(pixelData, i + 1);
      assert out[i + 2] == GrayAt(pixelData, i + 2) && out[i + 3] == GrayAt(pixelData, i + 3);
      i := i + 4;
    }
    PastLastPixel(|pixelData|, i);
    assert forall k | 0 <= k < |out| :: out[k] == Grayscaled(pixelData)[k];
  }

  lemma GrayscaleIdempotent(data: seq<byte>)
    ensures Grayscaled(Grayscaled(data)) == Grayscaled(data)
  {
    var once := Grayscaled(data);
    var twice := Grayscaled(once);
    forall k | 0 <= k < |data|
      ensures twice[k] == once[k]
    {
      if Rewritten(|data|, k) {
        var p := k - k % 4;
        GrayAtPixel(data, p);
        GrayAtPixel(once, p);
      }
    }
  }

  /** What the invert pass leaves in byte `k`. */
  function InvertAt(data: seq<byte>, k: int): byte
    requires 0 <= k < |data|
  {
    if Rewritten(|data|, k) then 255 - data[k] else data[k]
  }

  /** The buffer the invert pass leaves behind. */
  function Inverted(data: seq<byte>): (r: seq<byte>)
  {
    seq(|data|, k requires 0 <= k < |data| => InvertAt(data, k))
  }

  /** The source's invert loop. */
  method Invert(pixelData: seq<byte>) returns (out: seq<byte>)
    ensures out == Inverted(pixelData)
  {
    out := pixelData;
    var i := 0;
    while i < |pixelData| - 4
      invariant 0 <= i && i % 4 == 0 && (i == 0 || i < |pixelData|)
      invariant |out| == |pixelData|
      invariant forall k | 0 <= k < i :: out[k] == InvertAt(pixelData, k)
      invariant forall k | i <= k < |out| :: out[k] == pixelData[k]
    {
      out := out[i := 255 - out[i]][i + 1 := 255 - out[i + 1]][i + 2 := 255 - out[i + 2]];
      assert (i + 1) % 4 == 1 && (i + 2) % 4 == 2 && (i + 3) % 4 == 3;
      assert out[i] == InvertAt(pixelData, i) && out[i + 1] == InvertAt(pixelData, i + 1);
      assert out[i + 2] == InvertAt(pixelData, i + 2) && out[i + 3] == InvertAt(pixelData, i + 3);
      i := i + 4;
    }
    PastLastPixel(|pixelData|, i);
    assert forall k | 0 <= k < |out| :: out[k] == Inverted(pixelData)[k];
  }

  lemma InvertInvolution(data: seq<byte>)
    ensures Inverted(Inverted(data)) == data
  {
    var once := Inverted(data);
    var twice := Inverted(once);
    assert forall k | 0 <= k < |data| :: twice[k] == data[k];
  }

  // ---------------------------------------------------------------------------
  // Outline: compare each pixel with the one below it in the snapshot

  /** Whether two channel samples are at least `limit` apart. */
  predicate Differs(a: int, b: int, limit: int)
  {
    Arith.Abs(a - b) >= limit
  }

  /** Whether snapshot pixel (row, col) and the pixel directly below it are at
      least `limit` apart in some colour channel. */
  predicate EdgeBelow(snap: seq<byte>, w: nat, h: nat, limit: int, row: nat, col: nat)
    requires |snap| == 4 * w * h && row + 1 < h && col < w
  {
    || Differs(Get(snap, w, h, row, col, 0), Get(snap, w, h, row + 1, col, 0), limit)
    || Differs(Get(snap, w, h, row, col, 1), Get(snap, w, h, row + 1, col, 1), limit)
    || Differs(Get(snap, w, h, row, col, 2), Get(snap, w, h, row + 1, col, 2), limit)
  }

  /** The grey level outline gives pixel (row, col) of an image at least two
      rows high: black on an edge with the row below, white otherwise, and
      white throughout the last row. */
  function OutlineShade(snap: seq<byte>, w: nat, h: nat, limit: int, row: nat, col: nat): byte
    requires |snap| == 4 * w * h && row < h && col < w
  {
    if row + 1 < h && EdgeBelow(snap, w, h, limit, row, col) then 0 else 255
  }

  /** Byte (row, col, ch) of the destination once the source loop has run
      every iteration before (i, j). Iteration (i, j) with i > 0 paints the
      pixel above, (i-1, j), with its shade and the current pixel (i, j)
      white; a pixel's final shade is thus set when it is "above". */
  function OutlineStage(dest: seq<byte>, snap: seq<byte>, w: nat, h: nat, limit: int,
                        i: nat, j: nat, row: nat, col: nat, ch: nat): byte
    requires |dest| == 4 * w * h && |snap| == 4 * w * h && row < h && col < w && ch < 4
  {
    if ch == 3 then Get(dest, w, h, row, col, ch)
    else if row + 1 < i || (row + 1 == i && col < j) then OutlineShade(snap, w, h, limit, row, col)
    else if (row + 1 == i && i >= 2) || (row == i && i >= 1 && col < j) then 255
    else Get(dest, w, h, row, col, ch)
  }

  /** The source's outline loop: every pixel of the destination above the
      last row ends black when it differs from the snapshot pixel below it by
      at least `limit` in some channel and white otherwise, the last row ends
      white, and a one-row image is left alone. The colours depend on the
      snapshot alone; alpha is never written. */
  method Outline(pixelData: seq<byte>, sourceImageCopy: seq<byte>, imageWidth: nat, imageHeight: nat, limit: int)
    returns (out: seq<byte>)
    requires |pixelData| == 4 * imageWidth * imageHeight
    requires |sourceImageCopy| == 4 * imageWidth * imageHeight
    ensures |out| == |pixelData|
    ensures imageHeight <= 1 ==> out == pixelData
    ensures imageHeight >= 2 ==>
      forall row: nat, col: nat, ch: nat | row < imageHeight && col < imageWidth && ch < 3 ::
        Get(out, imageWidth, imageHeight, row, col, ch) ==
          OutlineShade(sourceImageCopy, imageWidth, imageHeight, limit, row, col)
    ensures forall row: nat, col: nat | row < imageHeight && col < imageWidth ::
      Get(out, imageWidth, imageHeight, row, col, 3) == Get(pixelData, imageWidth, imageHeight, row, col, 3)
  {
    var w, h, snap := imageWidth, imageHeight, sourceImageCopy;
    out := pixelData;
    var i := 0;
    while i < h
      invariant 0 <= i <= h && |out| == |pixelData|
      invariant i <= 1 ==> out == pixelData
      invariant forall row: nat, col: nat, ch: nat | row < h && col < w && ch < 4 ::
        Get(out, w, h, row, col, ch) == OutlineStage(pixelData, snap, w, h, limit, i, 0, row, col, ch)
    {
      var j := 0;
      while j < w
        invariant 0 <= j <= w && |out| == |pixelData|
        invariant i == 0 ==> out == pixelData
        invariant forall row: nat, col: nat, ch: nat | row < h && col < w && ch < 4 ::
          Get(out, w, h, row, col, ch) == OutlineStage(pixelData, snap, w, h, limit, i, j, row, col, ch)
      {
        if i > 0 {
          var aboveR, aboveG, aboveB := Get(snap, w, h, i - 1, j, 0), Get(snap, w, h, i - 1, j, 1), Get(snap, w, h, i - 1, j, 2);
          var currR, currG, currB := Get(snap, w, h, i, j, 0), Get(snap, w, h, i, j, 1), Get(snap, w, h, i, j, 2);
          var setSameColor :=
            && aboveR - currR < limit && aboveR - currR > -limit
            && aboveG - currG < limit && aboveG - currG > -limit
            && aboveB - currB < limit && aboveB - currB > -limit;
          if !setSameColor {
            out := SetRGB(out, w, h, i - 1, j, 0, 0, 0);
            out := SetRGB(out, w, h, i, j, 255, 255, 255);
          } else {
            out := SetRGB(out, w, h, i - 1, j, 255, 255, 255);
            out := SetRGB(out, w, h, i, j, 255, 255, 255);
          }
        }
        j := j + 1;
      }
      i := i + 1;
    }
  }

  // ---------------------------------------------------------------------------
  // Channel offset: shift one colour channel left by `offset` columns

  /** The colour channel a stored selector picks: 0 is red, 1 is green and
      every other value blue. */
  function SelectedChannel(randNum: int): (ch: nat)
    ensures ch < 3
  {
    if randNum == 0 then 0 else if randNum == 1 then 1 else 2
  }

  /** The source's channel-offset loop. Only the selected channel of a pixel
      whose column plus `offset` is still inside the row is written, and it
      takes the snapshot value of that channel `offset` columns to the right;
      every other byte keeps its destination value. */
  method ChannelOffset(imageData: seq<byte>, sourceImageCopy: seq<byte>, imageWidth: nat, imageHeight: nat,
                       offset: int, randNum: int)
    returns (out: seq<byte>)
    requires |imageData| == 4 * imageWidth * imageHeight
    requires |sourceImageCopy| == 4 * imageWidth * imageHeight
    requires offset >= 0
    ensures |out| == |imageData|
    ensures forall row: nat, col: nat, ch: nat | row < imageHeight && col < imageWidth && ch < 4 ::
      Get(out, imageWidth, imageHeight, row, col, ch) ==
        if col + offset < imageWidth && ch == SelectedChannel(randNum)
        then Get(sourceImageCopy, imageWidth, imageHeight, row, col + offset, ch)
        else Get(imageData, imageWidth, imageHeight, row, col, ch)
  {
    var w, h, snap := imageWidth, imageHeight, sourceImageCopy;
    out := imageData;
    var row := 0;
    while row < h
      invariant 0 <= row <= h && |out| == |imageData|
      invariant forall r: nat, c: nat, ch: nat | r < h && c < w && ch < 4 ::
        Get(out, w, h, r, c, ch) ==
          if r < row && c + offset < w && ch == SelectedChannel(randNum) then Get(snap, w, h, r, c + offset, ch)
          else Get(imageData, w, h, r, c, ch)
    {
      var col := 0;
      while col < w
        invariant 0 <= col <= w && |out| == |imageData|
        invariant forall r: nat, c: nat, ch: nat | r < h && c < w && ch < 4 ::
          Get(out, w, h, r, c, ch) ==
            if (r < row || (r == row && c < col)) && c + offset < w && ch == SelectedChannel(randNum)
            then Get(snap, w, h, r, c + offset, ch)
            else Get(imageData, w, h, r, c, ch)
      {
        if offset + col < w {
          var newR := Get(snap, w, h, row, col + offset, 0);
          var newG := Get(snap, w, h, row, col + offset, 1);
          var newB := Get(snap, w, h, row, col + offset, 2);
          if randNum == 0 {
            out := SetChannel(out, w, h, row, col, 0, newR);
          } else if randNum == 1 {
            out := SetChannel(out, w, h, row, col, 1, newG);
          } else {
            out := SetChannel(out, w, h, row, col, 2, newB);
          }
        }
        col := col + 1;
      }
      row := row + 1;
    }
  }

  // ---------------------------------------------------------------------------
  // Mosaic: paint every tile with the colour of its top-left snapshot pixel

  /** The colour mosaic gives channel `ch` of pixel (row, col): that of the
      top-left snapshot pixel of its `chunkSize` by `chunkSize` tile. */
  function MosaicColour(snap: seq<byte>, w: nat, h: nat, chunkSize: nat, row: nat, col: nat, ch: nat): byte
    requires |snap| == 4 * w * h && chunkSize >= 1 && row < h && col < w && ch < 4
  {
    Get(snap, w, h, row - row % chunkSize, col - col % chunkSize, ch)
  }

  /** With tiles one pixel wide, mosaic copies the snapshot's colours. */
  lemma MosaicChunkOneCopies(snap: seq<byte>, w: nat, h: nat, row: nat, col: nat, ch: nat)
    requires |snap| == 4 * w * h && row < h && col < w && ch < 4
    ensures MosaicColour(snap, w, h, 1, row, col, ch) == Get(snap, w, h, row, col, ch)
  {
    assert row % 1 == 0 && col % 1 == 0;
  }

  /** Each pixel lies in the tile whose corner MosaicColour reads, that corner
      is a pixel of the image on the tile grid, and it has the same mosaic
      colour itself: the mosaic is constant on tiles. */
  lemma MosaicConstantOnTiles(snap: seq<byte>, w: nat, h: nat, k: nat, row: nat, col: nat, ch: nat)
    requires |snap| == 4 * w * h && k >= 1 && row < h && col < w && ch < 4
    ensures row - row % k <= row < row - row % k + k && (row - row % k) % k == 0
    ensures col - col % k <= col < col - col % k + k && (col - col % k) % k == 0
    ensures MosaicColour(snap, w, h, k, row - row % k, col - col % k, ch) == MosaicColour(snap, w, h, k, row, col, ch)
  {
    Arith.TileBase(row - row % k, row / k, k);
    Arith.TileBase(col - col % k, col / k, k);
  }

  /** `s` with the colour channels of every pixel in columns [x0, x1) of rows
      [y0, y1) set to (red, green, blue): the two innermost loops of mosaic. */
  method PaintTile(s: seq<byte>, w: nat, h: nat, x0: nat, x1: nat, y0: nat, y1: nat, red: byte, green: byte, blue: byte)
    returns (out: seq<byte>)
    requires |s| == 4 * w * h && x0 <= x1 <= w && y0 <= y1 <= h
    ensures |out| == |s|
    ensures forall r: nat, c: nat, ch: nat | r < h && c < w && ch < 4 ::
      Get(out, w, h, r, c, ch) ==
        if ch < 3 && x0 <= c < x1 && y0 <= r < y1 then Pick(red, green, blue, ch) else Get(s, w, h, r, c, ch)
  {
    out := s;
    var kk := x0;
    while kk < x1
      invariant x0 <= kk <= x1 && |out| == |s|
      invariant forall r: nat, c: nat, ch: nat | r < h && c < w && ch < 4 ::
        Get(out, w, h, r, c, ch) ==
          if ch < 3 && x0 <= c < kk && y0 <= r < y1 then Pick(red, green, blue, ch) else Get(s, w, h, r, c, ch)
    {
      var l := y0;
      while l < y1
        invariant y0 <= l <= y1 && |out| == |s|
        invariant forall r: nat, c: nat, ch: nat | r < h && c < w && ch < 4 ::
          Get(out, w, h, r, c, ch) ==
            if ch < 3 && ((x0 <= c < kk && y0 <= r < y1) || (c == kk && y0 <= r < l)) then Pick(red, green, blue, ch)
            else Get(s, w, h, r, c, ch)
      {
        out := SetRGB(out, w, h, l, kk, red, green, blue);
        l := l + 1;
      }
      kk := kk + 1;
    }
  }

  /** A pixel of the tile whose top-left corner is (tj * k, ti * k) gets that
      corner's snapshot colour from MosaicColour. */
  lemma TileColour(snap: seq<byte>, w: nat, h: nat, k: nat, ti: nat, tj: nat, r: nat, c: nat, ch: nat)
    requires |snap| == 4 * w * h && k >= 1 && r < h && c < w && ch < 4
    requires tj * k <= r < tj * k + k && ti * k <= c < ti * k + k
    ensures tj * k < h && ti * k < w
    ensures MosaicColour(snap, w, h, k, r, c, ch) == Get(snap, w, h, tj * k, ti * k, ch)
  {
    Arith.TileBase(r, tj, k);
    Arith.TileBase(c, ti, k);
  }

  /** Painting the tile at (tj * k, ti * k) with its corner colour extends
      the finished part of a column strip by that tile's rows. */
  lemma StripStep(before: seq<byte>, after: seq<byte>, imageData: seq<byte>, snap: seq<byte>, w: nat, h: nat, k: nat,
                  i: nat, ti: nat, endWidth: nat, j: nat, tj: nat, endHeight: nat)
    requires |before| == 4 * w * h && |after| == |before| && |imageData| == |before| && |snap| == |before| && k >= 1
    requires i == ti * k && i < w && endWidth <= w && endWidth <= i + k
    requires j == tj * k && j < h && j <= endHeight <= h && endHeight <= j + k
    requires forall r: nat, c: nat, ch: nat | r < h && c < w && ch < 4 ::
      Get(before, w, h, r, c, ch) ==
        if ch < 3 && (c < i || (i <= c < endWidth && r < j)) then MosaicColour(snap, w, h, k, r, c, ch)
        else Get(imageData, w, h, r, c, ch)
    requires forall r: nat, c: nat, ch: nat | r < h && c < w && ch < 4 ::
      Get(after, w, h, r, c, ch) ==
        if ch < 3 && i <= c < endWidth && j <= r < endHeight then Pick(Get(snap, w, h, j, i, 0), Get(snap, w, h, j, i, 1), Get(snap, w, h, j, i, 2), ch)
        else Get(before, w, h, r, c, ch)
    ensures forall r: nat, c: nat, ch: nat | r < h && c < w && ch < 4 ::
      Get(after, w, h, r, c, ch) ==
        if ch < 3 && (c < i || (i <= c < endWidth && r < endHeight)) then MosaicColour(snap, w, h, k, r, c, ch)
        else Get(imageData, w, h, r, c, ch)
  {
    forall r: nat, c: nat, ch: nat | r < h && c < w && ch < 4
      ensures Get(after, w, h, r, c, ch) ==
        if ch < 3 && (c < i || (i <= c < endWidth && r < endHeight)) then MosaicColour(snap, w, h, k, r, c, ch)
        else Get(imageData, w, h, r, c, ch)
    {
      if ch < 3 && i <= c < endWidth && j <= r < endHeight {
        TileColour(snap, w, h, k, ti, tj, r, c, ch);
        var red, green, blue := Get(snap, w, h, j, i, 0), Get(snap, w, h, j, i, 1), Get(snap, w, h, j, i, 2);
        assert Get(after, w, h, r, c, ch) == Pick(red, green, blue, ch);
        assert Pick(red, green, blue, ch) == Get(snap, w, h, j, i, ch);
      } else {
        assert Get(after, w, h, r, c, ch) == Get(before, w, h, r, c, ch);
        assert Get(before, w, h, r, c, ch) ==
          if ch < 3 && (c < i || (i <= c < endWidth && r < j)) then MosaicColour(snap, w, h, k, r, c, ch)
          else Get(imageData, w, h, r, c, ch);
      }
    }
  }

  /** One column strip of mosaic: the tiles of columns [i, endWidth), top to
      bottom. Pixels left of the strip are already done; the strip's pixels
      get their tile colours and everything else is kept. */
  method MosaicStrip(s: seq<byte>, imageData: seq<byte>, snap: seq<byte>, w: nat, h: nat, k: nat,
                     i: nat, ghost ti: nat, endWidth: nat)
    returns (out: seq<byte>)
    requires |s| == 4 * w * h && |imageData| == |s| && |snap| == |s| && k >= 1
    requires i == ti * k && i < w && endWidth == (if i + k > w then w else i + k)
    requires forall r: nat, c: nat, ch: nat | r < h && c < w && ch < 4 ::
      Get(s, w, h, r, c, ch) ==
        if ch < 3 && c < i then MosaicColour(snap, w, h, k, r, c, ch) else Get(imageData, w, h, r, c, ch)
    ensures |out| == |s|
    ensures forall r: nat, c: nat, ch: nat | r < h && c < w && ch < 4 ::
      Get(out, w, h, r, c, ch) ==
        if ch < 3 && c < endWidth then MosaicColour(snap, w, h, k, r, c, ch) else Get(imageData, w, h, r, c, ch)
  {
    out := s;
    var j := 0;
    ghost var tj := 0;
    while j < h
      invariant 0 <= j && j == tj * k && |out| == |s|
      invariant forall r: nat, c: nat, ch: nat | r < h && c < w && ch < 4 ::
        Get(out, w, h, r, c, ch) ==
          if ch < 3 && (c < i || (i <= c < endWidth && r < j)) then MosaicColour(snap, w, h, k, r, c, ch)
          else Get(imageData, w, h, r, c, ch)
    {
      var red, green, blue := Get(snap, w, h, j, i, 0), Get(snap, w, h, j, i, 1), Get(snap, w, h, j, i, 2);
      var endHeight := if j + k > h then j + h % k else j + k;
      if j + k > h {
        Arith.TileBase(h, tj, k);
      }
      assert endHeight <= h && endHeight <= j + k && (endHeight == j + k || endHeight == h);
      ghost var before := out;
      out := PaintTile(out, w, h, i, endWidth, j, endHeight, red, green, blue);
      StripStep(before, out, imageData, snap, w, h, k, i, ti, endWidth, j, tj, endHeight);
      j := j + k;
      tj := tj + 1;
      assert j == tj * k;
    }
  }

  /** The source's mosaic loop, tile by tile. Tiles in the last column and
      row are cut at the image edge (the source adds the remainder of the
      image size to the tile start), so no pixel outside the image is
      written and every pixel inside is covered by exactly one tile. */
  method Mosaic(imageData: seq<byte>, sourceImageCopy: seq<byte>, imageWidth: nat, imageHeight: nat, chunkSize: nat)
    returns (out: seq<byte>)
    requires |imageData| == 4 * imageWidth * imageHeight
    requires |sourceImageCopy| == 4 * imageWidth * imageHeight
    requires chunkSize >= 1
    ensures |out| == |imageData|
    ensures forall row: nat, col: nat, ch: nat | row < imageHeight && col < imageWidth && ch < 4 ::
      Get(out, imageWidth, imageHeight, row, col, ch) ==
        if ch < 3 then MosaicColour(sourceImageCopy, imageWidth, imageHeight, chunkSize, row, col, ch)
        else Get(imageData, imageWidth, imageHeight, row, col, ch)
  {
    var w, h, snap, k := imageWidth, imageHeight, sourceImageCopy, chunkSize;
    out := imageData;
    var i := 0;
    ghost var ti := 0;
    while i < w
      invariant 0 <= i && i == ti * k && |out| == |imageData|
      invariant forall r: nat, c: nat, ch: nat | r < h && c < w && ch < 4 ::
        Get(out, w, h, r, c, ch) ==
          if ch < 3 && c < i then MosaicColour(snap, w, h, k, r, c, ch) else Get(imageData, w, h, r, c, ch)
    {
      var endWidth := if i + k > w then i + w % k else i + k;
      if i + k > w {
        Arith.TileBase(w, ti, k);
      }
      out := MosaicStrip(out, imageData, snap, w, h, k, i, ti, endWidth);
      i := i + k;
      ti := ti + 1;
      assert i == ti * k;
    }
  }
}
