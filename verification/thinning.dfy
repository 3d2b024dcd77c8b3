/** The predicates of the Hilditch thinning pass, over a binarized RGBA8
    buffer. A pixel is addressed by row `i` and column `j` of an image
    `width` pixels wide, and only its red byte is read. Whether a neighbour
    exists is decided from its flat byte index alone: neighbours above or to
    the left count when the index is not negative, those below or to the
    right when it is below the buffer length. Columns are never checked, so
    the left neighbour of column 0 is the last pixel of the row above. The
    buffer length the source passes alongside the data is `|data|` here. */
module ThinningHelper {
  import opened Pixels
  import Arith

  // ---------------------------------------------------------------------------
  // Binarize

  /** Whether a pixel turns white: the mean of its colour channels, as a
      fraction of 255, reaches the threshold `tn / td`. Multiplying out,
      (r + g + b) / 3 / 255 >= tn / td exactly when (r + g + b) * td >= 765 * tn. */
  predicate TurnsWhite(r: byte, g: byte, b: byte, tn: int, td: int)
    requires td > 0
  {
    (r as int + g as int + b as int) * td >= 765 * tn
  }

  /** `out` is the binarization of `data` at threshold `tn / td`: every
      pixel's colour channels are all 255 or all 0, as TurnsWhite decides,
      and the alpha bytes are kept. */
  predicate Binarization(out: seq<byte>, data: seq<byte>, w: nat, h: nat, tn: int, td: int)
    requires |data| == 4 * w * h && |out| == |data| && td > 0
  {
    forall row: nat, col: nat, ch: nat | row < h && col < w && ch < 4 ::
      Get(out, w, h, row, col, ch) ==
        if ch == 3 then Get(data, w, h, row, col, 3)
        else if TurnsWhite(Get(data, w, h, row, col, 0), Get(data, w, h, row, col, 1), Get(data, w, h, row, col, 2), tn, td)
        then 255 else 0
  }

  /** The source's binarize loop, with the threshold taken as the exact
      fraction `tn / td`. */
  method Binarize(data: seq<byte>, width: nat, height: nat, tn: int, td: int) returns (out: seq<byte>)
    requires |data| == 4 * width * height && td > 0
    ensures |out| == |data|
    ensures Binarization(out, data, width, height, tn, td)
  {
    var w, h := width, height;
    out := data;
    var i := 0;
    while i < h
      invariant 0 <= i <= h && |out| == |data|
      invariant forall row: nat, col: nat, ch: nat | row < h && col < w && ch < 4 ::
        Get(out, w, h, row, col, ch) ==
          if ch == 3 || row >= i then Get(data, w, h, row, col, ch)
          else if TurnsWhite(Get(data, w, h, row, col, 0), Get(data, w, h, row, col, 1), Get(data, w, h, row, col, 2), tn, td)
          then 255 else 0
    {
      var j := 0;
      while j < w
        invariant 0 <= j <= w && |out| == |data|
        invariant forall row: nat, col: nat, ch: nat | row < h && col < w && ch < 4 ::
          Get(out, w, h, row, col, ch) ==
            if ch == 3 || row > i || (row == i && col >= j) then Get(data, w, h, row, col, ch)
            else if TurnsWhite(Get(data, w, h, row, col, 0), Get(data, w, h, row, col, 1), Get(data, w, h, row, col, 2), tn, td)
            then 255 else 0
      {
        var r, g, b := Get(out, w, h, i, j, 0), Get(out, w, h, i, j, 1), Get(out, w, h, i, j, 2);
        if (r + g + b) * td >= 765 * tn {
          out := SetRGB(out, w, h, i, j, 255, 255, 255);
        } else {
          out := SetRGB(out, w, h, i, j, 0, 0, 0);
        }
        j := j + 1;
      }
      i := i + 1;
    }
  }

  /** For a threshold in (0, 1] a binarized image binarizes to itself: white
      (sum 765) stays white and black (sum 0) stays black. */
  lemma BinarizeIdempotent(data: seq<byte>, once: seq<byte>, twice: seq<byte>, w: nat, h: nat, tn: int, td: int)
    requires |data| == 4 * w * h && |once| == |data| && |twice| == |data| && 0 < tn <= td
    requires Binarization(once, data, w, h, tn, td)
    requires Binarization(twice, once, w, h, tn, td)
    ensures twice == once
  {
    forall row: nat, col: nat, ch: nat | row < h && col < w && ch < 4
      ensures Get(twice, w, h, row, col, ch) == Get(once, w, h, row, col, ch)
    {
      var white := TurnsWhite(Get(data, w, h, row, col, 0), Get(data, w, h, row, col, 1), Get(data, w, h, row, col, 2), tn, td);
      if white {
        assert TurnsWhite(255, 255, 255, tn, td);
      } else {
        assert !TurnsWhite(0, 0, 0, tn, td);
      }
    }
    BufferExt(twice, once, w, h);
  }

  /** At the usual threshold 0.5 a pixel turns white exactly when
      2 * (r + g + b) >= 765. */
  lemma HalfThreshold(r: byte, g: byte, b: byte)
    ensures TurnsWhite(r, g, b, 1, 2) <==> 2 * (r as int + g as int + b as int) >= 765
  {
  }

  // ---------------------------------------------------------------------------
  // Neighbour indices

  /** The eight neighbours, in the clockwise order testConnectivity walks. */
  datatype Dir = Top | TopRight | Right | BottomRight | Bottom | BottomLeft | Left | TopLeft

  /** Flat byte index of the red channel of pixel (i, j). */
  function PixelIndex(i: int, j: int, width: int): int
  {
    4 * i * width + j * 4
  }

  /** Flat index of neighbour `d` of the pixel whose index is `c`. */
  function NeighbourIndex(c: int, width: int, d: Dir): int
  {
    match d
    case Top => c - 4 * width
    case TopRight => c - 4 * width + 4
    case Right => c + 4
    case BottomRight => c + 4 * width + 4
    case Bottom => c + 4 * width
    case BottomLeft => c + 4 * width - 4
    case Left => c - 4
    case TopLeft => c - 4 * width - 4
  }

  /** Moving one row or one column shifts the flat index by a row or a pixel. */
  lemma PixelIndexShift(i: int, j: int, width: int)
    ensures PixelIndex(i - 1, j, width) == PixelIndex(i, j, width) - 4 * width
    ensures PixelIndex(i + 1, j, width) == PixelIndex(i, j, width) + 4 * width
    ensures PixelIndex(i, j + 1, width) == PixelIndex(i, j, width) + 4
  {
    assert 4 * (i - 1) * width == 4 * i * width - 4 * width;
    assert 4 * (i + 1) * width == 4 * i * width + 4 * width;
  }

  /** Neighbour `d` of pixel (i, j) is the pixel one step away in direction
      `d`, whatever the row and column. */
  lemma NeighbourIsPixel(i: int, j: int, width: int)
    ensures var c := PixelIndex(i, j, width);
      && NeighbourIndex(c, width, Top) == PixelIndex(i - 1, j, width)
      && NeighbourIndex(c, width, TopRight) == PixelIndex(i - 1, j + 1, width)
      && NeighbourIndex(c, width, Right) == PixelIndex(i, j + 1, width)
      && NeighbourIndex(c, width, BottomRight) == PixelIndex(i + 1, j + 1, width)
      && NeighbourIndex(c, width, Bottom) == PixelIndex(i + 1, j, width)
      && NeighbourIndex(c, width, BottomLeft) == PixelIndex(i + 1, j - 1, width)
      && NeighbourIndex(c, width, Left) == PixelIndex(i, j - 1, width)
      && NeighbourIndex(c, width, TopLeft) == PixelIndex(i - 1, j - 1, width)
  {
    PixelIndexShift(i, j, width);
    PixelIndexShift(i, j - 1, width);
    PixelIndexShift(i, j + 1, width);
  }

  /** A pixel of a `w` by `h` image has its red byte inside the buffer, at
      the position Pixels.Idx gives it. */
  lemma PixelIndexInImage(w: nat, h: nat, i: int, j: int)
    requires 0 <= i < h && 0 <= j < w
    ensures PixelIndex(i, j, w) == Idx(w, i, j, 0)
    ensures 0 <= PixelIndex(i, j, w) < 4 * w * h
  {
    IdxIsProduct(w, i, j, 0);
    assert 4 * i * w + j * 4 == 4 * (i * w + j);
    IdxInBounds(w, h, i, j, 0);
  }

  /** The neighbours the source tests with `idx >= 0`; the others it tests
      with `idx < dataLength`. */
  predicate LowerGuarded(d: Dir)
  {
    d.Top? || d.TopRight? || d.Left? || d.TopLeft?
  }

  /** Whether the source counts neighbour `d` as present: only the one bound
      its guard checks is tested. */
  predicate Present(n: int, c: int, width: int, d: Dir)
  {
    var k := NeighbourIndex(c, width, d);
    if LowerGuarded(d) then k >= 0 else k < n
  }

  /** Whether reading neighbour `d` when it is present stays inside `data`. */
  predicate Readable(data: seq<byte>, c: int, width: int, d: Dir)
  {
    Present(|data|, c, width, d) ==> 0 <= NeighbourIndex(c, width, d) < |data|
  }

  predicate AllReadable(data: seq<byte>, c: int, width: int)
  {
    forall d: Dir :: Readable(data, c, width, d)
  }

  /** Inside the buffer and in an image at least one pixel wide, every
      present neighbour can be read: each guard's missing bound follows from
      the pixel's own. */
  lemma ReadableInside(data: seq<byte>, c: int, width: int)
    requires width >= 1 && 0 <= c < |data|
    ensures AllReadable(data, c, width)
  {
    forall d: Dir
      ensures Readable(data, c, width, d)
    {
    }
  }

  /** Neighbour `d`'s red byte, as a one-element sequence when present. */
  function Seen(data: seq<byte>, c: int, width: int, d: Dir): (s: seq<byte>)
    requires Readable(data, c, width, d)
    ensures |s| <= 1
  {
    if Present(|data|, c, width, d) then [data[NeighbourIndex(c, width, d)]] else []
  }

  /** The red bytes of the present neighbours, clockwise from the top. */
  function Neighbourhood(data: seq<byte>, c: int, width: int): (s: seq<byte>)
    requires AllReadable(data, c, width)
    ensures |s| <= 8
  {
    Seen(data, c, width, Top) + Seen(data, c, width, TopRight) + Seen(data, c, width, Right)
    + Seen(data, c, width, BottomRight) + Seen(data, c, width, Bottom) + Seen(data, c, width, BottomLeft)
    + Seen(data, c, width, Left) + Seen(data, c, width, TopLeft)
  }

  // ---------------------------------------------------------------------------
  // checkBlackNeighbors

  /** The source's count of black neighbours of the pixel at index `c`, in
      its own order: left, right, top, bottom, then the corners. */
  method CountBlackNeighbors(data: seq<byte>, c: int, width: int) returns (black: nat)
    requires AllReadable(data, c, width)
    ensures black == multiset(Neighbourhood(data, c, width))[0]
  {
    var n := |data|;
    var left, right, top, bottom := c - 4, c + 4, c - 4 * width, c + 4 * width;
    var topLeft, topRight := c - 4 * width - 4, c - 4 * width + 4;
    var bottomLeft, bottomRight := c + 4 * width - 4, c + 4 * width + 4;
    assert Readable(data, c, width, Left) && Readable(data, c, width, Right);
    assert Readable(data, c, width, Top) && Readable(data, c, width, Bottom);
    assert Readable(data, c, width, TopLeft) && Readable(data, c, width, TopRight);
    assert Readable(data, c, width, BottomLeft) && Readable(data, c, width, BottomRight);
    var bLeft := if left >= 0 && data[left] == 0 then 1 else 0;
    var bRight := if right < n && data[right] == 0 then 1 else 0;
    var bTop := if top >= 0 && data[top] == 0 then 1 else 0;
    var bBottom := if bottom < n && data[bottom] == 0 then 1 else 0;
    var bTopLeft := if topLeft >= 0 && data[topLeft] == 0 then 1 else 0;
    var bTopRight := if topRight >= 0 && data[topRight] == 0 then 1 else 0;
    var bBottomLeft := if bottomLeft < n && data[bottomLeft] == 0 then 1 else 0;
    var bBottomRight := if bottomRight < n && data[bottomRight] == 0 then 1 else 0;
    black := bLeft + bRight + bTop + bBottom + bTopLeft + bTopRight + bBottomLeft + bBottomRight;
    assert black == BlackAt(data, c, width, Left) + BlackAt(data, c, width, Right) + BlackAt(data, c, width, Top)
      + BlackAt(data, c, width, Bottom) + BlackAt(data, c, width, TopLeft) + BlackAt(data, c, width, TopRight)
      + BlackAt(data, c, width, BottomLeft) + BlackAt(data, c, width, BottomRight) by {
      assert bLeft == BlackAt(data, c, width, Left) && bRight == BlackAt(data, c, width, Right);
      assert bTop == BlackAt(data, c, width, Top) && bBottom == BlackAt(data, c, width, Bottom);
      assert bTopLeft == BlackAt(data, c, width, TopLeft) && bTopRight == BlackAt(data, c, width, TopRight);
      assert bBottomLeft == BlackAt(data, c, width, BottomLeft) && bBottomRight == BlackAt(data, c, width, BottomRight);
    }
    BlackCount(data, c, width);
  }

  /** The source's checkBlackNeighbors: the pixel passes when 2 to 6 of its
      present neighbours are black. */
  method CheckBlackNeighbors(data: seq<byte>, i: int, j: int, width: int) returns (r: bool)
    requires AllReadable(data, PixelIndex(i, j, width), width)
    ensures r <==> 2 <= multiset(Neighbourhood(data, PixelIndex(i, j, width), width))[0] <= 6
  {
    var c := PixelIndex(i, j, width);
    var black := CountBlackNeighbors(data, c, width);
    r := black >= 2 && black <= 6;
  }

  /** How many of the present neighbours are black, one direction at a time. */
  function BlackAt(data: seq<byte>, c: int, width: int, d: Dir): (k: nat)
    requires Readable(data, c, width, d)
  {
    if Present(|data|, c, width, d) && data[NeighbourIndex(c, width, d)] == 0 then 1 else 0
  }

  /** The clockwise neighbourhood holds as many zeros as the directions do
      one by one, whatever the order they are counted in. */
  lemma BlackCount(data: seq<byte>, c: int, width: int)
    requires AllReadable(data, c, width)
    ensures multiset(Neighbourhood(data, c, width))[0] ==
      BlackAt(data, c, width, Left) + BlackAt(data, c, width, Right) + BlackAt(data, c, width, Top)
      + BlackAt(data, c, width, Bottom) + BlackAt(data, c, width, TopLeft) + BlackAt(data, c, width, TopRight)
      + BlackAt(data, c, width, BottomLeft) + BlackAt(data, c, width, BottomRight)
  {
    forall d: Dir
      ensures multiset(Seen(data, c, width, d))[0] == BlackAt(data, c, width, d)
    {
      assert Readable(data, c, width, d);
    }
  }

  // ---------------------------------------------------------------------------
  // testConnectivity: the crossing number

  /** A neighbour's letter in the connectivity string: '0' for white (255),
      '1' for anything else. */
  function Letter(v: byte): char
  {
    if v == 255 then '0' else '1'
  }

  function Encode(s: seq<byte>): (e: string)
    ensures |e| == |s|
  {
    seq(|s|, k requires 0 <= k < |s| => Letter(s[k]))
  }

  /** The string the source builds: the present neighbours clockwise from
      the top, and the top neighbour once more to close the ring. */
  function Ring(data: seq<byte>, c: int, width: int): (s: string)
    requires AllReadable(data, c, width)
  {
    Encode(Neighbourhood(data, c, width) + Seen(data, c, width, Top))
  }

  lemma EncodeAppend(a: seq<byte>, b: seq<byte>)
    ensures Encode(a + b) == Encode(a) + Encode(b)
  {
  }

  /** One direction's letter, or nothing when the neighbour is missing. */
  function Spelled(data: seq<byte>, c: int, width: int, d: Dir): string
    requires Readable(data, c, width, d)
  {
    if Present(|data|, c, width, d) then [Letter(data[NeighbourIndex(c, width, d)])] else []
  }

  lemma EncodeSeen(data: seq<byte>, c: int, width: int)
    requires AllReadable(data, c, width)
    ensures forall d: Dir :: Encode(Seen(data, c, width, d)) == Spelled(data, c, width, d)
  {
    forall d: Dir
      ensures Encode(Seen(data, c, width, d)) == Spelled(data, c, width, d)
    {
      assert Readable(data, c, width, d);
    }
  }

  /** The ring, one direction at a time. */
  lemma RingPieces(data: seq<byte>, c: int, width: int)
    requires AllReadable(data, c, width)
    ensures Ring(data, c, width) ==
      Encode(Seen(data, c, width, Top)) + Encode(Seen(data, c, width, TopRight)) + Encode(Seen(data, c, width, Right))
      + Encode(Seen(data, c, width, BottomRight)) + Encode(Seen(data, c, width, Bottom)) + Encode(Seen(data, c, width, BottomLeft))
      + Encode(Seen(data, c, width, Left)) + Encode(Seen(data, c, width, TopLeft)) + Encode(Seen(data, c, width, Top))
  {
    var t, tr, r, br := Seen(data, c, width, Top), Seen(data, c, width, TopRight), Seen(data, c, width, Right), Seen(data, c, width, BottomRight);
    var b, bl, l, tl := Seen(data, c, width, Bottom), Seen(data, c, width, BottomLeft), Seen(data, c, width, Left), Seen(data, c, width, TopLeft);
    EncodeAppend(t + tr + r + br + b + bl + l + tl, t);
    EncodeAppend(t + tr + r + br + b + bl + l, tl);
    EncodeAppend(t + tr + r + br + b + bl, l);
    EncodeAppend(t + tr + r + br + b, bl);
    EncodeAppend(t + tr + r + br, b);
    EncodeAppend(t + tr + r, br);
    EncodeAppend(t + tr, r);
    EncodeAppend(t, tr);
  }

  /** Number of "01" pairs of adjacent letters in `s`. */
  function Rises(s: string): nat
  {
    if |s| < 2 then 0
    else Rises(s[..|s| - 1]) + if s[|s| - 2] == '0' && s[|s| - 1] == '1' then 1 else 0
  }

  /** When testConnectivity's result is defined. A negative row or column
      answers false at once. Otherwise the pixel's own byte is read; a black
      pixel then needs every present neighbour readable and at least one of
      them, since the source counts pairs up to the string length minus one
      in unsigned arithmetic and an empty string would wrap around. */
  predicate ConnectivityDefined(data: seq<byte>, i: int, j: int, width: int)
  {
    var c := PixelIndex(i, j, width);
    i < 0 || j < 0 ||
    (0 <= c < |data| && (data[c] != 0 || (AllReadable(data, c, width) && |Neighbourhood(data, c, width)| > 0)))
  }

  /** Hilditch's connectivity condition: the pixel is black and its ring of
      neighbours has exactly one white-to-black transition. */
  predicate Connected(data: seq<byte>, i: int, j: int, width: int)
    requires ConnectivityDefined(data, i, j, width)
  {
    var c := PixelIndex(i, j, width);
    i >= 0 && j >= 0 && data[c] == 0 && Rises(Ring(data, c, width)) == 1
  }

  /** The source's construction of the letter string around the pixel at
      index `c`, neighbour by neighbour. */
  method BuildRing(data: seq<byte>, c: int, width: int) returns (sequence: string)
    requires AllReadable(data, c, width)
    ensures sequence == Ring(data, c, width)
  {
    var n := |data|;
    var left, right, top, bottom := c - 4, c + 4, c - 4 * width, c + 4 * width;
    var topLeft, topRight := c - 4 * width - 4, c - 4 * width + 4;
    var bottomLeft, bottomRight := c + 4 * width - 4, c + 4 * width + 4;
    assert Readable(data, c, width, Left) && Readable(data, c, width, Right);
    assert Readable(data, c, width, Top) && Readable(data, c, width, Bottom);
    assert Readable(data, c, width, TopLeft) && Readable(data, c, width, TopRight);
    assert Readable(data, c, width, BottomLeft) && Readable(data, c, width, BottomRight);
    var sTop := if top >= 0 then [Letter(data[top])] else [];
    var sTopRight := if topRight >= 0 then [Letter(data[topRight])] else [];
    var sRight := if right < n then [Letter(data[right])] else [];
    var sBottomRight := if bottomRight < n then [Letter(data[bottomRight])] else [];
    var sBottom := if bottom < n then [Letter(data[bottom])] else [];
    var sBottomLeft := if bottomLeft < n then [Letter(data[bottomLeft])] else [];
    var sLeft := if left >= 0 then [Letter(data[left])] else [];
    var sTopLeft := if topLeft >= 0 then [Letter(data[topLeft])] else [];
    sequence := sTop + sTopRight + sRight + sBottomRight + sBottom + sBottomLeft + sLeft + sTopLeft + sTop;
    RingSpelled(data, c, width, sTop, sTopRight, sRight, sBottomRight, sBottom, sBottomLeft, sLeft, sTopLeft);
  }

  /** The ring is the nine directions' letters laid end to end. */
  lemma RingSpelled(data: seq<byte>, c: int, width: int, t: string, tr: string, r: string, br: string,
                    b: string, bl: string, l: string, tl: string)
    requires AllReadable(data, c, width)
    requires t == Spelled(data, c, width, Top) && tr == Spelled(data, c, width, TopRight)
    requires r == Spelled(data, c, width, Right) && br == Spelled(data, c, width, BottomRight)
    requires b == Spelled(data, c, width, Bottom) && bl == Spelled(data, c, width, BottomLeft)
    requires l == Spelled(data, c, width, Left) && tl == Spelled(data, c, width, TopLeft)
    ensures Ring(data, c, width) == t + tr + r + br + b + bl + l + tl + t
  {
    RingPieces(data, c, width);
    EncodeSeen(data, c, width);
  }

  /** The source's count of "01" pairs, scanning left to right. The loop
      bound is the string length minus one in unsigned arithmetic, so the
      string must not be empty. */
  method CountRises(sequence: string) returns (connected: nat)
    requires |sequence| >= 1
    ensures connected == Rises(sequence)
  {
    connected := 0;
    var k := 0;
    while k < |sequence| - 1
      invariant 0 <= k <= |sequence| - 1
      invariant connected == Rises(sequence[..k + 1])
    {
      assert sequence[..k + 2][..k + 1] == sequence[..k + 1];
      if sequence[k] == '0' && sequence[k + 1] == '1' {
        connected := connected + 1;
      }
      k := k + 1;
    }
    assert sequence[..k + 1] == sequence;
  }

  /** The source's testConnectivity: it builds the letter string neighbour
      by neighbour, then counts "01" pairs left to right. */
  method TestConnectivity(data: seq<byte>, i: int, j: int, width: int) returns (r: bool)
    requires ConnectivityDefined(data, i, j, width)
    ensures r <==> Connected(data, i, j, width)
    ensures r ==> i >= 0 && j >= 0 && data[PixelIndex(i, j, width)] == 0
  {
    if i < 0 || j < 0 {
      return false;
    }
    var c := PixelIndex(i, j, width);
    if data[c] != 0 {
      return false;
    }
    var sequence := BuildRing(data, c, width);
    var connected := CountRises(sequence);
    r := connected == 1;
  }

  /** A string with no "01" pair when all its letters are equal. */
  lemma {:induction false} RisesOfUniform(s: string, letter: char)
    requires forall k | 0 <= k < |s| :: s[k] == letter
    ensures Rises(s) == 0
  {
    if |s| >= 2 {
      RisesOfUniform(s[..|s| - 1], letter);
    }
  }

  /** A black pixel whose present neighbours are all white, or all not
      white, fails the connectivity test: an isolated point or an interior
      point is never removed. */
  lemma UniformNeighbourhoodNotConnected(data: seq<byte>, i: int, j: int, width: int, v: byte)
    requires ConnectivityDefined(data, i, j, width)
    requires i >= 0 && j >= 0
    requires AllReadable(data, PixelIndex(i, j, width), width)
    requires var nb := Neighbourhood(data, PixelIndex(i, j, width), width);
      forall k | 0 <= k < |nb| :: Letter(nb[k]) == Letter(v)
    ensures !Connected(data, i, j, width)
  {
    var c := PixelIndex(i, j, width);
    var nb := Neighbourhood(data, c, width);
    var closed := nb + Seen(data, c, width, Top);
    assert Seen(data, c, width, Top) == nb[..|Seen(data, c, width, Top)|];
    forall k | 0 <= k < |closed|
      ensures Ring(data, c, width)[k] == Letter(v)
    {
      if k >= |nb| {
        assert closed[k] == nb[0];
      }
    }
    RisesOfUniform(Ring(data, c, width), Letter(v));
  }

  // ---------------------------------------------------------------------------
  // verticalLineCheck and horizontalLineCheck

  /** Whether neighbour `d` is present and not black. */
  predicate LitAt(data: seq<byte>, c: int, width: int, d: Dir)
    requires Readable(data, c, width, d)
  {
    Present(|data|, c, width, d) && data[NeighbourIndex(c, width, d)] != 0
  }

  /** When verticalLineCheck's result is defined: the left, right and top
      neighbours are readable, and unless all three are lit, the
      connectivity test of the pixel above is defined. */
  predicate VerticalDefined(data: seq<byte>, i: int, j: int, width: int)
  {
    var c := PixelIndex(i, j, width);
    Readable(data, c, width, Left) && Readable(data, c, width, Right) && Readable(data, c, width, Top)
    && ((LitAt(data, c, width, Left) && LitAt(data, c, width, Right) && LitAt(data, c, width, Top))
        || ConnectivityDefined(data, i - 1, j, width))
  }

  /** The source's verticalLineCheck: the pixel may go if its left, right and
      top neighbours are all lit, or if the pixel above fails the
      connectivity test. */
  method VerticalLineCheck(data: seq<byte>, i: int, j: int, width: int) returns (r: bool)
    requires VerticalDefined(data, i, j, width)
    ensures var c := PixelIndex(i, j, width);
      r <==> (LitAt(data, c, width, Left) && LitAt(data, c, width, Right) && LitAt(data, c, width, Top))
             || !Connected(data, i - 1, j, width)
    ensures i <= 0 ==> r
    ensures !r ==> i >= 1 && j >= 0 && data[PixelIndex(i - 1, j, width)] == 0
  {
    var c := PixelIndex(i, j, width);
    var n := |data|;
    var left, right, top := c - 4, c + 4, c - 4 * width;
    var lit := 0;
    if left >= 0 && data[left] != 0 { lit := lit + 1; }
    if right < n && data[right] != 0 { lit := lit + 1; }
    if top >= 0 && data[top] != 0 { lit := lit + 1; }
    if lit == 3 {
      r := true;
    } else {
      var above := TestConnectivity(data, i - 1, j, width);
      r := !above;
    }
  }

  /** When horizontalLineCheck's result is defined: the bottom, right and top
      neighbours are readable, and unless all three are lit, the
      connectivity test of the pixel to the right is defined. */
  predicate HorizontalDefined(data: seq<byte>, i: int, j: int, width: int)
  {
    var c := PixelIndex(i, j, width);
    Readable(data, c, width, Bottom) && Readable(data, c, width, Right) && Readable(data, c, width, Top)
    && ((LitAt(data, c, width, Bottom) && LitAt(data, c, width, Right) && LitAt(data, c, width, Top))
        || ConnectivityDefined(data, i, j + 1, width))
  }

  /** The source's horizontalLineCheck: the pixel may go if its bottom, right
      and top neighbours are all lit, or if the pixel to its right fails the
      connectivity test. */
  method HorizontalLineCheck(data: seq<byte>, i: int, j: int, width: int) returns (r: bool)
    requires HorizontalDefined(data, i, j, width)
    ensures var c := PixelIndex(i, j, width);
      r <==> (LitAt(data, c, width, Bottom) && LitAt(data, c, width, Right) && LitAt(data, c, width, Top))
             || !Connected(data, i, j + 1, width)
    ensures j < -1 ==> r
    ensures !r ==> i >= 0 && j >= -1 && data[PixelIndex(i, j + 1, width)] == 0
  {
    var c := PixelIndex(i, j, width);
    var n := |data|;
    var bottom, right, top := c + 4 * width, c + 4, c - 4 * width;
    var lit := 0;
    if bottom < n && data[bottom] != 0 { lit := lit + 1; }
    if right < n && data[right] != 0 { lit := lit + 1; }
    if top >= 0 && data[top] != 0 { lit := lit + 1; }
    if lit == 3 {
      r := true;
    } else {
      var beside := TestConnectivity(data, i, j + 1, width);
      r := !beside;
    }
  }

  // ---------------------------------------------------------------------------
  // hasEightNeighbors and isBlackPixel

  /** The source's hasEightNeighbors: all eight neighbour indices lie in
      [0, dataLength). The data itself is not read. */
  function HasEightNeighbors(dataLength: int, i: int, j: int, width: int): (r: bool)
    ensures var c := PixelIndex(i, j, width);
      width >= 1 ==> (r <==> c - 4 * width - 4 >= 0 && c + 4 * width + 4 < dataLength)
  {
    var c := PixelIndex(i, j, width);
    var inside := (d: Dir) => 0 <= NeighbourIndex(c, width, d) < dataLength;
    inside(Left) && inside(Right) && inside(Top) && inside(Bottom)
    && inside(TopLeft) && inside(TopRight) && inside(BottomLeft) && inside(BottomRight)
  }

  /** The source's isBlackPixel: the pixel's red byte is 0. */
  function IsBlackPixel(data: seq<byte>, i: int, j: int, width: int): (r: bool)
    requires 0 <= PixelIndex(i, j, width) < |data|
    ensures forall h: nat | 0 <= i < h && 0 <= j < width && |data| == 4 * width * h ::
      r <==> Get(data, width, h, i, j, 0) == 0
  {
    PixelIndexIsIdx(i, j, width);
    data[PixelIndex(i, j, width)] == 0
  }

  /** For a pixel in a column of the image, the predicates' index is the
      buffer layout's red byte. */
  lemma PixelIndexIsIdx(i: int, j: int, width: int)
    ensures 0 <= i && 0 <= j < width ==> PixelIndex(i, j, width) == Idx(width, i, j, 0)
  {
    if 0 <= i && 0 <= j < width {
      IdxIsProduct(width, i, j, 0);
    }
  }

  /** For a pixel of the image, isBlackPixel reads its red channel. */
  lemma IsBlackPixelReadsRed(data: seq<byte>, w: nat, h: nat, i: int, j: int)
    requires |data| == 4 * w * h && 0 <= i < h && 0 <= j < w
    ensures 0 <= PixelIndex(i, j, w) < |data|
    ensures IsBlackPixel(data, i, j, w) <==> Get(data, w, h, i, j, 0) == 0
  {
    PixelIndexInImage(w, h, i, j);
  }

  // ---------------------------------------------------------------------------
  // Where the predicates are defined

  /** A pixel on the four-byte grid of a buffer always has some neighbour
      present: the left one when it is not the first pixel, otherwise the
      right one, and in a one-pixel image the top-right index, which is the
      pixel itself. */
  lemma NeighbourhoodNonEmpty(data: seq<byte>, c: int, width: int)
    requires width >= 1 && 0 <= c < |data| && c % 4 == 0
    requires |data| <= 4 ==> width == 1
    ensures AllReadable(data, c, width)
    ensures |Neighbourhood(data, c, width)| > 0
  {
    ReadableInside(data, c, width);
    if c >= 4 {
      assert |Seen(data, c, width, Left)| == 1;
    } else if c + 4 < |data| {
      assert |Seen(data, c, width, Right)| == 1;
    } else {
      assert |Seen(data, c, width, TopRight)| == 1;
    }
  }

  /** The connectivity test is defined on every pixel of a well-formed image:
      some neighbour of any pixel is always present. */
  lemma ConnectivityDefinedInImage(data: seq<byte>, w: nat, h: nat, i: int, j: int)
    requires |data| == 4 * w * h && 0 <= i < h && 0 <= j < w
    ensures ConnectivityDefined(data, i, j, w)
  {
    var c := PixelIndex(i, j, w);
    PixelIndexInImage(w, h, i, j);
    assert c % 4 == 0 by {
      assert c == 4 * (i * w + j);
    }
    if w >= 2 {
      Arith.MulMonotone(1, h, w);
      assert 4 * w * h == 4 * (h * w);
    }
    NeighbourhoodNonEmpty(data, c, w);
  }

  /** A pixel at least one away from every edge has all eight neighbours,
      and every thinning predicate is defined on it. */
  lemma InteriorPixelDefined(data: seq<byte>, w: nat, h: nat, i: int, j: int)
    requires |data| == 4 * w * h && 1 <= i <= h - 2 && 1 <= j <= w - 2
    ensures HasEightNeighbors(|data|, i, j, w)
    ensures AllReadable(data, PixelIndex(i, j, w), w)
    ensures ConnectivityDefined(data, i, j, w)
    ensures VerticalDefined(data, i, j, w)
    ensures HorizontalDefined(data, i, j, w)
  {
    var c := PixelIndex(i, j, w);
    NeighbourIsPixel(i, j, w);
    PixelIndexInImage(w, h, i - 1, j - 1);
    PixelIndexInImage(w, h, i + 1, j + 1);
    PixelIndexInImage(w, h, i, j);
    ReadableInside(data, c, w);
    ConnectivityDefinedInImage(data, w, h, i, j);
    ConnectivityDefinedInImage(data, w, h, i - 1, j);
    ConnectivityDefinedInImage(data, w, h, i, j + 1);
  }

  /** Column 0 has a left neighbour: the last pixel of the row above. */
  lemma ColumnZeroWraps(i: int, w: nat)
    requires i >= 1 && w >= 1
    ensures NeighbourIndex(PixelIndex(i, 0, w), w, Left) == PixelIndex(i - 1, w - 1, w)
    ensures PixelIndex(i - 1, w - 1, w) >= 0
    ensures forall data: seq<byte> :: Present(|data|, PixelIndex(i, 0, w), w, Left)
  {
    PixelIndexShift(i - 1, w - 1, w);
    assert PixelIndex(i - 1, w, w) == PixelIndex(i, 0, w) by {
      assert 4 * (i - 1) * w + w * 4 == 4 * i * w;
    }
    assert PixelIndex(i - 1, w - 1, w) == 4 * ((i - 1) * w + (w - 1));
  }

  /** At the last pixel of an image horizontalLineCheck is undefined: the
      pixel to its right lies one past the end of the buffer, and its bottom
      neighbour is missing, so the connectivity test there is always reached. */
  lemma LastPixelHorizontalUndefined(data: seq<byte>, w: nat, h: nat)
    requires |data| == 4 * w * h && w >= 1 && h >= 1
    ensures PixelIndex(h - 1, w, w) == |data|
    ensures !HorizontalDefined(data, h - 1, w - 1, w)
  {
    var c := PixelIndex(h - 1, w - 1, w);
    PixelIndexShift(h - 1, w - 1, w);
    PixelIndexShift(h - 1, w, w);
    assert PixelIndex(h, w - 1, w) == PixelIndex(h - 1, w, w) + 4 * w - 4;
    assert PixelIndex(h - 1, w, w) == |data| by {
      assert 4 * (h - 1) * w + w * 4 == 4 * w * h;
    }
    assert !Present(|data|, c, w, Bottom);
  }
}
