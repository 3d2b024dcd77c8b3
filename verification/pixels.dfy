/** The RGBA8 pixel buffer every filter works on: a flat, row-major sequence
    of bytes, four per pixel (R, G, B, A), with no padding between rows. A
    buffer of an image `w` pixels wide and `h` high holds `4 * w * h` bytes. */
module Pixels {
  import Arith

  type byte = x: int | 0 <= x < 256

  /** Number of pixels in the first `row` rows of an image `w` pixels wide,
      that is `row * w`; written as a sum so that index reasoning stays linear. */
  function RowStart(w: nat, row: nat): (n: nat)
  {
    if row == 0 then 0 else RowStart(w, row - 1) + w
  }

  lemma {:induction false} RowStartIsProduct(w: nat, row: nat)
    ensures RowStart(w, row) == row * w
  {
    if row > 0 {
      RowStartIsProduct(w, row - 1);
      assert (row - 1) * w + w == row * w;
    }
  }

  /** A later row starts at least one full row later. */
  lemma {:induction false} RowStartMonotone(w: nat, r1: nat, r2: nat)
    requires r1 < r2
    ensures RowStart(w, r1) + w <= RowStart(w, r2)
  {
    if r2 > r1 + 1 {
      RowStartMonotone(w, r1, r2 - 1);
    }
  }

  /** Offset of channel `ch` (0 = R, 1 = G, 2 = B, 3 = A) of the pixel in row
      `row`, column `col` of an image `w` pixels wide: `4 * (row * w + col) + ch`. */
  function Idx(w: nat, row: nat, col: nat, ch: nat): nat
  {
    4 * (RowStart(w, row) + col) + ch
  }

  lemma IdxIsProduct(w: nat, row: nat, col: nat, ch: nat)
    ensures Idx(w, row, col, ch) == 4 * (row * w + col) + ch
  {
    RowStartIsProduct(w, row);
  }

  lemma IdxInBounds(w: nat, h: nat, row: nat, col: nat, ch: nat)
    requires row < h && col < w && ch < 4
    ensures Idx(w, row, col, ch) < 4 * w * h
  {
    RowStartMonotone(w, row, h);
    RowStartIsProduct(w, h);
    assert 4 * w * h == 4 * (h * w) by {
      assert h * w == w * h;
      assert 4 * w * h == 4 * (w * h);
    }
    assert Idx(w, row, col, ch) < 4 * RowStart(w, row) + 4 * w;
  }

  lemma AllIdxInBounds(w: nat, h: nat)
    ensures forall row: nat, col: nat, ch: nat | row < h && col < w && ch < 4 :: Idx(w, row, col, ch) < 4 * w * h
  {
    forall row: nat, col: nat, ch: nat | row < h && col < w && ch < 4
      ensures Idx(w, row, col, ch) < 4 * w * h
    {
      IdxInBounds(w, h, row, col, ch);
    }
  }

  /** Distinct (row, col, ch) triples of one image name distinct bytes. */
  lemma IdxInjective(w: nat, r1: nat, c1: nat, ch1: nat, r2: nat, c2: nat, ch2: nat)
    requires c1 < w && c2 < w && ch1 < 4 && ch2 < 4
    requires Idx(w, r1, c1, ch1) == Idx(w, r2, c2, ch2)
    ensures r1 == r2 && c1 == c2 && ch1 == ch2
  {
    if r1 < r2 {
      RowStartMonotone(w, r1, r2);
    } else if r2 < r1 {
      RowStartMonotone(w, r2, r1);
    }
  }

  /** Channel `ch` of the pixel at (row, col) of the buffer `s` of a `w` by `h`
      image. */
  function Get(s: seq<byte>, w: nat, h: nat, row: nat, col: nat, ch: nat): byte
    requires |s| == 4 * w * h && row < h && col < w && ch < 4
  {
    IdxInBounds(w, h, row, col, ch);
    s[Idx(w, row, col, ch)]
  }

  /** `s` with channel `ch` of pixel (row, col) replaced by `v`. */
  function SetChannel(s: seq<byte>, w: nat, h: nat, row: nat, col: nat, ch: nat, v: byte): (r: seq<byte>)
    requires |s| == 4 * w * h && row < h && col < w && ch < 4
    ensures |r| == |s|
    ensures forall row': nat, col': nat, ch': nat | row' < h && col' < w && ch' < 4 ::
      Get(r, w, h, row', col', ch') ==
        if row' == row && col' == col && ch' == ch then v else Get(s, w, h, row', col', ch')
  {
    AllIdxInBounds(w, h);
    var r := s[Idx(w, row, col, ch) := v];
    forall row': nat, col': nat, ch': nat | row' < h && col' < w && ch' < 4
      ensures Get(r, w, h, row', col', ch') ==
        if row' == row && col' == col && ch' == ch then v else Get(s, w, h, row', col', ch')
    {
      if Idx(w, row', col', ch') == Idx(w, row, col, ch) {
        IdxInjective(w, row', col', ch', row, col, ch);
      }
    }
    r
  }

  /** Colour channel `ch` of the colour (red, green, blue). */
  function Pick(red: byte, green: byte, blue: byte, ch: nat): byte
  {
    if ch == 0 then red else if ch == 1 then green else blue
  }

  /** `s` with the colour channels of pixel (row, col) replaced by
      (red, green, blue); the alpha byte is kept. */
  function SetRGB(s: seq<byte>, w: nat, h: nat, row: nat, col: nat, red: byte, green: byte, blue: byte): (r: seq<byte>)
    requires |s| == 4 * w * h && row < h && col < w
    ensures |r| == |s|
    ensures forall row': nat, col': nat, ch: nat | row' < h && col' < w && ch < 4 ::
      Get(r, w, h, row', col', ch) ==
        if row' == row && col' == col && ch < 3 then Pick(red, green, blue, ch)
        else Get(s, w, h, row', col', ch)
  {
    var s0 := SetChannel(s, w, h, row, col, 0, red);
    var s1 := SetChannel(s0, w, h, row, col, 1, green);
    SetChannel(s1, w, h, row, col, 2, blue)
  }

  /** Every byte of a `w` by `h` buffer is some channel of some pixel. */
  lemma IdxCovers(w: nat, h: nat, k: nat)
    requires k < 4 * w * h
    ensures exists row: nat, col: nat, ch: nat :: row < h && col < w && ch < 4 && Idx(w, row, col, ch) == k
  {
    var p, ch := k / 4, k % 4;
    Arith.DivModUnique(k, 4, p, ch);
    assert w > 0;
    var row, col := p / w, p % w;
    assert p == row * w + col;
    assert 4 * w * h == 4 * (h * w);
    if row >= h {
      Arith.MulMonotone(h, row, w);
    }
    IdxIsProduct(w, row, col, ch);
    assert Idx(w, row, col, ch) == k;
  }

  /** Two buffers of the same image that agree on every channel of every
      pixel are equal. */
  lemma BufferExt(a: seq<byte>, b: seq<byte>, w: nat, h: nat)
    requires |a| == 4 * w * h && |b| == |a|
    requires forall row: nat, col: nat, ch: nat | row < h && col < w && ch < 4 :: Get(a, w, h, row, col, ch) == Get(b, w, h, row, col, ch)
    ensures a == b
  {
    forall k | 0 <= k < |a|
      ensures a[k] == b[k]
    {
      IdxCovers(w, h, k);
      var row: nat, col: nat, ch: nat :| row < h && col < w && ch < 4 && Idx(w, row, col, ch) == k;
      assert Get(a, w, h, row, col, ch) == Get(b, w, h, row, col, ch);
    }
  }
}
