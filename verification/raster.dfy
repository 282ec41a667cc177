/**
  Pixel buffers and the row/channel reordering the TGA writer applies.

  A raster of `w` by `h` pixels is a flat, row-major byte buffer of length
  `w * h * 4` (stride `4 * w`, as `image.NewRGBA` lays it out). The decoded
  input runs top-to-bottom in R, G, B, A order; the TGA image data runs
  bottom-to-top in B, G, R, A order. Every pixel takes four bytes (`bpp` is 4
  in both implementations); the literal 4 below is that constant.
 */
module Raster {
  import opened Bytes

  /** Number of whole pixels in a flat buffer (`len(pixels) / bpp`). */
  function PixelCount(buf: seq<byte>): nat
  {
    |buf| / 4
  }

  /** The four bytes of the `k`-th pixel of a flat buffer. */
  function Pixel(buf: seq<byte>, k: nat): (px: seq<byte>)
    requires k < PixelCount(buf)
    ensures |px| == 4
  {
    buf[4 * k .. 4 * k + 4]
  }

  /** Pixels a and b of a flat buffer agree in all four channels (`pixelsEqual`); every pixel equals itself. */
  predicate SamePixel(buf: seq<byte>, a: nat, b: nat)
    requires a < PixelCount(buf) && b < PixelCount(buf)
    ensures a == b ==> SamePixel(buf, a, b)
  {
    && buf[4 * a] == buf[4 * b]
    && buf[4 * a + 1] == buf[4 * b + 1]
    && buf[4 * a + 2] == buf[4 * b + 2]
    && buf[4 * a + 3] == buf[4 * b + 3]
  }

  /** Channel-wise equality is equality of the pixels' byte strings. */
  lemma SamePixelIsEqual(buf: seq<byte>, a: nat, b: nat)
    requires a < PixelCount(buf) && b < PixelCount(buf)
    ensures SamePixel(buf, a, b) <==> Pixel(buf, a) == Pixel(buf, b)
  {
    assert Pixel(buf, a) == [buf[4 * a], buf[4 * a + 1], buf[4 * a + 2], buf[4 * a + 3]];
    assert Pixel(buf, b) == [buf[4 * b], buf[4 * b + 1], buf[4 * b + 2], buf[4 * b + 3]];
  }

  /** Channel permutation RGBA -> BGRA (it is its own inverse). */
  function Bgra(px: seq<byte>): (q: seq<byte>)
    requires |px| == 4
    ensures |q| == 4
  {
    [px[2], px[1], px[0], px[3]]
  }

  // ---------------------------------------------------------------------------
  // Row-major addressing

  lemma MulLeft(a: nat, b: nat, w: nat)
    requires a <= b
    ensures a * w <= b * w
  {
  }

  /** Byte offset of pixel (x, y) in a row-major raster of width `w`. */
  function Offset(w: nat, h: nat, x: nat, y: nat): (o: nat)
    requires x < w && y < h
    ensures o + 4 <= w * h * 4
    ensures o % 4 == 0 && o / 4 == y * w + x
  {
    MulLeft(y + 1, h, w);
    (y * w + x) * 4
  }

  /** The pixel at column x, row y of a `w` by `h` raster. */
  function PixelAt(buf: seq<byte>, w: nat, h: nat, x: nat, y: nat): (px: seq<byte>)
    requires |buf| == w * h * 4 && x < w && y < h
    ensures |px| == 4
  {
    buf[Offset(w, h, x, y) .. Offset(w, h, x, y) + 4]
  }

  /** Euclidean division by `w` is unique. */
  lemma DivModUnique(q: nat, w: nat, y: nat, x: nat)
    requires x < w && q == y * w + x
    ensures q / w == y && q % w == x
  {
    var y', x' := q / w, q % w;
    assert q == y' * w + x';
    if y' < y {
      MulLeft(y' + 1, y, w);
    } else if y < y' {
      MulLeft(y + 1, y', w);
    }
  }

  /** A raster that has a byte at index k has a positive width. */
  lemma PositiveWidth(w: nat, h: nat, k: nat)
    requires k < w * h * 4
    ensures w > 0
  {
  }

  /** Every byte index of a `w` by `h` raster is channel c of some pixel (x, y) inside it. */
  lemma Decompose(w: nat, h: nat, k: nat) returns (x: nat, y: nat, c: nat)
    requires k < w * h * 4
    ensures x < w && y < h && c < 4
    ensures k == Offset(w, h, x, y) + c
  {
    var q := k / 4;
    c := k % 4;
    assert q < w * h;
    PositiveWidth(w, h, k);
    y, x := q / w, q % w;
    assert q == y * w + x;
    if h <= y {
      MulLeft(h, y, w);
      assert false;
    }
  }

  // ---------------------------------------------------------------------------
  // The reordered buffer

  /** Which source channel feeds destination channel c: B<-R's slot 2, G<-1, R<-0, A<-3. */
  function SourceChannel(c: nat): (s: nat)
    requires c < 4
    ensures s < 4
  {
    if c == 0 then 2 else if c == 2 then 0 else c
  }

  /** Source byte that lands at destination byte k of the reordered buffer. */
  function SourceIndex(w: nat, h: nat, k: nat): (s: nat)
    requires k < w * h * 4
    ensures s < w * h * 4
  {
    var q := k / 4;
    var y, x := q / w, q % w;
    if h <= y then
      MulLeft(h, y, w);
      0
    else
      Offset(w, h, x, h - 1 - y) + SourceChannel(k % 4)
  }

  /**
    The buffer `makeBGRABottomLeft` builds from a top-to-bottom RGBA raster:
    rows in reverse order, each pixel's channels permuted to B, G, R, A.
   */
  function BgraBottomLeft(src: seq<byte>, w: nat, h: nat): (dst: seq<byte>)
    requires |src| == w * h * 4
    ensures |dst| == |src|
  {
    seq(w * h * 4, k requires 0 <= k < w * h * 4 => src[SourceIndex(w, h, k)])
  }

  /** The source byte feeding channel c of destination pixel (x, y). */
  lemma SourceIndexAt(w: nat, h: nat, x: nat, y: nat, c: nat)
    requires x < w && y < h && c < 4
    ensures Offset(w, h, x, y) + c < w * h * 4
    ensures SourceIndex(w, h, Offset(w, h, x, y) + c) == Offset(w, h, x, h - 1 - y) + SourceChannel(c)
  {
    var k := Offset(w, h, x, y) + c;
    assert k / 4 == y * w + x && k % 4 == c;
    DivModUnique(y * w + x, w, y, x);
  }

  /** The four bytes written for destination pixel (x, y): B, G, R, A of source pixel (x, h-1-y). */
  lemma BgraBottomLeftBytes(src: seq<byte>, w: nat, h: nat, x: nat, y: nat)
    requires |src| == w * h * 4 && x < w && y < h
    ensures var dst, o, so := BgraBottomLeft(src, w, h), Offset(w, h, x, y), Offset(w, h, x, h - 1 - y);
      && dst[o] == src[so + 2]
      && dst[o + 1] == src[so + 1]
      && dst[o + 2] == src[so]
      && dst[o + 3] == src[so + 3]
  {
    SourceIndexAt(w, h, x, y, 0);
    SourceIndexAt(w, h, x, y, 1);
    SourceIndexAt(w, h, x, y, 2);
    SourceIndexAt(w, h, x, y, 3);
  }

  /** Destination pixel (x, y) is the BGRA form of source pixel (x, h-1-y). */
  lemma BgraBottomLeftAt(src: seq<byte>, w: nat, h: nat, x: nat, y: nat)
    requires |src| == w * h * 4 && x < w && y < h
    ensures PixelAt(BgraBottomLeft(src, w, h), w, h, x, y) == Bgra(PixelAt(src, w, h, x, h - 1 - y))
  {
    BgraBottomLeftBytes(src, w, h, x, y);
  }

  /** Mapping a destination byte to its source byte twice leads back to the start. */
  lemma SourceIndexInvolution(w: nat, h: nat, k: nat)
    requires k < w * h * 4
    ensures SourceIndex(w, h, SourceIndex(w, h, k)) == k
  {
    var x, y, c := Decompose(w, h, k);
    SourceIndexAt(w, h, x, y, c);
    SourceIndexAt(w, h, x, h - 1 - y, SourceChannel(c));
  }

  /** Reordering twice restores the original raster: the reorder is an involution. */
  lemma BgraBottomLeftInvolution(src: seq<byte>, w: nat, h: nat)
    requires |src| == w * h * 4
    ensures BgraBottomLeft(BgraBottomLeft(src, w, h), w, h) == src
  {
    var dst := BgraBottomLeft(src, w, h);
    var back := BgraBottomLeft(dst, w, h);
    forall k | 0 <= k < |src|
      ensures back[k] == src[k]
    {
      SourceIndexInvolution(w, h, k);
    }
  }
}
