/**
  The imperative core both converters share: the pixel comparison, the
  reordering loop that fills a fresh BGRA bottom-left buffer, and the packet
  loop with its two inner loops. Each method is proved against the functions
  of `Raster` and `Packets`. The output stream is modelled as the sequence of
  bytes written to it.
 */
module Encoder {
  import opened Bytes
  import opened Raster
  import opened Packets

  /**
    `pixelsEqual` / `pixels_equal`: compares the `bpp` bytes of pixel a with
    those of pixel b, one byte at a time, stopping at the first difference.
   */
  method PixelsEqual(pixels: seq<byte>, a: nat, b: nat, bpp: nat) returns (eq: bool)
    requires a * bpp + bpp <= |pixels| && b * bpp + bpp <= |pixels|
    ensures eq <==> pixels[a * bpp .. a * bpp + bpp] == pixels[b * bpp .. b * bpp + bpp]
  {
    var ai := a * bpp;
    var bi := b * bpp;
    ghost var pa, pb := pixels[ai .. ai + bpp], pixels[bi .. bi + bpp];
    var i := 0;
    while i < bpp
      invariant i <= bpp
      invariant pa[..i] == pb[..i]
    {
      if pixels[ai + i] != pixels[bi + i] {
        assert pa[i] != pb[i];
        return false;
      }
      assert pa[..i + 1] == pa[..i] + [pa[i]];
      assert pb[..i + 1] == pb[..i] + [pb[i]];
      i := i + 1;
    }
    assert pa == pa[..i] && pb == pb[..i];
    return true;
  }

  /** Comparing the byte slices of two pixels is the channel-wise comparison. */
  lemma PixelSlicesEqual(p: seq<byte>, a: nat, b: nat)
    requires a < PixelCount(p) && b < PixelCount(p)
    ensures SamePixel(p, a, b) <==> p[a * 4 .. a * 4 + 4] == p[b * 4 .. b * 4 + 4]
  {
    SamePixelIsEqual(p, a, b);
    assert a * 4 == 4 * a && b * 4 == 4 * b;
  }

  /**
    `makeBGRABottomLeft` (and the same loop inlined in `write_tga_rle`): row y
    of the new buffer is row h-1-y of the input, each pixel stored as B, G, R, A.
   */
  method MakeBgraBottomLeft(rgba: array<byte>, w: nat, h: nat) returns (pixels: array<byte>)
    requires rgba.Length == w * h * 4
    ensures fresh(pixels)
    ensures pixels[..] == BgraBottomLeft(rgba[..], w, h)
  {
    ghost var dst := BgraBottomLeft(rgba[..], w, h);
    pixels := new byte[w * h * 4];
    var y := 0;
    while y < h
      invariant y <= h
      invariant forall k | 0 <= k < y * w * 4 :: pixels[k] == dst[k]
    {
      RowBounds(w, h, y);
      forall x: nat | x < w
        ensures PixelAt(dst, w, h, x, y) == Bgra(PixelAt(rgba[..], w, h, x, h - 1 - y))
      {
        BgraBottomLeftAt(rgba[..], w, h, x, y);
      }
      ReorderRow(rgba, pixels, w, h, y, dst);
      y := y + 1;
    }
  }

  /** The byte range of row y is [y*w*4, (y+1)*w*4), inside the raster. */
  lemma RowBounds(w: nat, h: nat, y: nat)
    requires y < h
    ensures y * w * 4 + w * 4 == (y + 1) * w * 4 <= w * h * 4
  {
    MulLeft(y + 1, h, w);
  }

  /** The four bytes the inner loop reads at `si` and writes at `di` for pixel x of row y. */
  lemma ReorderPixel(src: seq<byte>, dst: seq<byte>, w: nat, h: nat, x: nat, y: nat, si: nat, di: nat)
    requires |src| == w * h * 4 && |dst| == w * h * 4 && x < w && y < h
    requires si == (h - 1 - y) * w * 4 + x * 4 && di == y * w * 4 + x * 4
    requires PixelAt(dst, w, h, x, y) == Bgra(PixelAt(src, w, h, x, h - 1 - y))
    ensures si + 4 <= |src| && di + 4 <= |dst|
    ensures dst[di] == src[si + 2] && dst[di + 1] == src[si + 1]
    ensures dst[di + 2] == src[si] && dst[di + 3] == src[si + 3]
  {
    var so, o := Offset(w, h, x, h - 1 - y), Offset(w, h, x, y);
    assert so == si && o == di;
    var spx, dpx := PixelAt(src, w, h, x, h - 1 - y), PixelAt(dst, w, h, x, y);
    assert dpx == [spx[2], spx[1], spx[0], spx[3]];
    assert dpx[0] == dst[di] && dpx[1] == dst[di + 1] && dpx[2] == dst[di + 2] && dpx[3] == dst[di + 3];
    assert spx[0] == src[si] && spx[1] == src[si + 1] && spx[2] == src[si + 2] && spx[3] == src[si + 3];
  }

  /** The inner loop over x for one row y: fills row y, leaves every other byte alone. */
  method ReorderRow(rgba: array<byte>, pixels: array<byte>, w: nat, h: nat, y: nat, ghost dst: seq<byte>)
    requires rgba.Length == w * h * 4 && pixels.Length == w * h * 4 && y < h
    requires pixels != rgba && |dst| == w * h * 4
    requires forall x: nat | x < w :: PixelAt(dst, w, h, x, y) == Bgra(PixelAt(rgba[..], w, h, x, h - 1 - y))
    modifies pixels
    ensures forall k | 0 <= k < pixels.Length ::
      if y * w * 4 <= k < (y + 1) * w * 4 then
        pixels[k] == dst[k]
      else
        pixels[k] == old(pixels[k])
  {
    RowBounds(w, h, y);
    var srcY := h - 1 - y;
    var srcRow := srcY * w * 4;
    var dstRow := y * w * 4;
    var x := 0;
    while x < w
      invariant x <= w
      invariant forall k | 0 <= k < pixels.Length ::
        if dstRow <= k < dstRow + x * 4 then pixels[k] == dst[k] else pixels[k] == old(pixels[k])
    {
      var si := srcRow + x * 4;
      var di := dstRow + x * 4;
      ReorderPixel(rgba[..], dst, w, h, x, y, si, di);
      var r, g, b, a := rgba[si], rgba[si + 1], rgba[si + 2], rgba[si + 3];
      pixels[di] := b;
      pixels[di + 1] := g;
      pixels[di + 2] := r;
      pixels[di + 3] := a;
      x := x + 1;
    }
  }

  /**
    The first inner loop: counts the pixels after pixel i that equal it, up to
    128 pixels in all and not past the end.
   */
  method MeasureRun(pixels: seq<byte>, i: nat) returns (run: nat)
    requires i < |pixels| / 4
    ensures IsMaximalRun(pixels, i, run)
    ensures run == RunLength(pixels, i)
  {
    var pixelCount := |pixels| / 4;
    run := 1;
    while i + run < pixelCount && run < MaxCount
      invariant IsRun(pixels, i, run)
    {
      var eq := PixelsEqual(pixels, i, i + run, 4);
      PixelSlicesEqual(pixels, i, i + run);
      if !eq {
        break;
      }
      var next := run + 1;
      RunStep(pixels, i, run, next);
      run := next;
    }
    RunLengthMaximal(pixels, i);
    MaximalRunUnique(pixels, i, run, RunLength(pixels, i));
  }

  /**
    The second inner loop: extends a raw packet from pixel i until it holds
    128 pixels, reaches the end, or the next two pixels are equal (those are
    left to start a run-length packet).
   */
  method MeasureRaw(pixels: seq<byte>, i: nat) returns (raw: nat)
    requires i < |pixels| / 4
    ensures IsRawStop(pixels, i, raw)
    ensures raw == RawLength(pixels, i)
  {
    var pixelCount := |pixels| / 4;
    raw := 1;
    while i + raw < pixelCount && raw < MaxCount
      invariant 1 <= raw <= MaxCount && i + raw <= pixelCount
      invariant NoPairAfter(pixels, i, raw)
    {
      if i + raw + 1 < pixelCount {
        var eq := PixelsEqual(pixels, i + raw, i + raw + 1, 4);
        PixelSlicesEqual(pixels, i + raw, i + raw + 1);
        if eq {
          break;
        }
      }
      var next := raw + 1;
      NoPairAfterStep(pixels, i, raw, next);
      raw := next;
    }
    RawLengthStops(pixels, i);
    RawStopUnique(pixels, i, raw, RawLength(pixels, i));
  }

  /**
    One iteration of the packet loop at pixel i: the bytes written there
    (header byte, then the run's pixel or the raw pixels) and the number of
    pixels they cover, which is where the next iteration starts.
   */
  method EmitPacket(pixels: seq<byte>, i: nat) returns (bytes: seq<byte>, count: nat)
    requires i < |pixels| / 4
    ensures WellFormed(FirstPacket(pixels, i))
    ensures bytes == Serialize(FirstPacket(pixels, i))
    ensures count == FirstPacket(pixels, i).count
  {
    FirstPacketWellFormed(pixels, i);
    var run := MeasureRun(pixels, i);
    if run >= 2 {
      bytes := [RunHeader(run)] + pixels[4 * i .. 4 * i + 4];
      return bytes, run;
    }
    var raw := MeasureRaw(pixels, i);
    bytes := [RawHeader(raw)] + pixels[4 * i .. 4 * (i + raw)];
    return bytes, raw;
  }

  /**
    The packet loop of `writeTGARLE` / `write_tga_rle`: from pixel 0 to the
    last whole pixel, emit one packet and skip the pixels it covers. Returns
    the bytes written.
   */
  method WritePackets(pixels: seq<byte>) returns (out: seq<byte>)
    ensures AllWellFormed(Encode(pixels, 0))
    ensures out == SerializeAll(Encode(pixels, 0))
  {
    ghost var pks: seq<Packet> := [];
    var pixelCount := |pixels| / 4;
    out := [];
    var i := 0;
    while i < pixelCount
      invariant EmittedBefore(pixels, pks, i)
      invariant AllWellFormed(pks) && out == SerializeAll(pks)
      decreases pixelCount - i
    {
      var bytes, count := EmitPacket(pixels, i);
      var next := i + count;
      ghost var pks' := pks + [FirstPacket(pixels, i)];
      EmittedStep(pixels, pks, pks', i, next);
      SerializeAllSnoc(pks, FirstPacket(pixels, i));
      out := out + bytes;
      pks := pks';
      i := next;
    }
    EmittedAll(pixels, pks);
  }
}
