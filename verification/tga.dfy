/**
  The file both converters write: an 18-byte TGA header for a run-length
  encoded true-colour image with alpha (image type 10),
  32 bits per pixel, origin bottom-left, followed by the packet stream of the
  reordered pixels. `Convert` is what a successful or failed call of
  `writeTGARLE` / `write_tga_rle` produces; `DecodeTga` is an independent
  reader used to state what the file means.
 */
module Tga {
  import opened Wrappers
  import opened Bytes
  import opened Raster
  import opened Packets

  /** The largest width or height the 16-bit header fields can hold. */
  const MaxDimension: nat := 65535

  /** Why the writer refuses an image. */
  datatype TgaError = DimensionTooLarge

  /** What a reader recovers from a file: the header dimensions and the raw BGRA bottom-left pixels. */
  datatype Image = Image(width: u16, height: u16, pixels: seq<byte>)

  /**
    The header as written field by field: no image ID, no colour map, type 10;
    an all-zero colour-map specification (first entry, length, entry size);
    x and y origin 0; width and height; 32 bits per pixel; descriptor 8
    (eight alpha bits, bottom-left origin).
   */
  function Header(width: u16, height: u16): (r: seq<byte>)
    ensures |r| == 18
    ensures r[0] == 0 && r[1] == 0 && r[2] == 10
    ensures forall k | 3 <= k < 12 :: r[k] == 0
    ensures ReadLe16(r[12], r[13]) == width && ReadLe16(r[14], r[15]) == height
    ensures r[16] == 32 && r[17] == 8
  {
    Le16RoundTrip(width);
    Le16RoundTrip(height);
    [0, 0, 10] + Le16(0) + Le16(0) + [0] + Le16(0) + Le16(0) + Le16(width) + Le16(height) + [32, 8]
  }

  /** The whole file for a reordered buffer: header, then the greedy packet stream. */
  function TgaFile(width: u16, height: u16, pixels: seq<byte>): (file: seq<byte>)
    ensures |file| >= 18 && file[..18] == Header(width, height)
  {
    EncodeWellFormed(pixels, 0);
    Header(width, height) + SerializeAll(Encode(pixels, 0))
  }

  /**
    The outcome of writing a top-to-bottom RGBA image of `w` by `h` pixels:
    a dimension above 65535 is refused, anything else yields the file for
    the BGRA bottom-left reordering of the input.
   */
  function Convert(rgba: seq<byte>, w: nat, h: nat): (r: Result<seq<byte>, TgaError>)
    requires |rgba| == w * h * 4
    ensures r.Failure? <==> w > MaxDimension || h > MaxDimension
    ensures r.Failure? ==> r.error == DimensionTooLarge
  {
    if w > MaxDimension || h > MaxDimension then
      Failure(DimensionTooLarge)
    else
      Success(TgaFile(w as u16, h as u16, BgraBottomLeft(rgba, w, h)))
  }

  // ---------------------------------------------------------------------------
  // Reading the file back

  /** The header fields a reader checks before trusting the dimensions. */
  predicate HeaderFieldsValid(file: seq<byte>)
    requires |file| >= 18
  {
    && file[0] == 0 && file[1] == 0 && file[2] == 10
    && (forall k | 3 <= k < 12 :: file[k] == 0)
    && file[16] == 32 && file[17] == 8
  }

  /**
    A reader for the files this writer produces: `None` for a short file, an
    unexpected header field, a truncated packet, or a pixel count that
    disagrees with the header's dimensions.
   */
  function DecodeTga(file: seq<byte>): (r: Option<Image>)
    ensures r.Some? ==> |r.value.pixels| == r.value.width as int * r.value.height as int * 4
  {
    if |file| < 18 || !HeaderFieldsValid(file) then
      None
    else
      var w, h := ReadLe16(file[12], file[13]), ReadLe16(file[14], file[15]);
      match DecodePackets(file[18..])
      case None => None
      case Some(px) =>
        if |px| == w as int * h as int * 4 then Some(Image(w, h, px)) else None
  }

  /** The reader accepts a header followed by any packet stream that expands to w * h pixels. */
  lemma DecodeAfterHeader(width: u16, height: u16, body: seq<byte>, px: seq<byte>)
    requires DecodePackets(body) == Some(px) && |px| == width as int * height as int * 4
    ensures DecodeTga(Header(width, height) + body) == Some(Image(width, height, px))
  {
    var hd := Header(width, height);
    var file := hd + body;
    assert file[18..] == body;
    assert forall k | 0 <= k < 18 :: file[k] == hd[k];
    assert HeaderFieldsValid(file);
  }

  /** Reading a written file gives back its dimensions and the pixel buffer. */
  lemma TgaFileRoundTrip(width: u16, height: u16, pixels: seq<byte>)
    requires |pixels| == width as int * height as int * 4
    ensures DecodeTga(TgaFile(width, height, pixels)) == Some(Image(width, height, pixels))
  {
    assert |pixels| % 4 == 0 by {
      assert |pixels| == (width as int * height as int) * 4;
    }
    EncodeRoundTrip(pixels);
    var body := SerializeAll(Encode(pixels, 0));
    DecodeAfterHeader(width, height, body, pixels);
    assert TgaFile(width, height, pixels) == Header(width, height) + body;
  }

  /**
    End to end: a converted image is accepted, and a reader that undoes the
    reordering recovers the input raster exactly.
   */
  lemma ConvertRoundTrip(rgba: seq<byte>, w: nat, h: nat)
    requires |rgba| == w * h * 4 && w <= MaxDimension && h <= MaxDimension
    ensures Convert(rgba, w, h).Success?
    ensures var img := DecodeTga(Convert(rgba, w, h).value);
      && img.Some? && img.value.width as nat == w && img.value.height as nat == h
      && BgraBottomLeft(img.value.pixels, w, h) == rgba
  {
    var px := BgraBottomLeft(rgba, w, h);
    TgaFileRoundTrip(w as u16, h as u16, px);
    BgraBottomLeftInvolution(rgba, w, h);
  }

  /** A buffer with no pixels is written as the bare 18-byte header. */
  lemma TgaFileEmpty(width: u16, height: u16, pixels: seq<byte>)
    requires |pixels| == 0
    ensures TgaFile(width, height, pixels) == Header(width, height)
  {
    assert Encode(pixels, 0) == [];
    assert Header(width, height) + [] == Header(width, height);
  }

  /** An image with no pixels is written as the bare 18-byte header. */
  lemma EmptyImageIsHeader(rgba: seq<byte>, w: nat, h: nat)
    requires |rgba| == w * h * 4 && w <= MaxDimension && h <= MaxDimension
    requires w == 0 || h == 0
    ensures Convert(rgba, w, h) == Success(Header(w as u16, h as u16))
    ensures |Convert(rgba, w, h).value| == 18
  {
    assert w * h == 0;
    TgaFileEmpty(w as u16, h as u16, BgraBottomLeft(rgba, w, h));
  }

  /** Every packet costs at most one header byte per pixel on top of the pixel bytes. */
  lemma {:induction false} SerializedSize(pks: seq<Packet>)
    requires AllWellFormed(pks)
    ensures 5 * |pks| <= |SerializeAll(pks)| <= 5 * TotalCount(pks)
  {
    if pks != [] {
      assert WellFormed(pks[0]);
      SerializedSize(pks[1..]);
    }
  }

  /** The packet stream for n pixels takes between 5 bytes per 128 pixels and 5 bytes per pixel. */
  lemma PacketStreamSize(pixels: seq<byte>)
    requires |pixels| % 4 == 0
    ensures AllWellFormed(Encode(pixels, 0))
    ensures var len := |SerializeAll(Encode(pixels, 0))|;
      5 * PixelCount(pixels) <= MaxCount * len && len <= 5 * PixelCount(pixels)
  {
    EncodeRoundTrip(pixels);
    var pks := Encode(pixels, 0);
    SerializedSize(pks);
    PacketCountBounds(pks);
  }

  /** A w by h image is written in at most 18 + 5 * w * h bytes, and at least 18 + 5 * w * h / 128. */
  lemma TgaFileSize(width: u16, height: u16, pixels: seq<byte>)
    requires |pixels| == width as int * height as int * 4
    ensures var n, len := width as int * height as int, |TgaFile(width, height, pixels)|;
      5 * n <= MaxCount * (len - 18) && len <= 18 + 5 * n
  {
    var n := width as int * height as int;
    EncodeWellFormed(pixels, 0);
    var len := |SerializeAll(Encode(pixels, 0))|;
    assert |pixels| % 4 == 0 && PixelCount(pixels) == n by {
      assert |pixels| == n * 4;
    }
    PacketStreamSize(pixels);
    assert |TgaFile(width, height, pixels)| == 18 + len;
  }
}
