/**
  The C converter (`src/convert-png-to-idtech3-tga.c`): `write_tga_rle`
  checks the dimensions before it allocates and reorders. Its `main` always
  takes the output path as the second argument, so there is no path rule.
 */
module CConverter {
  import opened Wrappers
  import opened Bytes
  import opened Tga
  import Encoder

  /**
    `write_tga_rle`: refuses a width or height above 65535 before doing
    anything else, then reorders the image into a fresh buffer and writes the
    header and the packet stream. The result is the byte stream written, or
    the error reported.
   */
  method WriteTgaRle(rgbaTopLeft: array<byte>, width: nat, height: nat) returns (r: Result<seq<byte>, TgaError>)
    requires rgbaTopLeft.Length == width * height * 4
    ensures r == Convert(rgbaTopLeft[..], width, height)
  {
    if width > MaxDimension || height > MaxDimension {
      return Failure(DimensionTooLarge);
    }
    var pixels := Encoder.MakeBgraBottomLeft(rgbaTopLeft, width, height);
    var out := Header(width as u16, height as u16);
    var body := Encoder.WritePackets(pixels[..]);
    out := out + body;
    return Success(out);
  }
}
