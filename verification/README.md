# convert-png-to-idtech3-tga, modelled in Dafny

The converter reads a PNG and writes it as a run-length encoded TGA
(image type 10, 32 bits per pixel, bottom-left origin), the form idTech 3
engines load. It exists twice: in Go (`main.go`) and in C
(`src/convert-png-to-idtech3-tga.c`). Both follow the same pipeline:

1. **Reorder.** Build a flat buffer of `w * h * 4` bytes in which row `y` is
   input row `h-1-y` and every pixel is stored as B, G, R, A.
2. **Header.** Write the 18-byte TGA header. Width and height are
   little-endian 16-bit fields, so a dimension above 65535 is refused.
3. **Packets.** Scan the buffer once, emitting packets greedily:
   - A **run-length packet** is used when pixel `i` starts a run of 2 to 128
     equal pixels. It is the header byte `0x80 | (count-1)` plus the one pixel.
   - Otherwise a **raw packet** is used. It extends pixel by pixel up to 128
     pixels and stops one pixel short of the next pair of equal neighbours.
     It is the header byte `count-1` plus the literal pixels.

The model is split into these modules:

- `Bytes`: bytes, 16-bit values, and the little-endian 16-bit field.
- `Raster`: pixel buffers and the reordering, as a function.
- `Packets`: the packet scheme and the greedy packet choice, as a function (`Encode`).
  - `Tiles` gives a separate statement of the packet rules.
  - `DecodePackets` is a reader for the byte stream.
- `Encoder`: the loops both programs share, as methods. Each method is proved
  against the `Raster`/`Packets` functions.
- `Tga`: the header, the whole file, the outcome of a call (`Convert`), and a
  file reader (`DecodeTga`).
- `GoConverter`: `writeTGARLE`, and the output-path rule of the Go `main`.
- `CConverter`: `write_tga_rle`.

The output stream is modelled as the sequence of bytes written to it.

The main results:

- The encoder's packets are exactly the packets the rules allow. Both
  directions are proved (`EncodeTiles`, `TilesAreEncode`).
- The packets' counts sum to the pixel count, and reading them back gives the
  buffer (`EncodeRoundTrip`).
- A reader that undoes the reordering recovers the input image from the
  written file (`ConvertRoundTrip`).
- Both implementations compute the same function `Convert`.

## Model

| member | source | states |
|---|---|---|
| Bytes.Le16 | main.go:14-18 | The two bytes written are the low byte then the high byte: `r[0] + 256 * r[1] == value`. |
| Bytes.Le16RoundTrip | src/convert-png-to-idtech3-tga.c:7-12 | Reading the pair written by `write_le16` as a little-endian field yields the value written. |
| Bytes.ReadLe16RoundTrip | src/convert-png-to-idtech3-tga.c:7-12 | Every byte pair is the encoding of the value it reads as, so the 16-bit encoding is a bijection. |
| Raster.SamePixelIsEqual | src/convert-png-to-idtech3-tga.c:129-131 | Pixels a and b agree in all four channels exactly when their 4-byte slices are equal (the `memcmp` test). |
| Raster.SamePixel | main.go:44-53 | Pixels a and b agree in all four channels; every pixel equals itself, so the run loop's first pixel always counts. |
| Raster.Decompose | main.go:61-76 | Every byte index of a `w` by `h` buffer is `(y*w + x)*4 + c` for some x < w, y < h and c < 4, the row-major layout the reorder loops address. |
| Raster.BgraBottomLeftAt | main.go:55-80 | Pixel (x, y) of the reordered buffer is the BGRA form of input pixel (x, h-1-y). |
| Raster.BgraBottomLeft | main.go:55-80 | The reordered buffer has the input's length; its contents are pinned by `BgraBottomLeftAt` and `BgraBottomLeftInvolution`. |
| Raster.SourceIndexInvolution | src/convert-png-to-idtech3-tga.c:147-159 | Mapping an output byte to the input byte it copies, twice, returns to the start. |
| Raster.BgraBottomLeftInvolution | src/convert-png-to-idtech3-tga.c:147-159 | Reordering twice gives back the input, so the reordering loses nothing. |
| Packets.RunFromMaximal | src/convert-png-to-idtech3-tga.c:183-187 | Continuing the run loop from a run of r equal pixels stops at a maximal run: 128 pixels, the end of the buffer, or a different pixel. |
| Packets.RunLengthMaximal | main.go:138-141 | The measured `run` is a maximal run of pixels equal to pixel i, between 1 and 128, not past the end. |
| Packets.RawFromStops | src/convert-png-to-idtech3-tga.c:196-203 | Continuing the raw loop stops at 128 pixels, at the end, or just before an equal pair. No equal pair starts strictly inside the packet. |
| Packets.RawLengthStops | main.go:154-160 | The measured `raw` count from pixel i satisfies the three stopping conditions and has no equal pair after its first pixel. |
| Packets.RunFrom | main.go:138-141 | Continuing the run loop from count r never shrinks the run, never exceeds 128 and never passes the last pixel. |
| Packets.RunLength | main.go:138-141 | The run measured at pixel i is between 1 and 128 pixels and ends at or before the last pixel. |
| Packets.RawFrom | main.go:154-160 | Continuing the raw loop from count k never shrinks the packet, never exceeds 128 and never passes the last pixel. |
| Packets.RawLength | main.go:154-160 | The raw count measured at pixel i is between 1 and 128 pixels and ends at or before the last pixel. |
| Packets.FirstPacket | main.go:138-168 | The packet one outer iteration emits at pixel i covers at least one pixel and ends at or before the last pixel. |
| Packets.Encode | main.go:136-169 | The greedy loop from pixel i emits no packet exactly when no pixel remains; `EmittedCountBounds` bounds how many it emits. |
| Packets.RunHeader | main.go:144 | The run-length header byte has its high bit set, and its low seven bits are count-1. |
| Packets.RawHeader | main.go:162 | The raw header byte has its high bit clear, and its low seven bits are count-1. |
| Packets.Serialize | main.go:144-165 | A packet is written as one header byte whose high bit says run-length and whose low seven bits are count-1, then one pixel (run-length) or count pixels (raw). |
| Packets.SerializeAll | main.go:143-168 | The stream is empty exactly when there are no packets: every packet writes at least one byte. |
| Packets.FirstPacketFollows | main.go:143-168 | The packet emitted at pixel i obeys the rules. A run-length packet covers a maximal run of 2 to 128 equal pixels and carries that pixel. A raw packet copies 1 to 128 pixels with no two neighbours equal, stopping only at 128, at the end, or before an equal pair. |
| Packets.FollowsIsFirstPacket | src/convert-png-to-idtech3-tga.c:189-207 | Conversely, the rules allow only one packet at pixel i: the one emitted. |
| Packets.EncodeTiles | main.go:134-169 | The packets emitted from pixel i cover pixels i to N-1 one after another, each obeying the rules. |
| Packets.TilesAreEncode | src/convert-png-to-idtech3-tga.c:181-208 | Any packet sequence covering the buffer under the rules is the emitted one: the packet stream is unique. |
| Packets.TilesCover | main.go:134-169 | A sequence of rule-following packets is well formed. Its counts sum to the pixels it covers, and it expands to exactly their bytes. |
| Packets.RepeatRun | main.go:147 | Writing the run's one pixel `count` times reproduces the bytes of the run. |
| Packets.PacketCountBounds | main.go:137-169 | Every packet covers 1 to 128 pixels, so N pixels take between N/128 and N packets. |
| Packets.EmittedCountBounds | main.go:134-169 | The stream emitted for N pixels has at most N packets and at least N/128 packets. |
| Packets.SerializeAllSnoc | main.go:143-167 | Writing one more packet appends its header and payload to the stream. |
| Packets.DecodeSerializeAll | src/convert-png-to-idtech3-tga.c:189-207 | Reading the bytes of well-formed packets yields their pixels. |
| Packets.EncodeRoundTrip | src/convert-png-to-idtech3-tga.c:181-208 | The emitted packets are well formed. Their counts sum to the pixel count. Reading the emitted bytes gives back the buffer. |
| Packets.EncodeWellFormed | main.go:135-169 | From any pixel i, the emitted packets are well formed and their counts sum to N - i. |
| Packets.EmittedStep | main.go:150-168 | Advancing `i` by the emitted packet's count moves the loop to where the next packet starts. |
| Encoder.PixelsEqual | main.go:44-53 | Returns true exactly when the `bpp` bytes of pixel a equal those of pixel b. |
| Encoder.MakeBgraBottomLeft | main.go:55-80 | Returns a fresh buffer whose contents are the BGRA bottom-left reordering of the input. |
| Encoder.ReorderRow | src/convert-png-to-idtech3-tga.c:148-158 | One pass of the inner loop fills row y with its reordered bytes and leaves every other byte unchanged. |
| Encoder.MeasureRun | main.go:138-141 | The first inner loop returns the maximal run at pixel i, the same value as `RunLength`. |
| Encoder.MeasureRaw | src/convert-png-to-idtech3-tga.c:196-203 | The second inner loop returns the raw stopping point at pixel i, the same value as `RawLength`. |
| Encoder.EmitPacket | main.go:138-168 | One iteration writes the bytes of the rule-following packet at pixel i and advances by its count. |
| Encoder.WritePackets | src/convert-png-to-idtech3-tga.c:181-208 | The packet loop writes exactly the serialized greedy packet sequence. |
| Tga.Header | main.go:97-132 | The header is 18 bytes: 0, 0, 10; nine zero bytes; width and height as little-endian 16-bit fields; 32; 8. |
| Tga.TgaFile | src/convert-png-to-idtech3-tga.c:168-208 | The file starts with the header for its dimensions. |
| Tga.Convert | main.go:83-86 | The write fails exactly when the width or height exceeds 65535, with the dimension error. |
| Tga.TgaFileRoundTrip | src/convert-png-to-idtech3-tga.c:168-208 | Reading a written file yields the header's dimensions and the exact reordered buffer. |
| Tga.ConvertRoundTrip | main.go:82-172 | An image of at most 65535 by 65535 pixels converts, and the reader's image has the input's dimensions. Undoing the reordering of its pixels gives back the input raster. |
| Tga.EmptyImageIsHeader | src/convert-png-to-idtech3-tga.c:181-182 | An image with no pixels is written as the bare 18-byte header. |
| Tga.SerializedSize | main.go:143-167 | Each packet takes at least 5 bytes and at most 5 bytes per pixel it covers. |
| Tga.TgaFileSize | main.go:97-169 | A `w` by `h` file has at most `18 + 5*w*h` bytes. At least `5*w*h/128` bytes follow the header. |
| GoConverter.WriteTgaRle | main.go:82-172 | `writeTGARLE` reorders first and then checks the dimensions. Its result is `Convert` of the input: the dimension error, or the header followed by the packet stream. |
| GoConverter.HasSuffix | main.go:191 | `s` ends with `suffix` exactly when `s` is some string followed by `suffix`. |
| GoConverter.TrimSuffix | main.go:195 | When `s` ends with the suffix, the result followed by the suffix is `s`; otherwise the result is `s`. |
| GoConverter.OutputPath | main.go:186-196 | An explicit output path is used as given. Without one, the call fails exactly when the input does not end in `.png`. Otherwise the result ends in `.tga`, and swapping that suffix back to `.png` gives the input path. |
| CConverter.WriteTgaRle | src/convert-png-to-idtech3-tga.c:133-213 | `write_tga_rle` checks the dimensions before reordering. Its result is `Convert` of the input: the dimension error, or the header followed by the packet stream. |

## Notes on the source

- Neither writer rejects a width or height of 0. `writeTGARLE` writes the
  bare 18-byte header for such an image (`Tga.EmptyImageIsHeader`).
  `write_tga_rle` does too when `malloc(0)` returns a non-null pointer, as
  glibc's does. Where it returns NULL, the writer takes its out-of-memory exit
  (`src/convert-png-to-idtech3-tga.c:141-144`), which the model leaves out
  with the other allocation failures. The PNG loaders are outside the model.
- `writeTGARLE` builds the reordered buffer before its check for dimensions
  above 65535 (`main.go:83-84`). `write_tga_rle` checks first
  (`src/convert-png-to-idtech3-tga.c:135`). Both return the same outcome
  (`GoConverter.WriteTgaRle`, `CConverter.WriteTgaRle`).

## Left out

- **PNG decoding** (`loadPNGRGBA`, `load_png_rgba`, libpng, `image/png`). The
  model starts from the decoded top-to-bottom RGBA raster, given as an array.
- **File I/O.** Opening files, buffered writing, the final flush, `fclose`,
  and write errors are not modelled. The Go writer returns write errors; the C
  writer ignores them. The output is the byte sequence a successful run
  writes.
- **The command line.** Argument counting, `-h`/`--help`, usage messages and
  exit codes are not modelled. The Go rule for naming the output file is
  modelled (`GoConverter.OutputPath`). The C `main` always takes the output
  path as an argument.
- **`build-tool/main.go`**, the cross-compilation driver, is not part of this
  model.
- **Allocation failure** in C (`malloc` returning NULL) is not modelled, and
  neither is the memory the Go version allocates for an oversized image
  before refusing it.
- **`0x80 | (run - 1)`** is modelled as `0x80 + (run - 1)`. The two are equal
  because `run - 1 < 0x80`.
- **Integer widths.** Go `int` and C `size_t` arithmetic on indices is
  modelled with unbounded integers. It cannot overflow for dimensions up to
  65535 on a 64-bit target.
- Encoder.PixelsEqual: the C `pixels_equal` is a single `memcmp`. The model
  uses the Go byte loop, which has the same result.
- Encoder.WritePackets: reads the reordered buffer as an immutable sequence,
  which both programs only read at this stage. Aliasing between that buffer
  and the output is not modelled.
- Encoder.ReorderRow: the inner loop over x is a method of its own, called
  once per row by `MakeBgraBottomLeft`. The body and the order of writes are
  those of the source.
- Encoder.MakeBgraBottomLeft: takes the input stride as `4 * w`, the value
  `image.NewRGBA` gives `rgba.Stride` for the images the loader builds.
