# Splash container codec (logo_gen.go), modelled in Dafny

`logo_gen.go` converts between an image and a "splash screen" container. The
container is a 512-byte header followed by a body of 24-bit B,G,R pixels. The
body is either raw, or run-length encoded (RLE) row by row. This project
models the codec's core and proves what it does:

- `SplashHeader` (header.dfy): the `SplashHdr` record, `SplashHdr.Encode`,
  `SplashHdr.Decode` and `GetImageHeader`. These are pure functions over a
  fixed little-endian layout: magic, width, height, type and blocks, then zero
  padding from byte 24 to byte 512.
- `RleFormat` (rle_format.dfy): the `Entry` record, the conditions for a
  literal or repeat run, and the byte layout that `EncodeRLE24` writes for each
  entry.
- `LineEncoder` (line_encoder.dfy): `EncodeLine`, the row encoder. It is a
  method whose loop mirrors the Go loop, including its early `break`. It is
  proved to return `LineEntries`. `Step` is one loop iteration and `Run` is
  the fold of `Step`. Pixel conservation and run bounds are proved about
  `LineEntries`.
- `RleDecoder` (rle_decoder.dfy): the decode loop of `ExtractLogoImage`, lifted
  out as `DecodeBody`. This is a cursor method that returns the decoded bytes
  or an error. It is proved equal to the recursive `DecodeStream`, and the
  encode/decode round trip is proved for entries and rows.
- `Raster` (raster.dfy): the source image as a grid of 16-bit channel samples,
  pixel packing, and `EncodeRLE24`, `GetImageRaw` and `BGR2Img` as imperative
  methods. It also holds the whole-image round trips.

The fatal log calls (`log.Fatalf`, `log.Fatalln`) become `Failure` results.
Go's integers are modelled as unbounded `int`/`nat`. Where the code converts to
`uint32` (the header fields), the wrap-around is written out as `ToU32`.

## Model

| member | source | states |
|---|---|---|
| SplashHeader.Encode | logo_gen.go:41-50 | The result is exactly 512 bytes: the magic at 0..8, width, height, type and blocks as little-endian uint32 at offsets 8, 12, 16 and 20, then zeros up to 512. |
| SplashHeader.Decode | logo_gen.go:31-39 | Fails with `HeaderSizeMismatch` exactly when the input is shorter than 512 bytes. Otherwise the decoded header re-encodes to the first 24 input bytes followed by zero padding, so every field is read from its own offset. |
| SplashHeader.Le32RoundTrip | logo_gen.go:22-29 | Reading back the little-endian bytes of a uint32 gives the value. |
| SplashHeader.FromLe32RoundTrip | logo_gen.go:22-29 | Any four bytes are the little-endian encoding of the value they decode to. |
| SplashHeader.HeaderRoundTrip | logo_gen.go:31-50 | Decoding an encoded header gives that header back. |
| SplashHeader.DecodeIgnoresMagic | logo_gen.go:31-39 | A 512-byte buffer of zeros decodes successfully although its magic is not "SPLASH!!", because the magic is never checked. |
| SplashHeader.GetImageHeader | logo_gen.go:226-242 | 512 bytes starting with "SPLASH!!". Width and height are stored as uint32 (truncated mod 2^32). Type is 1 exactly when `compressed` holds and is never above 1. Blocks is ⌈realBytes/512⌉ mod 2^32. Zeros fill bytes 24..512, and the header decodes to those fields. |
| SplashHeader.BlocksCoverBody | logo_gen.go:237 | When it does not wrap, the blocks field is the least number of 512-byte blocks that holds the body. |
| RleFormat.SerEntry | logo_gen.go:198-211 | An entry is written as its control byte `Count-1`, followed by 3 bytes for a repeat run or 3 bytes per pixel for a literal run. |
| RleFormat.ControlByteRange | logo_gen.go:199 | The control byte of a well-formed entry is never 0x80. A literal run's byte is 0..127 and equals its pixel count minus 1. A repeat run's byte is 129..255 and equals its pixel count plus 127. |
| RleFormat.RepeatIsBgrBytes | logo_gen.go:200-209 | For a run of equal pixels, writing one triple repeated n times equals writing every pixel's triple. This is why a repeat entry needs only `Pix[0]`. |
| RleFormat.BgrBytesConcat | logo_gen.go:205-209 | The triples of two pixel sequences, concatenated, are the triples of their concatenation. |
| LineEncoder.EncodeLine | logo_gen.go:114-182 | The loop returns `LineEntries(line)`. Every entry is a literal run of 1..128 pixels or a repeat run of 2..128 equal pixels. For two or more pixels the entries' pixels, in order, are exactly the row. A one-pixel row gives no entries. |
| LineEncoder.LineEntries | logo_gen.go:114-182 | The same conservation and run-bound facts, stated on the list the loop builds. |
| LineEncoder.DiffersAppends | logo_gen.go:122-147 | The loop body for a pixel that differs from its successor only appends entries to the list, at most two, and afterwards no repeat run is open. |
| LineEncoder.EqualsAppends | logo_gen.go:148-179 | The loop body for a pixel equal to its successor only appends entries to the list, at most two, and afterwards no literal run is open. |
| LineEncoder.StepKeepsPending | logo_gen.go:122-179 | Each iteration before the last keeps the loop invariant: the emitted entries followed by the open run are the pixels passed so far, every entry is well formed, and an open repeat run holds copies of the current pixel. |
| LineEncoder.LastStepCompletes | logo_gen.go:130-176 | The last iteration closes every open run, including the `break` case. After it the entries hold exactly the row, each well formed. |
| LineEncoder.RunCompletes | logo_gen.go:121-181 | After all iterations the entries hold exactly the row, each well formed. |
| LineEncoder.ConstantRowRun | logo_gen.go:160-168 | On a row of equal pixels, a full 128-pixel repeat entry is emitted every 128 iterations, and a repeat run stays open in between. |
| LineEncoder.DistinctRowRun | logo_gen.go:122-146 | On a row with no two equal neighbours, after i iterations (not the last) the loop has emitted ⌊i/128⌋ full 128-pixel literal entries, the row cut in order. The remaining i mod 128 pixels are an open literal run, and none is open when i is a multiple of 128. |
| LineEncoder.DistinctRowEntries | logo_gen.go:121-146 | A row of n ≥ 2 pixels with no two equal neighbours gives exactly ⌈n/128⌉ entries. They are the row cut left to right into 128-pixel literal entries, and a last literal entry of the remaining 1..128 pixels. |
| LineEncoder.ConstantRowEntries | logo_gen.go:160-176 | A row of n ≥ 2 equal pixels gives exactly ⌈n/128⌉ entries, all full 128-pixel repeat entries but the last. The last is a repeat entry of the remaining pixels, except when n mod 128 = 1: then the last pixel becomes a one-pixel literal entry. |
| LineEncoder.SinglePixelRowVanishes | logo_gen.go:121 | As written, a one-pixel row gives no entries, so its pixel is lost. |
| LineEncoder.RowEntries | logo_gen.go:114-182 | Corrected row encoder: every non-empty row, one pixel included, is covered exactly by well-formed entries. |
| LineEncoder.TwoEqualPixels | logo_gen.go:160-176 | `[a,a]` gives the single entry Count 130 holding `[a,a]`. |
| LineEncoder.TwoEqualPixelsBytes | logo_gen.go:199-203 | That entry is written as 0x81 followed by a's B,G,R. |
| LineEncoder.LiteralThenPair | logo_gen.go:149-157 | For a ≠ b, `[a,b,b]` gives a one-pixel literal `[a]` and then the final pair as the repeat entry Count 130 (the `break`). These are written as 0x00, a's triple, 0x81 and b's triple. |
| LineEncoder.ThreeDistinctPixels | logo_gen.go:121-146 | Three pixels with no two neighbours equal give one literal entry of Count 3, written as 0x02 and nine bytes. |
| LineEncoder.TwoFiftySixEqualPixels | logo_gen.go:160-176 | 256 equal pixels give two repeat entries of Count 256, each holding 128 pixels. |
| LineEncoder.TwoFiftySixEqualPixelsBytes | logo_gen.go:199-203 | Each of those entries is written as 0xFF followed by one triple. |
| RleDecoder.DecodeStream | logo_gen.go:322-341 | The decoded output is always a whole number of B,G,R triples. |
| RleDecoder.DecodeBody | logo_gen.go:319-344 | With type 1 the cursor loop returns what `DecodeStream` defines, a whole number of triples or a truncation error. With any other type the body is returned unchanged. |
| RleDecoder.RepeatStep | logo_gen.go:326-332 | A control byte c ≥ 128 followed by a triple emits that triple c-127 times, and decoding carries on 4 bytes later. |
| RleDecoder.LiteralStep | logo_gen.go:333-340 | A control byte c < 128 followed by 3(c+1) bytes copies them, and decoding carries on after them. |
| RleDecoder.DecodeStep | logo_gen.go:324-340 | The four cases of one step. A repeat or literal payload that runs past the end gives `TruncatedRepeat` or `TruncatedRawBlock`. A complete payload is emitted and the cursor advances by 4 or by 1+3(c+1). |
| RleDecoder.DecodeEntry | logo_gen.go:324-340 | One written entry decodes to the triples of its pixels, whatever follows it. |
| RleDecoder.DecodeEntries | logo_gen.go:323-341 | Written entries decode to the triples of all their pixels in order, and then decoding continues with whatever follows. |
| RleDecoder.TruncatedEntryRejected | logo_gen.go:328-337 | Whole entries followed by a cut-off entry are rejected with an error, never read out of bounds. |
| RleDecoder.DecodeEncodedRow | logo_gen.go:197-211 | Encoding a row of two or more pixels and decoding the result gives the row's triples back. |
| RleDecoder.DecodeCorrectedRow | logo_gen.go:114-182 | With the corrected row encoder, every non-empty row round-trips. |
| Raster.Pack | logo_gen.go:194-195 | The packed value (the three shifted channels OR-ed together, which do not overlap) unpacks (`&0xFF`, `>>8`, `>>16`) to the pixel's 8-bit-truncated B,G,R, and fits in 24 bits. |
| Raster.PackLine | logo_gen.go:193-196 | The packed row has `width` pixels, and pixel w unpacks to the truncated B,G,R of source pixel w. |
| Raster.WriteEntry | logo_gen.go:199-210 | Appends exactly the entry's bytes to the buffer. |
| Raster.WriteEntries | logo_gen.go:198-211 | Appends the bytes of a row's entries, in order. |
| Raster.EncodeRLE24 | logo_gen.go:184-214 | The body is the rows' written entries, top to bottom. |
| Raster.PackedRowBytes | logo_gen.go:193-196 | The triples of the packed row are the truncated triples of the source row. |
| Raster.RowRoundTrip | logo_gen.go:190-211 | An encoded row at least two pixels wide decodes to that row's truncated triples, followed by whatever the rest of the stream decodes to. |
| Raster.RleRowsRoundTrip | logo_gen.go:322-341 | For images at least two pixels wide, decoding the first h encoded rows followed by any bytes gives the rows' triples, then whatever those bytes decode to. The loop does not stop after width×height pixels. |
| Raster.RleImageRoundTrip | logo_gen.go:184-214 | An image at least two pixels wide, encoded and decoded, gives exactly width×height triples. Pixel (x,y) reads back as the source pixel truncated to 8 bits, with alpha 0xFF. |
| Raster.StrayByteAfterBody | logo_gen.go:323 | One extra byte after a complete RLE body makes decoding fail, because the loop runs to the end of the data. |
| Raster.OnePixelRowEmpty | logo_gen.go:121 | In an image one pixel wide, every row gives no entries and no bytes. |
| Raster.OnePixelWideImageLost | logo_gen.go:121 | An image one pixel wide has an empty body. It decodes to no bytes, fewer than `BGR2Img` needs. |
| Raster.TwoEqualPixelsRow | logo_gen.go:190-211 | A 2×1 image of one colour is written as 0x81 followed by that colour's truncated B,G,R. |
| Raster.RedPairRow | logo_gen.go:190-211 | Two full-red pixels, (0xFFFF, 0, 0) in 16 bits, are written as the four bytes 81 00 00 FF. |
| Raster.GetImageRaw | logo_gen.go:81-98 | As written, the result has width×height×3 bytes. Bytes 0..2 hold the last pixel and every other byte is zero. |
| Raster.RawModeLosesPixels | logo_gen.go:85-95 | When the first and last pixels differ, the raw body as written is not the image's triples. |
| Raster.WriteRawRow | logo_gen.go:87-94 | When the buffer holds the first h rows' triples up to the cursor, the corrected pixel loop appends row h's triples, so the buffer then holds the first h+1 rows. It advances the cursor by 3 per pixel and leaves every byte after the new cursor unchanged. |
| Raster.GetImageRawFixed | logo_gen.go:81-98 | With the cursor advanced, the raw body is the image's row-major truncated triples. |
| Raster.RawBgrPixels | logo_gen.go:266-284 | The row-major triples, which `GetImageRawFixed` returns, have exactly width×height×3 bytes, so `BGR2Img` accepts them. Pixel (x,y), read from offset 3(y·width+x), gives back the source pixel truncated to 8 bits, with alpha 0xFF. |
| Raster.PixelAtIgnoresTail | logo_gen.go:267-277 | Bytes after the width×height×3 that `BGR2Img` reads do not change any pixel. |
| Raster.PixelAtInBounds | logo_gen.go:269-280 | Inside a buffer of at least width×height×3 bytes, every pixel's three bytes are in bounds, and pixel (x,y) is read straight from data[c+2], data[c+1] and data[c]. |
| Raster.BGR2Img | logo_gen.go:266-284 | Fails with `SizeNotEqual` exactly when the buffer is shorter than width×height×3, so on success the buffer holds at least width×height×3 bytes. Otherwise it returns a new height×width image in which pixel (x,y) is RGBA(data[c+2], data[c+1], data[c], 0xFF) with c = 3(y·width+x). |

## Left out

- `GetImage`, `GetImageFileRaw`, `MakeLogoImage`, `main`, the file and stream
  parts of `ExtractLogoImage` (open, `binary.Read`, `io.ReadAll`, `png.Encode`,
  `println`), and the `SUPPORT_RLE24_COMPRESSIONT` flag with its `RLE24`
  environment toggle. These are file I/O, image-library decoding and CLI
  plumbing. The compressed flag and the header type are parameters.
- `GetImageBody` is a two-way dispatch between `EncodeRLE24` and `GetImageRaw`.
  Both branches are modelled; the dispatch is not.
- `image.Image` is modelled as a grid of 16-bit (r, g, b) samples, standing in
  for what `At(x, y).RGBA()` returns. Alpha is never read, so it is not
  modelled. `image.RGBA` becomes an `array2` of `Rgba8`.
- Reflection-based `encoding/binary` is modelled as the little-endian layout it
  produces. `binary.Encode`'s error path in `SplashHdr.Encode` cannot occur for
  this fixed-size record and is left out, together with its log line.
- Go `int` overflow in `width*height*3` and in the cursor arithmetic is not
  modelled, because integers are unbounded.
- LineEncoder.EncodeLine: requires a non-empty row, because the Go code panics
  on `line[:len(line)-1]` for an empty row. Raster.EncodeRLE24 requires a width
  of at least 1 for the same reason, unless the image has no rows.
- Raster.RleImageRoundTrip: requires a width of at least 2, because the code as
  written drops one-pixel rows (see Findings).
- Raster.EncodeRLE24 and Raster.GetImageRawFixed: their inner loops (`PackLine`,
  `WriteEntries`/`WriteEntry`, `WriteRawRow`) are separate methods called from
  the row loop. The order of writes and the buffer contents are unchanged.
- Raster.BGR2Img: the result's pixel is stated through `PixelAt`, which reads 0
  past the end of the buffer. That case never arises: on success the buffer is
  long enough, and Raster.PixelAtInBounds shows that `PixelAt` then reads the
  buffer's own bytes.
- Behaviour of the code that a user of the format might not expect; the model
  follows the code. These are not bugs in the sense of Findings:
  - The magic is never checked on decode (SplashHeader.DecodeIgnoresMagic).
  - The type field is not validated; any value other than 1 means raw.
  - The RLE loop runs to the end of the data instead of stopping after
    width×height pixels (Raster.StrayByteAfterBody).
  - A decoded buffer longer than width×height×3 is accepted, and the extra
    bytes are ignored (Raster.PixelAtIgnoresTail).
  - A repeat run always has at least 2 pixels, so its Count is 130..256.
  - A row of equal pixels whose length is 1 more than a multiple of 128 (129,
    257, …) ends with a one-pixel literal entry, not a repeat entry
    (LineEncoder.ConstantRowEntries).

## Findings

| source | as written | input that shows it | evidently intended | confidence | as-written member | corrected member |
|---|---|---|---|---|---|---|
| logo_gen.go:85-95 | `curr` is never advanced, so every pixel overwrites bytes 0..2 | a 2×1 image whose first and last pixels differ, e.g. red then blue: the body holds blue's triple followed by three zeros | advance `curr` by 3 after each pixel, giving the row-major B,G,R triples | not executed | Raster.RawModeLosesPixels | Raster.GetImageRawFixed |
| logo_gen.go:121 | the loop over `line[:len(line)-1]` emits nothing for a one-pixel row | any image one pixel wide, e.g. 1×1: its RLE body is empty, so `BGR2Img` rejects the decoded buffer | a one-pixel row becomes one literal entry of Count 1 | not executed | LineEncoder.SinglePixelRowVanishes | LineEncoder.RowEntries |
