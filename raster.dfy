/**
 * Conversions between a source image and BGR byte buffers: the RLE body
 * writer `EncodeRLE24`, the raw body writer `GetImageRaw` and the buffer
 * reader `BGR2Img`, with the whole-image round trips.
 *
 * The source image stands in for Go's `image.Image`: a rectangular grid of
 * 16-bit channel samples, as `img.At(x, y).RGBA()` returns them (alpha is
 * never used, so it is not modelled).
 */
module Raster {
  import opened Common
  import opened RleFormat
  import opened LineEncoder
  import opened RleDecoder

  /** A 16-bit colour sample, as returned by `RGBA()`. */
  type Sample = x: int | 0 <= x < 0x10000

  datatype Rgb16 = Rgb16(r: Sample, g: Sample, b: Sample)

  /** `rows[y][x]` is the pixel at column x of row y. */
  datatype SourceImage = SourceImage(width: nat, height: nat, rows: seq<seq<Rgb16>>) {
    predicate Shaped() {
      |rows| == height && forall y | 0 <= y < height :: |rows[y]| == width
    }
  }

  /** A pixel of the decoded `image.RGBA`. */
  datatype Rgba8 = Rgba8(r: Byte, g: Byte, b: Byte, a: Byte)

  /** The B,G,R bytes of a pixel truncated to 8 bits per channel (`x >> 8`). */
  function Truncated(c: Rgb16): seq<Byte> {
    [c.b / 0x100, c.g / 0x100, c.r / 0x100]
  }

  /** The opaque 8-bit pixel a source pixel should come back as. */
  function Opaque8(c: Rgb16): Rgba8 {
    Rgba8(c.r / 0x100, c.g / 0x100, c.b / 0x100, 0xFF)
  }

  /**
   * `(r>>8)<<16 | (g>>8)<<8 | b>>8`; the three shifted fields do not
   * overlap, so the `|` is a sum. Unpacking gives the truncated channels.
   */
  function Pack(c: Rgb16): (p: Pixel)
    ensures PixelBgr(p) == Truncated(c)
    ensures p < 0x100_0000
  {
    var r8, g8, b8: nat := c.r / 0x100, c.g / 0x100, c.b / 0x100;
    DivMod256(r8 * 0x100 + g8, b8);
    DivMod256(r8, g8);
    DivMod65536(r8, g8 * 0x100 + b8);
    assert (r8 * 0x100 + g8) * 0x100 + b8 == r8 * 0x10000 + (g8 * 0x100 + b8);
    r8 * 0x10000 + g8 * 0x100 + b8
  }

  /**
   * The packed first w pixels of row y, as `EncodeRLE24` appends them to
   * `line`; each one unpacks to the pixel's truncated triple.
   */
  function PackRow(img: SourceImage, y: nat, w: nat): (r: seq<Pixel>)
    requires img.Shaped() && y < img.height && w <= img.width
    ensures |r| == w
  {
    if w == 0 then [] else PackRow(img, y, w - 1) + [Pack(img.rows[y][w - 1])]
  }

  // ---------------------------------------------------------------------------
  // The intended row-major B,G,R layout of an image

  /** The triples of the first `w` pixels of row y. */
  function TruncRow(img: SourceImage, y: nat, w: nat): (r: seq<Byte>)
    requires img.Shaped() && y < img.height && w <= img.width
    ensures |r| == 3 * w
  {
    if w == 0 then [] else TruncRow(img, y, w - 1) + Truncated(img.rows[y][w - 1])
  }

  /** The triples of the first `h` rows, top to bottom. */
  function RawRows(img: SourceImage, h: nat): (r: seq<Byte>)
    requires img.Shaped() && h <= img.height
  {
    if h == 0 then [] else RawRows(img, h - 1) + TruncRow(img, h - 1, img.width)
  }

  /** The whole image as row-major B,G,R triples of its truncated pixels. */
  function RawBgr(img: SourceImage): seq<Byte>
    requires img.Shaped()
  {
    RawRows(img, img.height)
  }

  lemma {:induction false} RawRowsLength(img: SourceImage, h: nat)
    requires img.Shaped() && h <= img.height
    ensures |RawRows(img, h)| == 3 * (h * img.width)
  {
    if h > 0 {
      RawRowsLength(img, h - 1);
      assert h * img.width == (h - 1) * img.width + img.width;
    }
  }

  /** Pixel index y*width+x, and the triple after it, lie inside a width*height grid. */
  lemma IndexBound(x: nat, y: nat, width: nat, height: nat)
    requires x < width && y < height
    ensures y * width + x + 1 <= width * height
  {
    var d := height - 1 - y;
    assert width * height == y * width + width + d * width;
  }

  lemma {:induction false} TruncRowAt(img: SourceImage, y: nat, w: nat, x: nat)
    requires img.Shaped() && y < img.height && x < w <= img.width
    ensures TruncRow(img, y, w)[3 * x .. 3 * x + 3] == Truncated(img.rows[y][x])
  {
    if x < w - 1 {
      TruncRowAt(img, y, w - 1, x);
    }
  }

  lemma {:induction false} RawRowsAt(img: SourceImage, h: nat, x: nat, y: nat)
    requires img.Shaped() && h <= img.height && x < img.width && y < h
    ensures 3 * (y * img.width + x) + 3 <= |RawRows(img, h)|
    ensures RawRows(img, h)[3 * (y * img.width + x) .. 3 * (y * img.width + x) + 3] == Truncated(img.rows[y][x])
  {
    var width := img.width;
    var c := 3 * (y * width + x);
    var before, row := RawRows(img, h - 1), TruncRow(img, h - 1, width);
    assert RawRows(img, h) == before + row;
    RawRowsLength(img, h - 1);
    IndexBound(x, y, width, h);
    assert |RawRows(img, h)| == |before| + 3 * width;
    assert |before| == 3 * ((h - 1) * width);
    assert h * width == (h - 1) * width + width;
    if y < h - 1 {
      IndexBound(x, y, width, h - 1);
      RawRowsAt(img, h - 1, x, y);
      assert c + 3 <= |before|;
    } else {
      TruncRowAt(img, y, width, x);
      assert c == |before| + 3 * x;
    }
  }

  /** Byte i of the buffer; `BGR2Img` checks the length first, so it never reads past the end. */
  function ByteAt(data: seq<Byte>, i: nat): Byte {
    if i < |data| then data[i] else 0
  }

  /** Where `BGR2Img` reads pixel (x, y): bytes c, c+1, c+2 with c = 3*(y*width+x), as B, G, R. */
  function PixelAt(data: seq<Byte>, width: nat, x: nat, y: nat): Rgba8 {
    var c := 3 * (y * width + x);
    Rgba8(ByteAt(data, c + 2), ByteAt(data, c + 1), ByteAt(data, c), 0xFF)
  }

  /**
   * Inside a buffer of width*height*3 bytes, `PixelAt` reads the pixel's own
   * bytes: the 0 that `ByteAt` gives past the end is never used.
   */
  lemma PixelAtInBounds(data: seq<Byte>, width: nat, height: nat, x: nat, y: nat)
    requires width * height * 3 <= |data| && x < width && y < height
    ensures 3 * (y * width + x) + 2 < |data|
    ensures PixelAt(data, width, x, y)
         == Rgba8(data[3 * (y * width + x) + 2], data[3 * (y * width + x) + 1], data[3 * (y * width + x)], 0xFF)
  {
    IndexBound(x, y, width, height);
  }

  lemma PixelAtSlice(data: seq<Byte>, width: nat, x: nat, y: nat, t: seq<Byte>)
    requires 3 * (y * width + x) + 3 <= |data|
    requires data[3 * (y * width + x) .. 3 * (y * width + x) + 3] == t
    ensures |t| == 3 && PixelAt(data, width, x, y) == Rgba8(t[2], t[1], t[0], 0xFF)
  {
  }

  lemma RawBgrPixel(img: SourceImage, x: nat, y: nat)
    requires img.Shaped() && x < img.width && y < img.height
    ensures 3 * (y * img.width + x) + 3 <= |RawBgr(img)|
    ensures PixelAt(RawBgr(img), img.width, x, y) == Opaque8(img.rows[y][x])
  {
    RawRowsAt(img, img.height, x, y);
    PixelAtSlice(RawBgr(img), img.width, x, y, Truncated(img.rows[y][x]));
  }

  /**
   * The intended raw body holds exactly width*height triples, and reading it
   * back gives every pixel of the image, truncated to 8 bits and opaque.
   */
  lemma RawBgrPixels(img: SourceImage)
    requires img.Shaped()
    ensures |RawBgr(img)| == 3 * (img.height * img.width)
    ensures forall y, x | 0 <= y < img.height && 0 <= x < img.width ::
      PixelAt(RawBgr(img), img.width, x, y) == Opaque8(img.rows[y][x])
  {
    RawRowsLength(img, img.height);
    forall y, x | 0 <= y < img.height && 0 <= x < img.width
      ensures PixelAt(RawBgr(img), img.width, x, y) == Opaque8(img.rows[y][x])
    {
      RawBgrPixel(img, x, y);
    }
  }

  /** Bytes past width*height*3 do not change any pixel `BGR2Img` reads. */
  lemma PixelAtIgnoresTail(data: seq<Byte>, tail: seq<Byte>, width: nat, x: nat, y: nat)
    requires 3 * (y * width + x) + 3 <= |data|
    ensures PixelAt(data + tail, width, x, y) == PixelAt(data, width, x, y)
  {
    var c := 3 * (y * width + x);
    assert (data + tail)[c] == data[c] && (data + tail)[c + 1] == data[c + 1] && (data + tail)[c + 2] == data[c + 2];
  }

  // ---------------------------------------------------------------------------
  // RLE body

  /** The RLE bytes of the first `h` rows: each row's entries, serialised, top to bottom. */
  function RleRows(img: SourceImage, h: nat): seq<Byte>
    requires img.Shaped() && h <= img.height
    requires img.width >= 1 || h == 0
  {
    if h == 0 then [] else RleRows(img, h - 1) + SerEntries(LineEntries(PackRow(img, h - 1, img.width)))
  }

  function RleBody(img: SourceImage): seq<Byte>
    requires img.Shaped() && (img.width >= 1 || img.height == 0)
  {
    RleRows(img, img.height)
  }

  /**
   * The pixel loop of `EncodeRLE24`: row h packed as
   * `(r>>8)<<16 | (g>>8)<<8 | b>>8`, left to right.
   */
  method PackLine(img: SourceImage, h: nat) returns (line: seq<Pixel>)
    requires img.Shaped() && h < img.height
    ensures |line| == img.width
    ensures forall w | 0 <= w < img.width :: PixelBgr(line[w]) == Truncated(img.rows[h][w])
    ensures line == PackRow(img, h, img.width)
  {
    line := [];
    for w := 0 to img.width
      invariant line == PackRow(img, h, w)
      invariant forall k | 0 <= k < w :: PixelBgr(line[k]) == Truncated(img.rows[h][k])
    {
      var c := img.rows[h][w];
      line := line + [(c.r / 0x100) * 0x10000 + (c.g / 0x100) * 0x100 + c.b / 0x100];
    }
  }

  /**
   * One iteration of the entry loop of `EncodeRLE24`: the control byte
   * `Count-1`, then the first pixel's triple for a repeat run or every
   * pixel's triple for a literal run, appended to `body0`.
   */
  method WriteEntry(body0: seq<Byte>, entry: Entry) returns (body: seq<Byte>)
    requires Serialisable(entry)
    ensures body == body0 + SerEntry(entry)
  {
    body := body0 + [(entry.count - 1) % 0x100];
    if entry.count > 128 {
      body := body + [entry.pix[0] % 0x100];
      body := body + [entry.pix[0] / 0x100 % 0x100];
      body := body + [entry.pix[0] / 0x10000 % 0x100];
    } else {
      for j := 0 to |entry.pix|
        invariant body == body0 + [ControlByte(entry)] + BgrBytes(entry.pix[..j])
      {
        var item := entry.pix[j];
        assert entry.pix[..j + 1][..j] == entry.pix[..j];
        body := body + [item % 0x100];
        body := body + [item / 0x100 % 0x100];
        body := body + [item / 0x10000 % 0x100];
      }
      assert entry.pix[..|entry.pix|] == entry.pix;
    }
  }

  /** The entry loop of `EncodeRLE24`: the entries of one row, in order. */
  method WriteEntries(body0: seq<Byte>, result: seq<Entry>) returns (body: seq<Byte>)
    requires AllWellFormed(result)
    ensures body == body0 + SerEntries(result)
  {
    body := body0;
    for i := 0 to |result|
      invariant body == body0 + SerEntries(result[..i])
    {
      var entry := result[i];
      TakeNext(result, i);
      SerEntriesAppend(result[..i], entry);
      AppendAssoc(body0, SerEntries(result[..i]), SerEntry(entry));
      body := WriteEntry(body, entry);
    }
    assert result[..|result|] == result;
  }

  /**
   * `EncodeRLE24`: for each row, pack its pixels, run `EncodeLine`, and write
   * each entry's control byte and triples. (A row of width 0 makes the Go
   * code panic, so an image with rows must be at least one pixel wide.)
   */
  method EncodeRLE24(img: SourceImage) returns (body: seq<Byte>)
    requires img.Shaped()
    requires img.width >= 1 || img.height == 0
    ensures body == RleBody(img)
  {
    body := [];
    for h := 0 to img.height
      invariant body == RleRows(img, h)
    {
      var line := PackLine(img, h);
      var result := EncodeLine(line);
      body := WriteEntries(body, result);
    }
  }

  /**
   * RLE round trip: for an image at least two pixels wide, decoding the RLE
   * body gives the row-major triples of its truncated pixels, and whatever
   * follows the body is then decoded too (the loop runs to the end of the
   * stream rather than stopping after width*height pixels).
   */
  lemma {:induction false} RleRowsRoundTrip(img: SourceImage, h: nat, rest: seq<Byte>)
    requires img.Shaped() && h <= img.height && img.width >= 2
    ensures DecodeStream(RleRows(img, h) + rest) == Prepend(RawRows(img, h), DecodeStream(rest))
  {
    if h == 0 {
      assert RleRows(img, h) + rest == rest;
      PrependNothing(DecodeStream(rest));
    } else {
      var y := h - 1;
      var row := SerEntries(LineEntries(PackRow(img, y, img.width)));
      RleRowsRoundTrip(img, y, row + rest);
      RowRoundTrip(img, y, rest);
      RowsStep(img, h);
      DecodeConcat(RleRows(img, h), RleRows(img, y), row, rest,
                   RawRows(img, h), RawRows(img, y), TruncRow(img, y, img.width));
    }
  }

  /**
   * The RLE and the raw bytes of the first h rows extend those of the first h-1 rows.
   * Stated apart so that `RleRowsRoundTrip` unfolds both only here, in a small proof context.
   */
  lemma RowsStep(img: SourceImage, h: nat)
    requires img.Shaped() && 1 <= h <= img.height && img.width >= 1
    ensures RleRows(img, h) == RleRows(img, h - 1) + SerEntries(LineEntries(PackRow(img, h - 1, img.width)))
    ensures RawRows(img, h) == RawRows(img, h - 1) + TruncRow(img, h - 1, img.width)
  {
  }

  /**
   * Two chunks that each decode to their own bytes decode, back to back, to both.
   * Keeps the sequence equalities out of the proof context of `RleRowsRoundTrip`.
   */
  lemma DecodeConcat(whole: seq<Byte>, prev: seq<Byte>, row: seq<Byte>, rest: seq<Byte>,
                     wholeOut: seq<Byte>, prevOut: seq<Byte>, rowOut: seq<Byte>)
    requires whole == prev + row && wholeOut == prevOut + rowOut
    requires DecodeStream(prev + (row + rest)) == Prepend(prevOut, DecodeStream(row + rest))
    requires DecodeStream(row + rest) == Prepend(rowOut, DecodeStream(rest))
    ensures DecodeStream(whole + rest) == Prepend(wholeOut, DecodeStream(rest))
  {
    AppendAssoc(prev, row, rest);
    PrependPrepend(prevOut, rowOut, DecodeStream(rest));
  }

  /** One encoded row decodes to that row's truncated triples. */
  lemma RowRoundTrip(img: SourceImage, y: nat, rest: seq<Byte>)
    requires img.Shaped() && y < img.height && img.width >= 2
    ensures DecodeStream(SerEntries(LineEntries(PackRow(img, y, img.width))) + rest)
         == Prepend(TruncRow(img, y, img.width), DecodeStream(rest))
  {
    DecodeEncodedRow(PackRow(img, y, img.width), rest);
    PackedRowBytes(img, y, img.width);
  }

  lemma {:induction false} PackedRowBytes(img: SourceImage, y: nat, w: nat)
    requires img.Shaped() && y < img.height && w <= img.width
    ensures BgrBytes(PackRow(img, y, w)) == TruncRow(img, y, w)
  {
    if w > 0 {
      PackedRowBytes(img, y, w - 1);
      var row := PackRow(img, y, w);
      assert row[..w - 1] == PackRow(img, y, w - 1);
    }
  }

  /**
   * The whole RLE path: an image at least two pixels wide, encoded with
   * `EncodeRLE24` and decoded, comes back as exactly width*height opaque
   * pixels, each the source pixel truncated to 8 bits per channel.
   */
  lemma RleImageRoundTrip(img: SourceImage)
    requires img.Shaped() && img.width >= 2
    ensures DecodeStream(RleBody(img)) == Success(RawBgr(img))
    ensures |RawBgr(img)| == 3 * (img.height * img.width)
    ensures forall y, x | 0 <= y < img.height && 0 <= x < img.width ::
      PixelAt(RawBgr(img), img.width, x, y) == Opaque8(img.rows[y][x])
  {
    RleRowsRoundTrip(img, img.height, []);
    assert RleBody(img) + [] == RleBody(img);
    assert RawBgr(img) + [] == RawBgr(img);
    RawBgrPixels(img);
  }

  /** One stray byte after a complete RLE body makes the decoder fail. */
  lemma StrayByteAfterBody(img: SourceImage, c: Byte)
    requires img.Shaped() && img.width >= 2
    ensures DecodeStream(RleBody(img) + [c]).Failure?
  {
    RleRowsRoundTrip(img, img.height, [c]);
  }

  /**
   * As written, an image one pixel wide has an empty RLE body: every row
   * gives no entries, so the decoded buffer is empty and `BGR2Img` rejects it.
   */
  lemma OnePixelRowEmpty(img: SourceImage, y: nat)
    requires img.Shaped() && img.width == 1 && y < img.height
    ensures LineEntries(PackRow(img, y, img.width)) == []
    ensures SerEntries(LineEntries(PackRow(img, y, img.width))) == []
  {
  }

  lemma {:induction false} OnePixelWideRowsVanish(img: SourceImage, h: nat)
    requires img.Shaped() && img.width == 1 && h <= img.height
    ensures RleRows(img, h) == []
  {
    if h > 0 {
      OnePixelWideRowsVanish(img, h - 1);
      OnePixelRowEmpty(img, h - 1);
      assert RleRows(img, h) == RleRows(img, h - 1) + SerEntries(LineEntries(PackRow(img, h - 1, img.width)));
    }
  }

  lemma OnePixelWideImageLost(img: SourceImage)
    requires img.Shaped() && img.width == 1 && img.height >= 1
    ensures DecodeStream(RleBody(img)) == Success([])
    ensures |DecodeStream(RleBody(img)).value| < img.width * img.height * 3
  {
    OnePixelWideRowsVanish(img, img.height);
  }

  /** A one-row image is written as that row's entries. */
  lemma OneRowBody(img: SourceImage)
    requires img.Shaped() && img.height == 1 && img.width >= 1
    ensures RleBody(img) == SerEntries(LineEntries(PackRow(img, 0, img.width)))
  {
    assert RleRows(img, 1) == RleRows(img, 0) + SerEntries(LineEntries(PackRow(img, 0, img.width)));
  }

  /** A row of two equal pixels is one repeat entry: 0x81 and the pixel's truncated B,G,R. */
  lemma TwoEqualPixelsRow(c: Rgb16)
    ensures var img := SourceImage(2, 1, [[c, c]]);
            img.Shaped() && RleBody(img) == [0x81] + Truncated(c)
  {
    var img := SourceImage(2, 1, [[c, c]]);
    var p := Pack(c);
    assert PackRow(img, 0, 1) == [p];
    assert PackRow(img, 0, 2) == [p, p];
    OneRowBody(img);
    TwoEqualPixelsBytes(p);
  }

  /** Two full-red pixels, (0xFFFF, 0, 0) in 16 bits, are written as 81 00 00 FF. */
  lemma RedPairRow()
    ensures RleBody(SourceImage(2, 1, [[Rgb16(0xFFFF, 0, 0), Rgb16(0xFFFF, 0, 0)]])) == [0x81, 0x00, 0x00, 0xFF]
  {
    TwoEqualPixelsRow(Rgb16(0xFFFF, 0, 0));
    TruncatedRed();
  }

  lemma TruncatedRed()
    ensures Truncated(Rgb16(0xFFFF, 0, 0)) == [0x00, 0x00, 0xFF]
  {
  }

  // ---------------------------------------------------------------------------
  // Raw body

  /**
   * What `GetImageRaw` returns as written: `curr` is never advanced, so every
   * pixel is written over bytes 0..2; they end up holding the last pixel and
   * the rest of the buffer stays zero.
   */
  function StaleCursorBytes(img: SourceImage): (r: seq<Byte>)
    requires img.Shaped()
    ensures |r| == img.width * img.height * 3
  {
    if img.width == 0 || img.height == 0 then Zeros(img.width * img.height * 3)
    else Truncated(img.rows[img.height - 1][img.width - 1]) + Zeros(img.width * img.height * 3 - 3)
  }

  /** Keeps the nonlinear step out of the proof context of `GetImageRaw`. */
  lemma ProductPositive(a: nat, b: nat)
    requires a >= 1 && b >= 1
    ensures a * b >= 1
  {
  }

  /** `GetImageRaw` as written. */
  method GetImageRaw(img: SourceImage) returns (r: seq<Byte>)
    requires img.Shaped()
    ensures r == StaleCursorBytes(img)
  {
    var width, height := img.width, img.height;
    var data := new Byte[width * height * 3](_ => 0);
    var curr := 0;
    for h := 0 to height
      invariant forall k | 3 <= k < data.Length :: data[k] == 0
      invariant h > 0 && width > 0 ==> data[..3] == Truncated(img.rows[h - 1][width - 1])
      invariant !(h > 0 && width > 0) ==> forall k | 0 <= k < data.Length :: data[k] == 0
    {
      for w := 0 to width
        invariant forall k | 3 <= k < data.Length :: data[k] == 0
        invariant w > 0 ==> data[..3] == Truncated(img.rows[h][w - 1])
        invariant w == 0 && h > 0 && width > 0 ==> data[..3] == Truncated(img.rows[h - 1][width - 1])
        invariant w == 0 && !(h > 0 && width > 0) ==> forall k | 0 <= k < data.Length :: data[k] == 0
      {
        ProductPositive(width, height);
        var c := img.rows[h][w];
        data[curr + 2] := c.r / 0x100;
        data[curr + 1] := c.g / 0x100;
        data[curr] := c.b / 0x100;
      }
    }
    r := data[..];
    if width > 0 && height > 0 {
      ProductPositive(width, height);
      assert r == r[..3] + r[3..];
    }
  }

  /**
   * As written, raw mode loses the image: when the first and last pixels
   * differ, the raw body is not the image's triples.
   */
  lemma RawModeLosesPixels(img: SourceImage)
    requires img.Shaped() && img.width >= 1 && img.height >= 1
    requires Truncated(img.rows[0][0]) != Truncated(img.rows[img.height - 1][img.width - 1])
    ensures StaleCursorBytes(img) != RawBgr(img)
  {
    RawRowsAt(img, img.height, 0, 0);
    assert StaleCursorBytes(img)[..3] == Truncated(img.rows[img.height - 1][img.width - 1]);
  }

  /**
   * The pixel loop of the corrected `GetImageRaw` for row h: when the buffer
   * holds the first h rows up to `curr`, it appends row h's truncated triples,
   * left to right, and leaves the bytes after them as they were.
   */
  method WriteRawRow(img: SourceImage, h: nat, data: array<Byte>, curr0: nat) returns (curr: nat)
    requires img.Shaped() && h < img.height
    requires curr0 + 3 * img.width <= data.Length
    requires data[..curr0] == RawRows(img, h)
    modifies data
    ensures curr == curr0 + 3 * img.width
    ensures data[..curr] == RawRows(img, h + 1)
    ensures data[curr..] == old(data[curr..])
  {
    curr := curr0;
    for w := 0 to img.width
      invariant curr == curr0 + 3 * w
      invariant data[..curr] == RawRows(img, h) + TruncRow(img, h, w)
      invariant data[curr0 + 3 * img.width..] == old(data[curr0 + 3 * img.width..])
    {
      var c := img.rows[h][w];
      ghost var done := data[..curr];
      data[curr + 2] := c.r / 0x100;
      data[curr + 1] := c.g / 0x100;
      data[curr] := c.b / 0x100;
      assert data[..curr] == done;
      assert data[..curr + 3] == done + Truncated(c);
      AppendAssoc(RawRows(img, h), TruncRow(img, h, w), Truncated(c));
      curr := curr + 3;
    }
  }

  /**
   * The first h rows' triples fit in the width*height*3 buffer, with room for
   * row h when h < height, and fill it when h == height. Keeps the nonlinear
   * arithmetic out of the proof context of `GetImageRawFixed`.
   */
  lemma RawRowsFit(img: SourceImage, h: nat)
    requires img.Shaped() && h <= img.height
    ensures h < img.height ==> |RawRows(img, h)| + 3 * img.width <= img.width * img.height * 3
    ensures h == img.height ==> |RawRows(img, h)| == img.width * img.height * 3
  {
    RawRowsLength(img, h);
    if h < img.height && img.width > 0 {
      IndexBound(img.width - 1, h, img.width, img.height);
    }
  }

  /** The corrected `GetImageRaw`: `curr` advances by 3 after each pixel. */
  method GetImageRawFixed(img: SourceImage) returns (r: seq<Byte>)
    requires img.Shaped()
    ensures r == RawBgr(img)
  {
    var width, height := img.width, img.height;
    var data := new Byte[width * height * 3](_ => 0);
    var curr: nat := 0;
    for h := 0 to height
      invariant curr <= data.Length
      invariant data[..curr] == RawRows(img, h)
    {
      RawRowsFit(img, h);
      curr := WriteRawRow(img, h, data, curr);
    }
    RawRowsFit(img, height);
    r := data[..];
  }

  // ---------------------------------------------------------------------------
  // Buffer to image

  /**
   * `BGR2Img`: fails when the buffer is shorter than width*height*3;
   * otherwise fills a width x height image row by row, pixel (x, y) taking
   * R, G, B from bytes c+2, c+1, c (c = 3*(y*width+x)) and alpha 0xFF.
   */
  method BGR2Img(data: seq<Byte>, width: nat, height: nat) returns (r: Result<array2<Rgba8>, Error>)
    ensures r.Failure? <==> |data| < width * height * 3
    ensures r.Failure? ==> r.error == SizeNotEqual
    ensures r.Success? ==> width * height * 3 <= |data|
    ensures r.Success? ==> fresh(r.value) && r.value.Length0 == height && r.value.Length1 == width
    ensures r.Success? ==> forall y, x | 0 <= y < height && 0 <= x < width :: r.value[y, x] == PixelAt(data, width, x, y)
  {
    if |data| < width * height * 3 {
      return Failure(SizeNotEqual);
    }
    var cur := 0;
    var img := new Rgba8[height, width]((_, _) => Rgba8(0, 0, 0, 0));
    for h := 0 to height
      invariant cur == 3 * (h * width)
      invariant forall y, x | 0 <= y < h && 0 <= x < width :: img[y, x] == PixelAt(data, width, x, y)
    {
      for w := 0 to width
        invariant cur == 3 * (h * width + w)
        invariant forall y, x | 0 <= y < h && 0 <= x < width :: img[y, x] == PixelAt(data, width, x, y)
        invariant forall x | 0 <= x < w :: img[h, x] == PixelAt(data, width, x, h)
      {
        IndexBound(w, h, width, height);
        img[h, w] := Rgba8(data[cur + 2], data[cur + 1], data[cur], 0xFF);
        cur := cur + 3;
      }
      assert (h + 1) * width == h * width + width;
    }
    return Success(img);
  }
}
