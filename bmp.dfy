/**
 * Uncompressed Windows bitmaps as the image library writes and reads them:
 * a 54-byte header of little-endian fields, then the pixel rows from the
 * bottom row up, each padded with zeros to a multiple of four bytes. The
 * saver always writes 24 bits per pixel (B, G, R); the loader also takes
 * 8 bits per pixel, using each byte as a gray value.
 */
module Bmp {
  import opened Wrappers
  import opened Raster
  import opened Bytes
  import Arith

  const Signature: seq<Byte> := [66, 77]  // "BM"
  const HeaderSize: nat := 54
  const InfoHeaderSize: nat := 40

  /** n bytes rounded up to a multiple of four: the length of one stored row. */
  function Stride(n: nat): (r: nat)
    ensures r % 4 == 0 && n <= r < n + 4
  {
    if n % 4 == 0 then n else n + 4 - n % 4
  }

  /** The low 32 bits of a value, which is what writing four bytes of a long keeps. */
  function Low32(v: nat): (r: nat)
    ensures r < 0x1_0000_0000
    ensures v < 0x1_0000_0000 ==> r == v
  {
    v % 0x1_0000_0000
  }

  /**
   * The 14-byte file header SaveImageBMP writes: signature, file size, two
   * zero reserved fields, and the offset of the pixel rows.
   */
  function FileHeader(size: nat): (s: seq<Byte>)
    requires size < 0x1_0000_0000
    ensures |s| == 14
  {
    var sz, off := LE32(size), LE32(HeaderSize);
    [66, 77, sz[0], sz[1], sz[2], sz[3], 0, 0, 0, 0, off[0], off[1], off[2], off[3]]
  }

  /**
   * The first 16 bytes of the information header: its own size, the width and
   * height, one plane and 24 bits per pixel.
   */
  function InfoHeader(w: nat, h: nat): (s: seq<Byte>)
    requires w < 0x1_0000_0000 && h < 0x1_0000_0000
    ensures |s| == 16
  {
    var info, wd, ht := LE32(InfoHeaderSize), LE32(w), LE32(h);
    [info[0], info[1], info[2], info[3], wd[0], wd[1], wd[2], wd[3], ht[0], ht[1], ht[2], ht[3], 1, 0, 24, 0]
  }

  /**
   * The 54 header bytes SaveImageBMP writes for a w-by-h image; the last 24
   * are the six zero fields (compression, image size, the two resolutions,
   * colours used and important colours). Sizes keep their low 32 bits.
   */
  function Header(w: nat, h: nat): (s: seq<Byte>)
    ensures |s| == HeaderSize
  {
    FileHeader(Low32(HeaderSize + Stride(3 * w) * h)) + InfoHeader(Low32(w), Low32(h)) + Zeros(24)
  }

  lemma FileHeaderFields(size: nat)
    requires size < 0x1_0000_0000
    ensures var f := FileHeader(size); f[0] == 66 && f[1] == 77 && U32At(f, 10) == HeaderSize
  {
  }

  lemma InfoHeaderFields(w: nat, h: nat)
    requires w < 0x1_0000_0000 && h < 0x1_0000_0000
    ensures var f := InfoHeader(w, h); U32At(f, 4) == w && U32At(f, 8) == h && U16At(f, 14) == 24
  {
  }

  /**
   * The fields the loader reads back from a file that starts with the header:
   * the signature, the pixel offset 54, the size in its low 32 bits, 24 bits
   * per pixel and no compression.
   */
  lemma {:induction false} HeaderFields(w: nat, h: nat, rest: seq<Byte>)
    ensures var f := Header(w, h) + rest;
      ByteAt(f, 0) == 66 && ByteAt(f, 1) == 77 && U32At(f, 10) == HeaderSize
      && U32At(f, 18) == Low32(w) && U32At(f, 22) == Low32(h)
      && U16At(f, 28) == 24 && U32At(f, 30) == 0
  {
    var size := Low32(HeaderSize + Stride(3 * w) * h);
    var a, b := FileHeader(size), InfoHeader(Low32(w), Low32(h));
    FileHeaderFields(size);
    InfoHeaderFields(Low32(w), Low32(h));
    assert Header(w, h) + rest == a + (b + (Zeros(24) + rest));
  }

  // ---- Saving ---------------------------------------------------------------

  /** The 3 * width bytes of row y as they lie in memory: B, G, R for each pixel. */
  function RowBytes(b: Bitmap, y: nat): (s: seq<Byte>)
    requires b.Valid() && y < b.height
    ensures |s| == 3 * b.width
  {
    seq(3 * b.width, c requires 0 <= c < 3 * b.width => Channel(b.At(c / 3, y), c % 3))
  }

  /** Byte 3x + c of a row is channel c of the pixel in column x. */
  lemma RowBytesAt(b: Bitmap, y: nat, x: nat, c: nat)
    requires b.Valid() && y < b.height && x < b.width && c < 3
    ensures RowBytes(b, y)[3 * x + c] == Channel(b.At(x, y), c)
  {
    Arith.DivModUnique(3 * x + c, 3, x, c);
  }

  /** The i-th stored row: image row height - 1 - i, padded with zeros. */
  function Row(b: Bitmap, i: nat): (s: seq<Byte>)
    requires b.Valid() && i < b.height
    ensures |s| == Stride(3 * b.width)
  {
    RowBytes(b, b.height - 1 - i) + Zeros(Stride(3 * b.width) - 3 * b.width)
  }

  /** The first n stored rows. */
  function Rows(b: Bitmap, n: nat): (s: seq<Byte>)
    requires b.Valid() && n <= b.height
    ensures |s| == n * Stride(3 * b.width)
  {
    if n == 0 then [] else Rows(b, n - 1) + Row(b, n - 1)
  }

  /** Byte c of stored row i sits at i * stride + c of the stored rows. */
  lemma {:induction false} RowsAt(b: Bitmap, n: nat, i: nat, c: nat)
    requires b.Valid() && i < n <= b.height && c < Stride(3 * b.width)
    ensures i * Stride(3 * b.width) + c < |Rows(b, n)|
    ensures Rows(b, n)[i * Stride(3 * b.width) + c] == Row(b, i)[c]
  {
    var stride := Stride(3 * b.width);
    Arith.MulMono(i + 1, n, stride);
    if i < n - 1 {
      RowsAt(b, n - 1, i, c);
    } else {
      assert |Rows(b, n - 1)| == i * stride;
    }
  }

  /** The file SaveImageBMP writes for an image. */
  function EncodeBMP(b: Bitmap): seq<Byte>
    requires b.Valid()
  {
    Header(b.width, b.height) + Rows(b, b.height)
  }

  /** The row the saver copies out of the pixel buffer is the row of the image it holds. */
  lemma {:induction false} RowBytesOfData(bytes: seq<Byte>, w: nat, h: nat, y: nat)
    requires |bytes| == 3 * (w * h) && y < h
    ensures 3 * w * y + 3 * w <= |bytes|
    ensures bytes[3 * w * y..3 * w * y + 3 * w] == RowBytes(Bitmap(w, h, PixelsOf(bytes, w * h)), y)
  {
    var b := Bitmap(w, h, PixelsOf(bytes, w * h));
    Arith.MulMono(y + 1, h, w);
    assert 3 * w * y + 3 * w == 3 * ((y + 1) * w);
    forall c | 0 <= c < 3 * w
      ensures bytes[3 * w * y + c] == RowBytes(b, y)[c]
    {
      RowByteOfData(bytes, w, h, y, c);
    }
  }

  /** Byte c of the row the saver copies out of the pixel buffer. */
  lemma RowByteOfData(bytes: seq<Byte>, w: nat, h: nat, y: nat, c: nat)
    requires |bytes| == 3 * (w * h) && y < h && c < 3 * w
    ensures 3 * w * y + c < |bytes|
    ensures bytes[3 * w * y + c] == RowBytes(Bitmap(w, h, PixelsOf(bytes, w * h)), y)[c]
  {
    var b := Bitmap(w, h, PixelsOf(bytes, w * h));
    var x, k := c / 3, c % 3;
    var p := y * w + x;
    Arith.IndexOf(w, h, x, y);
    assert RowBytes(b, y)[c] == Channel(b.At(x, y), k);
    assert b.At(x, y) == Pixel(bytes[3 * p], bytes[3 * p + 1], bytes[3 * p + 2]);
    assert 3 * w * y == 3 * (y * w);
    assert 3 * p + k == 3 * w * y + c;
  }

  // ---- Loading --------------------------------------------------------------

  /** Pixel (x, y) of an 8-bit file: the byte in column x of stored row height - 1 - y, as a gray value. */
  function Pixel8At(file: seq<Byte>, off: nat, w: nat, h: nat, x: nat, y: nat): Pixel
  {
    GrayPixel(ByteAt(file, off + (h - 1 - y) * Stride(w) + x))
  }

  /** Pixel (x, y) of a 24-bit file: bytes B, G, R at column 3x of stored row height - 1 - y. */
  function Pixel24At(file: seq<Byte>, off: nat, w: nat, h: nat, x: nat, y: nat): Pixel
  {
    var k := off + (h - 1 - y) * Stride(3 * w) + 3 * x;
    Pixel(ByteAt(file, k), ByteAt(file, k + 1), ByteAt(file, k + 2))
  }

  function PixelAt(file: seq<Byte>, off: nat, w: nat, h: nat, bpp: nat, x: nat, y: nat): Pixel
  {
    if bpp == 8 then Pixel8At(file, off, w, h, x, y) else Pixel24At(file, off, w, h, x, y)
  }

  /** The pixel offset, width, height and bits per pixel stored in a header. */
  function Offset(file: seq<Byte>): nat { U32At(file, 10) }
  function Width(file: seq<Byte>): nat { U32At(file, 18) }
  function Height(file: seq<Byte>): nat { U32At(file, 22) }
  function Depth(file: seq<Byte>): nat { U16At(file, 28) }
  function Compression(file: seq<Byte>): nat { U32At(file, 30) }

  /** Why LoadImageBMP refuses a file, checked in the order the loader checks. */
  function Rejection(file: seq<Byte>): (r: Option<LoadError>)
    ensures r.None? <==> ByteAt(file, 0) == 66 && ByteAt(file, 1) == 77
                         && (Depth(file) == 8 || Depth(file) == 24) && Compression(file) == 0
    ensures r.Some? ==> r.value in {WrongFormat, UnsupportedDepth, Compressed}
  {
    if ByteAt(file, 0) != 66 || ByteAt(file, 1) != 77 then Some(WrongFormat)
    else if Depth(file) != 8 && Depth(file) != 24 then Some(UnsupportedDepth)
    else if Compression(file) != 0 then Some(Compressed)
    else None
  }

  /** Pixel p, in row-major order, of the image read from the stored rows. */
  function ScanPixel(file: seq<Byte>, off: nat, w: nat, h: nat, bpp: nat, p: nat): Pixel
    requires p < w * h
  {
    Arith.CoordsOf(w, h, p);
    PixelAt(file, off, w, h, bpp, p % w, p / w)
  }

  /** The w-by-h image read from the stored rows that start at offset off. */
  function Scan(file: seq<Byte>, off: nat, w: nat, h: nat, bpp: nat): (b: Bitmap)
    ensures b.Valid() && b.width == w && b.height == h
  {
    Bitmap(w, h, seq(w * h, p requires 0 <= p < w * h => ScanPixel(file, off, w, h, bpp, p)))
  }

  /** Pixel (x, y) of the scanned image is the one stored for column x of row y. */
  lemma ScanAt(file: seq<Byte>, off: nat, w: nat, h: nat, bpp: nat, x: nat, y: nat)
    requires x < w && y < h
    ensures Scan(file, off, w, h, bpp).At(x, y) == PixelAt(file, off, w, h, bpp, x, y)
  {
    Arith.IndexOf(w, h, x, y);
  }

  /** The scan of an 8-bit file is gray. */
  lemma {:induction false} ScanGray(file: seq<Byte>, off: nat, w: nat, h: nat)
    ensures IsGray(Scan(file, off, w, h, 8))
  {
    var b := Scan(file, off, w, h, 8);
    forall p | 0 <= p < |b.pixels|
      ensures b.pixels[p].B == b.pixels[p].G == b.pixels[p].R
    {
      assert b.pixels[p] == ScanPixel(file, off, w, h, 8, p);
    }
  }

  /** A scan whose stored pixels are those of an image is that image. */
  lemma {:induction false} ScanOf(file: seq<Byte>, off: nat, bpp: nat, b: Bitmap)
    requires b.Valid()
    requires forall x, y :: 0 <= x < b.width && 0 <= y < b.height ==>
      PixelAt(file, off, b.width, b.height, bpp, x, y) == b.At(x, y)
    ensures Scan(file, off, b.width, b.height, bpp) == b
  {
    var w, h := b.width, b.height;
    var r := Scan(file, off, w, h, bpp);
    forall p | 0 <= p < w * h
      ensures r.pixels[p] == b.pixels[p]
    {
      var x, y := ScanPixelIs(file, off, w, h, bpp, p);
      assert b.At(x, y) == b.pixels[p];
    }
    assert r.pixels == b.pixels;
  }

  /** Pixel p of the scan is the one stored for column x = p % w of row y = p / w. */
  lemma ScanPixelIs(file: seq<Byte>, off: nat, w: nat, h: nat, bpp: nat, p: nat) returns (x: nat, y: nat)
    requires p < w * h
    ensures x < w && y < h && p == y * w + x
    ensures Scan(file, off, w, h, bpp).pixels[p] == PixelAt(file, off, w, h, bpp, x, y)
  {
    Arith.CoordsOf(w, h, p);
    x, y := p % w, p / w;
  }

  /** The image LoadImageBMP makes of a file, or why it refuses the file. */
  function DecodeBMP(file: seq<Byte>): (r: Result<Bitmap, LoadError>)
    ensures r.Ok? <==> Rejection(file).None?
    ensures r.Err? ==> r.error == Rejection(file).value
    ensures r.Ok? ==> r.value.Valid() && r.value.width == Width(file) && r.value.height == Height(file)
  {
    match Rejection(file)
    case Some(e) => Err(e)
    case None => Ok(Scan(file, Offset(file), Width(file), Height(file), Depth(file)))
  }

  /** Pixel (x, y) of a decoded file is read from its stored row and column. */
  lemma DecodeBMPAt(file: seq<Byte>, x: nat, y: nat)
    requires DecodeBMP(file).Ok? && x < Width(file) && y < Height(file)
    ensures DecodeBMP(file).value.At(x, y) == PixelAt(file, Offset(file), Width(file), Height(file), Depth(file), x, y)
  {
    ScanAt(file, Offset(file), Width(file), Height(file), Depth(file), x, y);
  }

  /** An 8-bit file decodes to a gray image. */
  lemma DecodeBMP8IsGray(file: seq<Byte>)
    requires DecodeBMP(file).Ok? && Depth(file) == 8
    ensures IsGray(DecodeBMP(file).value)
  {
    ScanGray(file, Offset(file), Width(file), Height(file));
  }

  /** Byte c of pixel (x, y) in a saved file, after any 54-byte header. */
  lemma {:induction false} SavedByte(hdr: seq<Byte>, b: Bitmap, x: nat, y: nat, c: nat)
    requires |hdr| == HeaderSize && b.Valid() && x < b.width && y < b.height && c < 3
    ensures ByteAt(hdr + Rows(b, b.height), HeaderSize + (b.height - 1 - y) * Stride(3 * b.width) + 3 * x + c)
      == Channel(b.At(x, y), c)
  {
    var i, k := b.height - 1 - y, 3 * x + c;
    var rows, at := Rows(b, b.height), i * Stride(3 * b.width) + k;
    Arith.MulMono(0, i, Stride(3 * b.width));
    RowsAt(b, b.height, i, k);
    assert 0 <= at < |rows| && rows[at] == Row(b, i)[k];
    ByteAtAfter(hdr, rows, at);
    RowBytesAt(b, y, x, c);
    assert Row(b, i)[k] == RowBytes(b, y)[k];
  }

  /** After any 54-byte header, the stored rows give each pixel its own channels back. */
  lemma {:induction false} SavedPixel(hdr: seq<Byte>, b: Bitmap, x: nat, y: nat)
    requires |hdr| == HeaderSize && b.Valid() && x < b.width && y < b.height
    ensures Pixel24At(hdr + Rows(b, b.height), HeaderSize, b.width, b.height, x, y) == b.At(x, y)
  {
    SavedByte(hdr, b, x, y, 0);
    SavedByte(hdr, b, x, y, 1);
    SavedByte(hdr, b, x, y, 2);
  }

  /** A file that passes the checks and holds the right pixels decodes to that image. */
  lemma DecodeBMPOf(file: seq<Byte>, b: Bitmap)
    requires b.Valid() && Rejection(file).None?
    requires Width(file) == b.width && Height(file) == b.height
    requires forall x, y :: 0 <= x < b.width && 0 <= y < b.height ==>
      PixelAt(file, Offset(file), b.width, b.height, Depth(file), x, y) == b.At(x, y)
    ensures DecodeBMP(file) == Ok(b)
  {
    ScanOf(file, Offset(file), Depth(file), b);
  }

  /** Loading what SaveImageBMP wrote gives back the image, when its sizes fit the 32-bit fields. */
  lemma {:induction false} BmpRoundTrip(b: Bitmap)
    requires b.Valid() && b.width < 0x1_0000_0000 && b.height < 0x1_0000_0000
    ensures DecodeBMP(EncodeBMP(b)) == Ok(b)
  {
    var hdr := Header(b.width, b.height);
    var file := hdr + Rows(b, b.height);
    HeaderFields(b.width, b.height, Rows(b, b.height));
    forall x, y | 0 <= x < b.width && 0 <= y < b.height
      ensures PixelAt(file, Offset(file), b.width, b.height, Depth(file), x, y) == b.At(x, y)
    {
      SavedPixel(hdr, b, x, y);
    }
    DecodeBMPOf(file, b);
  }
}
