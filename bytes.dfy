/**
 * Files as byte sequences: reading a byte at an offset, the little-endian
 * 16- and 32-bit fields of a BMP header, and the gray-value byte stream that
 * the PGM and RAW savers write.
 */
module Bytes {
  import opened Raster

  /** Why a loader leaves the image as it was. */
  datatype LoadError =
    | CannotOpen        // the file does not exist
    | WrongFormat       // bad BMP signature, or a PPM/PGM header with the wrong id or levels
    | UnsupportedDepth  // a BMP with other than 8 or 24 bits per pixel
    | Compressed        // a BMP whose compression field is not 0
    | NotSquare         // a RAW file of unknown size whose length is not a square
    | UnknownType       // a file name whose extension names no supported format

  /**
   * Byte k of a file. A read outside the file gives 0: the loaders copy the
   * file into a buffer of the size they expect, and bytes the file does not
   * supply are not defined by the program; the model fixes them at 0.
   */
  function ByteAt(s: seq<Byte>, k: int): Byte
  {
    if 0 <= k < |s| then s[k] else 0
  }

  /** The unsigned little-endian 16-bit field at offset k. */
  function U16At(s: seq<Byte>, k: int): (v: nat)
    ensures v < 0x1_0000
  {
    ByteAt(s, k) + 0x100 * ByteAt(s, k + 1)
  }

  /** The unsigned little-endian 32-bit field at offset k. */
  function U32At(s: seq<Byte>, k: int): (v: nat)
    ensures v < 0x1_0000_0000
  {
    U16At(s, k) + 0x1_0000 * U16At(s, k + 2)
  }

  /** The four bytes fwrite writes for a 32-bit value on a little-endian machine. */
  function LE32(v: nat): (s: seq<Byte>)
    requires v < 0x1_0000_0000
    ensures |s| == 4 && U32At(s, 0) == v
  {
    var lo, hi := v % 0x1_0000, v / 0x1_0000;
    [lo % 0x100, lo / 0x100, hi % 0x100, hi / 0x100]
  }

  /** The bytes of a file's last part keep their offsets, shifted by what precedes it. */
  lemma ByteAtAfter(a: seq<Byte>, m: seq<Byte>, k: int)
    requires 0 <= k < |m|
    ensures ByteAt(a + m, |a| + k) == m[k]
  {
  }

  /** The n bytes fread puts in a buffer when reading from offset start; bytes past the end are 0. */
  function Read(file: seq<Byte>, start: int, n: nat): (s: seq<Byte>)
    ensures |s| == n && forall k :: 0 <= k < n ==> s[k] == ByteAt(file, start + k)
  {
    seq<Byte>(n, k requires 0 <= k < n => ByteAt(file, start + k))
  }

  /** n zero bytes, as memset writes them. */
  function Zeros(n: nat): (s: seq<Byte>)
    ensures |s| == n && forall k :: 0 <= k < n ==> s[k] == 0
  {
    seq(n, _ => 0)
  }

  /** The gray value of each pixel, one byte per pixel, in order. */
  function GrayBytes(ps: seq<Pixel>): (s: seq<Byte>)
    ensures |s| == |ps|
    ensures forall p :: 0 <= p < |ps| ==> s[p] == Gray(ps[p])
  {
    seq(|ps|, p requires 0 <= p < |ps| => Gray(ps[p]))
  }

  /** The pixels of a gray file: byte base + p of the file is pixel p, in all three channels. */
  function GrayPixels(file: seq<Byte>, base: int, n: nat): (ps: seq<Pixel>)
    ensures |ps| == n
    ensures forall p :: 0 <= p < n ==> ps[p] == GrayPixel(ByteAt(file, base + p))
  {
    seq(n, p requires 0 <= p < n => GrayPixel(ByteAt(file, base + p)))
  }

  /** Reading back the gray bytes of an image gives its gray version. */
  lemma {:induction false} GrayPixelsOfGrayBytes(a: seq<Byte>, b: Bitmap)
    requires b.Valid()
    ensures GrayPixels(a + GrayBytes(b.pixels), |a|, |b.pixels|) == Grayed(b).pixels
  {
    var file := a + GrayBytes(b.pixels);
    forall p | 0 <= p < |b.pixels|
      ensures GrayPixels(file, |a|, |b.pixels|)[p] == Grayed(b).pixels[p]
    {
      ByteAtAfter(a, GrayBytes(b.pixels), p);
    }
  }
}
