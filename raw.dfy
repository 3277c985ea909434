/**
 * Headerless gray files: one byte per pixel, row by row. The loader either
 * takes the size from its caller or, when the caller passes a zero width or
 * height, takes a square whose side is the square root of the file length.
 */
module Raw {
  import opened Wrappers
  import opened Raster
  import opened Bytes
  import Arith

  function Square(k: nat): nat
  {
    k * k
  }

  /** Squares grow with their side. */
  lemma SquareMono(a: nat, b: nat)
    requires a <= b
    ensures Square(a) <= Square(b)
  {
    Arith.MulMono(a, b, a);
    Arith.MulMono(a, b, b);
  }

  /** The largest r with r * r <= n, searching upwards from r. */
  function SqrtFrom(n: nat, r: nat): (s: nat)
    requires Square(r) <= n
    ensures Square(s) <= n < Square(s + 1)
    decreases n - r
  {
    if n < Square(r + 1) then r
    else
      SquareMono(r, r + 1);
      assert r < Square(r + 1) by { Arith.MulAtLeast(r + 1, r + 1); }
      SqrtFrom(n, r + 1)
  }

  /** The integer square root: what truncating sqrt(filesize) gives. */
  function ISqrt(n: nat): (r: nat)
    ensures Square(r) <= n < Square(r + 1)
  {
    SqrtFrom(n, 0)
  }

  /** The integer square root is the only r with r * r <= n < (r + 1) * (r + 1). */
  lemma {:induction false} ISqrtUnique(n: nat, k: nat)
    requires Square(k) <= n < Square(k + 1)
    ensures ISqrt(n) == k
  {
    var r := ISqrt(n);
    if r < k {
      SquareMono(r + 1, k);
    } else if r > k {
      SquareMono(k + 1, r);
    }
  }

  /** The image LoadImageRAW makes of a file, given the width and height its caller passes. */
  function DecodeRAW(file: seq<Byte>, width: nat, height: nat): (r: Result<Bitmap, LoadError>)
    ensures r.Ok? ==> r.value.Valid() && IsGray(r.value)
    ensures r.Ok? && width != 0 && height != 0 ==> r.value.width == width && r.value.height == height
    ensures r.Ok? && (width == 0 || height == 0) ==>
      r.value.width == r.value.height && Square(r.value.width) == |file|
    ensures r.Err? ==> r.error == NotSquare && (width == 0 || height == 0)
  {
    if width == 0 || height == 0 then
      var side := ISqrt(|file|);
      if Square(side) != |file| then Err(NotSquare)
      else Ok(Bitmap(side, side, GrayPixels(file, 0, side * side)))
    else
      Ok(Bitmap(width, height, GrayPixels(file, 0, width * height)))
  }

  /** Without a size, a file is refused exactly when its length is not a square. */
  lemma {:induction false} DecodeRAWNotSquare(file: seq<Byte>, width: nat, height: nat)
    requires width == 0 || height == 0
    ensures DecodeRAW(file, width, height).Err? <==> forall k: nat :: Square(k) != |file|
  {
    var side := ISqrt(|file|);
    if Square(side) != |file| {
      forall k: nat
        ensures Square(k) != |file|
      {
        if Square(k) == |file| {
          ISqrtUnique(|file|, k) by {
            SquareMono(k, k + 1);
            Arith.MulAtLeast(k + 1, k + 1);
            assert Square(k) < Square(k + 1) by { assert Square(k + 1) == Square(k) + 2 * k + 1; }
          }
        }
      }
    }
  }

  /** The bytes SaveImageRAW writes: the gray value of each pixel, row by row. */
  function EncodeRAW(b: Bitmap): (s: seq<Byte>)
    requires b.Valid()
    ensures |s| == b.width * b.height
  {
    GrayBytes(b.pixels)
  }

  /** Loading a saved file with its own size gives back the gray version of the image. */
  lemma {:induction false} RawRoundTrip(b: Bitmap)
    requires b.Valid() && 0 < b.width && 0 < b.height
    ensures DecodeRAW(EncodeRAW(b), b.width, b.height) == Ok(Grayed(b))
  {
    GrayPixelsOfGrayBytes([], b);
    assert [] + EncodeRAW(b) == EncodeRAW(b);
  }

  /** A saved square image loads back without a size. */
  lemma {:induction false} RawRoundTripSquare(b: Bitmap)
    requires b.Valid() && b.width == b.height
    ensures DecodeRAW(EncodeRAW(b), 0, 0) == Ok(Grayed(b))
  {
    var n := b.width;
    ISqrtUnique(Square(n), n) by {
      assert Square(n + 1) == Square(n) + 2 * n + 1;
    }
    GrayPixelsOfGrayBytes([], b);
    assert [] + EncodeRAW(b) == EncodeRAW(b);
  }
}
