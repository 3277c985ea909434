/**
 * The value view of an image: its width, its height and its pixels in row-major
 * order, pixel (x, y) at index y*width+x. An Image stores each pixel as three
 * bytes, blue, green, red, at byte offset 3*(y*width+x); PixelsOf reads that
 * buffer back as pixels. The whole-image operations of the Image class are
 * specified here as functions on the value view, with the properties they have.
 */
module Raster {
  import opened Arith

  type Byte = b: int | 0 <= b < 256

  /** A pixel, its channels in the order they are stored: blue, green, red. */
  datatype Pixel = Pixel(B: Byte, G: Byte, R: Byte)

  const Black := Pixel(0, 0, 0)
  const White := Pixel(255, 255, 255)

  /** Byte c of a pixel as laid out in memory (0: blue, 1: green, 2: red). */
  function Channel(p: Pixel, c: nat): Byte
    requires c < 3
  {
    if c == 0 then p.B else if c == 1 then p.G else p.R
  }

  /** The pixel p with byte c replaced by v. */
  function WithChannel(p: Pixel, c: nat, v: Byte): Pixel
    requires c < 3
  {
    if c == 0 then p.(B := v) else if c == 1 then p.(G := v) else p.(R := v)
  }

  /** The gray value of a pixel: the mean of its three bytes, truncated. */
  function Gray(p: Pixel): (g: Byte)
    ensures 3 * g <= p.B + p.G + p.R < 3 * g + 3
    ensures p.B == p.G == p.R ==> g == p.B
  {
    (p.B + p.G + p.R) / 3
  }

  /** The pixel with all three bytes equal to c. */
  function GrayPixel(c: Byte): (p: Pixel)
    ensures Gray(p) == c
  {
    Pixel(c, c, c)
  }

  /** Byte offset of pixel (x, y) in the buffer of a w-by-h image; its three bytes lie inside. */
  function Offset(w: nat, h: nat, x: nat, y: nat): (k: nat)
    requires x < w && y < h
    ensures k + 2 < 3 * (w * h)
  {
    IndexOf(w, h, x, y);
    3 * (y * w + x)
  }

  // ---------------------------------------------------------------------------
  // Byte buffers holding three bytes per pixel.

  /** The n pixels held by the first 3n bytes of a buffer. */
  function PixelsOf(bytes: seq<Byte>, n: nat): (ps: seq<Pixel>)
    requires 3 * n <= |bytes|
    ensures |ps| == n
  {
    seq(n, p requires 0 <= p < n => Pixel(bytes[3 * p], bytes[3 * p + 1], bytes[3 * p + 2]))
  }

  /** The pixel view loses nothing: two buffers of 3n bytes with the same pixels are equal. */
  lemma {:induction false} PixelsOfInjective(s: seq<Byte>, t: seq<Byte>, n: nat)
    requires |s| == |t| == 3 * n && PixelsOf(s, n) == PixelsOf(t, n)
    ensures s == t
  {
    forall k | 0 <= k < |s|
      ensures s[k] == t[k]
    {
      var p := k / 3;
      assert PixelsOf(s, n)[p] == PixelsOf(t, n)[p];
    }
  }

  /** Writing the three bytes of pixel p replaces that pixel and no other. */
  lemma PixelsOfUpdate(s: seq<Byte>, n: nat, p: nat, v: Pixel)
    requires 3 * n <= |s| && p < n
    ensures PixelsOf(s[3 * p := v.B][3 * p + 1 := v.G][3 * p + 2 := v.R], n) == PixelsOf(s, n)[p := v]
  {
  }

  /** Writing byte c of pixel p changes that byte of that pixel and nothing else. */
  lemma PixelsOfUpdateChannel(s: seq<Byte>, n: nat, p: nat, c: nat, v: Byte)
    requires 3 * n <= |s| && p < n && c < 3
    ensures PixelsOf(s[3 * p + c := v], n) == PixelsOf(s, n)[p := WithChannel(PixelsOf(s, n)[p], c, v)]
  {
  }

  // ---------------------------------------------------------------------------
  // Bitmaps.

  datatype Bitmap = Bitmap(width: nat, height: nat, pixels: seq<Pixel>) {

    /** One pixel per position. */
    predicate Valid()
    {
      |pixels| == width * height
    }

    /** The pixel at column x of row y. */
    function At(x: nat, y: nat): Pixel
      requires Valid() && x < width && y < height
    {
      IndexOf(width, height, x, y);
      pixels[y * width + x]
    }

    /** The bitmap with the pixel at column x of row y replaced by v. */
    function Set(x: nat, y: nat, v: Pixel): (r: Bitmap)
      requires Valid() && x < width && y < height
      ensures r.Valid() && r.width == width && r.height == height
    {
      IndexOf(width, height, x, y);
      this.(pixels := pixels[y * width + x := v])
    }
  }

  /** Setting a pixel changes that pixel and no other. */
  lemma SetAt(b: Bitmap, x: nat, y: nat, v: Pixel, x': nat, y': nat)
    requires b.Valid() && x < b.width && y < b.height && x' < b.width && y' < b.height
    ensures b.Set(x, y, v).At(x', y') == if x' == x && y' == y then v else b.At(x', y')
  {
    IndexOf(b.width, b.height, x, y);
    IndexOf(b.width, b.height, x', y');
  }

  /** Two valid bitmaps of the same size with the same pixels are equal. */
  lemma {:induction false} SamePixels(a: Bitmap, b: Bitmap)
    requires a.Valid() && b.Valid() && a.width == b.width && a.height == b.height
    requires forall x, y :: 0 <= x < a.width && 0 <= y < a.height ==> a.At(x, y) == b.At(x, y)
    ensures a == b
  {
    forall p | 0 <= p < |a.pixels|
      ensures a.pixels[p] == b.pixels[p]
    {
      CoordsOf(a.width, a.height, p);
      assert a.At(p % a.width, p / a.width) == b.At(p % a.width, p / a.width);
    }
  }

  // ---------------------------------------------------------------------------
  // The gray version of an image: what the PGM and RAW formats keep of it.

  function Grayed(b: Bitmap): (r: Bitmap)
    requires b.Valid()
    ensures r.Valid() && r.width == b.width && r.height == b.height
  {
    b.(pixels := seq(|b.pixels|, p requires 0 <= p < |b.pixels| => GrayPixel(Gray(b.pixels[p]))))
  }

  /** Every pixel has three equal bytes. */
  predicate IsGray(b: Bitmap)
  {
    forall p :: 0 <= p < |b.pixels| ==> b.pixels[p].B == b.pixels[p].G == b.pixels[p].R
  }

  /** An image that is already gray is its own gray version. */
  lemma {:induction false} GrayedOfGray(b: Bitmap)
    requires b.Valid() && IsGray(b)
    ensures Grayed(b) == b
  {
    forall p | 0 <= p < |b.pixels|
      ensures Grayed(b).pixels[p] == b.pixels[p]
    {
      assert Gray(b.pixels[p]) == b.pixels[p].B;
    }
  }

  /** The gray version of any image is gray. */
  lemma GrayedIsGray(b: Bitmap)
    requires b.Valid()
    ensures IsGray(Grayed(b))
  {
  }

  // ---------------------------------------------------------------------------
  // Clear, and Init with black: a w-by-h image every pixel of which is c.

  function Filled(w: nat, h: nat, c: Pixel): (r: Bitmap)
    ensures r.Valid() && r.width == w && r.height == h
  {
    Bitmap(w, h, seq(w * h, _ => c))
  }

  lemma FilledAt(w: nat, h: nat, c: Pixel, x: nat, y: nat)
    requires x < w && y < h
    ensures Filled(w, h, c).At(x, y) == c
  {
    IndexOf(w, h, x, y);
  }

  /** A buffer of zero bytes holds a black image. */
  lemma {:induction false} ZeroBytesBlack(s: seq<Byte>, w: nat, h: nat)
    requires |s| == 3 * (w * h) && forall k :: 0 <= k < |s| ==> s[k] == 0
    ensures PixelsOf(s, w * h) == Filled(w, h, Black).pixels
  {
    forall p | 0 <= p < w * h
      ensures PixelsOf(s, w * h)[p] == Black
    {
      assert s[3 * p] == 0 && s[3 * p + 1] == 0 && s[3 * p + 2] == 0;
    }
  }

  // ---------------------------------------------------------------------------
  // Invert: every byte b becomes 255 - b.

  function InvertPixel(p: Pixel): Pixel
  {
    Pixel(255 - p.B, 255 - p.G, 255 - p.R)
  }

  function Inverted(b: Bitmap): (r: Bitmap)
    requires b.Valid()
    ensures r.Valid() && r.width == b.width && r.height == b.height
  {
    b.(pixels := seq(|b.pixels|, p requires 0 <= p < |b.pixels| => InvertPixel(b.pixels[p])))
  }

  lemma InvertedAt(b: Bitmap, x: nat, y: nat)
    requires b.Valid() && x < b.width && y < b.height
    ensures var p := b.At(x, y);
      Inverted(b).At(x, y) == Pixel(255 - p.B, 255 - p.G, 255 - p.R)
  {
    IndexOf(b.width, b.height, x, y);
  }

  lemma InvertedTwice(b: Bitmap)
    requires b.Valid()
    ensures Inverted(Inverted(b)) == b
  {
  }

  /** Inverting every byte of a buffer inverts every pixel it holds. */
  lemma {:induction false} InvertedBytes(s: seq<Byte>, t: seq<Byte>, n: nat)
    requires |s| == |t| == 3 * n && forall k :: 0 <= k < |s| ==> t[k] == 255 - s[k]
    ensures PixelsOf(t, n) == Inverted(Bitmap(n, 1, PixelsOf(s, n))).pixels
  {
    forall p | 0 <= p < n
      ensures PixelsOf(t, n)[p] == InvertPixel(PixelsOf(s, n)[p])
    {
      assert t[3 * p] == 255 - s[3 * p] && t[3 * p + 1] == 255 - s[3 * p + 1] && t[3 * p + 2] == 255 - s[3 * p + 2];
    }
  }

  // ---------------------------------------------------------------------------
  // FlipHorizontal and FlipVertical.

  /** Linear index of the pixel in the same row as p, at the mirrored column. */
  function MirrorX(w: nat, h: nat, p: nat): (q: nat)
    requires p < w * h
    ensures q < w * h && q / w == p / w && q % w == w - 1 - p % w
  {
    CoordsOf(w, h, p);
    IndexOf(w, h, w - 1 - p % w, p / w);
    (p / w) * w + (w - 1 - p % w)
  }

  /** Linear index of the pixel in the same column as p, at the mirrored row. */
  function MirrorY(w: nat, h: nat, p: nat): (q: nat)
    requires p < w * h
    ensures q < w * h && q / w == h - 1 - p / w && q % w == p % w
  {
    CoordsOf(w, h, p);
    IndexOf(w, h, p % w, h - 1 - p / w);
    (h - 1 - p / w) * w + p % w
  }

  function FlippedH(b: Bitmap): (r: Bitmap)
    requires b.Valid()
    ensures r.Valid() && r.width == b.width && r.height == b.height
  {
    b.(pixels := seq(|b.pixels|, p requires 0 <= p < |b.pixels| => b.pixels[MirrorX(b.width, b.height, p)]))
  }

  function FlippedV(b: Bitmap): (r: Bitmap)
    requires b.Valid()
    ensures r.Valid() && r.width == b.width && r.height == b.height
  {
    b.(pixels := seq(|b.pixels|, p requires 0 <= p < |b.pixels| => b.pixels[MirrorY(b.width, b.height, p)]))
  }

  lemma FlippedHAt(b: Bitmap, x: nat, y: nat)
    requires b.Valid() && x < b.width && y < b.height
    ensures FlippedH(b).At(x, y) == b.At(b.width - 1 - x, y)
  {
    IndexOf(b.width, b.height, x, y);
    var q := MirrorX(b.width, b.height, y * b.width + x);
    CoordsOf(b.width, b.height, q);
  }

  lemma FlippedVAt(b: Bitmap, x: nat, y: nat)
    requires b.Valid() && x < b.width && y < b.height
    ensures FlippedV(b).At(x, y) == b.At(x, b.height - 1 - y)
  {
    IndexOf(b.width, b.height, x, y);
    var q := MirrorY(b.width, b.height, y * b.width + x);
    CoordsOf(b.width, b.height, q);
  }

  lemma {:induction false} FlippedHTwice(b: Bitmap)
    requires b.Valid()
    ensures FlippedH(FlippedH(b)) == b
  {
    forall x, y | 0 <= x < b.width && 0 <= y < b.height
      ensures FlippedH(FlippedH(b)).At(x, y) == b.At(x, y)
    {
      FlippedHAt(FlippedH(b), x, y);
      FlippedHAt(b, b.width - 1 - x, y);
    }
    SamePixels(FlippedH(FlippedH(b)), b);
  }

  lemma {:induction false} FlippedVTwice(b: Bitmap)
    requires b.Valid()
    ensures FlippedV(FlippedV(b)) == b
  {
    forall x, y | 0 <= x < b.width && 0 <= y < b.height
      ensures FlippedV(FlippedV(b)).At(x, y) == b.At(x, y)
    {
      FlippedVAt(FlippedV(b), x, y);
      FlippedVAt(b, x, b.height - 1 - y);
    }
    SamePixels(FlippedV(FlippedV(b)), b);
  }

  // ---------------------------------------------------------------------------
  // Binarize: white where the gray value exceeds the threshold, black elsewhere.

  function Binarized(b: Bitmap, t: Byte): (r: Bitmap)
    requires b.Valid()
    ensures r.Valid() && r.width == b.width && r.height == b.height
  {
    b.(pixels := seq(|b.pixels|, p requires 0 <= p < |b.pixels| =>
      if Gray(b.pixels[p]) > t then White else Black))
  }

  lemma BinarizedAt(b: Bitmap, t: Byte, x: nat, y: nat)
    requires b.Valid() && x < b.width && y < b.height
    ensures Binarized(b, t).At(x, y) == if Gray(b.At(x, y)) > t then White else Black
  {
    IndexOf(b.width, b.height, x, y);
  }

  /** A pixel whose gray value equals the threshold becomes black: the comparison is strict. */
  lemma BinarizedAtThreshold(b: Bitmap, t: Byte, x: nat, y: nat)
    requires b.Valid() && x < b.width && y < b.height && Gray(b.At(x, y)) == t
    ensures Binarized(b, t).At(x, y) == Black
  {
    BinarizedAt(b, t, x, y);
  }

  /** Binarizing twice with the same threshold changes nothing more. */
  lemma {:induction false} BinarizedTwice(b: Bitmap, t: Byte)
    requires b.Valid()
    ensures Binarized(Binarized(b, t), t) == Binarized(b, t)
  {
    var once := Binarized(b, t);
    forall x, y | 0 <= x < b.width && 0 <= y < b.height
      ensures Binarized(once, t).At(x, y) == once.At(x, y)
    {
      BinarizedAt(b, t, x, y);
      BinarizedAt(once, t, x, y);
    }
    SamePixels(Binarized(once, t), once);
  }

  // ---------------------------------------------------------------------------
  // Crop: the w-by-h window whose top-left corner is (px, py).

  function CropPixel(b: Bitmap, px: nat, py: nat, w: nat, h: nat, p: nat): Pixel
    requires b.Valid() && px + w <= b.width && py + h <= b.height && p < w * h
  {
    CoordsOf(w, h, p);
    b.At(px + p % w, py + p / w)
  }

  function Cropped(b: Bitmap, px: nat, py: nat, w: nat, h: nat): (r: Bitmap)
    requires b.Valid() && px + w <= b.width && py + h <= b.height
    ensures r.Valid() && r.width == w && r.height == h
  {
    Bitmap(w, h, seq(w * h, p requires 0 <= p < w * h => CropPixel(b, px, py, w, h, p)))
  }

  lemma CroppedAt(b: Bitmap, px: nat, py: nat, w: nat, h: nat, x: nat, y: nat)
    requires b.Valid() && px + w <= b.width && py + h <= b.height && x < w && y < h
    ensures Cropped(b, px, py, w, h).At(x, y) == b.At(px + x, py + y)
  {
    IndexOf(w, h, x, y);
  }

  // ---------------------------------------------------------------------------
  // Resize: each output pixel is the rounded mean of an f-by-f block.

  /** The integer nearest to s / n, ties rounded up: floor(s / n + 1/2). */
  function RoundHalfUp(s: nat, n: nat): (r: nat)
    requires 0 < n
    ensures 2 * n * r <= 2 * s + n < 2 * n * r + 2 * n
    ensures s <= 255 * n ==> r <= 255
  {
    var r := (2 * s + n) / (2 * n);
    assert s <= 255 * n ==> r <= 255 by {
      if s <= 255 * n {
        DivAtMost(2 * s + n, 2 * n, 255);
      }
    }
    r
  }

  /** The mean of n copies of one value c is that value. */
  lemma RoundHalfUpExact(c: nat, n: nat)
    requires 0 < n
    ensures RoundHalfUp(c * n, n) == c
  {
    DivModUnique(2 * (c * n) + n, 2 * n, c, n);
  }

  /** Sum of channel c over the n pixels of row y that start at column x0. */
  function RowSum(b: Bitmap, x0: nat, y: nat, n: nat, c: nat): (s: nat)
    requires b.Valid() && x0 + n <= b.width && y < b.height && c < 3
    ensures s <= 255 * n
  {
    if n == 0 then 0 else RowSum(b, x0, y, n - 1, c) + Channel(b.At(x0 + n - 1, y), c)
  }

  /** Sum of channel c over the first m rows of the n-pixel-wide block at (x0, y0). */
  function BlockSum(b: Bitmap, x0: nat, y0: nat, n: nat, m: nat, c: nat): (s: nat)
    requires b.Valid() && x0 + n <= b.width && y0 + m <= b.height && c < 3
    ensures s <= 255 * (n * m)
  {
    if m == 0 then 0 else BlockSum(b, x0, y0, n, m - 1, c) + RowSum(b, x0, y0 + m - 1, n, c)
  }

  /** Channel c of output pixel (x, y) of a resize by f. */
  function BlockMean(b: Bitmap, f: nat, x: nat, y: nat, c: nat): Byte
    requires b.Valid() && 0 < f && x < b.width / f && y < b.height / f && c < 3
  {
    BlockInside(b.width, f, x);
    BlockInside(b.height, f, y);
    RoundHalfUp(BlockSum(b, f * x, f * y, f, f, c), f * f)
  }

  function ResizePixel(b: Bitmap, f: nat, x: nat, y: nat): Pixel
    requires b.Valid() && 0 < f && x < b.width / f && y < b.height / f
  {
    Pixel(BlockMean(b, f, x, y, 0), BlockMean(b, f, x, y, 1), BlockMean(b, f, x, y, 2))
  }

  function ResizedPixel(b: Bitmap, f: nat, p: nat): Pixel
    requires b.Valid() && 0 < f && p < (b.width / f) * (b.height / f)
  {
    CoordsOf(b.width / f, b.height / f, p);
    ResizePixel(b, f, p % (b.width / f), p / (b.width / f))
  }

  function Resized(b: Bitmap, f: nat): (r: Bitmap)
    requires b.Valid() && 0 < f
    ensures r.Valid() && r.width == b.width / f && r.height == b.height / f
  {
    var w, h := b.width / f, b.height / f;
    Bitmap(w, h, seq(w * h, p requires 0 <= p < w * h => ResizedPixel(b, f, p)))
  }

  lemma ResizedAt(b: Bitmap, f: nat, x: nat, y: nat)
    requires b.Valid() && 0 < f && x < b.width / f && y < b.height / f
    ensures Resized(b, f).At(x, y) == ResizePixel(b, f, x, y)
  {
    IndexOf(b.width / f, b.height / f, x, y);
  }

  lemma {:induction false} RowSumUniform(b: Bitmap, x0: nat, y: nat, n: nat, c: nat, v: Pixel)
    requires b.Valid() && x0 + n <= b.width && y < b.height && c < 3
    requires forall x :: x0 <= x < x0 + n ==> b.At(x, y) == v
    ensures RowSum(b, x0, y, n, c) == n * Channel(v, c)
  {
    if n > 0 {
      RowSumUniform(b, x0, y, n - 1, c, v);
      assert b.At(x0 + n - 1, y) == v;
      var d := Channel(v, c);
      assert (n - 1) * d + d == n * d;
    }
  }

  lemma {:induction false} BlockSumUniform(b: Bitmap, x0: nat, y0: nat, n: nat, m: nat, c: nat, v: Pixel)
    requires b.Valid() && x0 + n <= b.width && y0 + m <= b.height && c < 3
    requires forall x, y :: x0 <= x < x0 + n && y0 <= y < y0 + m ==> b.At(x, y) == v
    ensures BlockSum(b, x0, y0, n, m, c) == Channel(v, c) * (n * m)
  {
    if m > 0 {
      BlockSumUniform(b, x0, y0, n, m - 1, c, v);
      RowSumUniform(b, x0, y0 + m - 1, n, c, v);
      AddRow(Channel(v, c), n, m);
    }
  }

  /** The block of an output pixel of a one-colour image averages to that colour. */
  lemma BlockMeanUniform(b: Bitmap, f: nat, x: nat, y: nat, c: nat, v: Pixel)
    requires b.Valid() && 0 < f && x < b.width / f && y < b.height / f && c < 3
    requires forall x, y :: 0 <= x < b.width && 0 <= y < b.height ==> b.At(x, y) == v
    ensures BlockMean(b, f, x, y, c) == Channel(v, c)
  {
    BlockInside(b.width, f, x);
    BlockInside(b.height, f, y);
    BlockSumUniform(b, f * x, f * y, f, f, c, v);
    RoundHalfUpExact(Channel(v, c), f * f);
  }

  /** Resizing an image of one colour gives an image of exactly that colour. */
  lemma {:induction false} ResizedUniform(b: Bitmap, f: nat, v: Pixel)
    requires b.Valid() && 0 < f
    requires forall x, y :: 0 <= x < b.width && 0 <= y < b.height ==> b.At(x, y) == v
    ensures Resized(b, f) == Filled(b.width / f, b.height / f, v)
  {
    var w, h := b.width / f, b.height / f;
    forall x, y | 0 <= x < w && 0 <= y < h
      ensures Resized(b, f).At(x, y) == Filled(w, h, v).At(x, y)
    {
      ResizedAt(b, f, x, y);
      FilledAt(w, h, v, x, y);
      BlockMeanUniform(b, f, x, y, 0, v);
      BlockMeanUniform(b, f, x, y, 1, v);
      BlockMeanUniform(b, f, x, y, 2, v);
    }
    SamePixels(Resized(b, f), Filled(w, h, v));
  }

  // ---------------------------------------------------------------------------
  // GetHistogramGray and GetMeanGray. Pixels are visited in row-major order,
  // so "the first n pixels" are those with linear index below n.

  /** Number of pixels among the first n whose gray value is g. */
  function GrayCount(b: Bitmap, n: nat, g: int): (k: nat)
    requires b.Valid() && n <= b.width * b.height
    ensures k <= n
  {
    if n == 0 then 0 else GrayCount(b, n - 1, g) + (if Gray(b.pixels[n - 1]) == g then 1 else 0)
  }

  /** The 256 buckets of gray counts over the first n pixels. */
  function Counts(b: Bitmap, n: nat): (hist: seq<int>)
    requires b.Valid() && n <= b.width * b.height
    ensures |hist| == 256
  {
    seq(256, g requires 0 <= g < 256 => GrayCount(b, n, g))
  }

  function Histogram(b: Bitmap): (hist: seq<int>)
    requires b.Valid()
    ensures |hist| == 256
    ensures forall g :: 0 <= g < 256 ==> 0 <= hist[g] <= b.width * b.height
  {
    Counts(b, b.width * b.height)
  }

  function Total(s: seq<int>): int
  {
    if s == [] then 0 else Total(s[..|s| - 1]) + s[|s| - 1]
  }

  lemma {:induction false} TotalIncrement(s: seq<int>, i: nat)
    requires i < |s|
    ensures Total(s[i := s[i] + 1]) == Total(s) + 1
  {
    var t := s[i := s[i] + 1];
    if i < |s| - 1 {
      assert t[..|t| - 1] == s[..|s| - 1][i := s[i] + 1];
      TotalIncrement(s[..|s| - 1], i);
    } else {
      assert t[..|t| - 1] == s[..|s| - 1];
    }
  }

  lemma {:induction false} ZeroTotal(z: seq<int>, m: nat)
    requires m <= |z| && forall i :: 0 <= i < |z| ==> z[i] == 0
    ensures Total(z[..m]) == 0
  {
    if m > 0 {
      assert z[..m][..m - 1] == z[..m - 1];
      ZeroTotal(z, m - 1);
    }
  }

  lemma {:induction false} CountsTotal(b: Bitmap, n: nat)
    requires b.Valid() && n <= b.width * b.height
    ensures Total(Counts(b, n)) == n
  {
    if n == 0 {
      var z := Counts(b, 0);
      ZeroTotal(z, 256);
      assert z[..256] == z;
    } else {
      var g0 := Gray(b.pixels[n - 1]);
      CountsStep(b, n - 1);
      CountsTotal(b, n - 1);
      TotalIncrement(Counts(b, n - 1), g0);
    }
  }

  /** Counting one more pixel increments the bucket of its gray value and no other. */
  lemma CountsStep(b: Bitmap, n: nat)
    requires b.Valid() && n < b.width * b.height
    ensures Counts(b, n + 1) == Counts(b, n)[Gray(b.pixels[n]) := Counts(b, n)[Gray(b.pixels[n])] + 1]
  {
  }

  /** Before any pixel is counted every bucket is empty. */
  lemma CountsZero(b: Bitmap)
    requires b.Valid()
    ensures Counts(b, 0) == seq(256, _ => 0)
  {
  }

  /** The histogram counts every pixel exactly once. */
  lemma HistogramTotal(b: Bitmap)
    requires b.Valid()
    ensures Total(Histogram(b)) == b.width * b.height
  {
    CountsTotal(b, b.width * b.height);
  }

  /** Sum of the gray values of the first n pixels. */
  function GraySum(b: Bitmap, n: nat): (s: nat)
    requires b.Valid() && n <= b.width * b.height
    ensures s <= 255 * n
  {
    if n == 0 then 0 else GraySum(b, n - 1) + Gray(b.pixels[n - 1])
  }

  /** The truncated mean gray value; it always fits in a byte. */
  function MeanGray(b: Bitmap): (m: Byte)
    requires b.Valid() && 0 < b.width * b.height
  {
    MeanAtMost255(GraySum(b, b.width * b.height), b.width * b.height);
    GraySum(b, b.width * b.height) / (b.width * b.height)
  }

  lemma {:induction false} GraySumUniform(b: Bitmap, n: nat, g: Byte)
    requires b.Valid() && n <= b.width * b.height
    requires forall p :: 0 <= p < n ==> Gray(b.pixels[p]) == g
    ensures GraySum(b, n) == g * n
  {
    if n > 0 {
      GraySumUniform(b, n - 1, g);
      assert g * (n - 1) + g == g * n;
    }
  }

  /** When every pixel has gray value g, the mean gray value is g. */
  lemma {:induction false} MeanGrayUniform(b: Bitmap, g: Byte)
    requires b.Valid() && 0 < b.width * b.height
    requires forall x, y :: 0 <= x < b.width && 0 <= y < b.height ==> Gray(b.At(x, y)) == g
    ensures MeanGray(b) == g
  {
    var n := b.width * b.height;
    forall p | 0 <= p < n
      ensures Gray(b.pixels[p]) == g
    {
      CoordsOf(b.width, b.height, p);
      assert b.At(p % b.width, p / b.width) == b.pixels[p];
    }
    GraySumUniform(b, n, g);
    DivModUnique(g * n, n, g, 0);
  }
}
