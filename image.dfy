/**
 * The Image class: a width, a height and a byte array of 3*width*height bytes in
 * which pixel (x, y) is stored at 3*(y*width+x) as blue, green, red.
 * Value() is the image as a Raster.Bitmap; each whole-image method is specified
 * by the Raster function of the same operation.
 */
module Images {
  import opened Arith
  import opened Raster

  class Image {
    var width: nat
    var height: nat
    var data: array<Byte>

    /** The buffer always holds three bytes per pixel. */
    ghost predicate Valid()
      reads this
    {
      data.Length == 3 * (width * height)
    }

    /** The image as a value. */
    function Value(): (b: Bitmap)
      reads this, data
      requires Valid()
      ensures b.Valid() && b.width == width && b.height == height
    {
      Bitmap(width, height, PixelsOf(data[..], width * height))
    }

    /** Image(void): a 0-by-0 image with no pixels. */
    constructor Empty()
      ensures Valid() && Value() == Filled(0, 0, Black) && fresh(data)
    {
      width, height := 0, 0;
      data := new Byte[0];
    }

    /** Image(width, height): a black image of the given size. */
    constructor (w: nat, h: nat)
      ensures Valid() && Value() == Filled(w, h, Black) && fresh(data)
    {
      var zeros := new Byte[3 * (w * h)](_ => 0);
      ZeroBytesBlack(zeros[..], w, h);
      width, height, data := w, h, zeros;
    }

    /** The copy constructor: a deep copy with a buffer of its own. */
    constructor Copy(src: Image)
      requires src.Valid()
      ensures Valid() && Value() == src.Value() && fresh(data)
    {
      var source := src.data;
      var copy := new Byte[source.Length](k requires 0 <= k < source.Length reads source => source[k]);
      assert copy[..] == source[..];
      width, height, data := src.width, src.height, copy;
    }

    /** operator=: takes the size of src and a fresh copy of its buffer. */
    method Assign(src: Image)
      requires src.Valid() && src != this
      modifies this
      ensures Valid() && Value() == src.Value() && fresh(data)
    {
      width, height := src.width, src.height;
      var source := src.data;
      data := new Byte[source.Length](k requires 0 <= k < source.Length reads source => source[k]);
      assert data[..] == source[..];
    }

    /** Init: replaces the buffer by a black one of the given size. */
    method Init(w: nat, h: nat)
      modifies this
      ensures Valid() && Value() == Filled(w, h, Black) && fresh(data)
    {
      width, height := w, h;
      data := new Byte[3 * (w * h)](_ => 0);
      ZeroBytesBlack(data[..], w, h);
    }

    function GetWidth(): (w: nat)
      reads this
      requires Valid()
      ensures w * height == data.Length / 3
    {
      width
    }

    function GetHeight(): (h: nat)
      reads this
      requires Valid()
      ensures width * h == data.Length / 3
    {
      height
    }

    /** The buffer itself, not a copy: writes through it change the image. */
    function GetData(): (d: array<Byte>)
      reads this
      requires Valid()
      ensures d == data && d.Length == 3 * (width * height)
    {
      data
    }

    // -------------------------------------------------------------------------
    // Unchecked accessors: the caller must keep (x, y) inside the image.

    function GetPixelGray(x: int, y: int): (c: Byte)
      reads this, data
      requires Valid() && 0 <= x < width && 0 <= y < height
      ensures c == Gray(Value().At(x, y))
    {
      var index := Offset(width, height, x, y);
      (data[index] as int + data[index + 1] as int + data[index + 2] as int) / 3
    }

    /** Reads byte 0 of the pixel, which SetPixelColor fills with the blue channel. */
    function GetPixelRed(x: int, y: int): (c: Byte)
      reads this, data
      requires Valid() && 0 <= x < width && 0 <= y < height
      ensures c == Value().At(x, y).B
    {
      var index := Offset(width, height, x, y);
      data[index]
    }

    /** Reads byte 1 of the pixel. */
    function GetPixelGreen(x: int, y: int): (c: Byte)
      reads this, data
      requires Valid() && 0 <= x < width && 0 <= y < height
      ensures c == Value().At(x, y).G
    {
      var index := Offset(width, height, x, y) + 1;
      data[index]
    }

    /** Reads byte 2 of the pixel, which SetPixelColor fills with the red channel. */
    function GetPixelBlue(x: int, y: int): (c: Byte)
      reads this, data
      requires Valid() && 0 <= x < width && 0 <= y < height
      ensures c == Value().At(x, y).R
    {
      var index := Offset(width, height, x, y) + 2;
      data[index]
    }

    function GetPixelColor(x: int, y: int): (rgb: Pixel)
      reads this, data
      requires Valid() && 0 <= x < width && 0 <= y < height
      ensures rgb == Value().At(x, y)
    {
      var index := Offset(width, height, x, y);
      Pixel(data[index], data[index + 1], data[index + 2])
    }

    /** Writes byte 0 of the pixel, the byte GetPixelRed reads. */
    method SetPixelRed(x: int, y: int, c: Byte)
      requires Valid() && 0 <= x < width && 0 <= y < height
      modifies data
      ensures Value() == old(Value()).Set(x, y, old(Value()).At(x, y).(B := c))
    {
      var index := Offset(width, height, x, y);
      data[index] := c;
      PixelsOfUpdateChannel(old(data[..]), width * height, y * width + x, 0, c);
      assert data[..] == old(data[..])[index := c];
    }

    /** Writes byte 1 of the pixel. */
    method SetPixelGreen(x: int, y: int, c: Byte)
      requires Valid() && 0 <= x < width && 0 <= y < height
      modifies data
      ensures Value() == old(Value()).Set(x, y, old(Value()).At(x, y).(G := c))
    {
      var index := Offset(width, height, x, y) + 1;
      data[index] := c;
      PixelsOfUpdateChannel(old(data[..]), width * height, y * width + x, 1, c);
      assert data[..] == old(data[..])[index := c];
    }

    /** Writes byte 2 of the pixel, the byte GetPixelBlue reads. */
    method SetPixelBlue(x: int, y: int, c: Byte)
      requires Valid() && 0 <= x < width && 0 <= y < height
      modifies data
      ensures Value() == old(Value()).Set(x, y, old(Value()).At(x, y).(R := c))
    {
      var index := Offset(width, height, x, y) + 2;
      data[index] := c;
      PixelsOfUpdateChannel(old(data[..]), width * height, y * width + x, 2, c);
      assert data[..] == old(data[..])[index := c];
    }

    /** Writes c to all three bytes of the pixel. */
    method SetPixelGray(x: int, y: int, c: Byte)
      requires Valid() && 0 <= x < width && 0 <= y < height
      modifies data
      ensures Value() == old(Value()).Set(x, y, GrayPixel(c))
    {
      var index := Offset(width, height, x, y);
      data[index] := c;
      data[index + 1] := c;
      data[index + 2] := c;
      PixelsOfUpdate(old(data[..]), width * height, y * width + x, GrayPixel(c));
      assert data[..] == old(data[..])[index := c][index + 1 := c][index + 2 := c];
    }

    /** The checked setter: a write outside the image is dropped. */
    method SetPixelColor(x: int, y: int, rgb: Pixel)
      requires Valid()
      modifies data
      ensures !(0 <= x < width && 0 <= y < height) ==> data[..] == old(data[..])
      ensures 0 <= x < width && 0 <= y < height ==> Value() == old(Value()).Set(x, y, rgb)
    {
      if x < 0 {
        return;
      }
      if y < 0 {
        return;
      }
      if x >= width {
        return;
      }
      if y >= height {
        return;
      }
      var index := Offset(width, height, x, y);
      data[index] := rgb.B;
      data[index + 1] := rgb.G;
      data[index + 2] := rgb.R;
      PixelsOfUpdate(old(data[..]), width * height, y * width + x, rgb);
      assert data[..] == old(data[..])[index := rgb.B][index + 1 := rgb.G][index + 2 := rgb.R];
    }

    // -------------------------------------------------------------------------
    // Whole-image operations. The loops visit the pixels row by row; the ghost
    // counter p is the linear index y*width+x of the pixel being visited.

    /** Replaces every byte b of the buffer by 255 - b. */
    method Invert()
      requires Valid()
      modifies data
      ensures Value() == Inverted(old(Value()))
    {
      var n := 3 * width * height;
      assert n == data.Length;
      var i := 0;
      while i < n
        invariant 0 <= i <= n
        invariant forall k :: 0 <= k < i ==> data[k] == 255 - old(data[k])
        invariant forall k :: i <= k < n ==> data[k] == old(data[k])
      {
        data[i] := 255 - data[i];
        i := i + 1;
      }
      InvertedBytes(old(data[..]), data[..], width * height);
    }

    /** Sets every pixel to color through the checked setter. */
    method Clear(color: Pixel)
      requires Valid()
      modifies data
      ensures Value() == Filled(width, height, color)
    {
      var y := 0;
      while y < height
        invariant 0 <= y <= height && y * width <= width * height
        invariant forall q :: 0 <= q < y * width ==> Value().pixels[q] == color
      {
        ClearRow(y, color);
        y := y + 1;
      }
      assert Value().pixels == Filled(width, height, color).pixels;
    }

    /** The inner loop of Clear: row y is set to color, after the rows before it. */
    method ClearRow(y: nat, color: Pixel)
      requires Valid() && y < height && y * width <= width * height
      requires forall q :: 0 <= q < y * width ==> Value().pixels[q] == color
      modifies data
      ensures Valid() && (y + 1) * width <= width * height
      ensures forall q :: 0 <= q < (y + 1) * width ==> Value().pixels[q] == color
    {
      NextRow(width, y);
      PrefixBound(width, height, 0, y + 1);
      ghost var p := y * width;
      var x := 0;
      while x < width
        invariant 0 <= x <= width && p == y * width + x && p <= width * height
        invariant forall q :: 0 <= q < p ==> Value().pixels[q] == color
      {
        IndexOf(width, height, x, y);
        SetPixelColor(x, y, color);
        p := p + 1;
        x := x + 1;
      }
    }

    /** Sets each pixel to white when its gray value exceeds threshold, to black otherwise. */
    method Binarize(threshold: Byte)
      requires Valid()
      modifies data
      ensures Value() == Binarized(old(Value()), threshold)
    {
      ghost var b := Value();
      var i := 0;
      while i < height
        invariant 0 <= i <= height
        invariant forall x, y :: 0 <= x < width && 0 <= y < height ==>
          Value().At(x, y) == if y < i then Binarized(b, threshold).At(x, y) else b.At(x, y)
      {
        var j := 0;
        while j < width
          invariant 0 <= j <= width
          invariant forall x, y :: 0 <= x < width && 0 <= y < height ==>
            Value().At(x, y) == if y < i || (y == i && x < j) then Binarized(b, threshold).At(x, y) else b.At(x, y)
        {
          BinarizedAt(b, threshold, j, i);
          ghost var before := Value();
          var c := GetPixelGray(j, i);
          var v: Byte := if c > threshold then 255 else 0;
          if c > threshold {
            SetPixelGray(j, i, 255);
          } else {
            SetPixelGray(j, i, 0);
          }
          forall x, y | 0 <= x < width && 0 <= y < height
            ensures Value().At(x, y) == if x == j && y == i then GrayPixel(v) else before.At(x, y)
          {
            SetAt(before, j, i, GrayPixel(v), x, y);
          }
          j := j + 1;
        }
        i := i + 1;
      }
      SamePixels(Value(), Binarized(b, threshold));
    }

    /** The mean gray value over all pixels, truncated; the image must not be empty. */
    method GetMeanGray() returns (mean: Byte)
      requires Valid() && 0 < width * height
      ensures mean == MeanGray(Value())
    {
      var sum: nat := 0;
      var i := 0;
      while i < height
        invariant 0 <= i <= height && i * width <= width * height
        invariant sum == GraySum(Value(), i * width)
      {
        sum := GrayRowSum(sum, i);
        i := i + 1;
      }
      var n := width * height;
      assert i * width == n;
      MeanAtMost255(sum, n);
      mean := sum / n;
    }

    /** The inner loop of GetMeanGray: the gray values of row i are added to the sum of the rows before it. */
    method GrayRowSum(sum0: nat, i: nat) returns (sum: nat)
      requires Valid() && i < height && i * width <= width * height && sum0 == GraySum(Value(), i * width)
      ensures (i + 1) * width <= width * height && sum == GraySum(Value(), (i + 1) * width)
    {
      ghost var b := Value();
      NextRow(width, i);
      PrefixBound(width, height, 0, i + 1);
      ghost var p := i * width;
      sum := sum0;
      var j := 0;
      while j < width
        invariant 0 <= j <= width && p == i * width + j && p <= width * height
        invariant sum == GraySum(b, p)
      {
        IndexOf(width, height, j, i);
        sum := sum + GetPixelGray(j, i);
        p := p + 1;
        j := j + 1;
      }
    }

    /** Fills histogram[0..256) with the number of pixels of each gray value. */
    method GetHistogramGray(histogram: array<int>)
      requires Valid() && 256 <= histogram.Length
      modifies histogram
      ensures histogram[..256] == Histogram(Value())
      ensures histogram[256..] == old(histogram[256..])
    {
      ghost var b := Value();
      var g := 0;
      while g < 256
        invariant 0 <= g <= 256
        invariant forall v :: 0 <= v < g ==> histogram[v] == 0
        invariant histogram[256..] == old(histogram[256..])
      {
        histogram[g] := 0;
        g := g + 1;
      }
      CountsZero(b);
      assert histogram[..256] == Counts(b, 0);
      var i := 0;
      while i < height
        invariant 0 <= i <= height && i * width <= width * height
        invariant histogram[..256] == Counts(b, i * width)
        invariant histogram[256..] == old(histogram[256..])
      {
        HistogramRow(histogram, i);
        i := i + 1;
      }
      assert i * width == width * height;
    }

    /** The inner loop of GetHistogramGray: the pixels of row i are counted, after the rows before it. */
    method HistogramRow(histogram: array<int>, i: nat)
      requires Valid() && 256 <= histogram.Length && i < height && i * width <= width * height
      requires histogram[..256] == Counts(Value(), i * width)
      modifies histogram
      ensures (i + 1) * width <= width * height
      ensures histogram[..256] == Counts(Value(), (i + 1) * width)
      ensures histogram[256..] == old(histogram[256..])
    {
      ghost var b := Value();
      NextRow(width, i);
      PrefixBound(width, height, 0, i + 1);
      ghost var p := i * width;
      var j := 0;
      while j < width
        invariant 0 <= j <= width && p == i * width + j && p <= width * height
        invariant histogram[..256] == Counts(b, p)
        invariant histogram[256..] == old(histogram[256..])
      {
        IndexOf(width, height, j, i);
        var c := GetPixelGray(j, i);
        assert c == Gray(b.pixels[p]);
        CountsStep(b, p);
        Increment(histogram, c);
        p := p + 1;
        j := j + 1;
      }
    }

    /** The counter increment of GetHistogramGray: entry c goes up by one, every other entry is kept. */
    static method Increment(histogram: array<int>, c: nat)
      requires c < 256 <= histogram.Length
      modifies histogram
      ensures histogram[..256] == old(histogram[..256])[c := old(histogram[c]) + 1]
      ensures histogram[256..] == old(histogram[256..])
    {
      histogram[c] := histogram[c] + 1;
    }

    /** Replaces the buffer by a new one in which each row is reversed. */
    method FlipHorizontal()
      requires Valid()
      modifies this
      ensures Valid() && width == old(width) && height == old(height) && fresh(data)
      ensures Value() == FlippedH(old(Value()))
    {
      ghost var b := Value();
      ghost var target := FlippedH(b).pixels;
      ghost var n := width * height;
      var newdata := new Byte[height * width * 3];
      ghost var p := 0;
      var i := 0;
      while i < height
        modifies newdata
        invariant 0 <= i <= height && p == i * width && p <= n
        invariant forall q :: 0 <= q < p ==> PixelsOf(newdata[..], n)[q] == target[q]
      {
        var j := 0;
        while j < width
          modifies newdata
          invariant 0 <= j <= width && p == i * width + j && p <= n
          invariant forall q :: 0 <= q < p ==> PixelsOf(newdata[..], n)[q] == target[q]
        {
          IndexOf(width, height, j, i);
          ghost var before: seq<Byte> := newdata[..];
          var index1 := 3 * ((i * width) + j);
          var index2 := 3 * ((i * width) + width - j - 1);
          assert index2 == 3 * MirrorX(width, height, p);
          newdata[index1] := data[index2];
          index1, index2 := index1 + 1, index2 + 1;
          newdata[index1] := data[index2];
          index1, index2 := index1 + 1, index2 + 1;
          newdata[index1] := data[index2];
          PixelsOfUpdate(before, n, p, target[p]);
          assert newdata[..] == before[3 * p := target[p].B][3 * p + 1 := target[p].G][3 * p + 2 := target[p].R];
          p := p + 1;
          j := j + 1;
        }
        NextRow(width, i);
        PrefixBound(width, height, 0, i + 1);
        i := i + 1;
      }
      assert PixelsOf(newdata[..], n) == target;
      data := newdata;
    }

    /** Replaces the buffer by a new one in which the order of the rows is reversed. */
    method FlipVertical()
      requires Valid()
      modifies this
      ensures Valid() && width == old(width) && height == old(height) && fresh(data)
      ensures Value() == FlippedV(old(Value()))
    {
      ghost var b := Value();
      ghost var target := FlippedV(b).pixels;
      ghost var n := width * height;
      var newdata := new Byte[height * width * 3];
      ghost var p := 0;
      var i := 0;
      while i < height
        modifies newdata
        invariant 0 <= i <= height && p == i * width && p <= n
        invariant forall q :: 0 <= q < p ==> PixelsOf(newdata[..], n)[q] == target[q]
      {
        var j := 0;
        while j < width
          modifies newdata
          invariant 0 <= j <= width && p == i * width + j && p <= n
          invariant forall q :: 0 <= q < p ==> PixelsOf(newdata[..], n)[q] == target[q]
        {
          IndexOf(width, height, j, i);
          ghost var before: seq<Byte> := newdata[..];
          var index1 := 3 * ((i * width) + j);
          var index2 := 3 * (((height - i - 1) * width) + j);
          assert index2 == 3 * MirrorY(width, height, p);
          newdata[index1] := data[index2];
          index1, index2 := index1 + 1, index2 + 1;
          newdata[index1] := data[index2];
          index1, index2 := index1 + 1, index2 + 1;
          newdata[index1] := data[index2];
          PixelsOfUpdate(before, n, p, target[p]);
          assert newdata[..] == before[3 * p := target[p].B][3 * p + 1 := target[p].G][3 * p + 2 := target[p].R];
          p := p + 1;
          j := j + 1;
        }
        NextRow(width, i);
        PrefixBound(width, height, 0, i + 1);
        i := i + 1;
      }
      assert PixelsOf(newdata[..], n) == target;
      data := newdata;
    }

    /** A new w-by-h image holding the window whose top-left corner is (posx, posy). */
    method Crop(posx: nat, posy: nat, w: nat, h: nat) returns (result: Image)
      requires Valid() && posx + w <= width && posy + h <= height
      ensures fresh(result) && fresh(result.data) && result.Valid()
      ensures result.Value() == Cropped(Value(), posx, posy, w, h)
    {
      ghost var b := Value();
      result := new Image.Empty();
      result.Init(w, h);
      var i := 0;
      while i < h
        modifies result.data
        invariant 0 <= i <= h
        invariant result.Valid() && result.width == w && result.height == h && result.data != data
        invariant forall x, y :: 0 <= x < w && 0 <= y < i ==> result.Value().At(x, y) == b.At(posx + x, posy + y)
      {
        CropRow(result, posx, posy, w, h, i);
        i := i + 1;
      }
      forall x, y | 0 <= x < w && 0 <= y < h
        ensures result.Value().At(x, y) == Cropped(b, posx, posy, w, h).At(x, y)
      {
        CroppedAt(b, posx, posy, w, h, x, y);
      }
      SamePixels(result.Value(), Cropped(b, posx, posy, w, h));
    }

    /** The inner loop of Crop: row i of the window is copied into row i of result, after the rows before it. */
    method CropRow(result: Image, posx: nat, posy: nat, w: nat, h: nat, i: nat)
      requires Valid() && posx + w <= width && posy + h <= height && i < h
      requires result.Valid() && result.width == w && result.height == h && result.data != data
      requires forall x, y :: 0 <= x < w && 0 <= y < i ==> result.Value().At(x, y) == Value().At(posx + x, posy + y)
      modifies result.data
      ensures result.Valid()
      ensures forall x, y :: 0 <= x < w && 0 <= y <= i ==> result.Value().At(x, y) == Value().At(posx + x, posy + y)
    {
      ghost var b := Value();
      var j := 0;
      while j < w
        invariant 0 <= j <= w && result.Valid()
        invariant forall x, y :: 0 <= x < w && 0 <= y < i ==> result.Value().At(x, y) == b.At(posx + x, posy + y)
        invariant forall x :: 0 <= x < j ==> result.Value().At(x, i) == b.At(posx + x, posy + i)
      {
        var rgb := GetPixelColor(j + posx, i + posy);
        ghost var before := result.Value();
        result.SetPixelColor(j, i, rgb);
        forall x, y | 0 <= x < w && 0 <= y < h
          ensures result.Value().At(x, y) == if x == j && y == i then rgb else before.At(x, y)
        {
          SetAt(before, j, i, rgb, x, y);
        }
        j := j + 1;
      }
    }

    /**
     * A new image factor times smaller in each direction; each of its pixels is
     * the mean of a factor-by-factor block, channel by channel, rounded to nearest.
     */
    method Resize(factor: nat) returns (result: Image)
      requires Valid() && 0 < factor
      ensures fresh(result) && fresh(result.data) && result.Valid()
      ensures result.Value() == Resized(Value(), factor)
    {
      ghost var b := Value();
      var w := width / factor;
      var h := height / factor;
      result := new Image(w, h);
      var i := 0;
      while i < h
        modifies result.data
        invariant 0 <= i <= h
        invariant result.Valid() && result.width == w && result.height == h && result.data != data
        invariant forall x, y :: 0 <= x < w && 0 <= y < i ==> result.Value().At(x, y) == ResizePixel(b, factor, x, y)
      {
        var j := 0;
        while j < w
          modifies result.data
          invariant 0 <= j <= w
          invariant forall x, y :: 0 <= x < w && 0 <= y < i ==> result.Value().At(x, y) == ResizePixel(b, factor, x, y)
          invariant forall x :: 0 <= x < j ==> result.Value().At(x, i) == ResizePixel(b, factor, x, i)
        {
          var rgb := BlockMeanPixel(j, i, factor);
          ghost var before := result.Value();
          result.SetPixelColor(j, i, rgb);
          forall x, y | 0 <= x < w && 0 <= y < h
            ensures result.Value().At(x, y) == if x == j && y == i then rgb else before.At(x, y)
          {
            SetAt(before, j, i, rgb, x, y);
          }
          j := j + 1;
        }
        i := i + 1;
      }
      forall x, y | 0 <= x < w && 0 <= y < h
        ensures result.Value().At(x, y) == Resized(b, factor).At(x, y)
      {
        ResizedAt(b, factor, x, y);
      }
      SamePixels(result.Value(), Resized(b, factor));
    }

    /** The innermost loop of Resize: the channel sums over n pixels of row y from x0. */
    method BlockRowSums(x0: nat, y: nat, n: nat) returns (sumR: nat, sumG: nat, sumB: nat)
      requires Valid() && x0 + n <= width && y < height
      ensures sumB == RowSum(Value(), x0, y, n, 0)
      ensures sumG == RowSum(Value(), x0, y, n, 1)
      ensures sumR == RowSum(Value(), x0, y, n, 2)
    {
      ghost var b := Value();
      sumR, sumG, sumB := 0, 0, 0;
      var x := x0;
      while x < x0 + n
        invariant x0 <= x <= x0 + n
        invariant sumB == RowSum(b, x0, y, x - x0, 0)
        invariant sumG == RowSum(b, x0, y, x - x0, 1)
        invariant sumR == RowSum(b, x0, y, x - x0, 2)
      {
        var c := GetPixelColor(x, y);
        sumR := sumR + c.R;
        sumG := sumG + c.G;
        sumB := sumB + c.B;
        x := x + 1;
      }
    }

    /** The inner two loops of Resize: the rounded channel means of block (j, i). */
    method BlockMeanPixel(j: nat, i: nat, factor: nat) returns (rgb: Pixel)
      requires Valid() && 0 < factor && j < width / factor && i < height / factor
      ensures rgb == ResizePixel(Value(), factor, j, i)
    {
      ghost var b := Value();
      BlockInside(width, factor, j);
      BlockInside(height, factor, i);
      var minx := j * factor;
      var miny := i * factor;
      var maxy := miny + factor;
      var sumR, sumG, sumB := 0, 0, 0;
      var i2 := miny;
      while i2 < maxy
        invariant miny <= i2 <= maxy
        invariant sumB == BlockSum(b, minx, miny, factor, i2 - miny, 0)
        invariant sumG == BlockSum(b, minx, miny, factor, i2 - miny, 1)
        invariant sumR == BlockSum(b, minx, miny, factor, i2 - miny, 2)
      {
        var rowR, rowG, rowB := BlockRowSums(minx, i2, factor);
        sumR, sumG, sumB := sumR + rowR, sumG + rowG, sumB + rowB;
        i2 := i2 + 1;
      }
      var factor2 := factor * factor;
      rgb := Pixel(RoundHalfUp(sumB, factor2), RoundHalfUp(sumG, factor2), RoundHalfUp(sumR, factor2));
    }
  }
}
