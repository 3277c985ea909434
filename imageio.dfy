/**
 * ImageIO: choosing a format from a file name's extension, and loading and
 * saving an Image in that format. Files are a map from names to contents;
 * a loader fills the Image pixel by pixel through its setters, the way the
 * program does, and is proved to leave exactly the decoded image behind. A
 * saver builds the bytes of the file and is proved to write the encoding.
 */
module ImageIO {
  import opened Wrappers
  import opened Arith
  import opened Raster
  import opened Bytes
  import opened Images
  import Bmp
  import Pnm
  import Raw

  /** The files the loaders read and the savers write. */
  type FileSystem = map<string, seq<Byte>>

  // ---- Formats ----------------------------------------------------------------

  const RawType: int := 0
  const BmpType: int := 1
  const PpmType: int := 2
  const PgmType: int := 3
  const UnsupportedType: int := 999

  predicate Supported(t: int)
  {
    t == RawType || t == BmpType || t == PpmType || t == PgmType
  }

  /** The position of the last c in s, as strrchr finds it. */
  function LastIndexOf(s: string, c: char): (r: Option<nat>)
    ensures r.Some? ==> r.value < |s| && s[r.value] == c && forall k :: r.value < k < |s| ==> s[k] != c
    ensures r.None? ==> forall k :: 0 <= k < |s| ==> s[k] != c
  {
    if |s| == 0 then None
    else if s[|s| - 1] == c then Some(|s| - 1)
    else LastIndexOf(s[..|s| - 1], c)
  }

  /** Where the last path component starts: at the last '/' or '\', or at 0 when there is none. */
  function BaseStart(name: string): (i: nat)
    ensures i <= |name|
    ensures forall k :: i < k < |name| ==> name[k] != '/' && name[k] != '\\'
    ensures 0 < i ==> i < |name| && (name[i] == '/' || name[i] == '\\')
  {
    match (LastIndexOf(name, '/'), LastIndexOf(name, '\\'))
    case (None, None) => 0
    case (Some(a), None) => a
    case (None, Some(b)) => b
    case (Some(a), Some(b)) => if b > a then b else a
  }

  /** The text after the last '.' of the last path component, or "" when it has no '.'. */
  function GetFileExtension(name: string): (ext: string)
    ensures |ext| <= |name| && ext == name[|name| - |ext|..]
    ensures forall k :: 0 <= k < |ext| ==> ext[k] != '.' && ext[k] != '/' && ext[k] != '\\'
  {
    var start := BaseStart(name);
    match LastIndexOf(name[start..], '.')
    case None => []
    case Some(d) => name[start + d + 1..]
  }

  /**
   * The extension is what follows a '.' of the last path component, and it is
   * empty only when that component has no '.' or ends with one.
   */
  lemma {:induction false} GetFileExtensionDot(name: string)
    ensures var ext := GetFileExtension(name);
      (0 < |ext| ==> |ext| < |name| && name[|name| - |ext| - 1] == '.')
      && (ext == [] ==> |name| == 0 || name[|name| - 1] == '.' || forall k :: BaseStart(name) <= k < |name| ==> name[k] != '.')
  {
    var start := BaseStart(name);
    var tail := name[start..];
    match LastIndexOf(tail, '.')
    case None =>
      forall k | start <= k < |name|
        ensures name[k] != '.'
      {
        assert tail[k - start] == name[k];
      }
    case Some(d) =>
      assert tail[d] == name[start + d];
  }

  /** The format GetImageType picks for a file name: by its extension, in lower or upper case. */
  function GetImageType(name: string): (t: int)
    ensures Supported(t) || t == UnsupportedType
    ensures t == BmpType <==> GetFileExtension(name) in {"bmp", "BMP"}
    ensures t == PpmType <==> GetFileExtension(name) in {"ppm", "PPM"}
    ensures t == PgmType <==> GetFileExtension(name) in {"pgm", "PGM"}
    ensures t == RawType <==> GetFileExtension(name) in {"raw", "RAW"}
  {
    var ext := GetFileExtension(name);
    if ext == "bmp" || ext == "BMP" then BmpType
    else if ext == "ppm" || ext == "PPM" then PpmType
    else if ext == "pgm" || ext == "PGM" then PgmType
    else if ext == "raw" || ext == "RAW" then RawType
    else UnsupportedType
  }

  // ---- What the loaders and savers compute --------------------------------------

  /** The image a loader of format t makes of a file; a RAW file is loaded as a square. */
  function Decode(t: int, file: seq<Byte>): (r: Result<Bitmap, LoadError>)
    requires Supported(t)
    ensures r.Ok? ==> r.value.Valid()
  {
    if t == BmpType then Bmp.DecodeBMP(file)
    else if t == PpmType then Pnm.DecodePPM(file)
    else if t == PgmType then Pnm.DecodePGM(file)
    else Raw.DecodeRAW(file, 0, 0)
  }

  /** What loading the named file in format t gives. */
  function Load(files: FileSystem, name: string, t: int): (r: Result<Bitmap, LoadError>)
    requires Supported(t)
    ensures r.Ok? ==> r.value.Valid()
    ensures name !in files <==> r == Err(CannotOpen)
  {
    if name !in files then Err(CannotOpen) else Decode(t, files[name])
  }

  /** The bytes the saver of format t writes; the PGM format gets the PGM saver. */
  function Encode(t: int, b: Bitmap): seq<Byte>
    requires Supported(t) && b.Valid()
  {
    if t == BmpType then Bmp.EncodeBMP(b)
    else if t == PpmType then Pnm.EncodePPM(b)
    else if t == PgmType then Pnm.EncodePGM(b)
    else Raw.EncodeRAW(b)
  }

  /** The bytes SaveImage(filename, image, imageType) writes as the program has it: PGM goes to the PPM saver. */
  function EncodeAsWritten(t: int, b: Bitmap): seq<Byte>
    requires Supported(t) && b.Valid()
  {
    if t == BmpType then Bmp.EncodeBMP(b)
    else if t == PpmType then Pnm.EncodePPM(b)
    else if t == PgmType then Pnm.EncodePPM(b)
    else Raw.EncodeRAW(b)
  }

  /** What loading gives back of a saved image: the image, or its gray version for the gray formats. */
  function Kept(t: int, b: Bitmap): Bitmap
    requires b.Valid()
  {
    if t == PgmType || t == RawType then Grayed(b) else b
  }

  /**
   * Saving in a format and loading the file back in that format gives back
   * the image (the gray version for PGM and RAW). BMP stores the size in 32
   * bits, and a RAW file is loaded as a square.
   */
  lemma {:induction false} SaveLoadRoundTrip(files: FileSystem, name: string, t: int, b: Bitmap)
    requires Supported(t) && b.Valid()
    requires t == BmpType ==> b.width < 0x1_0000_0000 && b.height < 0x1_0000_0000
    requires t == RawType ==> b.width == b.height
    ensures Load(files[name := Encode(t, b)], name, t) == Ok(Kept(t, b))
  {
    if t == BmpType {
      Bmp.BmpRoundTrip(b);
    } else if t == PpmType {
      Pnm.PpmRoundTrip(b);
    } else if t == PgmType {
      Pnm.PgmRoundTrip(b);
    } else {
      Raw.RawRoundTripSquare(b);
    }
  }

  /**
   * The round trip of what the program writes: the BMP, PPM and RAW formats
   * load back as above, and a file written with the PGM code loads back, in
   * colour, only through the PPM loader.
   */
  lemma {:induction false} SaveLoadAsWritten(files: FileSystem, name: string, t: int, b: Bitmap)
    requires Supported(t) && b.Valid()
    requires t == BmpType ==> b.width < 0x1_0000_0000 && b.height < 0x1_0000_0000
    requires t == RawType ==> b.width == b.height
    ensures t != PgmType ==> Load(files[name := EncodeAsWritten(t, b)], name, t) == Ok(Kept(t, b))
    ensures t == PgmType ==> Load(files[name := EncodeAsWritten(t, b)], name, PpmType) == Ok(b)
  {
    if t == PgmType {
      SaveLoadRoundTrip(files, name, PpmType, b);
    } else {
      SaveLoadRoundTrip(files, name, t, b);
    }
  }

  /** As written, a file saved under a .pgm name cannot be loaded back as PGM. */
  lemma {:induction false} PgmSavedAsPpm(b: Bitmap)
    requires b.Valid()
    ensures Decode(PgmType, EncodeAsWritten(PgmType, b)) == Err(WrongFormat)
  {
    Pnm.PgmRejectsPpm(b);
  }

  // ---- The size and buffer fields LoadImageBMP leaves ------------------------------

  /** The fields of an Image: its width, its height and the length of its buffer. */
  datatype ImageFields = ImageFields(width: nat, height: nat, dataLength: nat)

  /** The Image invariant: three bytes per pixel. */
  predicate Consistent(f: ImageFields)
  {
    f.dataLength == 3 * (f.width * f.height)
  }

  /** The fields of a w-by-h image with a buffer of its own size. */
  function Sized(w: nat, h: nat): (f: ImageFields)
    ensures Consistent(f) && f.width == w && f.height == h
  {
    ImageFields(w, h, 3 * (w * h))
  }

  /**
   * The fields LoadImageBMP leaves as the program has it: it stores the width
   * and height before it checks the bits per pixel and the compression, and
   * returns on those errors without a new buffer.
   */
  function LoadFieldsAsWritten(file: seq<Byte>, before: ImageFields): (f: ImageFields)
    ensures Bmp.Rejection(file) == Some(WrongFormat) ==> f == before
  {
    var w, h, rejection := Bmp.Width(file), Bmp.Height(file), Bmp.Rejection(file);
    if rejection == Some(WrongFormat) then before
    else if rejection.Some? then ImageFields(w, h, before.dataLength)
    else Sized(w, h)
  }

  /** A 32-bit, 1-by-1 bitmap header: signature, width 1, height 1, 32 bits per pixel. */
  function Depth32File(): seq<Byte>
  {
    [66, 77] + Zeros(16) + [1, 0, 0, 0] + [1, 0, 0, 0] + [1, 0] + [32, 0] + Zeros(4)
  }

  /** As written, refusing a 32-bit file leaves a 1-by-1 image with an empty buffer. */
  lemma LoadFieldsAsWrittenBreaks()
    ensures Bmp.Rejection(Depth32File()) == Some(UnsupportedDepth)
    ensures !Consistent(LoadFieldsAsWritten(Depth32File(), ImageFields(0, 0, 0)))
  {
    var f := Depth32File();
    assert f[0] == 66 && f[1] == 77;
    assert f[18] == 1 && f[19] == 0 && f[20] == 0 && f[21] == 0;
    assert f[22] == 1 && f[23] == 0 && f[24] == 0 && f[25] == 0;
    assert f[28] == 32 && f[29] == 0;
  }

  /** The fields LoadImageBMP leaves once it checks the file before it changes the image. */
  function LoadFields(file: seq<Byte>, before: ImageFields): (f: ImageFields)
    ensures Bmp.Rejection(file).Some? ==> f == before
    ensures Bmp.Rejection(file).None? ==> f.width == Bmp.Width(file) && f.height == Bmp.Height(file)
    ensures Consistent(before) ==> Consistent(f)
  {
    if Bmp.Rejection(file).Some? then before
    else Sized(Bmp.Width(file), Bmp.Height(file))
  }

  // ---- Filling an image row by row ------------------------------------------------

  /** Row y in visiting order: from the top, or from the bottom as in a bitmap file. */
  function RowOf(h: nat, bottomUp: bool, y: nat): int
  {
    if bottomUp then h - 1 - y else y
  }

  /**
   * cur agrees with target on every pixel of the first i visited rows and on
   * the first j pixels of visited row i.
   */
  ghost predicate Done(cur: Bitmap, target: Bitmap, bottomUp: bool, i: nat, j: nat)
  {
    cur.Valid() && target.Valid() && cur.width == target.width && cur.height == target.height
    && forall x, y :: 0 <= x < cur.width && 0 <= y < cur.height
         && (RowOf(cur.height, bottomUp, y) < i || (RowOf(cur.height, bottomUp, y) == i && x < j))
         ==> cur.At(x, y) == target.At(x, y)
  }

  /** Setting the next pixel to its target value extends what is done by one pixel. */
  lemma DoneStep(cur: Bitmap, target: Bitmap, bottomUp: bool, i: nat, j: nat, y0: nat, v: Pixel)
    requires Done(cur, target, bottomUp, i, j) && i < cur.height && j < cur.width
    requires y0 < cur.height && RowOf(cur.height, bottomUp, y0) == i && v == target.At(j, y0)
    ensures Done(cur.Set(j, y0, v), target, bottomUp, i, j + 1)
  {
    forall x, y | 0 <= x < cur.width && 0 <= y < cur.height
      ensures cur.Set(j, y0, v).At(x, y) == if x == j && y == y0 then v else cur.At(x, y)
    {
      SetAt(cur, j, y0, v, x, y);
    }
  }

  /** Once every row is visited, the image is the target. */
  lemma {:induction false} DoneAll(cur: Bitmap, target: Bitmap, bottomUp: bool)
    requires Done(cur, target, bottomUp, cur.height, 0)
    ensures cur == target
  {
    SamePixels(cur, target);
  }

  /** The loop of LoadImagePGM and LoadImageRAW: pixel p of the image is gray byte base + p of the file. */
  method ReadGrayRows(image: Image, file: seq<Byte>, base: int)
    requires image.Valid()
    modifies image.data
    ensures image.Value() == Bitmap(image.width, image.height, GrayPixels(file, base, image.width * image.height))
  {
    var w, h := image.width, image.height;
    ghost var target := Bitmap(w, h, GrayPixels(file, base, w * h));
    var pos := base;
    var i := 0;
    while i < h
      invariant 0 <= i <= h && pos == base + i * w
      invariant Done(image.Value(), target, false, i, 0)
    {
      var j := 0;
      while j < w
        invariant 0 <= j <= w && pos == base + i * w + j
        invariant Done(image.Value(), target, false, i, j)
      {
        IndexOf(w, h, j, i);
        ghost var before := image.Value();
        image.SetPixelGray(j, i, ByteAt(file, pos));
        DoneStep(before, target, false, i, j, i, GrayPixel(ByteAt(file, pos)));
        pos := pos + 1;
        j := j + 1;
      }
      NextRow(w, i);
      i := i + 1;
    }
    DoneAll(image.Value(), target, false);
  }

  /** The loop of LoadImagePPM: pixel p is R, G, B at base + 3p of the file. */
  method ReadRgbRows(image: Image, file: seq<Byte>, base: int)
    requires image.Valid()
    modifies image.data
    ensures image.Value() == Bitmap(image.width, image.height, Pnm.RgbPixels(file, base, image.width * image.height))
  {
    var w, h := image.width, image.height;
    ghost var target := Bitmap(w, h, Pnm.RgbPixels(file, base, w * h));
    var pos := base;
    var i := 0;
    while i < h
      invariant 0 <= i <= h && pos == base + 3 * (i * w)
      invariant Done(image.Value(), target, false, i, 0)
    {
      var j := 0;
      while j < w
        invariant 0 <= j <= w && pos == base + 3 * (i * w + j)
        invariant Done(image.Value(), target, false, i, j)
      {
        IndexOf(w, h, j, i);
        var r := ByteAt(file, pos);
        var g := ByteAt(file, pos + 1);
        var b := ByteAt(file, pos + 2);
        pos := pos + 3;
        ghost var before := image.Value();
        image.SetPixelColor(j, i, Pixel(b, g, r));
        DoneStep(before, target, false, i, j, i, Pixel(b, g, r));
        j := j + 1;
      }
      NextRow(w, i);
      i := i + 1;
    }
    DoneAll(image.Value(), target, false);
  }

  /** Row i of the stored rows, column c, lies inside h rows of bpr bytes. */
  lemma RowInside(i: nat, h: nat, bpr: nat, c: nat)
    requires i < h && c < bpr
    ensures i * bpr + c < bpr * h
  {
    MulMono(i + 1, h, bpr);
  }

  /** Byte i * bpr + j of the pixel bytes read from off is gray pixel (j, h - i - 1) of the 8-bit scan. */
  lemma Buffer8At(file: seq<Byte>, off: nat, w: nat, h: nat, bpr: nat, buffer: seq<Byte>, i: nat, j: nat)
    requires bpr == Bmp.Stride(w) && buffer == Read(file, off, bpr * h) && i < h && j < w
    ensures i * bpr + j < |buffer|
    ensures GrayPixel(buffer[i * bpr + j]) == Bmp.Scan(file, off, w, h, 8).At(j, h - i - 1)
  {
    var y := h - i - 1;
    MulMono(0, i, bpr);
    RowInside(i, h, bpr, j);
    assert h - 1 - y == i;
    Bmp.ScanAt(file, off, w, h, 8, j, y);
    assert buffer[i * bpr + j] == ByteAt(file, off + (h - 1 - y) * Bmp.Stride(w) + j);
  }

  /** Bytes pos = i * bpr + 3j .. pos + 2 of the pixel bytes read from off are pixel (j, h - i - 1) of the 24-bit scan. */
  lemma Buffer24At(file: seq<Byte>, off: nat, w: nat, h: nat, bpr: nat, buffer: seq<Byte>, i: nat, j: nat, pos: nat)
    requires bpr == Bmp.Stride(3 * w) && buffer == Read(file, off, bpr * h) && i < h && j < w
    requires pos == i * bpr + 3 * j
    ensures pos + 2 < |buffer|
    ensures Pixel(buffer[pos], buffer[pos + 1], buffer[pos + 2]) == Bmp.Scan(file, off, w, h, 24).At(j, h - i - 1)
  {
    var y := h - i - 1;
    MulMono(0, i, bpr);
    RowInside(i, h, bpr, 3 * j + 2);
    assert h - 1 - y == i;
    Bmp.ScanAt(file, off, w, h, 24, j, y);
    var k := off + (h - 1 - y) * Bmp.Stride(3 * w) + 3 * j;
    assert buffer[i * bpr + 3 * j] == ByteAt(file, k);
    assert buffer[i * bpr + 3 * j + 1] == ByteAt(file, k + 1);
    assert buffer[i * bpr + 3 * j + 2] == ByteAt(file, k + 2);
  }

  /** The inner loop of the 8-bit branch: stored row i fills image row h - 1 - i. */
  method ReadRow8(image: Image, file: seq<Byte>, off: nat, bpr: nat, buffer: seq<Byte>, i: nat)
    requires image.Valid() && i < image.height
    requires bpr == Bmp.Stride(image.width) && buffer == Read(file, off, bpr * image.height)
    requires Done(image.Value(), Bmp.Scan(file, off, image.width, image.height, 8), true, i, 0)
    modifies image.data
    ensures Done(image.Value(), Bmp.Scan(file, off, image.width, image.height, 8), true, i + 1, 0)
  {
    var w, h := image.width, image.height;
    ghost var target := Bmp.Scan(file, off, w, h, 8);
    var pos := i * bpr;
    var y := h - i - 1;
    assert RowOf(h, true, y) == i;
    var j := 0;
    while j < w
      invariant 0 <= j <= w && pos == i * bpr + j
      invariant Done(image.Value(), target, true, i, j)
    {
      Buffer8At(file, off, w, h, bpr, buffer, i, j);
      ghost var before := image.Value();
      image.SetPixelGray(j, y, buffer[pos]);
      DoneStep(before, target, true, i, j, y, GrayPixel(buffer[pos]));
      pos := pos + 1;
      j := j + 1;
    }
  }

  /** The 8-bit branch of LoadImageBMP: gray bytes, rows padded to four bytes, from the bottom row up. */
  method ReadRows8(image: Image, file: seq<Byte>, off: nat)
    requires image.Valid()
    modifies image.data
    ensures image.Value() == Bmp.Scan(file, off, image.width, image.height, 8)
  {
    var w, h := image.width, image.height;
    var bpr, tmp := 0, w % 4;
    if tmp == 0 {
      bpr := w;
    } else {
      bpr := w + 4 - tmp;
      tmp := 4 - tmp;
    }
    assert bpr == Bmp.Stride(w);
    var bmSize := bpr * h;
    var buffer := Read(file, off, bmSize);
    var i := 0;
    while i < h
      invariant 0 <= i <= h
      invariant Done(image.Value(), Bmp.Scan(file, off, w, h, 8), true, i, 0)
    {
      ReadRow8(image, file, off, bpr, buffer, i);
      i := i + 1;
    }
    DoneAll(image.Value(), Bmp.Scan(file, off, w, h, 8), true);
  }

  /** The inner loop of the 24-bit branch: stored row i fills image row h - 1 - i. */
  method ReadRow24(image: Image, file: seq<Byte>, off: nat, bpr: nat, buffer: seq<Byte>, i: nat)
    requires image.Valid() && i < image.height
    requires bpr == Bmp.Stride(3 * image.width) && buffer == Read(file, off, bpr * image.height)
    requires Done(image.Value(), Bmp.Scan(file, off, image.width, image.height, 24), true, i, 0)
    modifies image.data
    ensures Done(image.Value(), Bmp.Scan(file, off, image.width, image.height, 24), true, i + 1, 0)
  {
    var w, h := image.width, image.height;
    ghost var target := Bmp.Scan(file, off, w, h, 24);
    var pos := i * bpr;
    var y := h - i - 1;
    assert RowOf(h, true, y) == i;
    var j := 0;
    while j < w
      invariant 0 <= j <= w && pos == i * bpr + 3 * j
      invariant Done(image.Value(), target, true, i, j)
    {
      Buffer24At(file, off, w, h, bpr, buffer, i, j, pos);
      var rgb := Pixel(buffer[pos], buffer[pos + 1], buffer[pos + 2]);
      pos := pos + 3;
      ghost var before := image.Value();
      image.SetPixelColor(j, y, rgb);
      DoneStep(before, target, true, i, j, y, rgb);
      j := j + 1;
    }
  }

  /** The 24-bit branch of LoadImageBMP: B, G, R bytes, rows padded to four bytes, from the bottom row up. */
  method ReadRows24(image: Image, file: seq<Byte>, off: nat)
    requires image.Valid()
    modifies image.data
    ensures image.Value() == Bmp.Scan(file, off, image.width, image.height, 24)
  {
    var w, h := image.width, image.height;
    var bpr, tmp := 0, (w * 3) % 4;
    if tmp == 0 {
      bpr := w * 3;
    } else {
      bpr := w * 3 + 4 - tmp;
      tmp := 4 - tmp;
    }
    assert bpr == Bmp.Stride(3 * w);
    var bmSize := bpr * h;
    var buffer := Read(file, off, bmSize);
    var i := 0;
    while i < h
      invariant 0 <= i <= h
      invariant Done(image.Value(), Bmp.Scan(file, off, w, h, 24), true, i, 0)
    {
      ReadRow24(image, file, off, bpr, buffer, i);
      i := i + 1;
    }
    DoneAll(image.Value(), Bmp.Scan(file, off, w, h, 24), true);
  }

  // ---- Loaders --------------------------------------------------------------------

  /** Gives the image a new buffer for w-by-h pixels, whose contents the caller then fills. */
  method Allocate(image: Image, w: nat, h: nat)
    modifies image
    ensures image.Valid() && image.width == w && image.height == h && fresh(image.data)
  {
    image.width := w;
    image.height := h;
    image.data := new Byte[image.height * image.width * 3];
  }

  /**
   * LoadImageBMP: refuses a file without the signature, with other than 8 or
   * 24 bits per pixel, or compressed, and leaves the image as it was; loads
   * the pixel rows otherwise.
   */
  method LoadImageBMP(files: FileSystem, name: string, image: Image) returns (err: Option<LoadError>)
    requires image.Valid()
    modifies image
    ensures image.Valid()
    ensures var r := Load(files, name, BmpType);
      (r.Ok? ==> err.None? && image.Value() == r.value)
      && (r.Err? ==> err == Some(r.error) && image.Value() == old(image.Value()))
  {
    if name !in files {
      return Some(CannotOpen);
    }
    var file := files[name];
    if ByteAt(file, 0) != 66 || ByteAt(file, 1) != 77 {
      return Some(WrongFormat);
    }
    var bmOffset := U32At(file, 10);
    var width := U32At(file, 18);
    var height := U32At(file, 22);
    var bpp := U16At(file, 28);
    if !(bpp == 8 || bpp == 24) {
      return Some(UnsupportedDepth);
    }
    var compression := U32At(file, 30);
    if compression != 0 {
      return Some(Compressed);
    }
    Allocate(image, width, height);
    if bpp == 8 {
      ReadRows8(image, file, bmOffset);
    } else {
      ReadRows24(image, file, bmOffset);
    }
    err := None;
  }

  /** LoadImagePPM: a "P6" header with 255 levels, then the last 3 * width * height bytes as R, G, B. */
  method LoadImagePPM(files: FileSystem, name: string, image: Image) returns (err: Option<LoadError>)
    requires image.Valid()
    modifies image
    ensures image.Valid()
    ensures var r := Load(files, name, PpmType);
      (r.Ok? ==> err.None? && image.Value() == r.value)
      && (r.Err? ==> err == Some(r.error) && image.Value() == old(image.Value()))
  {
    if name !in files {
      return Some(CannotOpen);
    }
    var buffer := files[name];
    var header := Pnm.AcceptedHeader(buffer, Pnm.PpmId);
    if header.None? {
      return Some(WrongFormat);
    }
    var sizex, sizey := header.value.width, header.value.height;
    Allocate(image, sizex, sizey);
    ReadRgbRows(image, buffer, |buffer| - sizex * sizey * 3);
    err := None;
  }

  /** LoadImagePGM: a "P5" header with 255 levels, then the last width * height bytes as gray values. */
  method LoadImagePGM(files: FileSystem, name: string, image: Image) returns (err: Option<LoadError>)
    requires image.Valid()
    modifies image
    ensures image.Valid()
    ensures var r := Load(files, name, PgmType);
      (r.Ok? ==> err.None? && image.Value() == r.value)
      && (r.Err? ==> err == Some(r.error) && image.Value() == old(image.Value()))
  {
    if name !in files {
      return Some(CannotOpen);
    }
    var buffer := files[name];
    var header := Pnm.AcceptedHeader(buffer, Pnm.PgmId);
    if header.None? {
      return Some(WrongFormat);
    }
    var sizex, sizey := header.value.width, header.value.height;
    Allocate(image, sizex, sizey);
    ReadGrayRows(image, buffer, |buffer| - sizex * sizey);
    err := None;
  }

  /**
   * LoadImageRAW: width * height gray bytes; when the width or the height is
   * 0, a square whose side is the integer square root of the file length,
   * refused when the length is not a square.
   */
  method LoadImageRAW(files: FileSystem, name: string, image: Image, width: nat, height: nat)
    returns (err: Option<LoadError>)
    requires image.Valid()
    modifies image
    ensures image.Valid()
    ensures var r := if name in files then Raw.DecodeRAW(files[name], width, height) else Err(CannotOpen);
      (r.Ok? ==> err.None? && image.Value() == r.value)
      && (r.Err? ==> err == Some(r.error) && image.Value() == old(image.Value()))
  {
    if name !in files {
      return Some(CannotOpen);
    }
    var file := files[name];
    var w, h := width, height;
    if w == 0 || h == 0 {
      var filesize := |file|;
      w := Raw.ISqrt(filesize);
      h := w;
      if h * w != filesize {
        return Some(NotSquare);
      }
    }
    Allocate(image, w, h);
    ReadGrayRows(image, file, 0);
    err := None;
  }

  /** LoadImage(filename, image, imageType): the loader of that format; any other code does nothing. */
  method LoadImageOfType(files: FileSystem, name: string, image: Image, imageType: int) returns (err: Option<LoadError>)
    requires image.Valid()
    modifies image
    ensures image.Valid()
    ensures !Supported(imageType) ==> err.None? && image.Value() == old(image.Value())
    ensures Supported(imageType) ==> var r := Load(files, name, imageType);
      (r.Ok? ==> err.None? && image.Value() == r.value)
      && (r.Err? ==> err == Some(r.error) && image.Value() == old(image.Value()))
  {
    if imageType == BmpType {
      err := LoadImageBMP(files, name, image);
    } else if imageType == PpmType {
      err := LoadImagePPM(files, name, image);
    } else if imageType == PgmType {
      err := LoadImagePGM(files, name, image);
    } else if imageType == RawType {
      err := LoadImageRAW(files, name, image, 0, 0);
    } else {
      err := None;
    }
  }

  /** LoadImage(filename, image): the format comes from the extension; an unknown one is refused. */
  method LoadImage(files: FileSystem, name: string, image: Image) returns (err: Option<LoadError>)
    requires image.Valid()
    modifies image
    ensures image.Valid()
    ensures var t := GetImageType(name);
      var r := if Supported(t) then Load(files, name, t) else Err(UnknownType);
      (r.Ok? ==> err.None? && image.Value() == r.value)
      && (r.Err? ==> err == Some(r.error) && image.Value() == old(image.Value()))
  {
    var imgType := GetImageType(name);
    if imgType == UnsupportedType {
      return Some(UnknownType);
    }
    err := LoadImageOfType(files, name, image, imgType);
  }

  // ---- Savers ---------------------------------------------------------------------

  /** The i-th row SaveImageBMP writes: image row height - 1 - i copied from the buffer, then the padding. */
  method StoredRow(image: Image, i: nat, rowsize: nat) returns (row: seq<Byte>)
    requires image.Valid() && i < image.height && rowsize == Bmp.Stride(3 * image.width)
    ensures row == Bmp.Row(image.Value(), i)
  {
    var w, h := image.width, image.height;
    var y := h - i - 1;
    Bmp.RowBytesOfData(image.data[..], w, h, y);
    row := image.data[3 * w * y..3 * w * y + 3 * w] + Zeros(rowsize - 3 * w);
  }

  /** The 54 header bytes SaveImageBMP writes, with the file size it computes from its row size. */
  method StoredHeader(w: nat, h: nat, rowsize: nat) returns (header: seq<Byte>)
    requires rowsize == Bmp.Stride(3 * w)
    ensures header == Bmp.Header(w, h)
  {
    MulMono(0, rowsize, h);
    var size := Bmp.Low32(54 + rowsize * h);
    var fileHeader := Bmp.FileHeader(size);
    var infoHeader := Bmp.InfoHeader(Bmp.Low32(w), Bmp.Low32(h));
    header := fileHeader + infoHeader + Zeros(24);
    StoredHeaderIs(w, h, rowsize, size, header);
  }

  /** The header pieces with the file size computed from the row size are the header of the image. */
  lemma StoredHeaderIs(w: nat, h: nat, rowsize: nat, size: nat, header: seq<Byte>)
    requires rowsize == Bmp.Stride(3 * w) && size == Bmp.Low32(54 + rowsize * h)
    requires header == Bmp.FileHeader(size) + Bmp.InfoHeader(Bmp.Low32(w), Bmp.Low32(h)) + Zeros(24)
    ensures header == Bmp.Header(w, h)
  {
  }

  /** The rows SaveImageBMP writes after the header, from the bottom row up. */
  method StoredRows(image: Image, rowsize: nat) returns (rows: seq<Byte>)
    requires image.Valid() && rowsize == Bmp.Stride(3 * image.width)
    ensures rows == Bmp.Rows(image.Value(), image.height)
  {
    rows := [];
    var i := 0;
    while i < image.height
      invariant 0 <= i <= image.height && rows == Bmp.Rows(image.Value(), i)
    {
      var row := StoredRow(image, i, rowsize);
      rows := rows + row;
      i := i + 1;
    }
  }

  /** SaveImageBMP: the header, then each row from the bottom up, padded with zeros to a multiple of four. */
  method SaveImageBMP(files: FileSystem, name: string, image: Image) returns (saved: FileSystem)
    requires image.Valid()
    ensures saved == files[name := Bmp.EncodeBMP(image.Value())]
  {
    var w, h := image.width, image.height;
    var rowsize;
    var tmp := (w * 3) % 4;
    if tmp == 0 {
      rowsize := w * 3;
    } else {
      rowsize := w * 3 + 4 - tmp;
    }
    assert rowsize == Bmp.Stride(3 * w);
    var header := StoredHeader(w, h, rowsize);
    var rows := StoredRows(image, rowsize);
    saved := files[name := header + rows];
  }

  /** R, G, B of the first n pixels of ps sit at 3q, 3q + 1, 3q + 2 of buffer. */
  ghost predicate RgbPrefix(buffer: seq<Byte>, ps: seq<Pixel>, n: nat)
    requires n <= |ps| && 3 * |ps| <= |buffer|
  {
    forall q :: 0 <= q < n ==>
      buffer[3 * q] == ps[q].R && buffer[3 * q + 1] == ps[q].G && buffer[3 * q + 2] == ps[q].B
  }

  /** The inner loop of SaveImagePPM: row y of the image goes after the rows before it. */
  method PutRgbRow(image: Image, buffer: array<Byte>, y: nat, ghost ps: seq<Pixel>)
    requires image.Valid() && ps == image.Value().pixels && y < image.height
    requires buffer != image.data && buffer.Length == 3 * |ps|
    requires y * image.width <= |ps| && RgbPrefix(buffer[..], ps, y * image.width)
    modifies buffer
    ensures (y + 1) * image.width <= |ps| && RgbPrefix(buffer[..], ps, (y + 1) * image.width)
  {
    NextRow(image.width, y);
    PrefixBound(image.width, image.height, 0, y + 1);
    var pos := 3 * (y * image.width);
    ghost var p := y * image.width;
    var j := 0;
    while j < image.width
      invariant 0 <= j <= image.width && p == y * image.width + j && p <= |ps| && pos == 3 * p
      invariant RgbPrefix(buffer[..], ps, p)
    {
      IndexOf(image.width, image.height, j, y);
      var rgb := image.GetPixelColor(j, y);
      assert rgb == ps[p];
      ghost var before := buffer[..];
      buffer[pos] := rgb.R;
      buffer[pos + 1] := rgb.G;
      buffer[pos + 2] := rgb.B;
      RgbPrefixStep(before, buffer[..], ps, p);
      pos, p := pos + 3, p + 1;
      j := j + 1;
    }
  }

  /** Writing the R, G, B bytes of pixel p after the first p triples extends the prefix by one pixel. */
  lemma RgbPrefixStep(before: seq<Byte>, after: seq<Byte>, ps: seq<Pixel>, p: nat)
    requires p < |ps| && 3 * |ps| <= |before| && RgbPrefix(before, ps, p)
    requires after == before[3 * p := ps[p].R][3 * p + 1 := ps[p].G][3 * p + 2 := ps[p].B]
    ensures RgbPrefix(after, ps, p + 1)
  {
  }

  /** A buffer whose every pixel triple is written holds the PPM body of the pixels. */
  lemma RgbPrefixFull(buffer: seq<Byte>, ps: seq<Pixel>)
    requires |buffer| == 3 * |ps| && RgbPrefix(buffer, ps, |ps|)
    ensures buffer == Pnm.PpmBody(ps)
  {
    Pnm.PpmBodyOfTriples(buffer, ps);
  }

  /** SaveImagePPM: the "P6" header, then R, G, B of each pixel, row by row. */
  method SaveImagePPM(files: FileSystem, name: string, image: Image) returns (saved: FileSystem)
    requires image.Valid()
    ensures saved == files[name := Pnm.EncodePPM(image.Value())]
  {
    var header := Pnm.HeaderText(Pnm.PpmId, image.width, image.height);
    var buffer := RgbBuffer(image);
    saved := files[name := header + buffer[..]];
  }

  /** The loops of SaveImagePPM: R, G, B of each pixel, row by row. */
  method RgbBuffer(image: Image) returns (buffer: array<Byte>)
    requires image.Valid()
    ensures buffer[..] == Pnm.PpmBody(image.Value().pixels)
  {
    MulMono(0, image.width, image.height);
    buffer := new Byte[image.width * image.height * 3];
    ghost var ps := image.Value().pixels;
    assert buffer.Length == 3 * |ps|;
    var i := 0;
    while i < image.height
      invariant 0 <= i <= image.height && i * image.width <= |ps|
      invariant RgbPrefix(buffer[..], ps, i * image.width)
    {
      PutRgbRow(image, buffer, i, ps);
      i := i + 1;
    }
    assert i * image.width == |ps|;
    RgbPrefixFull(buffer[..], ps);
  }

  /** The inner loop of SavePGM and SaveRAW: the gray values of row y go after the rows before it. */
  method PutGrayRow(image: Image, buffer: array<Byte>, y: nat, ghost ps: seq<Pixel>)
    requires image.Valid() && ps == image.Value().pixels && y < image.height
    requires buffer != image.data && buffer.Length == |ps|
    requires y * image.width <= |ps| && forall k :: 0 <= k < y * image.width ==> buffer[k] == Gray(ps[k])
    modifies buffer
    ensures (y + 1) * image.width <= |ps| && forall k :: 0 <= k < (y + 1) * image.width ==> buffer[k] == Gray(ps[k])
  {
    NextRow(image.width, y);
    PrefixBound(image.width, image.height, 0, y + 1);
    var pos := y * image.width;
    var j := 0;
    while j < image.width
      invariant 0 <= j <= image.width && pos == y * image.width + j && pos <= |ps|
      invariant forall k :: 0 <= k < pos ==> buffer[k] == Gray(ps[k])
    {
      IndexOf(image.width, image.height, j, y);
      buffer[pos] := image.GetPixelGray(j, y);
      pos := pos + 1;
      j := j + 1;
    }
  }

  /** The loop of SavePGM and SaveRAW: the gray value of each pixel, row by row. */
  method GrayBuffer(image: Image) returns (buffer: array<Byte>)
    requires image.Valid()
    ensures buffer[..] == GrayBytes(image.Value().pixels)
  {
    buffer := new Byte[image.width * image.height];
    ghost var ps := image.Value().pixels;
    var i := 0;
    while i < image.height
      invariant 0 <= i <= image.height && i * image.width <= |ps|
      invariant forall k :: 0 <= k < i * image.width ==> buffer[k] == Gray(ps[k])
    {
      PutGrayRow(image, buffer, i, ps);
      i := i + 1;
    }
  }

  /** SaveImagePGM: the "P5" header, then the gray value of each pixel. */
  method SaveImagePGM(files: FileSystem, name: string, image: Image) returns (saved: FileSystem)
    requires image.Valid()
    ensures saved == files[name := Pnm.EncodePGM(image.Value())]
  {
    var header := Pnm.HeaderText(Pnm.PgmId, image.width, image.height);
    var buffer := GrayBuffer(image);
    saved := files[name := header + buffer[..]];
  }

  /** SaveImageRAW: the gray value of each pixel, and nothing else. */
  method SaveImageRAW(files: FileSystem, name: string, image: Image) returns (saved: FileSystem)
    requires image.Valid()
    ensures saved == files[name := Raw.EncodeRAW(image.Value())]
  {
    var buffer := GrayBuffer(image);
    saved := files[name := buffer[..]];
  }

  /**
   * SaveImage(filename, image, imageType) as the program has it: the BMP, PPM
   * and RAW codes run their own saver, the PGM code runs the PPM saver, and any
   * other code writes nothing.
   */
  method SaveImageOfType(files: FileSystem, name: string, image: Image, imageType: int) returns (saved: FileSystem)
    requires image.Valid()
    ensures saved == if Supported(imageType) then files[name := EncodeAsWritten(imageType, image.Value())] else files
  {
    if imageType == BmpType {
      saved := SaveImageBMP(files, name, image);
    } else if imageType == PpmType {
      saved := SaveImagePPM(files, name, image);
    } else if imageType == PgmType {
      saved := SaveImagePPM(files, name, image);
    } else if imageType == RawType {
      saved := SaveImageRAW(files, name, image);
    } else {
      saved := files;
    }
  }

  /**
   * SaveImage(filename, image): the format comes from the extension; an unknown
   * one writes nothing. A .pgm name gets the PPM encoding, as above.
   */
  method SaveImage(files: FileSystem, name: string, image: Image) returns (saved: FileSystem)
    requires image.Valid()
    ensures var t := GetImageType(name);
      saved == if Supported(t) then files[name := EncodeAsWritten(t, image.Value())] else files
  {
    var imgType := GetImageType(name);
    if imgType == UnsupportedType {
      return files;
    }
    saved := SaveImageOfType(files, name, image, imgType);
  }
}
