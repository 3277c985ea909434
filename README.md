# Image buffer and image codecs

A model of the small raster-image library that the polygon partitioning test
program uses to draw and store its output. It has two parts:

- **`Image`**: a pixel buffer of `width * height` pixels. Each pixel is kept as
  three bytes in the order blue, green, red, at byte offset
  `3 * (y * width + x)`. The class has unchecked pixel getters and setters and
  one bounds-checked setter, `SetPixelColor`. Its whole-image operations are
  integer-only: invert, clear, binarize, flips, histogram, mean gray, crop and
  box-average resize.
- **`ImageIO`**: picks a format from the file name's extension. It loads and
  saves an `Image` as one of four formats:
  - uncompressed Windows BMP: 8 or 24 bits per pixel read, 24 written, rows
    bottom-up and padded to 4 bytes;
  - binary Netpbm PPM (`P6`) and PGM (`P5`), as described in the Netpbm ppm(5)
    and pgm(5) format pages;
  - headerless RAW gray.

How the Dafny is laid out:

- **`Raster`**: the value view of an image, `Bitmap(width, height, pixels)`,
  pixels in row-major order. It specifies every whole-image operation as a
  function on that view and proves the involutions, the threshold rule, the
  histogram total and the uniform-image facts.
- **`Images.Image`**: a class with the program's fields `width`, `height` and
  `data: array<Byte>`.
  - `Valid()` is the class invariant `data.Length == 3 * width * height`.
  - `Value()` reads the buffer back as a `Bitmap`.
  - Every method works on the array with loops, as the program does.
  - Each method is proved to leave `Value() == F(old(Value()))` for the
    specifying function `F` in `Raster`.
- **Codec modules**: `Bytes` (little-endian fields, reading past the end),
  `Text` (decimal numbers, white space), `Pnm`, `Bmp` and `Raw`. They define
  the pure encoder and decoder of each format, over byte sequences, with their
  round trips and rejection conditions.
- **`ImageIO`**:
  - A file system is a `map<string, seq<Byte>>`. A name missing from the map
    is a file that cannot be opened.
  - Loaders are methods that fill the `Image` through its setters, row by row.
    Each is proved to leave exactly the decoded image, or, on an error, the
    image it found. The BMP loader is modelled checking the whole header
    before it changes the image; the program's own order is modelled
    separately (see the BMP line under "Left out" and the findings).
  - Savers are methods that build the file's bytes with loops. Each is proved
    to write the encoding. Saving by type or by name dispatches as the program
    does, so the PGM type writes the PPM encoding.
  - The program's loaders return nothing and print a message on failure. In
    the model they return `Option<LoadError>`, whose error kinds name those
    messages.

Pixel channel names follow the program literally.
- `GetPixelRed` reads byte 0 of a pixel, which `SetPixelColor` fills from the
  field `B`. `SetPixelRed` writes byte 0.
- Likewise green is byte 1 and blue is byte 2, i.e. the field `R`.

Where the program's comments and its code disagree, the model follows the code:
- **Binarize.** The comment at `test/image.h:89-90` says pixels with intensity
  *lower* than the threshold become black. The code at `test/image.cpp:84-96`
  makes a pixel white only if its gray is *greater* than the threshold, so a
  gray equal to the threshold becomes black. `Raster.BinarizedAtThreshold`
  states this.
- **Extension matching.** The extension test compares with exactly lower-case
  or exactly upper-case `bmp`, `ppm`, `pgm` and `raw`
  (`test/imageio.cpp:46-57`). It is not case-insensitive: `Bmp` is
  unsupported.

## Model

| member | source | states |
|---|---|---|
| Raster.Gray | test/image.h:138-143 | the gray value is the mean of the three bytes truncated: 3g <= B+G+R < 3g+3; a pixel whose three bytes are equal has that byte as its gray |
| Raster.Offset | test/image.h:140 | for 0 <= x < w and 0 <= y < h the three bytes at 3*(y*w+x) lie inside a buffer of 3*w*h bytes |
| Raster.GrayPixel | test/image.h:184-189 | the pixel SetPixelGray stores (c in all three bytes) reads back with gray value c |
| Raster.PixelsOfInjective | test/image.h:39-43 | two buffers of 3n bytes with the same n pixels are equal byte for byte, so the pixel view loses nothing |
| Raster.PixelsOfUpdate | test/image.h:204-207 | writing rgb.B, rgb.G, rgb.R to bytes k, k+1, k+2 of pixel p changes pixel p to rgb and no other pixel |
| Raster.PixelsOfUpdateChannel | test/image.h:160-173 | writing byte c of pixel p changes that one channel of that one pixel and nothing else |
| Raster.Bitmap.Set | test/image.h:191-208 | replacing one in-range pixel keeps the image valid and its dimensions |
| Raster.SetAt | test/image.h:191-208 | after setting pixel (x, y) to v, reading (x, y) gives v and every other pixel reads as before |
| Raster.SamePixels | test/image.h:39-43 | two images of the same size that agree at every coordinate are equal |
| Raster.Filled | test/image.cpp:311-318 | a filled image is valid and has the requested width and height |
| Raster.FilledAt | test/image.cpp:311-318 | every pixel of a filled image is the fill colour |
| Raster.ZeroBytesBlack | test/image.cpp:65-72 | a buffer of 3*w*h zero bytes is the all-black w-by-h image |
| Raster.Grayed | test/imageio.cpp:407-430 | the gray version of an image keeps its dimensions |
| Raster.GrayedIsGray | test/imageio.cpp:407-430 | every pixel of the gray version has three equal bytes |
| Raster.GrayedOfGray | test/imageio.cpp:334-377 | an image whose pixels are already gray is its own gray version |
| Raster.Inverted | test/image.cpp:179-184 | inverting keeps validity and dimensions |
| Raster.InvertedAt | test/image.cpp:179-184 | each byte of each inverted pixel is 255 minus the original byte |
| Raster.InvertedTwice | test/image.cpp:179-184 | inverting twice gives back the original image |
| Raster.InvertedBytes | test/image.cpp:179-184 | a buffer whose every byte is 255 minus the old one holds the inverted image |
| Raster.MirrorX | test/image.cpp:98-115 | the mirrored index stays in the same row, at column w-1-x |
| Raster.MirrorY | test/image.cpp:117-134 | the mirrored index stays in the same column, at row h-1-y |
| Raster.FlippedH | test/image.cpp:98-115 | the horizontal flip keeps validity and dimensions |
| Raster.FlippedV | test/image.cpp:117-134 | the vertical flip keeps validity and dimensions |
| Raster.FlippedHAt | test/image.cpp:98-115 | new pixel (x, y) is old pixel (width-1-x, y) |
| Raster.FlippedVAt | test/image.cpp:117-134 | new pixel (x, y) is old pixel (x, height-1-y) |
| Raster.FlippedHTwice | test/image.cpp:98-115 | flipping horizontally twice gives back the image |
| Raster.FlippedVTwice | test/image.cpp:117-134 | flipping vertically twice gives back the image |
| Raster.Binarized | test/image.cpp:84-96 | binarizing keeps validity and dimensions |
| Raster.BinarizedAt | test/image.cpp:84-96 | each pixel becomes white if its gray exceeds the threshold and black otherwise, so only 0 and 255 remain |
| Raster.BinarizedAtThreshold | test/image.cpp:84-96 | a pixel whose gray equals the threshold becomes black |
| Raster.BinarizedTwice | test/image.cpp:84-96 | binarizing again with the same threshold changes nothing |
| Raster.Cropped | test/image.cpp:186-198 | the crop of a window inside the image is valid and has the window's width and height |
| Raster.CroppedAt | test/image.cpp:186-198 | pixel (x, y) of the crop is source pixel (posx+x, posy+y) |
| Raster.RoundHalfUp | test/image.cpp:165-168 | r is the nearest integer to s/n with halves rounded up (2nr <= 2s+n < 2nr+2n); a mean of bytes rounds to a byte |
| Raster.RoundHalfUpExact | test/image.cpp:165-168 | an exact quotient is returned unchanged |
| Raster.RowSum | test/image.cpp:222-229 | the sum of one channel over n pixels of a row is at most 255n |
| Raster.BlockSum | test/image.cpp:220-229 | the sum of one channel over an n-by-m block is at most 255nm |
| Raster.Resized | test/image.cpp:200-237 | the resized image is valid and is (width/f) by (height/f) |
| Raster.ResizedAt | test/image.cpp:213-235 | pixel (x, y) of the resized image is the rounded mean of the f-by-f block at (f*x, f*y) |
| Raster.RowSumUniform | test/image.cpp:222-229 | over a uniform row the channel sum is n times the channel |
| Raster.BlockSumUniform | test/image.cpp:220-229 | over a uniform block the channel sum is n*m times the channel |
| Raster.BlockMeanUniform | test/image.cpp:230-232 | over a uniform image every block mean equals the colour's channel exactly |
| Raster.ResizedUniform | test/image.cpp:200-237 | resizing a uniformly coloured image gives the image filled with that colour |
| Raster.GrayCount | test/image.cpp:170-177 | among n pixels at most n have a given gray |
| Raster.Counts | test/image.cpp:170-177 | the histogram of a prefix has 256 buckets |
| Raster.Histogram | test/image.cpp:170-177 | the histogram has 256 buckets, each between 0 and width*height |
| Raster.TotalIncrement | test/image.cpp:174 | incrementing one bucket raises the total by one |
| Raster.ZeroTotal | test/image.cpp:171 | zeroed buckets total zero |
| Raster.CountsTotal | test/image.cpp:170-177 | the buckets of the first n pixels total n |
| Raster.CountsStep | test/image.cpp:174 | counting one more pixel raises the bucket of its gray value by one and leaves the other 255 buckets alone |
| Raster.CountsZero | test/image.cpp:171 | before any pixel is counted all 256 buckets are zero |
| Raster.HistogramTotal | test/image.cpp:170-177 | the 256 buckets total width*height |
| Raster.GraySum | test/image.cpp:74-82 | the gray sum of n pixels is at most 255n |
| Raster.GraySumUniform | test/image.cpp:74-82 | when n pixels have gray g their gray sum is g*n |
| Raster.MeanGrayUniform | test/image.cpp:74-82 | an image whose every pixel has gray g has mean gray g |
| Images.Image.Value | test/image.h:31-33 | the buffer read as pixels has the image's width and height |
| Images.Image.constructor | test/image.cpp:36-42 | a new w-by-h image is valid and all black |
| Images.Image.Empty | test/image.cpp:29-34 | the default image is valid and 0 by 0 |
| Images.Image.Copy | test/image.cpp:44-49 | the copy holds the same pixels in a buffer of its own |
| Images.Image.Assign | test/image.cpp:51-58 | after assignment the image holds the source's pixels in a fresh buffer |
| Images.Image.Init | test/image.cpp:65-72 | after Init the image is w by h and all black, with a new buffer |
| Images.Image.GetWidth | test/image.h:210-212 | the width times the height is the buffer length divided by three |
| Images.Image.GetHeight | test/image.h:214-216 | the width times the height is the buffer length divided by three |
| Images.Image.GetData | test/image.h:218-220 | the buffer returned is the image's own, of 3*width*height bytes |
| Images.Image.GetPixelGray | test/image.h:138-143 | the gray value of pixel (x, y) as SetPixelColor stored it |
| Images.Image.GetPixelRed | test/image.h:145-148 | byte 0 of the pixel, the field B that SetPixelColor writes |
| Images.Image.GetPixelGreen | test/image.h:150-153 | byte 1 of the pixel, the field G |
| Images.Image.GetPixelBlue | test/image.h:155-158 | byte 2 of the pixel, the field R |
| Images.Image.GetPixelColor | test/image.h:175-182 | the pixel last stored at (x, y) |
| Images.Image.SetPixelRed | test/image.h:160-163 | only byte 0 of pixel (x, y) changes, to c; every other pixel is kept |
| Images.Image.SetPixelGreen | test/image.h:165-168 | only byte 1 of pixel (x, y) changes, to c |
| Images.Image.SetPixelBlue | test/image.h:170-173 | only byte 2 of pixel (x, y) changes, to c |
| Images.Image.SetPixelGray | test/image.h:184-189 | pixel (x, y) becomes c in all three bytes, so it reads back with gray c; no other pixel changes |
| Images.Image.SetPixelColor | test/image.h:191-208 | out of range the buffer is unchanged byte for byte; in range pixel (x, y) becomes rgb and nothing else changes |
| Images.Image.Invert | test/image.cpp:179-184 | the image becomes its inversion (an involution, Raster.InvertedTwice) |
| Images.Image.Clear | test/image.cpp:311-318 | every pixel becomes the colour; the dimensions are kept |
| Images.Image.ClearRow | test/image.cpp:313-315 | one more row becomes the colour, after the rows before it |
| Images.Image.Binarize | test/image.cpp:84-96 | the image becomes its binarization at the threshold |
| Images.Image.GetMeanGray | test/image.cpp:74-82 | the truncated mean of the pixels' gray values |
| Images.Image.GrayRowSum | test/image.cpp:77-79 | the running sum grows from the gray total of the rows before row i to the gray total including row i |
| Images.Image.GetHistogramGray | test/image.cpp:170-177 | the first 256 entries become the gray histogram, the rest of the caller's array is untouched |
| Images.Image.HistogramRow | test/image.cpp:172-176 | after one more row each of the 256 counters is the number of pixels of its gray value seen so far; entries past 256 are untouched |
| Images.Image.Increment | test/image.cpp:174 | the counter of gray value c goes up by one and every other entry of the array is kept |
| Images.Image.FlipHorizontal | test/image.cpp:98-115 | the image becomes its horizontal mirror in a new buffer of the same size |
| Images.Image.FlipVertical | test/image.cpp:117-134 | the image becomes its vertical mirror in a new buffer of the same size |
| Images.Image.Crop | test/image.cpp:186-198 | a new image holding the window at (posx, posy) |
| Images.Image.CropRow | test/image.cpp:192-195 | row i of the result becomes row posy+i of the window, and the rows copied before stay copied |
| Images.Image.Resize | test/image.cpp:200-237 | a new image, the box-average reduction by the factor |
| Images.Image.BlockMeanPixel | test/image.cpp:215-232 | the pixel whose channels are the rounded means of one f-by-f block |
| Images.Image.BlockRowSums | test/image.cpp:223-228 | the three running channel sums are the sums of each channel over n pixels of one row of the block |
| Bytes.U16At | test/imageio.cpp:108-110 | a two-byte little-endian field is below 2^16 |
| Bytes.U32At | test/imageio.cpp:100-106 | a four-byte little-endian field is below 2^32 |
| Bytes.LE32 | test/imageio.cpp:241-242 | the four bytes written for a value below 2^32 read back as that value |
| Bytes.ByteAtAfter | test/imageio.cpp:143-144 | byte k of the part after a prefix is found at prefix length plus k |
| Bytes.Read | test/imageio.cpp:141-144 | the n bytes read from start are the file's bytes there, zero past the end |
| Bytes.Zeros | test/imageio.cpp:266-272 | n zero bytes |
| Bytes.GrayBytes | test/imageio.cpp:418-424 | one byte per pixel, its gray value |
| Bytes.GrayPixels | test/imageio.cpp:461-467 | pixel p has all three bytes equal to file byte base+p |
| Bytes.GrayPixelsOfGrayBytes | test/imageio.cpp:407-430 | reading back gray bytes gives the gray version of the image |
| Text.Decimal | test/imageio.cpp:386 | the decimal text of a number is a non-empty run of digits without a leading zero |
| Text.DecimalValue | test/imageio.cpp:303 | the value of the digits written for n is n, so the number printed is the number scanned |
| Text.SkipSpaceStops | test/imageio.cpp:303 | skipping white space stops at the end or at a non-space |
| Text.TokenEndStops | test/imageio.cpp:303 | a %s token stops at the end or at a space |
| Text.DigitsEndStops | test/imageio.cpp:303 | a %ld number stops at the end or at a non-digit |
| Pnm.ParseHeader | test/imageio.cpp:303 | a parsed id is a non-empty token without white space |
| Pnm.ScanFields | test/imageio.cpp:303 | a token, newline, two numbers and a third number each followed by the expected separator parse to those values |
| Pnm.ParseHeaderAt | test/imageio.cpp:303 | when the id token and the three digit runs end where the scans stop, the parsed header holds that token and the three decimal values |
| Pnm.HeaderRoundTrip | test/imageio.cpp:386 | the header the saver prints parses back to its id, width, height and 255 |
| Pnm.AcceptedHeader | test/imageio.cpp:305-310 | an accepted header starts with the magic and declares 255 levels |
| Pnm.AcceptedHeaderText | test/imageio.cpp:305-310 | a saved header is accepted exactly when its id is the expected magic |
| Pnm.PpmBody | test/imageio.cpp:379-405 | three bytes per pixel |
| Pnm.PpmBodyAt | test/imageio.cpp:392-398 | the bytes of pixel p are R, G, B in that order |
| Pnm.PpmBodyOfTriples | test/imageio.cpp:392-398 | any buffer holding R, G, B for each pixel is the PPM body |
| Pnm.RgbPixels | test/imageio.cpp:318-327 | pixel p is made of file bytes 3p, 3p+1, 3p+2 after base as R, G, B |
| Pnm.RgbPixelsOfPpmBody | test/imageio.cpp:318-327 | reading pixels back from a written body gives the same pixels |
| Pnm.DecodePPM | test/imageio.cpp:286-332 | a file loads iff its header says P6 and 255; the image has the declared size; otherwise the error is a wrong format |
| Pnm.DecodePPMOf | test/imageio.cpp:312-327 | an accepted file whose last 3wh bytes are the pixels of b decodes to b |
| Pnm.PpmRoundTrip | test/imageio.cpp:286-405 | saving as PPM and loading gives back the image exactly |
| Pnm.EncodePPMHolds | test/imageio.cpp:303-399 | a saved PPM file has an accepted P6 header with the image's size, and its last 3wh bytes read back as the image's pixels |
| Pnm.PpmHeaderAccepted | test/imageio.cpp:303-310 | the PPM loader accepts the header the PPM saver prints, with the image's width and height |
| Pnm.PpmPixelsKept | test/imageio.cpp:318-327 | the last 3wh bytes of a saved PPM file read back as the image's pixels |
| Pnm.DecodePGM | test/imageio.cpp:334-377 | a file loads iff its header says P5 and 255; the image is gray and has the declared size |
| Pnm.DecodePGMOf | test/imageio.cpp:360-372 | an accepted file whose last wh bytes are the gray bytes of b decodes to b |
| Pnm.PgmRoundTrip | test/imageio.cpp:334-430 | saving as PGM and loading gives back the gray version of the image |
| Pnm.EncodePGMHolds | test/imageio.cpp:351-424 | a saved PGM file has an accepted P5 header with the image's size, and its last wh bytes read back as the gray image |
| Pnm.PgmHeaderAccepted | test/imageio.cpp:351-358 | the PGM loader accepts the header the PGM saver prints, with the image's width and height |
| Pnm.PgmPixelsKept | test/imageio.cpp:366-372 | the last wh bytes of a saved PGM file read back as the gray version of the image |
| Pnm.PgmRoundTripGray | test/imageio.cpp:334-430 | a gray image survives PGM unchanged |
| Pnm.PgmRejectsPpm | test/imageio.cpp:351-358 | the PGM loader refuses a PPM file |
| Pnm.PpmRejectsPgm | test/imageio.cpp:303-310 | the PPM loader refuses a PGM file |
| Bmp.Stride | test/imageio.cpp:236-239 | the row size is the least multiple of 4 that is at least n |
| Bmp.Low32 | test/imageio.cpp:241-242 | a 32-bit field keeps the value when it fits |
| Bmp.FileHeader | test/imageio.cpp:230-250 | the file header is 14 bytes |
| Bmp.InfoHeader | test/imageio.cpp:252-265 | the info header written before the zero fields is 16 bytes |
| Bmp.Header | test/imageio.cpp:230-272 | the whole header is 54 bytes |
| Bmp.FileHeaderFields | test/imageio.cpp:230-250 | the header starts with BM and gives 54 as the offset of the pixel data |
| Bmp.InfoHeaderFields | test/imageio.cpp:252-265 | the info header holds the width, the height and 24 bits per pixel |
| Bmp.HeaderFields | test/imageio.cpp:230-272 | a saved file has the signature, offset 54, the width, the height, 24 bits and compression 0 where the loader reads them |
| Bmp.RowBytes | test/imageio.cpp:277 | one row of the buffer is 3*width bytes |
| Bmp.RowBytesAt | test/imageio.cpp:277 | byte 3x+c of row y is channel c of pixel (x, y) |
| Bmp.Row | test/imageio.cpp:275-279 | a stored row is padded to the stride |
| Bmp.Rows | test/imageio.cpp:275-279 | n rows fill n strides |
| Bmp.RowsAt | test/imageio.cpp:275-279 | byte c of stored row i is at i*stride+c |
| Bmp.RowBytesOfData | test/imageio.cpp:277 | the 3w bytes at 3wy of the buffer are row y of the image |
| Bmp.RowByteOfData | test/imageio.cpp:277 | byte c of the 3w bytes at 3wy of the buffer is byte c of row y of the image |
| Bmp.Rejection | test/imageio.cpp:92-123 | a file is accepted iff it starts with BM, has 8 or 24 bits per pixel and compression 0; otherwise the first failed test names the error |
| Bmp.Scan | test/imageio.cpp:128-188 | the image read has the width and height given |
| Bmp.ScanAt | test/imageio.cpp:146-154 | pixel (x, y) is read from stored row height-1-y |
| Bmp.ScanGray | test/imageio.cpp:146-154 | an 8-bit file reads as a gray image |
| Bmp.ScanOf | test/imageio.cpp:128-188 | a file whose every stored pixel matches b reads as b |
| Bmp.ScanPixelIs | test/imageio.cpp:128-188 | pixel p of the scan is the one stored for column p mod w of row p div w |
| Bmp.DecodeBMP | test/imageio.cpp:85-191 | a file loads iff it is not rejected, with the header's width and height; a rejected file gives the rejection's error |
| Bmp.DecodeBMPAt | test/imageio.cpp:175-185 | each loaded pixel is the stored pixel of row height-1-y |
| Bmp.DecodeBMP8IsGray | test/imageio.cpp:128-156 | an 8-bit file loads as a gray image |
| Bmp.SavedByte | test/imageio.cpp:275-279 | channel c of pixel (x, y) is saved at 54 + (height-1-y)*stride + 3x + c |
| Bmp.SavedPixel | test/imageio.cpp:158-185 | the 24-bit reader finds every saved pixel where the saver put it |
| Bmp.DecodeBMPOf | test/imageio.cpp:85-191 | an accepted file whose stored pixels are those of b decodes to b |
| Bmp.BmpRoundTrip | test/imageio.cpp:219-284 | saving as BMP and loading gives back the image, for sizes that fit in 32 bits |
| Raw.SquareMono | test/imageio.cpp:439-451 | squares grow with their side |
| Raw.SqrtFrom | test/imageio.cpp:444 | the result's square is at most n and the next square is above n |
| Raw.ISqrt | test/imageio.cpp:444 | the integer square root: r*r <= n < (r+1)*(r+1) |
| Raw.ISqrtUnique | test/imageio.cpp:444 | only one number has that property |
| Raw.DecodeRAW | test/imageio.cpp:432-471 | given sizes are kept; without them the image is a square whose area is the file size; the only error is a non-square size; the image is gray |
| Raw.DecodeRAWNotSquare | test/imageio.cpp:439-451 | without sizes, loading fails exactly when no square equals the file size |
| Raw.EncodeRAW | test/imageio.cpp:473-496 | the file is width*height bytes |
| Raw.RawRoundTrip | test/imageio.cpp:432-496 | saving as RAW and loading with the sizes gives back the gray version |
| Raw.RawRoundTripSquare | test/imageio.cpp:432-496 | a square image saved as RAW loads back, without sizes, as its gray version |
| ImageIO.LastIndexOf | test/imageio.cpp:35-40 | the last occurrence of a character, or none when it does not occur |
| ImageIO.BaseStart | test/imageio.cpp:35-39 | the index of the last slash or backslash (the separator itself, where `strrchr` points), or 0 when the name has neither |
| ImageIO.GetFileExtension | test/imageio.cpp:32-44 | the extension is a suffix of the name containing no dot, slash or backslash |
| ImageIO.GetFileExtensionDot | test/imageio.cpp:32-44 | a non-empty extension follows a dot of the base name; an empty one means the base name has no dot |
| ImageIO.GetImageType | test/imageio.cpp:46-57 | each format code is returned iff the extension is its name in all lower or all upper case; anything else is unsupported |
| ImageIO.Decode | test/imageio.cpp:68-83 | a decoded image is valid |
| ImageIO.Load | test/imageio.cpp:68-83 | loading fails to open iff the name is not a file |
| ImageIO.SaveLoadRoundTrip | test/imageio.h:51-85 | saving in any format and loading back gives the image, gray for PGM and RAW |
| ImageIO.SaveLoadAsWritten | test/imageio.cpp:202-217 | what the program writes for BMP, PPM and RAW loads back as the image (gray for RAW); what it writes for PGM loads back, in colour, only through the PPM loader |
| ImageIO.PgmSavedAsPpm | test/imageio.cpp:210-212 | as written, a file saved with the PGM type is refused by the PGM loader |
| ImageIO.Sized | test/imageio.cpp:125-126 | a buffer allocated for the size satisfies the invariant |
| ImageIO.LoadFieldsAsWritten | test/imageio.cpp:92-126 | as written, a missing signature leaves the fields alone |
| ImageIO.LoadFieldsAsWrittenBreaks | test/imageio.cpp:104-123 | as written, refusing a 32-bit file leaves a width and height that do not match the buffer |
| ImageIO.LoadFields | test/imageio.cpp:92-126 | a rejected file leaves the fields as they were; an accepted one gives the header's size; the invariant is kept either way |
| ImageIO.DoneStep | test/imageio.cpp:147-154 | setting the next pixel of the current row extends the filled part by one |
| ImageIO.DoneAll | test/imageio.cpp:147-154 | when every row is filled the image is the target |
| ImageIO.ReadGrayRows | test/imageio.cpp:461-467 | filling from the file gives each pixel the gray of its byte |
| ImageIO.ReadRgbRows | test/imageio.cpp:318-327 | filling from the file gives each pixel the R, G, B of its three bytes |
| ImageIO.Buffer8At | test/imageio.cpp:146-154 | byte i*bpr+j of the buffer is pixel (j, h-1-i) of an 8-bit file |
| ImageIO.Buffer24At | test/imageio.cpp:175-185 | the three bytes at i*bpr+3j of the buffer are pixel (j, h-1-i) of a 24-bit file |
| ImageIO.ReadRow8 | test/imageio.cpp:148-153 | one stored 8-bit row fills image row h-1-i |
| ImageIO.ReadRows8 | test/imageio.cpp:128-156 | the image becomes the 8-bit file's pixels |
| ImageIO.ReadRow24 | test/imageio.cpp:178-184 | one stored 24-bit row fills image row h-1-i |
| ImageIO.ReadRows24 | test/imageio.cpp:158-188 | the image becomes the 24-bit file's pixels |
| ImageIO.Allocate | test/imageio.cpp:125-126 | the image gets the size and a buffer that fits it |
| ImageIO.LoadImageBMP | test/imageio.cpp:85-191 | the check-first loader: on success the image is the decoded file; on an error the error is reported and the image is unchanged (the program's order is ImageIO.LoadFieldsAsWritten) |
| ImageIO.LoadImagePPM | test/imageio.cpp:286-332 | on success the image is the decoded file; otherwise the image is unchanged |
| ImageIO.LoadImagePGM | test/imageio.cpp:334-377 | on success the image is the decoded file; otherwise the image is unchanged |
| ImageIO.LoadImageRAW | test/imageio.cpp:432-471 | on success the image is the decoded file; a non-square file without sizes leaves the image unchanged |
| ImageIO.LoadImageOfType | test/imageio.cpp:68-83 | the loader of the given format runs; an unknown code does nothing |
| ImageIO.LoadImage | test/imageio.cpp:59-66 | the format comes from the name alone; an unsupported extension is refused and the image is kept |
| ImageIO.StoredRow | test/imageio.cpp:276-277 | the padded bytes of image row height-1-i |
| ImageIO.StoredHeader | test/imageio.cpp:230-272 | the 54 header bytes for the size |
| ImageIO.StoredRows | test/imageio.cpp:275-279 | all rows, bottom row first |
| ImageIO.SaveImageBMP | test/imageio.cpp:219-284 | the file written is the BMP encoding, which loads back as the image |
| ImageIO.PutRgbRow | test/imageio.cpp:393-398 | one more row of R, G, B triples is in the buffer |
| ImageIO.RgbBuffer | test/imageio.cpp:390-399 | the buffer is the PPM body: R, G, B of every pixel in row-major order |
| ImageIO.SaveImagePPM | test/imageio.cpp:379-405 | the file written is the PPM encoding, which loads back as the image |
| ImageIO.PutGrayRow | test/imageio.cpp:421-423 | one more row of gray values is in the buffer, after the rows before it |
| ImageIO.GrayBuffer | test/imageio.cpp:418-424 | the buffer holds each pixel's gray value |
| ImageIO.SaveImagePGM | test/imageio.cpp:407-430 | the file written is the PGM encoding |
| ImageIO.SaveImageRAW | test/imageio.cpp:473-496 | the file written is the RAW encoding, width*height gray bytes |
| ImageIO.SaveImageOfType | test/imageio.cpp:202-217 | as the program has it, the BMP, PPM and RAW codes write their own encoding and the PGM code writes the PPM encoding; an unknown code writes nothing |
| ImageIO.SaveImage | test/imageio.cpp:193-200 | the format comes from the name and the file is what saving by that type writes (PPM bytes for a .pgm name); an unsupported extension writes nothing |

## Left out

- Floating-point code is not modelled:
  - `GetPixelBilinear` and `interpolate` (`test/image.cpp:136-163`);
  - `Filter`, including its clamp-to-edge tap index (`test/image.cpp:239-279`);
  - `GaussBlur` (`test/image.cpp:281-309`);
  - `DrawLine` (`test/image.cpp:320-351`).
- Raster.RoundHalfUp: `Resize` divides in `float` and rounds with `round`. The model uses the exact rational value, rounded half up, and ignores float rounding error.
- File I/O is a map from names to byte strings. These are not modelled: `fopen` failure on save, partial reads and writes, `ftell`, and the printed diagnostics. The loaders return `void`; their error is returned as a value here.
- `malloc`/`free` and allocation failure are not modelled. The contents of a buffer a loader allocates are left unspecified, and the loader is proved to set every pixel.
- ImageIO.LoadImageBMP: models the check-first loader, which checks the signature, depth and compression before it changes the image. The program stores the width and height before the depth and compression checks; that order is modelled only by ImageIO.LoadFieldsAsWritten. It breaks the invariant that the buffer fits the size (ImageIO.LoadFieldsAsWrittenBreaks), so it cannot be this method's postcondition.
- Bytes.ByteAt: bytes read past the end of a file are 0. The program reads past its buffer or leaves it uninitialised.
- The PPM/PGM `sscanf` is modelled as a token followed by three unsigned decimal numbers, white space skipped before each. Signs are not modelled. A 0 byte, which ends the C string `sscanf` reads, is scanned here as an ordinary non-space byte of a token. A header that does not scan is rejected, where the program would compare uninitialised values.
- The 1024-byte limit of the `id` buffer is not modelled.
- A declared PPM/PGM size larger than the file, which gives the program a negative `pos`, is not modelled; out-of-file bytes read as 0.
- Platform `long` width: BMP fields are read as unsigned 32- and 16-bit little-endian values. `bmOffset` and `compression` are `long`s of which `fread` fills only 4 bytes. Negative (top-down) heights and widths are not modelled.
- Bmp.BmpRoundTrip: requires the width and height below 2^32; a saved header truncates the size fields to 32 bits (Bmp.Low32).
- The palette of an 8-bit BMP is ignored, as the program ignores it; the stored index is taken as the gray value.
- Images.Image.GetMeanGray: requires a non-empty image; the program divides by zero for an empty one.
- Images.Image.Assign: requires that the source is another image; self-assignment in `operator=` frees its own buffer first and is not modelled.
- Images.Image.Crop: requires the window to lie inside the image; the program reads outside its buffer otherwise.
- Images.Image.Resize: requires a positive factor; the program divides by zero for 0.
- The destructor `~Image` only frees memory and is not modelled.
- `trunk/test/test.cpp` (the polygon test harness) is not part of this model.
- `trunk/test/imageio.h` is an older copy of `test/imageio.h` and is not part of this model.

## Findings

| source | as written | input that shows it | evidently intended | confidence | as-written member | corrected member |
|---|---|---|---|---|---|---|
| test/imageio.cpp:210-212 | `SaveImage` with the PGM type calls `SaveImagePPM`, so a `.pgm` name gets a `P6` file | any image saved to `out.pgm` and loaded back from it: the PGM loader refuses it | call `SaveImagePGM`, as the other cases call their own saver | high, not executed | ImageIO.PgmSavedAsPpm | ImageIO.SaveLoadRoundTrip |
| test/imageio.cpp:104-123 | `LoadImageBMP` stores the width and height before it checks the bits per pixel and the compression; on those errors it returns without a new buffer | a 1-by-1 file with 32 bits per pixel loaded into a 0-by-0 image leaves width 1, height 1 and an empty buffer | check the file before changing the image, leaving it as it was on any error | high, not executed | ImageIO.LoadFieldsAsWrittenBreaks | ImageIO.LoadFields |
