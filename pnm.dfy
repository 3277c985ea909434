/**
 * The binary Netpbm formats the image library reads and writes: PPM ("P6",
 * three bytes R, G, B per pixel) and PGM ("P5", one gray byte per pixel),
 * each after a text header "id width height levels". The savers always write
 * levels 255 and the loaders accept nothing else.
 */
module Pnm {
  import opened Wrappers
  import opened Raster
  import opened Bytes
  import opened Text

  /** The four fields the loaders scan from the start of the file. */
  datatype Header = Header(id: seq<Byte>, width: nat, height: nat, levels: nat)

  const PpmId: seq<Byte> := [80, 54]  // "P6"
  const PgmId: seq<Byte> := [80, 53]  // "P5"
  const MaxLevel: nat := 255
  const MaxLevelText: seq<Byte> := [50, 53, 53]  // "255"

  /**
   * The header as the format "%s\n%ld %ld\n%ld\n" scans it: white space,
   * a token of non-space characters, then three unsigned decimal numbers,
   * each after optional white space. A conversion that matches nothing
   * gives None.
   */
  function ParseHeader(s: seq<Byte>): (r: Option<Header>)
    ensures r.Some? ==> 1 <= |r.value.id| && forall k :: 0 <= k < |r.value.id| ==> !IsSpace(r.value.id[k])
  {
    var i0 := SkipSpace(s, 0);
    var i1 := TokenEnd(s, i0);
    TokenEndStops(s, i0);
    var i2 := SkipSpace(s, i1);
    var i3 := DigitsEnd(s, i2);
    var i4 := SkipSpace(s, i3);
    var i5 := DigitsEnd(s, i4);
    var i6 := SkipSpace(s, i5);
    var i7 := DigitsEnd(s, i6);
    if i0 == i1 || i2 == i3 || i4 == i5 || i6 == i7 then None
    else
      assert forall k :: 0 <= k < i1 - i0 ==> s[i0..i1][k] == s[i0 + k];
      Some(Header(s[i0..i1], DigitsValue(s[i2..i3]), DigitsValue(s[i4..i5]), DigitsValue(s[i6..i7])))
  }

  /** strncmp(id, magic, 2) == 0 for a two-character magic. */
  predicate HasId(id: seq<Byte>, magic: seq<Byte>)
    requires |magic| == 2
  {
    |id| >= 2 && id[..2] == magic
  }

  /** The text "id\nwidth height\n255\n" that the savers print before the pixels. */
  function HeaderText(id: seq<Byte>, w: nat, h: nat): seq<Byte>
  {
    id + [10] + Decimal(w) + [32] + Decimal(h) + [10] + MaxLevelText + [10]
  }

  /** White space at i, then a run of digits followed by white space: the number field is that run. */
  lemma FieldAt(s: seq<Byte>, i: nat, d: seq<Byte>)
    requires 1 <= |d| && AllDigits(d) && i + 1 + |d| < |s|
    requires IsSpace(s[i]) && s[i + 1..i + 1 + |d|] == d && IsSpace(s[i + 1 + |d|])
    ensures SkipSpace(s, i) == i + 1 && DigitsEnd(s, i + 1) == i + 1 + |d|
  {
    assert forall k :: i + 1 <= k < i + 1 + |d| ==> s[k] == d[k - i - 1];
    assert s[i + 1] == d[0];
    DigitsEndAt(s, i + 1, i + 1 + |d|);
  }

  lemma MaxLevelTextValue()
    ensures AllDigits(MaxLevelText) && DigitsValue(MaxLevelText) == MaxLevel
  {
    assert PrefixValue(MaxLevelText, 1) == 2;
    assert PrefixValue(MaxLevelText, 2) == 25;
  }

  /**
   * The header scanned from a text whose id token ends at i1 and whose three
   * digit runs, each after one white-space byte, end at i3, i5 and i7.
   */
  lemma ParseHeaderAt(s: seq<Byte>, i1: nat, i3: nat, i5: nat, i7: nat)
    requires 0 < i1 && i1 + 1 < i3 && i3 + 1 < i5 && i5 + 1 < i7 <= |s|
    requires SkipSpace(s, 0) == 0 && TokenEnd(s, 0) == i1
    requires SkipSpace(s, i1) == i1 + 1 && DigitsEnd(s, i1 + 1) == i3
    requires SkipSpace(s, i3) == i3 + 1 && DigitsEnd(s, i3 + 1) == i5
    requires SkipSpace(s, i5) == i5 + 1 && DigitsEnd(s, i5 + 1) == i7
    ensures ParseHeader(s) == Some(Header(s[0..i1], DigitsValue(s[i1 + 1..i3]), DigitsValue(s[i3 + 1..i5]), DigitsValue(s[i5 + 1..i7])))
  {
  }

  /** Scanning a text laid out as "id\nwidth height\nlevels\n" finds those four fields. */
  lemma ScanFields(s: seq<Byte>, i1: nat, dw: seq<Byte>, dh: seq<Byte>, lv: seq<Byte>)
    requires 0 < i1 && 1 <= |dw| && 1 <= |dh| && 1 <= |lv| && AllDigits(dw) && AllDigits(dh) && AllDigits(lv)
    requires i1 + 3 + |dw| + |dh| + |lv| < |s|
    requires forall k :: 0 <= k < i1 ==> !IsSpace(s[k])
    requires s[i1] == 10 && s[i1 + 1..i1 + 1 + |dw|] == dw
    requires s[i1 + 1 + |dw|] == 32 && s[i1 + 2 + |dw|..i1 + 2 + |dw| + |dh|] == dh
    requires s[i1 + 2 + |dw| + |dh|] == 10 && s[i1 + 3 + |dw| + |dh|..i1 + 3 + |dw| + |dh| + |lv|] == lv
    requires s[i1 + 3 + |dw| + |dh| + |lv|] == 10
    ensures ParseHeader(s) == Some(Header(s[0..i1], DigitsValue(dw), DigitsValue(dh), DigitsValue(lv)))
  {
    var i3 := i1 + 1 + |dw|;
    var i5 := i3 + 1 + |dh|;
    var i7 := i5 + 1 + |lv|;
    assert i3 + 1 == i1 + 2 + |dw| && i5 == i1 + 2 + |dw| + |dh|;
    assert i5 + 1 == i1 + 3 + |dw| + |dh| && i7 == i1 + 3 + |dw| + |dh| + |lv|;
    assert s[i1 + 1..i3] == dw && s[i3 + 1..i5] == dh && s[i5 + 1..i7] == lv;
    TokenEndAt(s, 0, i1);
    FieldAt(s, i1, dw);
    FieldAt(s, i3, dh);
    FieldAt(s, i5, lv);
    assert SkipSpace(s, 0) == 0;
    ParseHeaderAt(s, i1, i3, i5, i7);
  }

  /** Where the parts of the printed header sit in a file that starts with it. */
  lemma HeaderLayout(id: seq<Byte>, w: nat, h: nat, body: seq<Byte>) returns (s: seq<Byte>, i3: nat, i5: nat)
    requires |id| == 2
    ensures s == HeaderText(id, w, h) + body
    ensures s[0..2] == id && s[2] == 10
    ensures i3 == 3 + |Decimal(w)| && i5 == i3 + 1 + |Decimal(h)| && i5 + 4 < |s|
    ensures s[3..i3] == Decimal(w) && s[i3] == 32
    ensures s[i3 + 1..i5] == Decimal(h) && s[i5] == 10
    ensures s[i5 + 1..i5 + 4] == MaxLevelText && s[i5 + 4] == 10
  {
    var dw, dh := Decimal(w), Decimal(h);
    s := HeaderText(id, w, h) + body;
    assert s == id + ([10] + (dw + ([32] + (dh + ([10] + (MaxLevelText + ([10] + body)))))));
    i3, i5 := Layout(id, dw, dh, body, s);
  }

  /** The same, for any digit strings dw and dh in place of the printed width and height. */
  lemma Layout(id: seq<Byte>, dw: seq<Byte>, dh: seq<Byte>, body: seq<Byte>, s: seq<Byte>) returns (i3: nat, i5: nat)
    requires |id| == 2 && s == id + ([10] + (dw + ([32] + (dh + ([10] + (MaxLevelText + ([10] + body)))))))
    ensures s[0..2] == id && s[2] == 10
    ensures i3 == 3 + |dw| && i5 == i3 + 1 + |dh| && i5 + 4 < |s|
    ensures s[3..i3] == dw && s[i3] == 32
    ensures s[i3 + 1..i5] == dh && s[i5] == 10
    ensures s[i5 + 1..i5 + 4] == MaxLevelText && s[i5 + 4] == 10
  {
    var rest := [32] + (dh + ([10] + (MaxLevelText + ([10] + body))));
    i3 := 3 + |dw|;
    i5 := i3 + 1 + |dh|;
    Step(s, 0, id, [10] + (dw + rest));
    Step(s, 2, [10], dw + rest);
    Step(s, 3, dw, rest);
    LayoutRest(s, i3, dh, body);
  }

  /** The part after the width: a space, the height, a newline, 255 and a newline. */
  lemma LayoutRest(s: seq<Byte>, i3: nat, dh: seq<Byte>, body: seq<Byte>)
    requires i3 <= |s| && s[i3..] == [32] + (dh + ([10] + (MaxLevelText + ([10] + body))))
    ensures i3 + |dh| + 5 < |s| && s[i3] == 32
    ensures s[i3 + 1..i3 + 1 + |dh|] == dh && s[i3 + 1 + |dh|] == 10
    ensures s[i3 + 2 + |dh|..i3 + 5 + |dh|] == MaxLevelText && s[i3 + 5 + |dh|] == 10
  {
    var i5 := i3 + 1 + |dh|;
    var r6 := MaxLevelText + ([10] + body);
    Step(s, i3, [32], dh + ([10] + r6));
    Step(s, i3 + 1, dh, [10] + r6);
    Step(s, i5, [10], r6);
    Step(s, i5 + 1, MaxLevelText, [10] + body);
  }

  /** When the bytes of s from i on are a followed by b, a sits at i and b right after it. */
  lemma Step(s: seq<Byte>, i: nat, a: seq<Byte>, b: seq<Byte>)
    requires i <= |s| && s[i..] == a + b
    ensures i + |a| <= |s| && s[i..i + |a|] == a && s[i + |a|..] == b
    ensures forall k :: 0 <= k < |a| ==> s[i + k] == a[k]
  {
    assert forall k :: 0 <= k < |a| ==> s[i + k] == s[i..][k] == a[k];
  }

  /** Scanning the printed header gives back its id, size and 255 levels, whatever follows it. */
  lemma {:induction false} HeaderRoundTrip(id: seq<Byte>, w: nat, h: nat, body: seq<Byte>)
    requires |id| == 2 && !IsSpace(id[0]) && !IsSpace(id[1])
    ensures ParseHeader(HeaderText(id, w, h) + body) == Some(Header(id, w, h, MaxLevel))
  {
    var s, i3, i5 := HeaderLayout(id, w, h, body);
    assert forall k :: 0 <= k < 2 ==> !IsSpace(s[k]) by {
      assert s[0] == s[0..2][0] && s[1] == s[0..2][1];
    }
    MaxLevelTextValue();
    DecimalValue(w);
    DecimalValue(h);
    ScanFields(s, 2, Decimal(w), Decimal(h), MaxLevelText);
  }

  /** The header, when it carries the given magic and 255 levels; both loaders refuse the file otherwise. */
  function AcceptedHeader(file: seq<Byte>, magic: seq<Byte>): (r: Option<Header>)
    requires |magic| == 2
    ensures r.Some? ==> HasId(r.value.id, magic) && r.value.levels == MaxLevel
  {
    var header := ParseHeader(file);
    if header.Some? && HasId(header.value.id, magic) && header.value.levels == MaxLevel then header else None
  }

  /** A file that starts with a printed header is accepted exactly when its id is the magic looked for. */
  lemma {:induction false} AcceptedHeaderText(id: seq<Byte>, w: nat, h: nat, body: seq<Byte>, magic: seq<Byte>)
    requires |id| == 2 && !IsSpace(id[0]) && !IsSpace(id[1]) && |magic| == 2
    ensures AcceptedHeader(HeaderText(id, w, h) + body, magic) == if id == magic then Some(Header(id, w, h, MaxLevel)) else None
  {
    HeaderRoundTrip(id, w, h, body);
    assert id[..2] == id;
  }

  // ---- PPM ----------------------------------------------------------------

  /** The pixel bytes of a PPM file: R, G, B for each pixel, row after row. */
  function PpmBody(ps: seq<Pixel>): (s: seq<Byte>)
    ensures |s| == 3 * |ps|
  {
    seq(3 * |ps|, k requires 0 <= k < 3 * |ps| => Channel(ps[k / 3], 2 - k % 3))
  }

  lemma PpmBodyAt(ps: seq<Pixel>, p: nat)
    requires p < |ps|
    ensures PpmBody(ps)[3 * p] == ps[p].R
    ensures PpmBody(ps)[3 * p + 1] == ps[p].G
    ensures PpmBody(ps)[3 * p + 2] == ps[p].B
  {
    Arith.DivModUnique(3 * p, 3, p, 0);
    Arith.DivModUnique(3 * p + 1, 3, p, 1);
    Arith.DivModUnique(3 * p + 2, 3, p, 2);
  }

  /** Bytes holding R, G, B of each pixel in turn are the PPM bytes of those pixels. */
  lemma {:induction false} PpmBodyOfTriples(s: seq<Byte>, ps: seq<Pixel>)
    requires |s| == 3 * |ps|
    requires forall q :: 0 <= q < |ps| ==> s[3 * q] == ps[q].R && s[3 * q + 1] == ps[q].G && s[3 * q + 2] == ps[q].B
    ensures s == PpmBody(ps)
  {
    forall k | 0 <= k < |s|
      ensures s[k] == PpmBody(ps)[k]
    {
      var q, c := k / 3, k % 3;
      assert k == 3 * q + c;
      PpmBodyAt(ps, q);
    }
  }

  /** The file SaveImagePPM writes for an image. */
  function EncodePPM(b: Bitmap): seq<Byte>
    requires b.Valid()
  {
    HeaderText(PpmId, b.width, b.height) + PpmBody(b.pixels)
  }

  /** The pixels of a PPM file whose pixel bytes start at base: pixel p is R, G, B at base + 3p. */
  function RgbPixels(file: seq<Byte>, base: int, n: nat): (ps: seq<Pixel>)
    ensures |ps| == n
    ensures forall p :: 0 <= p < n ==>
      ps[p] == Pixel(ByteAt(file, base + 3 * p + 2), ByteAt(file, base + 3 * p + 1), ByteAt(file, base + 3 * p))
  {
    seq(n, p requires 0 <= p < n =>
      Pixel(ByteAt(file, base + 3 * p + 2), ByteAt(file, base + 3 * p + 1), ByteAt(file, base + 3 * p)))
  }

  /** The PPM bytes of some pixels, after any prefix, read back as those pixels. */
  lemma {:induction false} RgbPixelsOfPpmBody(a: seq<Byte>, ps: seq<Pixel>)
    ensures RgbPixels(a + PpmBody(ps), |a|, |ps|) == ps
  {
    var file := a + PpmBody(ps);
    forall p | 0 <= p < |ps|
      ensures RgbPixels(file, |a|, |ps|)[p] == ps[p]
    {
      PpmBodyAt(ps, p);
      ByteAtAfter(a, PpmBody(ps), 3 * p);
      ByteAtAfter(a, PpmBody(ps), 3 * p + 1);
      ByteAtAfter(a, PpmBody(ps), 3 * p + 2);
    }
  }

  /**
   * The image LoadImagePPM makes of a file: a "P6" header with 255 levels,
   * and then the last 3 * width * height bytes of the file as the pixels.
   */
  function DecodePPM(file: seq<Byte>): (r: Result<Bitmap, LoadError>)
    ensures r.Ok? <==> AcceptedHeader(file, PpmId).Some?
    ensures r.Ok? ==> r.value.Valid() && r.value.width == AcceptedHeader(file, PpmId).value.width
                      && r.value.height == AcceptedHeader(file, PpmId).value.height
    ensures r.Err? ==> r.error == WrongFormat
  {
    match AcceptedHeader(file, PpmId)
    case None => Err(WrongFormat)
    case Some(header) =>
      var n := header.width * header.height;
      Arith.MulMono(0, header.width, header.height);
      Ok(Bitmap(header.width, header.height, RgbPixels(file, |file| - 3 * n, n)))
  }

  /** A file with an accepted P6 header for the size of b whose trailing 3 * |pixels| bytes hold the pixels of b. */
  ghost predicate HoldsPpm(file: seq<Byte>, b: Bitmap)
  {
    && AcceptedHeader(file, PpmId) == Some(Header(PpmId, b.width, b.height, MaxLevel))
    && RgbPixels(file, |file| - 3 * |b.pixels|, |b.pixels|) == b.pixels
  }

  /** A file that holds b as a PPM image decodes to b. */
  lemma DecodePPMOf(file: seq<Byte>, b: Bitmap)
    requires b.Valid() && HoldsPpm(file, b)
    ensures DecodePPM(file) == Ok(b)
  {
  }

  /** Loading what SaveImagePPM wrote gives back the image. */
  lemma {:induction false} PpmRoundTrip(b: Bitmap)
    requires b.Valid()
    ensures DecodePPM(EncodePPM(b)) == Ok(b)
  {
    EncodePPMHolds(b);
    DecodePPMOf(EncodePPM(b), b);
  }

  /** The file SaveImagePPM writes for b holds b as a PPM image. */
  lemma {:induction false} EncodePPMHolds(b: Bitmap)
    requires b.Valid()
    ensures HoldsPpm(EncodePPM(b), b)
  {
    PpmHeaderAccepted(b);
    PpmPixelsKept(b);
  }

  /** The PPM loader accepts the header SaveImagePPM prints, with the image's size. */
  lemma {:induction false} PpmHeaderAccepted(b: Bitmap)
    requires b.Valid()
    ensures AcceptedHeader(EncodePPM(b), PpmId) == Some(Header(PpmId, b.width, b.height, MaxLevel))
  {
    AcceptedHeaderText(PpmId, b.width, b.height, PpmBody(b.pixels), PpmId);
  }

  /** The last 3 * width * height bytes of a saved PPM file are the image's pixels. */
  lemma {:induction false} PpmPixelsKept(b: Bitmap)
    requires b.Valid()
    ensures RgbPixels(EncodePPM(b), |EncodePPM(b)| - 3 * |b.pixels|, |b.pixels|) == b.pixels
  {
    var hdr := HeaderText(PpmId, b.width, b.height);
    assert |EncodePPM(b)| - 3 * |b.pixels| == |hdr|;
    RgbPixelsOfPpmBody(hdr, b.pixels);
  }

  // ---- PGM ----------------------------------------------------------------

  /** The file SaveImagePGM writes for an image: the gray value of each pixel. */
  function EncodePGM(b: Bitmap): seq<Byte>
    requires b.Valid()
  {
    HeaderText(PgmId, b.width, b.height) + GrayBytes(b.pixels)
  }

  /**
   * The image LoadImagePGM makes of a file: a "P5" header with 255 levels,
   * and then the last width * height bytes of the file as gray pixels.
   */
  function DecodePGM(file: seq<Byte>): (r: Result<Bitmap, LoadError>)
    ensures r.Ok? <==> AcceptedHeader(file, PgmId).Some?
    ensures r.Ok? ==> r.value.Valid() && IsGray(r.value) && r.value.width == AcceptedHeader(file, PgmId).value.width
                      && r.value.height == AcceptedHeader(file, PgmId).value.height
    ensures r.Err? ==> r.error == WrongFormat
  {
    match AcceptedHeader(file, PgmId)
    case None => Err(WrongFormat)
    case Some(header) =>
      var n := header.width * header.height;
      Arith.MulMono(0, header.width, header.height);
      Ok(Bitmap(header.width, header.height, GrayPixels(file, |file| - n, n)))
  }

  /** A file with an accepted P5 header for the size of b whose trailing |pixels| bytes are the gray values of b. */
  ghost predicate HoldsPgm(file: seq<Byte>, b: Bitmap)
  {
    && AcceptedHeader(file, PgmId) == Some(Header(PgmId, b.width, b.height, MaxLevel))
    && GrayPixels(file, |file| - |b.pixels|, |b.pixels|) == b.pixels
  }

  /** A file that holds the gray image b as a PGM image decodes to b. */
  lemma DecodePGMOf(file: seq<Byte>, b: Bitmap)
    requires b.Valid() && HoldsPgm(file, b)
    ensures DecodePGM(file) == Ok(b)
  {
  }

  /** Loading what SaveImagePGM wrote gives back the gray version of the image. */
  lemma {:induction false} PgmRoundTrip(b: Bitmap)
    requires b.Valid()
    ensures DecodePGM(EncodePGM(b)) == Ok(Grayed(b))
  {
    EncodePGMHolds(b);
    DecodePGMOf(EncodePGM(b), Grayed(b));
  }

  /** The file SaveImagePGM writes for b holds the gray version of b as a PGM image. */
  lemma {:induction false} EncodePGMHolds(b: Bitmap)
    requires b.Valid()
    ensures HoldsPgm(EncodePGM(b), Grayed(b))
  {
    PgmHeaderAccepted(b);
    PgmPixelsKept(b);
  }

  /** The PGM loader accepts the header SaveImagePGM prints, with the image's size. */
  lemma {:induction false} PgmHeaderAccepted(b: Bitmap)
    requires b.Valid()
    ensures AcceptedHeader(EncodePGM(b), PgmId) == Some(Header(PgmId, b.width, b.height, MaxLevel))
  {
    AcceptedHeaderText(PgmId, b.width, b.height, GrayBytes(b.pixels), PgmId);
  }

  /** The last width * height bytes of a saved PGM file read back as the gray version of the image. */
  lemma {:induction false} PgmPixelsKept(b: Bitmap)
    requires b.Valid()
    ensures GrayPixels(EncodePGM(b), |EncodePGM(b)| - |b.pixels|, |b.pixels|) == Grayed(b).pixels
  {
    var hdr := HeaderText(PgmId, b.width, b.height);
    assert |EncodePGM(b)| - |b.pixels| == |hdr|;
    GrayPixelsOfGrayBytes(hdr, b);
  }

  /** A gray image survives a PGM save and load unchanged. */
  lemma {:induction false} PgmRoundTripGray(b: Bitmap)
    requires b.Valid() && IsGray(b)
    ensures DecodePGM(EncodePGM(b)) == Ok(b)
  {
    PgmRoundTrip(b);
    GrayedOfGray(b);
  }

  /** The PGM loader refuses a file the PPM saver wrote. */
  lemma {:induction false} PgmRejectsPpm(b: Bitmap)
    requires b.Valid()
    ensures DecodePGM(EncodePPM(b)) == Err(WrongFormat)
  {
    AcceptedHeaderText(PpmId, b.width, b.height, PpmBody(b.pixels), PgmId);
  }

  /** The PPM loader refuses a file the PGM saver wrote. */
  lemma {:induction false} PpmRejectsPgm(b: Bitmap)
    requires b.Valid()
    ensures DecodePPM(EncodePGM(b)) == Err(WrongFormat)
  {
    AcceptedHeaderText(PgmId, b.width, b.height, GrayBytes(b.pixels), PpmId);
  }
}
