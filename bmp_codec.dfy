/** Loading and saving 24-bit uncompressed bitmaps (bmp.c), over the bytes
    of the file instead of the file itself. `Decode` and `Encode` say what
    the bytes mean; the methods `Load` and `Save` do it row by row, the way
    `bmp_load` and `bmp_save` do, and are proved to agree with them. */
module Bmp {
  import opened Wrappers
  import opened Colors
  import opened Images
  import opened BmpLayout

  /** "BM" read as a little-endian 16-bit value. */
  const Signature: U16 := 0x4D42
  const BitsPerPixel: U16 := 24
  /** BI_RGB: no compression. */
  const CompressionRGB: U32 := 0

  /** Why `bmp_load` returns NULL. */
  datatype BmpError =
    | ShortHeader       // fewer than 14 + 40 header bytes
    | BadSignature      // bfType is not "BM"
    | BadBitCount       // not 24 bits per pixel
    | Compressed        // biCompression is not BI_RGB
    | BadDimensions     // biWidth <= 0 or biHeight == 0
    | ShortPixelData    // some row has fewer than `stride` bytes

  /** What the loader derives from the two headers: the dimensions, the row
      order, where the pixel data starts and how long each file row is. */
  datatype Layout = Layout(width: nat, height: nat, topDown: bool, offset: nat, stride: nat)

  /** Non-zero dimensions and a row long enough for its pixels. */
  predicate Geometry(l: Layout)
  {
    l.width > 0 && l.height > 0 && 3 * l.width <= l.stride
  }

  /** The checks `bmp_load` makes on the two headers, in its order. The
      width and height are |biWidth| and |biHeight|; a negative height means
      the rows are stored top-down. */
  function LayoutOf(fh: FileHeader, ih: InfoHeader): (r: Result<Layout, BmpError>)
    ensures r.Ok? ==> Geometry(r.value) && r.value.width < TwoTo31 && r.value.height <= TwoTo31
    ensures r.Ok? ==> r.value.stride == RowStride(r.value.width)
  {
    if fh.bfType != Signature then Err(BadSignature)
    else if ih.biBitCount != BitsPerPixel then Err(BadBitCount)
    else if ih.biCompression != CompressionRGB then Err(Compressed)
    else if ih.biWidth <= 0 || ih.biHeight == 0 then Err(BadDimensions)
    else
      var h: nat := if ih.biHeight < 0 then 0 - ih.biHeight as int else ih.biHeight;
      StrideBounds(ih.biWidth);
      Ok(Layout(ih.biWidth, h, ih.biHeight < 0, fh.bfOffBits, RowStride(ih.biWidth)))
  }

  /** Reads the two headers from the start of the file, then checks them. */
  function ReadHeaders(file: seq<Byte>): (r: Result<Layout, BmpError>)
    ensures r.Ok? ==> Geometry(r.value) && r.value.stride == RowStride(r.value.width)
  {
    if |file| < HeaderSize then Err(ShortHeader)
    else LayoutOf(DecodeFileHeader(file[..FileHeaderSize]), DecodeInfoHeader(file[FileHeaderSize..HeaderSize]))
  }

  /** The file row that holds image row `y`; the mapping is its own
      inverse, so it is also the image row that file row `y` fills. */
  function FileRow(l: Layout, y: nat): (fy: nat)
    requires y < l.height
    ensures fy < l.height && (if l.topDown then fy else l.height - 1 - fy) == y
  {
    if l.topDown then y else l.height - 1 - y
  }

  /** The three bytes of pixel x lie inside file row fy. */
  lemma RowInFile(l: Layout, fy: nat, x: nat)
    requires Geometry(l) && x < l.width
    ensures l.offset + fy * l.stride + 3 * x + 2 < l.offset + (fy + 1) * l.stride
  {
  }

  /** Pixel (x, y) of the image: the B, G, R bytes at `3x` in its file row,
      each divided by 255. */
  function FilePixel(file: seq<Byte>, l: Layout, x: nat, y: nat): Color
    requires Geometry(l) && x < l.width && y < l.height
    requires l.offset + (FileRow(l, y) + 1) * l.stride <= |file|
  {
    var base := l.offset + FileRow(l, y) * l.stride + 3 * x;
    RowInFile(l, FileRow(l, y), x);
    FromBMPixel(BMPixel(file[base], file[base + 1], file[base + 2]))
  }

  /** Every row of the layout is inside the file. */
  predicate Fits(file: seq<Byte>, l: Layout)
  {
    l.offset + l.height * l.stride <= |file|
  }

  lemma FitsRow(file: seq<Byte>, l: Layout, fy: nat)
    requires Fits(file, l) && fy < l.height
    ensures l.offset + (fy + 1) * l.stride <= |file|
  {
    MulMono(fy + 1, l.height, l.stride);
  }

  /** The image's pixels in row-major order. */
  function Pixels(file: seq<Byte>, l: Layout): (p: seq<Color>)
    requires Geometry(l) && Fits(file, l)
    ensures |p| == l.width * l.height
  {
    seq(l.width * l.height, j requires 0 <= j < l.width * l.height =>
      Coords(j, l.width, l.height);
      FitsRow(file, l, FileRow(l, j / l.width));
      FilePixel(file, l, j % l.width, j / l.width))
  }

  /** `bmp_load` over the file's bytes. */
  function Decode(file: seq<Byte>): (r: Result<Raster, BmpError>)
    ensures r.Ok? ==> r.value.Valid()
  {
    match ReadHeaders(file)
    case Err(e) => Err(e)
    case Ok(l) =>
      if !Fits(file, l) then Err(ShortPixelData)
      else Ok(Raster(l.width, l.height, Pixels(file, l)))
  }

  /** Row order and byte order of the pixel data: file row fy fills image
      row fy when the height is negative and image row `height - 1 - fy`
      otherwise; pixel x of a row comes from bytes 3x, 3x + 1, 3x + 2 as
      blue, green, red, and the padding after them is never read. */
  lemma DecodeRowOrder(file: seq<Byte>, l: Layout, fy: nat, x: nat)
    requires Geometry(l) && Fits(file, l) && fy < l.height && x < l.width
    ensures var iy := if l.topDown then fy else l.height - 1 - fy;
            var base := l.offset + fy * l.stride + 3 * x;
            iy * l.width + x < l.width * l.height && 0 <= base && base + 2 < |file|
            && Pixels(file, l)[iy * l.width + x] == FromBMPixel(BMPixel(file[base], file[base + 1], file[base + 2]))
  {
    var iy := if l.topDown then fy else l.height - 1 - fy;
    assert FileRow(l, iy) == fy;
    FitsRow(file, l, fy);
    RowInFile(l, fy, x);
    MulSign(fy, l.stride);
    PixelsAt(file, l, x, iy);
  }

  /** Pixel (x, y) of the decoded image is FilePixel(file, l, x, y). */
  lemma PixelsAt(file: seq<Byte>, l: Layout, x: nat, y: nat)
    requires Geometry(l) && Fits(file, l) && x < l.width && y < l.height
    ensures y * l.width + x < l.width * l.height
    ensures l.offset + (FileRow(l, y) + 1) * l.stride <= |file|
            && Pixels(file, l)[y * l.width + x] == FilePixel(file, l, x, y)
  {
    IndexOf(x, y, l.width, l.height);
    FitsRow(file, l, FileRow(l, y));
  }

  /** The error cases of `bmp_load`, in the order it checks them. */
  lemma DecodeErrors(file: seq<Byte>)
    ensures |file| < HeaderSize ==> Decode(file) == Err(ShortHeader)
    ensures |file| >= HeaderSize ==>
      var fh := DecodeFileHeader(file[..FileHeaderSize]);
      var ih := DecodeInfoHeader(file[FileHeaderSize..HeaderSize]);
      (fh.bfType != 0x4D42 ==> Decode(file) == Err(BadSignature))
      && (fh.bfType == 0x4D42 && ih.biBitCount != 24 ==> Decode(file) == Err(BadBitCount))
      && (fh.bfType == 0x4D42 && ih.biBitCount == 24 && ih.biCompression != 0 ==> Decode(file) == Err(Compressed))
      && ((fh.bfType == 0x4D42 && ih.biBitCount == 24 && ih.biCompression == 0
           && (ih.biWidth <= 0 || ih.biHeight == 0)) ==> Decode(file) == Err(BadDimensions))
      && ((fh.bfType == 0x4D42 && ih.biBitCount == 24 && ih.biCompression == 0
           && ih.biWidth > 0 && ih.biHeight != 0) ==>
            var h: int := if ih.biHeight < 0 then 0 - ih.biHeight as int else ih.biHeight;
            (Decode(file).Ok? <==> fh.bfOffBits + h * RowStride(ih.biWidth) <= |file|)
            && (Decode(file).Ok? ==> Decode(file).value.width == ih.biWidth && Decode(file).value.height == h))
  {
    if |file| >= HeaderSize {
      var fh := DecodeFileHeader(file[..FileHeaderSize]);
      var ih := DecodeInfoHeader(file[FileHeaderSize..HeaderSize]);
      assert ReadHeaders(file) == LayoutOf(fh, ih);
    }
  }

  // ---------------------------------------------------------------------
  // Encoding
  // ---------------------------------------------------------------------

  /** The two headers `bmp_save` writes for a width x height image. */
  function SaveHeaders(w: nat, h: nat): (s: seq<Byte>)
    ensures |s| == HeaderSize
  {
    HeaderBytes(w, h, RowStride(w) * h)
  }

  /** The headers for `size` bytes of pixel data. The sizes are 32-bit
      unsigned fields and wrap like them; the dimensions are stored through
      an `int32_t` cast. */
  function HeaderBytes(w: nat, h: nat, size: nat): (s: seq<Byte>)
    ensures |s| == HeaderSize
  {
    EncodeFileHeader(FileHeader(Signature, (HeaderSize + size) % TwoTo32, 0, 0, HeaderSize))
    + EncodeInfoHeader(InfoHeader(InfoHeaderSize, Signed32(w % TwoTo32), Signed32(h % TwoTo32), 1,
                                  BitsPerPixel, CompressionRGB, size % TwoTo32, 0, 0, 0, 0))
  }

  /** Byte k of file row fy: the B, G, R bytes of image row
      `height - 1 - fy`, then zero padding. */
  function PixelByte(r: Raster, fy: nat, k: nat): Byte
    requires r.Wf() && fy < r.height
  {
    if k < 3 * r.width then
      var p := ToBMPixel(r.At(k / 3, r.height - 1 - fy));
      if k % 3 == 0 then p.b else if k % 3 == 1 then p.g else p.r
    else 0
  }

  /** The file rows, bottom image row first, `stride` bytes each. */
  function RowBytes(r: Raster, stride: nat): (s: seq<Byte>)
    requires r.Wf() && 3 * r.width <= stride
    ensures |s| == stride * r.height
  {
    seq(stride * r.height, i requires 0 <= i < stride * r.height =>
      Coords(i, stride, r.height);
      PixelByte(r, i / stride, i % stride))
  }

  /** `bmp_save` over the file's bytes: headers, then rows bottom-up. */
  function Encode(r: Raster): (s: seq<Byte>)
    requires r.Wf()
    ensures |s| == HeaderSize + RowStride(r.width) * r.height
  {
    StrideBounds(r.width);
    SaveHeaders(r.width, r.height) + RowBytes(r, RowStride(r.width))
  }

  lemma RowBytesAt(r: Raster, stride: nat, fy: nat, k: nat)
    requires r.Wf() && 3 * r.width <= stride && fy < r.height && k < stride
    ensures fy * stride + k < stride * r.height
    ensures RowBytes(r, stride)[fy * stride + k] == PixelByte(r, fy, k)
  {
    IndexOf(k, fy, stride, r.height);
  }

  /** Where `bmp_save` puts each byte: file row fy occupies exactly `stride`
      bytes after the 54-byte header; its first 3 * width bytes are the
      B, G, R bytes of image row `height - 1 - fy` and the rest are zero. */
  lemma EncodeAt(r: Raster, fy: nat, k: nat)
    requires r.Wf() && fy < r.height && k < RowStride(r.width)
    ensures 0 <= HeaderSize + fy * RowStride(r.width) + k < |Encode(r)|
    ensures var b := Encode(r)[HeaderSize + fy * RowStride(r.width) + k];
            if k < 3 * r.width then
              var p := ToBMPixel(r.At(k / 3, r.height - 1 - fy));
              b == (if k % 3 == 0 then p.b else if k % 3 == 1 then p.g else p.r)
            else b == 0
  {
    StrideBounds(r.width);
    BodyAt(SaveHeaders(r.width, r.height), r, RowStride(r.width), fy, k);
  }

  /** Byte k of file row fy, for any header and any stride. */
  lemma BodyAt(hdr: seq<Byte>, r: Raster, stride: nat, fy: nat, k: nat)
    requires r.Wf() && 3 * r.width <= stride && fy < r.height && k < stride
    ensures 0 <= |hdr| + fy * stride + k < |hdr + RowBytes(r, stride)|
    ensures (hdr + RowBytes(r, stride))[|hdr| + fy * stride + k] == PixelByte(r, fy, k)
  {
    RowBytesAt(r, stride, fy, k);
    AppendAt(hdr, RowBytes(r, stride), fy * stride + k);
  }

  lemma AppendAt<T>(a: seq<T>, b: seq<T>, m: nat)
    requires m < |b|
    ensures |a| + m < |a + b| && (a + b)[|a| + m] == b[m]
  {
  }

  /** The header fields `bmp_save` writes for `size` bytes of pixel data. */
  lemma HeaderFields(w: nat, h: nat, size: nat)
    requires w < TwoTo31 && h < TwoTo31
    ensures var s := HeaderBytes(w, h, size);
            DecodeFileHeader(s[..FileHeaderSize]) == FileHeader(0x4D42, (54 + size) % TwoTo32, 0, 0, 54)
            && DecodeInfoHeader(s[FileHeaderSize..HeaderSize]) == InfoHeader(40, w, h, 1, 24, 0, size % TwoTo32, 0, 0, 0, 0)
  {
    var fh := FileHeader(Signature, (HeaderSize + size) % TwoTo32, 0, 0, HeaderSize);
    var ih := InfoHeader(InfoHeaderSize, Signed32(w % TwoTo32), Signed32(h % TwoTo32), 1,
                         BitsPerPixel, CompressionRGB, size % TwoTo32, 0, 0, 0, 0);
    assert ih == InfoHeader(40, w, h, 1, 24, 0, size % TwoTo32, 0, 0, 0, 0);
    var a, b := EncodeFileHeader(fh), EncodeInfoHeader(ih);
    SplitAppend(a, b);
    FileHeaderRoundTrip(fh, a);
    InfoHeaderDecodesEncoded(ih);
  }

  lemma SplitAppend<T>(a: seq<T>, b: seq<T>)
    ensures (a + b)[..|a|] == a && (a + b)[|a|..|a| + |b|] == b
  {
  }

  /** A file that starts with the headers `bmp_save` writes passes every
      header check, with bottom-up rows right after the headers. */
  lemma ReadSavedHeaders(w: nat, h: nat, rest: seq<Byte>)
    requires 0 < w < TwoTo31 && 0 < h < TwoTo31
    ensures ReadHeaders(SaveHeaders(w, h) + rest) == Ok(Layout(w, h, false, HeaderSize, RowStride(w)))
  {
    var s := SaveHeaders(w, h);
    var f := s + rest;
    HeaderFields(w, h, RowStride(w) * h);
    assert f[..FileHeaderSize] == s[..FileHeaderSize];
    assert f[FileHeaderSize..HeaderSize] == s[FileHeaderSize..HeaderSize];
  }

  /** Every channel of every pixel has the form k / 255. */
  ghost predicate AllQuantized(r: Raster)
  {
    forall i :: 0 <= i < |r.pixels| ==> Quantized(r.pixels[i])
  }

  /** Loading what `bmp_save` wrote gives the image back, for images whose
      dimensions fit the signed header fields and whose channels are all
      of the form k / 255 (exact arithmetic). */
  lemma DecodeEncode(r: Raster)
    requires r.Valid() && AllQuantized(r) && r.width < TwoTo31 && r.height < TwoTo31
    ensures Decode(Encode(r)) == Ok(r)
  {
    var e := Encode(r);
    var stride := RowStride(r.width);
    StrideBounds(r.width);
    var hdr := SaveHeaders(r.width, r.height);
    var body := RowBytes(r, stride);
    assert e == hdr + body;
    ReadSavedHeaders(r.width, r.height, body);
    var l := Layout(r.width, r.height, false, HeaderSize, stride);
    assert ReadHeaders(e) == Ok(l);
    DecodeRows(r, l, hdr, e);
  }

  /** The pixel data of an encoded image decodes to its pixels. */
  lemma DecodeRows(r: Raster, l: Layout, hdr: seq<Byte>, e: seq<Byte>)
    requires r.Valid() && AllQuantized(r)
    requires l == Layout(r.width, r.height, false, HeaderSize, l.stride) && Geometry(l)
    requires |hdr| == HeaderSize && e == hdr + RowBytes(r, l.stride)
    ensures Fits(e, l) && Pixels(e, l) == r.pixels
  {
    forall j | 0 <= j < r.width * r.height
      ensures Pixels(e, l)[j] == r.pixels[j]
    {
      DecodedPixelOfEncode(r, l, hdr, e, j);
    }
  }

  lemma DecodedPixelOfEncode(r: Raster, l: Layout, hdr: seq<Byte>, e: seq<Byte>, j: nat)
    requires r.Valid() && AllQuantized(r)
    requires l == Layout(r.width, r.height, false, HeaderSize, l.stride) && Geometry(l)
    requires |hdr| == HeaderSize && e == hdr + RowBytes(r, l.stride)
    requires j < r.width * r.height
    ensures Fits(e, l) && Pixels(e, l)[j] == r.pixels[j]
  {
    assert Fits(e, l);
    Coords(j, r.width, r.height);
    var x, y := j % r.width, j / r.width;
    var fy := r.height - 1 - y;
    assert FileRow(l, y) == fy;
    PixelsAt(e, l, x, y);
    var p := EncodedPixel(r, l.stride, hdr, fy, x);
    assert FilePixel(e, l, x, y) == FromBMPixel(p);
    var k := RasterIndex(r, x, y);
    QuantizedRoundTrip(r.At(x, y));
  }

  /** The three bytes at pixel x of file row fy, after any header. */
  lemma EncodedPixel(r: Raster, stride: nat, hdr: seq<Byte>, fy: nat, x: nat) returns (p: BMPixel)
    requires r.Wf() && 3 * r.width <= stride && fy < r.height && x < r.width
    ensures var e := hdr + RowBytes(r, stride);
            var base := |hdr| + fy * stride + 3 * x;
            base + 2 < |e| && p == ToBMPixel(r.At(x, r.height - 1 - fy))
            && e[base] == p.b && e[base + 1] == p.g && e[base + 2] == p.r
  {
    p := RowPixelAt(r, stride, fy, x);
    MulMono(0, fy, stride);
    AppendAt3(hdr, RowBytes(r, stride), fy * stride + 3 * x);
  }

  lemma RowPixelAt(r: Raster, stride: nat, fy: nat, x: nat) returns (p: BMPixel)
    requires r.Wf() && 3 * r.width <= stride && fy < r.height && x < r.width
    ensures var b := RowBytes(r, stride);
            var m := fy * stride + 3 * x;
            m + 2 < |b| && p == ToBMPixel(r.At(x, r.height - 1 - fy))
            && b[m] == p.b && b[m + 1] == p.g && b[m + 2] == p.r
  {
    RowBytesAt(r, stride, fy, 3 * x);
    RowBytesAt(r, stride, fy, 3 * x + 1);
    RowBytesAt(r, stride, fy, 3 * x + 2);
    p := PixelBytes(r, fy, x);
  }

  lemma AppendAt3<T>(a: seq<T>, b: seq<T>, m: nat)
    requires m + 2 < |b|
    ensures |a| + m + 2 < |a + b|
    ensures (a + b)[|a| + m] == b[m] && (a + b)[|a| + m + 1] == b[m + 1] && (a + b)[|a| + m + 2] == b[m + 2]
  {
  }

  /** The three bytes `bmp_save` writes for pixel x of file row fy. */
  lemma PixelBytes(r: Raster, fy: nat, x: nat) returns (p: BMPixel)
    requires r.Wf() && fy < r.height && x < r.width
    ensures p == ToBMPixel(r.At(x, r.height - 1 - fy))
    ensures PixelByte(r, fy, 3 * x) == p.b && PixelByte(r, fy, 3 * x + 1) == p.g && PixelByte(r, fy, 3 * x + 2) == p.r
  {
    p := ToBMPixel(r.At(x, r.height - 1 - fy));
    assert (3 * x) / 3 == x && (3 * x + 1) / 3 == x && (3 * x + 2) / 3 == x;
  }

  // ---------------------------------------------------------------------
  // The loader and the saver
  // ---------------------------------------------------------------------

  /** Pixel j lies in one of the first `rows` file rows. */
  predicate RowRead(l: Layout, j: nat, rows: nat)
    requires Geometry(l) && j < l.width * l.height
  {
    Coords(j, l.width, l.height);
    FileRow(l, j / l.width) < rows
  }

  /** Pixel j as the file gives it, once its row is in the file. */
  function ReadPixel(file: seq<Byte>, l: Layout, j: nat): Color
    requires Geometry(l) && j < l.width * l.height
  {
    Coords(j, l.width, l.height);
    if l.offset + (FileRow(l, j / l.width) + 1) * l.stride <= |file| then
      FilePixel(file, l, j % l.width, j / l.width)
    else
      Black
  }

  /** `bmp_load`: checks the headers, then reads `height` rows of `stride`
      bytes from `bfOffBits` on, failing at the first short row, and stores
      each pixel with `image_set_pixel`. */
  method Load(file: seq<Byte>) returns (img: Image?)
    ensures img == null <==> Decode(file).Err?
    ensures img != null ==> fresh(img) && fresh(img.data) && img.Valid() && Decode(file) == Ok(img.Snapshot())
  {
    var hdr := ReadHeaders(file);
    if hdr.Err? {
      return null;
    }
    var l := hdr.value;
    img := new Image(l.width, l.height);
    var pos := l.offset;
    var y := 0;
    while y < l.height
      invariant 0 <= y <= l.height && pos == l.offset + y * l.stride && (y == 0 || pos <= |file|)
      invariant fresh(img) && fresh(img.data) && img.Valid()
      invariant img.width == l.width && img.height == l.height
      invariant forall j :: 0 <= j < l.width * l.height && RowRead(l, j, y) ==> img.data[j] == ReadPixel(file, l, j)
    {
      if pos + l.stride > |file| {
        DecodeShort(file, l, y);
        return null;
      }
      LoadRow(img, file, l, y);
      pos := pos + l.stride;
      y := y + 1;
    }
    LoadedAll(img, file, l);
  }

  /** A file that ends inside file row y has no decoding. */
  lemma DecodeShort(file: seq<Byte>, l: Layout, y: nat)
    requires ReadHeaders(file) == Ok(l) && y < l.height
    requires l.offset + (y + 1) * l.stride > |file|
    ensures Decode(file) == Err(ShortPixelData)
  {
    MulMono(y + 1, l.height, l.stride);
  }

  /** After all rows are read the buffer holds the decoded pixels. */
  lemma LoadedAll(img: Image, file: seq<Byte>, l: Layout)
    requires Geometry(l) && l.offset + l.height * l.stride <= |file|
    requires img.width == l.width && img.height == l.height && img.data.Length == l.width * l.height
    requires forall j :: 0 <= j < l.width * l.height && RowRead(l, j, l.height) ==> img.data[j] == ReadPixel(file, l, j)
    ensures Fits(file, l) && img.data[..] == Pixels(file, l)
  {
    forall j | 0 <= j < l.width * l.height
      ensures img.data[j] == Pixels(file, l)[j]
    {
      Coords(j, l.width, l.height);
      FitsRow(file, l, FileRow(l, j / l.width));
      assert RowRead(l, j, l.height);
    }
  }

  /** One pass of the row loop of `bmp_load`: file row y (a full stride is
      available) fills image row FileRow(l, y). */
  method LoadRow(img: Image, file: seq<Byte>, l: Layout, y: nat)
    requires Geometry(l) && y < l.height && l.offset + (y + 1) * l.stride <= |file|
    requires img.Valid() && img.width == l.width && img.height == l.height
    requires forall j :: 0 <= j < l.width * l.height && RowRead(l, j, y) ==> img.data[j] == ReadPixel(file, l, j)
    modifies img.data
    ensures img.Valid()
    ensures forall j :: 0 <= j < l.width * l.height && RowRead(l, j, y + 1) ==> img.data[j] == ReadPixel(file, l, j)
  {
    MulMono(0, y, l.stride);
    assert (y + 1) * l.stride == y * l.stride + l.stride;
    var pos := l.offset + y * l.stride;
    var row := file[pos..pos + l.stride];  // the row buffer
    var iy := FileRow(l, y);
    assert FileRow(l, iy) == y;
    var x := 0;
    while x < l.width
      invariant 0 <= x <= l.width && img.Valid()
      invariant forall j :: 0 <= j < l.width * l.height && InRow(l, j, y, iy, x) ==> img.data[j] == ReadPixel(file, l, j)
    {
      LoadPixel(img, file, l, y, iy, x, pos, row);
      x := x + 1;
    }
    RowDone(l, y, iy);
  }

  /** Once the whole of image row iy = FileRow(l, y) is stored, every pixel
      of the first y + 1 file rows is. */
  lemma RowDone(l: Layout, y: nat, iy: nat)
    requires Geometry(l) && y < l.height && iy == FileRow(l, y)
    ensures forall j :: 0 <= j < l.width * l.height && RowRead(l, j, y + 1) ==> InRow(l, j, y, iy, l.width)
  {
    forall j | 0 <= j < l.width * l.height && RowRead(l, j, y + 1)
      ensures InRow(l, j, y, iy, l.width)
    {
      Coords(j, l.width, l.height);
      assert FileRow(l, iy) == y;
    }
  }

  /** The body of the column loop of `bmp_load`: pixel x of the row buffer
      is stored at (x, iy) of the image. */
  method LoadPixel(img: Image, file: seq<Byte>, l: Layout, y: nat, iy: nat, x: nat, pos: nat, row: seq<Byte>)
    requires Geometry(l) && y < l.height && iy == FileRow(l, y) && x < l.width
    requires pos == l.offset + y * l.stride && pos + l.stride <= |file| && row == file[pos..pos + l.stride]
    requires img.Valid() && img.width == l.width && img.height == l.height
    requires forall j :: 0 <= j < l.width * l.height && InRow(l, j, y, iy, x) ==> img.data[j] == ReadPixel(file, l, j)
    modifies img.data
    ensures img.Valid()
    ensures forall j :: 0 <= j < l.width * l.height && InRow(l, j, y, iy, x + 1) ==> img.data[j] == ReadPixel(file, l, j)
  {
    RowBufferPixel(file, l, y, iy, x, pos, row);
    var c := FromBMPixel(BMPixel(row[3 * x], row[3 * x + 1], row[3 * x + 2]));
    img.SetPixel(x, iy, c);
    InRowStep(l, y, iy, x);
  }

  /** Bytes 3x, 3x + 1, 3x + 2 of the buffer holding file row y (read from
      byte pos on) are pixel x of image row FileRow(l, y). */
  lemma RowBufferPixel(file: seq<Byte>, l: Layout, y: nat, iy: nat, x: nat, pos: nat, row: seq<Byte>)
    requires Geometry(l) && y < l.height && iy == FileRow(l, y) && x < l.width
    requires pos == l.offset + y * l.stride && pos + l.stride <= |file| && row == file[pos..pos + l.stride]
    ensures 3 * x + 2 < |row| && iy * l.width + x < l.width * l.height
    ensures FromBMPixel(BMPixel(row[3 * x], row[3 * x + 1], row[3 * x + 2])) == ReadPixel(file, l, iy * l.width + x)
  {
    IndexOf(x, iy, l.width, l.height);
    assert FileRow(l, iy) == y;
    assert (y + 1) * l.stride == y * l.stride + l.stride;
    ReadPixelOf(file, l, iy * l.width + x, x, iy);
  }

  /** Pixel j of the buffer, once its coordinates are known, is read from
      its file row. */
  lemma ReadPixelOf(file: seq<Byte>, l: Layout, j: nat, x: nat, iy: nat)
    requires Geometry(l) && j < l.width * l.height && x < l.width && iy < l.height
    requires j / l.width == iy && j % l.width == x
    requires l.offset + (FileRow(l, iy) + 1) * l.stride <= |file|
    ensures ReadPixel(file, l, j) == FilePixel(file, l, x, iy)
  {
  }

  /** Pixel j was read in an earlier row, or is one of the first x pixels
      of image row iy. */
  predicate InRow(l: Layout, j: nat, y: nat, iy: nat, x: nat)
    requires Geometry(l) && j < l.width * l.height
  {
    RowRead(l, j, y) || (j / l.width == iy && j % l.width < x)
  }

  lemma InRowStep(l: Layout, y: nat, iy: nat, x: nat)
    requires Geometry(l) && iy < l.height && x < l.width
    ensures forall j :: 0 <= j < l.width * l.height && InRow(l, j, y, iy, x + 1) ==>
              InRow(l, j, y, iy, x) || j == iy * l.width + x
  {
    forall j | 0 <= j < l.width * l.height && InRow(l, j, y, iy, x + 1)
      ensures InRow(l, j, y, iy, x) || j == iy * l.width + x
    {
      Coords(j, l.width, l.height);
    }
  }

  /** `bmp_save`: writes the headers, then for each file row from the bottom
      image row up fills a zeroed row buffer with B, G, R bytes and emits
      the whole buffer, padding included. */
  method Save(img: Image) returns (out: seq<Byte>)
    requires img.Valid()
    ensures out == Encode(img.Snapshot())
  {
    var stride := RowStride(img.width);
    StrideBounds(img.width);
    out := SaveHeaders(img.width, img.height);
    var body := SaveRows(img, stride);
    out := out + body;
  }

  /** The row loop of `bmp_save`: one zero-initialised buffer of `stride`
      bytes, refilled and written out once per file row, bottom image row
      first. */
  method SaveRows(img: Image, stride: nat) returns (body: seq<Byte>)
    requires img.Valid() && 3 * img.width <= stride
    ensures body == RowBytes(img.Snapshot(), stride)
  {
    ghost var r := img.Snapshot();
    body := [];
    var row := new Byte[stride](_ => 0);
    var y := 0;
    while y < img.height
      invariant 0 <= y <= img.height
      invariant img.Snapshot() == r
      invariant body == Rows(r, stride, y)
      invariant forall k :: 3 * r.width <= k < stride ==> row[k] == 0
    {
      SaveRow(img, row, y);
      assert row[..] == RowOf(r, stride, y);
      body := body + row[..];
      y := y + 1;
    }
    RowsAll(r, stride);
  }

  /** All the rows, emitted one after another, are the pixel data. */
  lemma RowsAll(r: Raster, stride: nat)
    requires r.Wf() && 3 * r.width <= stride
    ensures Rows(r, stride, r.height) == RowBytes(r, stride)
  {
    RowsArePrefix(r, stride, r.height);
    assert r.height * stride == |RowBytes(r, stride)|;
  }

  /** File row fy as `bmp_save` emits it: `stride` bytes. */
  function RowOf(r: Raster, stride: nat, fy: nat): (s: seq<Byte>)
    requires r.Wf() && fy < r.height
    ensures |s| == stride
  {
    seq(stride, k requires 0 <= k < stride => PixelByte(r, fy, k))
  }

  /** The first n file rows, one after another. */
  function Rows(r: Raster, stride: nat, n: nat): seq<Byte>
    requires r.Wf() && n <= r.height
  {
    if n == 0 then [] else Rows(r, stride, n - 1) + RowOf(r, stride, n - 1)
  }

  /** Emitting rows one at a time produces the pixel data row by row: the
      first n rows are its first n * stride bytes. */
  lemma {:induction false} RowsArePrefix(r: Raster, stride: nat, n: nat)
    requires r.Wf() && 3 * r.width <= stride && n <= r.height
    ensures n * stride <= stride * r.height
    ensures Rows(r, stride, n) == RowBytes(r, stride)[..n * stride]
  {
    if n == 0 {
    } else {
      RowsArePrefix(r, stride, n - 1);
      RowBytesRow(r, stride, n - 1, RowOf(r, stride, n - 1));
    }
  }

  /** Emitting the bytes of file row y extends the emitted prefix by one row. */
  lemma RowBytesRow(r: Raster, stride: nat, y: nat, row: seq<Byte>)
    requires r.Wf() && 3 * r.width <= stride && y < r.height
    requires |row| == stride && forall k :: 0 <= k < stride ==> row[k] == PixelByte(r, y, k)
    ensures 0 <= y * stride <= (y + 1) * stride <= stride * r.height
    ensures RowBytes(r, stride)[..(y + 1) * stride] == RowBytes(r, stride)[..y * stride] + row
  {
    var s := RowBytes(r, stride);
    MulMono(y + 1, r.height, stride);
    forall k | 0 <= k < stride
      ensures s[y * stride + k] == row[k]
    {
      RowBytesAt(r, stride, y, k);
    }
    assert (y + 1) * stride == y * stride + stride;
    PrefixExtend(s, y * stride, row);
  }

  /** A prefix of s followed by the next |row| elements of s, when those
      are row. */
  lemma PrefixExtend<T>(s: seq<T>, b: nat, row: seq<T>)
    requires b + |row| <= |s|
    requires forall k :: 0 <= k < |row| ==> s[b + k] == row[k]
    ensures s[..b + |row|] == s[..b] + row
  {
    assert s[b..b + |row|] == row;
    assert s[..b + |row|] == s[..b] + s[b..b + |row|];
  }

  /** One pass of the row loop of `bmp_save`: the first 3 * width bytes of
      the row buffer receive the B, G, R bytes of image row
      `height - 1 - y`; the padding stays zero. */
  method SaveRow(img: Image, row: array<Byte>, y: nat)
    requires img.Valid() && y < img.height && 3 * img.width <= row.Length
    requires forall k :: 3 * img.width <= k < row.Length ==> row[k] == 0
    modifies row
    ensures forall k :: 3 * img.width <= k < row.Length ==> row[k] == 0
    ensures forall k :: 0 <= k < row.Length ==> row[k] == PixelByte(img.Snapshot(), y, k)
  {
    ghost var r := img.Snapshot();
    var iy := img.height - 1 - y;
    var x := 0;
    while x < img.width
      invariant 0 <= x <= img.width
      invariant forall k :: 3 * img.width <= k < row.Length ==> row[k] == 0
      invariant forall i :: 0 <= i < x ==> StoresPixel(row[..], 3 * i, ToBMPixel(r.At(i, iy)))
    {
      IndexOf(x, iy, img.width, img.height);
      var p := ToBMPixel(img.data[iy * img.width + x]);
      assert img.data[iy * img.width + x] == r.At(x, iy);
      PutPixel(row, 3 * x, p);
      x := x + 1;
    }
    RowFromPixels(row[..], r, y);
  }

  /** Bytes i, i + 1, i + 2 of s hold p in blue, green, red order. */
  predicate StoresPixel(s: seq<Byte>, i: nat, p: BMPixel)
  {
    i + 2 < |s| && s[i] == p.b && s[i + 1] == p.g && s[i + 2] == p.r
  }

  /** A row buffer holding every pixel of image row `height - 1 - fy` and
      zeros after them is file row fy. */
  lemma RowFromPixels(s: seq<Byte>, r: Raster, fy: nat)
    requires r.Wf() && fy < r.height && 3 * r.width <= |s|
    requires forall i :: 0 <= i < r.width ==> StoresPixel(s, 3 * i, ToBMPixel(r.At(i, r.height - 1 - fy)))
    requires forall k :: 3 * r.width <= k < |s| ==> s[k] == 0
    ensures forall k :: 0 <= k < |s| ==> s[k] == PixelByte(r, fy, k)
  {
    forall k | 0 <= k < |s|
      ensures s[k] == PixelByte(r, fy, k)
    {
      if k < 3 * r.width {
        var i := k / 3;
        assert StoresPixel(s, 3 * i, ToBMPixel(r.At(i, r.height - 1 - fy)));
      }
    }
  }

  /** The three stores of one pixel into the row buffer, blue first. */
  method PutPixel(row: array<Byte>, i: nat, p: BMPixel)
    requires i + 2 < row.Length
    modifies row
    ensures row[i] == p.b && row[i + 1] == p.g && row[i + 2] == p.r
    ensures forall k :: 0 <= k < row.Length && (k < i || i + 2 < k) ==> row[k] == old(row[k])
  {
    row[i] := p.b;
    row[i + 1] := p.g;
    row[i + 2] := p.r;
  }
}
