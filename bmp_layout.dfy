/** The on-disk layout of a 24-bit Windows bitmap (bmp.h): the packed
    14-byte BITMAPFILEHEADER and 40-byte BITMAPINFOHEADER, their
    little-endian fields, and the 4-byte-aligned row stride. */
module BmpLayout {
  import opened Colors

  const TwoTo16: int := 0x1_0000
  const TwoTo31: int := 0x8000_0000
  const TwoTo32: int := 0x1_0000_0000

  type U16 = v: int | 0 <= v < TwoTo16
  type U32 = v: int | 0 <= v < TwoTo32
  type I32 = v: int | -TwoTo31 <= v < TwoTo31

  // ---------------------------------------------------------------------
  // Little-endian fields
  // ---------------------------------------------------------------------

  function LE16(v: U16): (s: seq<Byte>)
    ensures |s| == 2
  {
    [v % 256, v / 256]
  }

  function LE32(v: U32): (s: seq<Byte>)
    ensures |s| == 4
  {
    [v % 256, (v / 256) % 256, (v / 0x1_0000) % 256, v / 0x100_0000]
  }

  /** The two's-complement bit pattern of a signed 32-bit value. */
  function Bits32(v: I32): U32
  {
    if v < 0 then v + TwoTo32 else v
  }

  /** The signed value of a 32-bit pattern. */
  function Signed32(u: U32): I32
  {
    if u >= TwoTo31 then u - TwoTo32 else u
  }

  lemma SignedBits(v: I32)
    ensures Signed32(Bits32(v)) == v
  {
  }

  function U16At(s: seq<Byte>, i: nat): U16
    requires i + 2 <= |s|
  {
    s[i] as int + 256 * s[i + 1] as int
  }

  function U32At(s: seq<Byte>, i: nat): U32
    requires i + 4 <= |s|
  {
    s[i] as int + 256 * s[i + 1] as int + 0x1_0000 * s[i + 2] as int + 0x100_0000 * s[i + 3] as int
  }

  function I32At(s: seq<Byte>, i: nat): I32
    requires i + 4 <= |s|
  {
    Signed32(U32At(s, i))
  }

  /** Reading back a written 16-bit field gives the value; writing a read
      field gives the bytes. */
  lemma LE16RoundTrip(v: U16, s: seq<Byte>, i: nat)
    requires i + 2 <= |s|
    ensures U16At(LE16(v), 0) == v
    ensures LE16(U16At(s, i)) == s[i..i + 2]
  {
  }

  /** Reading back a written 32-bit field gives the value; writing a read
      field gives the bytes. */
  lemma LE32RoundTrip(v: U32, s: seq<Byte>, i: nat)
    requires i + 4 <= |s|
    ensures U32At(LE32(v), 0) == v
    ensures LE32(U32At(s, i)) == s[i..i + 4]
  {
    LE32Decodes(v);
    ByteSplit(s[i], s[i + 1], s[i + 2], s[i + 3]);
  }

  lemma LE32Decodes(v: U32)
    ensures U32At(LE32(v), 0) == v
  {
    var e := LE32(v);
    var q1 := v / 256;
    var q2 := q1 / 256;
    assert v == e[0] + 256 * q1;
    assert q1 == e[1] + 256 * q2;
    assert q2 / 256 == v / 0x100_0000;
    assert q2 == e[2] as int + 256 * e[3] as int;
  }

  /** The four bytes of a little-endian word are its base-256 digits. */
  lemma ByteSplit(a: Byte, b: Byte, c: Byte, d: Byte)
    ensures var u := a as int + 256 * b as int + 0x1_0000 * c as int + 0x100_0000 * d as int;
            0 <= u < TwoTo32
            && u % 256 == a && (u / 256) % 256 == b && (u / 0x1_0000) % 256 == c && u / 0x100_0000 == d
  {
    var u := a as int + 256 * b as int + 0x1_0000 * c as int + 0x100_0000 * d as int;
    var q1 := b as int + 256 * c as int + 0x1_0000 * d as int;
    var q2 := c as int + 256 * d as int;
    assert u == a as int + 256 * q1;
    DivDigit(u, a, q1);
    assert q1 == b as int + 256 * q2;
    DivDigit(q1, b, q2);
    DivDigit(q2, c, d);
    assert u / 0x1_0000 == q2 by { DivTwice(u, 256, 256); }
    assert u / 0x100_0000 == d by { DivTwice(u, 0x1_0000, 256); }
  }

  lemma DivDigit(n: int, lo: int, hi: int)
    requires 0 <= lo < 256 && n == lo + 256 * hi
    ensures n / 256 == hi && n % 256 == lo
  {
  }

  lemma DivTwice(n: int, a: int, b: int)
    requires n >= 0 && ((a == 256 && b == 256) || (a == 0x1_0000 && b == 256))
    ensures n / a / b == n / (a * b)
  {
    var q := n / a;
    var r := n % a;
    var q2 := q / b;
    var r2 := q % b;
    assert n == q * a + r;
    assert q == q2 * b + r2;
    if a == 256 {
      assert n == q2 * 0x1_0000 + (r2 * 256 + r);
    } else {
      assert n == q2 * 0x100_0000 + (r2 * 0x1_0000 + r);
    }
  }

  // ---------------------------------------------------------------------
  // The two packed headers
  // ---------------------------------------------------------------------

  /** BITMAPFILEHEADER, bmp.h:15-21. */
  datatype FileHeader = FileHeader(
    bfType: U16, bfSize: U32, bfReserved1: U16, bfReserved2: U16, bfOffBits: U32)

  /** BITMAPINFOHEADER, bmp.h:24-36. */
  datatype InfoHeader = InfoHeader(
    biSize: U32, biWidth: I32, biHeight: I32, biPlanes: U16, biBitCount: U16,
    biCompression: U32, biSizeImage: U32, biXPelsPerMeter: I32, biYPelsPerMeter: I32,
    biClrUsed: U32, biClrImportant: U32)

  const FileHeaderSize: nat := 14
  const InfoHeaderSize: nat := 40
  /** BMP_HEADER_SIZE: both headers back to back. */
  const HeaderSize: nat := 54

  /** The packed file header: fields in declaration order, no padding. */
  function EncodeFileHeader(h: FileHeader): (s: seq<Byte>)
    ensures |s| == FileHeaderSize
  {
    LE16(h.bfType) + LE32(h.bfSize) + LE16(h.bfReserved1) + LE16(h.bfReserved2) + LE32(h.bfOffBits)
  }

  function DecodeFileHeader(s: seq<Byte>): FileHeader
    requires |s| >= FileHeaderSize
  {
    FileHeader(U16At(s, 0), U32At(s, 2), U16At(s, 6), U16At(s, 8), U32At(s, 10))
  }

  /** The packed info header: fields in declaration order, no padding. */
  function EncodeInfoHeader(h: InfoHeader): (s: seq<Byte>)
    ensures |s| == InfoHeaderSize
  {
    LE32(h.biSize) + LE32(Bits32(h.biWidth)) + LE32(Bits32(h.biHeight))
    + LE16(h.biPlanes) + LE16(h.biBitCount) + LE32(h.biCompression) + LE32(h.biSizeImage)
    + LE32(Bits32(h.biXPelsPerMeter)) + LE32(Bits32(h.biYPelsPerMeter))
    + LE32(h.biClrUsed) + LE32(h.biClrImportant)
  }

  function DecodeInfoHeader(s: seq<Byte>): InfoHeader
    requires |s| >= InfoHeaderSize
  {
    InfoHeader(U32At(s, 0), I32At(s, 4), I32At(s, 8), U16At(s, 12), U16At(s, 14),
               U32At(s, 16), U32At(s, 20), I32At(s, 24), I32At(s, 28),
               U32At(s, 32), U32At(s, 36))
  }

  /** Reading a written file header gives it back; writing a read one gives
      the 14 bytes back. */
  lemma FileHeaderRoundTrip(h: FileHeader, s: seq<Byte>)
    requires |s| == FileHeaderSize
    ensures DecodeFileHeader(EncodeFileHeader(h)) == h
    ensures EncodeFileHeader(DecodeFileHeader(s)) == s
  {
    var e := EncodeFileHeader(h);
    assert e[0..2] == LE16(h.bfType) && e[2..6] == LE32(h.bfSize);
    assert e[6..8] == LE16(h.bfReserved1) && e[8..10] == LE16(h.bfReserved2);
    assert e[10..14] == LE32(h.bfOffBits);
    LE16At(e, 0, h.bfType);
    LE32At(e, 2, h.bfSize);
    LE16At(e, 6, h.bfReserved1);
    LE16At(e, 8, h.bfReserved2);
    LE32At(e, 10, h.bfOffBits);
    LE16RoundTrip(0, s, 0);
    LE32RoundTrip(0, s, 2);
    LE16RoundTrip(0, s, 6);
    LE16RoundTrip(0, s, 8);
    LE32RoundTrip(0, s, 10);
    assert s == s[0..2] + s[2..6] + s[6..8] + s[8..10] + s[10..14];
  }

  /** Reading an info header that was written gives it back; writing a read
      one gives the 40 bytes back. */
  lemma InfoHeaderRoundTrip(h: InfoHeader, s: seq<Byte>)
    requires |s| == InfoHeaderSize
    ensures DecodeInfoHeader(EncodeInfoHeader(h)) == h
    ensures EncodeInfoHeader(DecodeInfoHeader(s)) == s
  {
    InfoHeaderDecodesEncoded(h);
    InfoHeaderEncodesDecoded(s);
  }

  lemma InfoHeaderDecodesEncoded(h: InfoHeader)
    ensures DecodeInfoHeader(EncodeInfoHeader(h)) == h
  {
    var e := EncodeInfoHeader(h);
    assert e[0..4] == LE32(h.biSize);
    assert e[4..8] == LE32(Bits32(h.biWidth));
    assert e[8..12] == LE32(Bits32(h.biHeight));
    assert e[12..14] == LE16(h.biPlanes);
    assert e[14..16] == LE16(h.biBitCount);
    assert e[16..20] == LE32(h.biCompression);
    assert e[20..24] == LE32(h.biSizeImage);
    assert e[24..28] == LE32(Bits32(h.biXPelsPerMeter));
    assert e[28..32] == LE32(Bits32(h.biYPelsPerMeter));
    assert e[32..36] == LE32(h.biClrUsed);
    assert e[36..40] == LE32(h.biClrImportant);
    LE32At(e, 0, h.biSize);
    LE32At(e, 4, Bits32(h.biWidth));
    LE32At(e, 8, Bits32(h.biHeight));
    LE16At(e, 12, h.biPlanes);
    LE16At(e, 14, h.biBitCount);
    LE32At(e, 16, h.biCompression);
    LE32At(e, 20, h.biSizeImage);
    LE32At(e, 24, Bits32(h.biXPelsPerMeter));
    LE32At(e, 28, Bits32(h.biYPelsPerMeter));
    LE32At(e, 32, h.biClrUsed);
    LE32At(e, 36, h.biClrImportant);
  }

  lemma InfoHeaderEncodesDecoded(s: seq<Byte>)
    requires |s| == InfoHeaderSize
    ensures EncodeInfoHeader(DecodeInfoHeader(s)) == s
  {
    var d := DecodeInfoHeader(s);
    LE32RoundTrip(0, s, 0);
    SignedField(s, 4);
    SignedField(s, 8);
    LE16RoundTrip(0, s, 12);
    LE16RoundTrip(0, s, 14);
    LE32RoundTrip(0, s, 16);
    LE32RoundTrip(0, s, 20);
    SignedField(s, 24);
    SignedField(s, 28);
    LE32RoundTrip(0, s, 32);
    LE32RoundTrip(0, s, 36);
    assert s == s[0..4] + s[4..8] + s[8..12] + s[12..14] + s[14..16] + s[16..20] + s[20..24]
              + s[24..28] + s[28..32] + s[32..36] + s[36..40];
  }

  lemma SignedField(s: seq<Byte>, i: nat)
    requires i + 4 <= |s|
    ensures LE32(Bits32(I32At(s, i))) == s[i..i + 4]
  {
    LE32RoundTrip(0, s, i);
  }

  lemma LE16At(e: seq<Byte>, i: nat, v: U16)
    requires i + 2 <= |e| && e[i..i + 2] == LE16(v)
    ensures U16At(e, i) == v
  {
    assert e[i] == LE16(v)[0] && e[i + 1] == LE16(v)[1];
  }

  lemma LE32At(e: seq<Byte>, i: nat, v: U32)
    requires i + 4 <= |e| && e[i..i + 4] == LE32(v)
    ensures U32At(e, i) == v
  {
    var d := LE32(v);
    LE32Decodes(v);
    assert e[i] == d[0] && e[i + 1] == d[1] && e[i + 2] == d[2] && e[i + 3] == d[3];
  }

  // ---------------------------------------------------------------------
  // Row stride
  // ---------------------------------------------------------------------

  /** `bmp_row_stride` in exact integer arithmetic: 3 bytes per pixel,
      rounded up to a multiple of 4. */
  function RowStride(w: nat): (s: nat)
    ensures s == 3 * w + (4 - 3 * w % 4) % 4
  {
    ((w * 3 + 3) / 4) * 4
  }

  /** The stride is a multiple of 4 and leaves 0 to 3 bytes of padding. */
  lemma StrideBounds(w: nat)
    ensures RowStride(w) % 4 == 0
    ensures 3 * w <= RowStride(w) < 3 * w + 4
  {
    var q := (w * 3 + 3) / 4;
    assert RowStride(w) == q * 4;
  }

  /** The stride is the smallest multiple of 4 that holds the row. */
  lemma StrideMinimal(w: nat, m: nat)
    requires m % 4 == 0 && m >= 3 * w
    ensures m >= RowStride(w)
  {
    StrideBounds(w);
  }

  /** `bmp_row_stride` as written: `width * 3 + 3` is computed in 32-bit
      unsigned arithmetic and wraps for widths of 1431655765 and more. The
      stride still holds a row of 3w bytes exactly when the sum does not
      wrap. */
  function StrideU32(w: U32): (s: U32)
    ensures s % 4 == 0
    ensures s >= 3 * w <==> w * 3 + 3 < TwoTo32
  {
    (((w * 3 + 3) % TwoTo32) / 4) * 4
  }

  /** Below the wrap point the 32-bit stride is the exact one. */
  lemma StrideU32Agrees(w: U32)
    requires w * 3 + 3 < TwoTo32
    ensures StrideU32(w) == RowStride(w)
  {
  }

  /** For width 1431655765 the 32-bit stride is 0, so a row of 3 * w bytes
      does not fit in the stride-sized row buffer. */
  lemma StrideU32Wraps()
    ensures StrideU32(1431655765) == 0 < 3 * 1431655765
    ensures 1431655765 < TwoTo31
  {
  }
}
