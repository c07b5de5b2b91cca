/**
 * The Windows BMP/DIB container as device/display reads and builds it:
 * a 14-byte BITMAPFILEHEADER followed by a 40-byte BITMAPINFOHEADER, every
 * field little-endian, then (for palette depths) a colour table and the
 * pixel rows. Also the in-memory `BMP` record and the header builders.
 */
module BmpFormat {
  import opened Tools

  type Byte = b: int | 0 <= b < 256

  const FileHeaderSize: nat := 14
  const InfoHeaderSize: nat := 40
  const HeadersSize: nat := 54
  /** 'BM' read as a little-endian uint16. */
  const BmMagic: int := 0x4D42

  /** Unsigned little-endian 16-bit read at offset `i`. */
  function U16(d: seq<Byte>, i: nat): (v: int)
    requires i + 2 <= |d|
    ensures 0 <= v < 0x1_0000
  {
    d[i] as int + 256 * (d[i + 1] as int)
  }

  /** Unsigned little-endian 32-bit read at offset `i`. */
  function U32(d: seq<Byte>, i: nat): (v: int)
    requires i + 4 <= |d|
    ensures 0 <= v < TwoTo32
  {
    U16(d, i) + 0x1_0000 * U16(d, i + 2)
  }

  /** Little-endian bytes of a uint16; the inverse of U16. */
  function LE16(v: int): (s: seq<Byte>)
    requires 0 <= v < 0x1_0000
    ensures |s| == 2 && U16(s, 0) == v
  {
    [v % 256, v / 256]
  }

  /** Little-endian bytes of a uint32; the inverse of U32. */
  function LE32(v: int): (s: seq<Byte>)
    requires 0 <= v < TwoTo32
    ensures |s| == 4 && U32(s, 0) == v
  {
    var lo, hi := v % 0x1_0000, v / 0x1_0000;
    var s := LE16(lo) + LE16(hi);
    assert U16(s, 0) == lo && U16(s, 2) == hi;
    s
  }

  /** The uint32 bit pattern of an int32 value. */
  function Uint32OfInt32(x: int): (u: int)
    requires IsInt32(x)
    ensures 0 <= u < TwoTo32 && Int32OfUint32(u) == x
  {
    if x < 0 then x + TwoTo32 else x
  }

  predicate IsUint16(x: int) { 0 <= x < 0x1_0000 }
  predicate IsUint32(x: int) { 0 <= x < TwoTo32 }

  /** BITMAPFILEHEADER. */
  datatype FileHeader = FileHeader(
    fileType: int, size: int, reserved1: int, reserved2: int, offBits: int)
  {
    predicate Valid() {
      IsUint16(fileType) && IsUint32(size) && IsUint16(reserved1) &&
      IsUint16(reserved2) && IsUint32(offBits)
    }
  }

  /** BITMAPINFOHEADER; width, height and the resolutions are signed. */
  datatype InfoHeader = InfoHeader(
    biSize: int, biWidth: int, biHeight: int, biPlanes: int, biBitCount: int,
    biCompression: int, biSizeImage: int, biXPelsPerMeter: int,
    biYPelsPerMeter: int, biClrUsed: int, biClrImportant: int)
  {
    predicate Valid() {
      IsUint32(biSize) && IsInt32(biWidth) && IsInt32(biHeight) &&
      IsUint16(biPlanes) && IsUint16(biBitCount) && IsUint32(biCompression) &&
      IsUint32(biSizeImage) && IsInt32(biXPelsPerMeter) &&
      IsInt32(biYPelsPerMeter) && IsUint32(biClrUsed) && IsUint32(biClrImportant)
    }
  }

  /** A decoded bitmap: the headers as read, the pixel bytes and |dimensions|. */
  datatype Bmp = Bmp(
    fileHeader: FileHeader, infoHeader: InfoHeader, data: seq<Byte>,
    width: int, height: int)

  function ParseFileHeader(d: seq<Byte>): (h: FileHeader)
    requires |d| >= FileHeaderSize
    ensures h.Valid()
  {
    FileHeader(U16(d, 0), U32(d, 2), U16(d, 6), U16(d, 8), U32(d, 10))
  }

  function ParseInfoHeader(d: seq<Byte>): (h: InfoHeader)
    requires |d| >= HeadersSize
    ensures h.Valid()
  {
    InfoHeader(
      U32(d, 14), Int32OfUint32(U32(d, 18)), Int32OfUint32(U32(d, 22)),
      U16(d, 26), U16(d, 28), U32(d, 30), U32(d, 34),
      Int32OfUint32(U32(d, 38)), Int32OfUint32(U32(d, 42)),
      U32(d, 46), U32(d, 50))
  }

  /** The 14 bytes of a file header, fields in declaration order. */
  function EncodeFileHeader(h: FileHeader): (s: seq<Byte>)
    requires h.Valid()
    ensures |s| == FileHeaderSize
  {
    LE16(h.fileType) + LE32(h.size) + LE16(h.reserved1) + LE16(h.reserved2) +
    LE32(h.offBits)
  }

  /** Bytes 0..15 of an info header: size, width, height, planes, bit count. */
  function InfoHeaderHead(h: InfoHeader): (s: seq<Byte>)
    requires h.Valid()
    ensures |s| == 16
  {
    LE32(h.biSize) + LE32(Uint32OfInt32(h.biWidth)) +
    LE32(Uint32OfInt32(h.biHeight)) + LE16(h.biPlanes) + LE16(h.biBitCount)
  }

  /** Bytes 16..39 of an info header: compression through important colours. */
  function InfoHeaderTail(h: InfoHeader): (s: seq<Byte>)
    requires h.Valid()
    ensures |s| == 24
  {
    LE32(h.biCompression) + LE32(h.biSizeImage) +
    LE32(Uint32OfInt32(h.biXPelsPerMeter)) +
    LE32(Uint32OfInt32(h.biYPelsPerMeter)) + LE32(h.biClrUsed) +
    LE32(h.biClrImportant)
  }

  /** The 40 bytes of an info header, fields in declaration order. */
  function EncodeInfoHeader(h: InfoHeader): (s: seq<Byte>)
    requires h.Valid()
    ensures |s| == InfoHeaderSize
  {
    InfoHeaderHead(h) + InfoHeaderTail(h)
  }

  lemma U16Shift(a: seq<Byte>, b: seq<Byte>, i: nat)
    requires i + 2 <= |b|
    ensures U16(a + b, |a| + i) == U16(b, i)
  {
    assert (a + b)[|a| + i] == b[i] && (a + b)[|a| + i + 1] == b[i + 1];
  }

  lemma U32Shift(a: seq<Byte>, b: seq<Byte>, i: nat)
    requires i + 4 <= |b|
    ensures U32(a + b, |a| + i) == U32(b, i)
  {
    U16Shift(a, b, i);
    U16Shift(a, b, i + 2);
  }

  lemma U16Prefix(a: seq<Byte>, b: seq<Byte>, i: nat)
    requires i + 2 <= |a|
    ensures U16(a + b, i) == U16(a, i)
  {
    assert (a + b)[i] == a[i] && (a + b)[i + 1] == a[i + 1];
  }

  lemma U32Prefix(a: seq<Byte>, b: seq<Byte>, i: nat)
    requires i + 4 <= |a|
    ensures U32(a + b, i) == U32(a, i)
  {
    U16Prefix(a, b, i);
    U16Prefix(a, b, i + 2);
  }

  /** Reading a field back from `pre + LE(v) + post` gives `v`. */
  lemma ReadU16At(pre: seq<Byte>, v: int, post: seq<Byte>)
    requires IsUint16(v)
    ensures U16(pre + LE16(v) + post, |pre|) == v
  {
    U16Prefix(pre + LE16(v), post, |pre|);
    U16Shift(pre, LE16(v), 0);
  }

  lemma ReadU32At(pre: seq<Byte>, v: int, post: seq<Byte>)
    requires IsUint32(v)
    ensures U32(pre + LE32(v) + post, |pre|) == v
  {
    U32Prefix(pre + LE32(v), post, |pre|);
    U32Shift(pre, LE32(v), 0);
  }

  /** Parsing an encoded file header gives it back, whatever follows it. */
  lemma {:induction false} FileHeaderRoundTrip(h: FileHeader, rest: seq<Byte>)
    requires h.Valid()
    ensures ParseFileHeader(EncodeFileHeader(h) + rest) == h
  {
    var a, b, c, d, e := LE16(h.fileType), LE32(h.size), LE16(h.reserved1), LE16(h.reserved2), LE32(h.offBits);
    var s := EncodeFileHeader(h) + rest;
    assert s == [] + a + (b + c + d + e + rest);
    ReadU16At([], h.fileType, b + c + d + e + rest);
    assert s == a + b + (c + d + e + rest);
    ReadU32At(a, h.size, c + d + e + rest);
    assert s == (a + b) + c + (d + e + rest);
    ReadU16At(a + b, h.reserved1, d + e + rest);
    assert s == (a + b + c) + d + (e + rest);
    ReadU16At(a + b + c, h.reserved2, e + rest);
    assert s == (a + b + c + d) + e + rest;
    ReadU32At(a + b + c + d, h.offBits, rest);
  }

  lemma LE16OfU16(d: seq<Byte>, i: nat)
    requires i + 2 <= |d|
    ensures LE16(U16(d, i)) == d[i..i + 2]
  {
  }

  lemma LE32OfU32(d: seq<Byte>, i: nat)
    requires i + 4 <= |d|
    ensures LE32(U32(d, i)) == d[i..i + 4]
  {
    var v := U32(d, i);
    assert v % 0x1_0000 == U16(d, i) && v / 0x1_0000 == U16(d, i + 2);
    LE16OfU16(d, i);
    LE16OfU16(d, i + 2);
    assert d[i..i + 4] == d[i..i + 2] + d[i + 2..i + 4];
  }

  /** Encoding a parsed file header gives back the first 14 bytes. */
  lemma {:induction false} FileHeaderBytesRoundTrip(d: seq<Byte>)
    requires |d| >= FileHeaderSize
    ensures EncodeFileHeader(ParseFileHeader(d)) == d[..FileHeaderSize]
  {
    LE16OfU16(d, 0);
    LE32OfU32(d, 2);
    LE16OfU16(d, 6);
    LE16OfU16(d, 8);
    LE32OfU32(d, 10);
    assert d[..14] == d[0..2] + d[2..6] + d[6..8] + d[8..10] + d[10..14];
  }

  lemma {:induction false} ReadInfoHeaderHead(pre: seq<Byte>, h: InfoHeader, post: seq<Byte>)
    requires h.Valid()
    ensures var s := pre + InfoHeaderHead(h) + post;
      U32(s, |pre|) == h.biSize && U32(s, |pre| + 4) == Uint32OfInt32(h.biWidth) &&
      U32(s, |pre| + 8) == Uint32OfInt32(h.biHeight) &&
      U16(s, |pre| + 12) == h.biPlanes && U16(s, |pre| + 14) == h.biBitCount
  {
    var f0, f1, f2 := LE32(h.biSize), LE32(Uint32OfInt32(h.biWidth)), LE32(Uint32OfInt32(h.biHeight));
    var f3, f4 := LE16(h.biPlanes), LE16(h.biBitCount);
    var s := pre + InfoHeaderHead(h) + post;
    assert s == pre + f0 + (f1 + f2 + f3 + f4 + post);
    ReadU32At(pre, h.biSize, f1 + f2 + f3 + f4 + post);
    assert s == (pre + f0) + f1 + (f2 + f3 + f4 + post);
    ReadU32At(pre + f0, Uint32OfInt32(h.biWidth), f2 + f3 + f4 + post);
    assert s == (pre + f0 + f1) + f2 + (f3 + f4 + post);
    ReadU32At(pre + f0 + f1, Uint32OfInt32(h.biHeight), f3 + f4 + post);
    assert s == (pre + f0 + f1 + f2) + f3 + (f4 + post);
    ReadU16At(pre + f0 + f1 + f2, h.biPlanes, f4 + post);
    assert s == (pre + f0 + f1 + f2 + f3) + f4 + post;
    ReadU16At(pre + f0 + f1 + f2 + f3, h.biBitCount, post);
  }

  lemma {:induction false} ReadInfoHeaderTail(pre: seq<Byte>, h: InfoHeader, post: seq<Byte>)
    requires h.Valid()
    ensures var s := pre + InfoHeaderTail(h) + post;
      U32(s, |pre|) == h.biCompression && U32(s, |pre| + 4) == h.biSizeImage &&
      U32(s, |pre| + 8) == Uint32OfInt32(h.biXPelsPerMeter) &&
      U32(s, |pre| + 12) == Uint32OfInt32(h.biYPelsPerMeter) &&
      U32(s, |pre| + 16) == h.biClrUsed && U32(s, |pre| + 20) == h.biClrImportant
  {
    var f5, f6 := LE32(h.biCompression), LE32(h.biSizeImage);
    var f7, f8 := LE32(Uint32OfInt32(h.biXPelsPerMeter)), LE32(Uint32OfInt32(h.biYPelsPerMeter));
    var f9, f10 := LE32(h.biClrUsed), LE32(h.biClrImportant);
    var s := pre + InfoHeaderTail(h) + post;
    assert s == pre + f5 + f6 + f7 + (f8 + f9 + f10 + post);
    ReadThreeU32(pre, h.biCompression, h.biSizeImage, Uint32OfInt32(h.biXPelsPerMeter), f8 + f9 + f10 + post);
    assert s == (pre + f5 + f6 + f7) + f8 + f9 + f10 + post;
    ReadThreeU32(pre + f5 + f6 + f7, Uint32OfInt32(h.biYPelsPerMeter), h.biClrUsed, h.biClrImportant, post);
  }

  /** Three little-endian words in a row read back as themselves. */
  lemma ReadThreeU32(pre: seq<Byte>, a: int, b: int, c: int, post: seq<Byte>)
    requires IsUint32(a) && IsUint32(b) && IsUint32(c)
    ensures var s := pre + LE32(a) + LE32(b) + LE32(c) + post;
      U32(s, |pre|) == a && U32(s, |pre| + 4) == b && U32(s, |pre| + 8) == c
  {
    var fa, fb, fc := LE32(a), LE32(b), LE32(c);
    var s := pre + fa + fb + fc + post;
    assert s == pre + fa + (fb + fc + post);
    ReadU32At(pre, a, fb + fc + post);
    assert s == (pre + fa) + fb + (fc + post);
    ReadU32At(pre + fa, b, fc + post);
    ReadU32At(pre + fa + fb, c, post);
  }

  /** Parsing an encoded info header (after any 14 bytes) gives it back. */
  lemma {:induction false} InfoHeaderRoundTrip(pre: seq<Byte>, h: InfoHeader, rest: seq<Byte>)
    requires |pre| == FileHeaderSize && h.Valid()
    ensures ParseInfoHeader(pre + EncodeInfoHeader(h) + rest) == h
  {
    var head, tail := InfoHeaderHead(h), InfoHeaderTail(h);
    var s := pre + EncodeInfoHeader(h) + rest;
    assert s == pre + head + (tail + rest);
    ReadInfoHeaderHead(pre, h, tail + rest);
    assert s == (pre + head) + tail + rest;
    ReadInfoHeaderTail(pre + head, h, rest);
  }

  /**
   * buildBitMapHeader: a 'BM' header whose pixel data starts right after the
   * two headers and whose declared size is headers plus data, each a uint32.
   */
  function BuildBitMapHeader(headerSize: int, dataSize: int): (h: FileHeader)
    requires IsUint32(headerSize) && IsUint32(dataSize)
    ensures h.Valid() && h.fileType == BmMagic
    ensures h.reserved1 == 0 && h.reserved2 == 0
    ensures FileHeaderSize + headerSize < TwoTo32 ==> h.offBits == FileHeaderSize + headerSize
    ensures FileHeaderSize + headerSize + dataSize < TwoTo32 ==> h.size == h.offBits + dataSize
  {
    FileHeader(BmMagic, (14 + headerSize + dataSize) % TwoTo32, 0, 0,
               (14 + headerSize) % TwoTo32)
  }

  /**
   * buildBitMapInfoHeader: a 40-byte top-down header (negated height, in
   * int32 arithmetic), one plane, no palette and no image-size hint.
   */
  function BuildBitMapInfoHeader(width: int, height: int, ppmX: int, ppmY: int,
                                 bitCount: int, compression: int): (h: InfoHeader)
    requires IsInt32(width) && IsInt32(height) && IsInt32(ppmX) && IsInt32(ppmY)
    requires IsUint16(bitCount) && IsUint32(compression)
    ensures h.Valid() && h.biSize == InfoHeaderSize && h.biPlanes == 1
    ensures h.biWidth == width && h.biBitCount == bitCount && h.biCompression == compression
    ensures h.biHeight == if height == -TwoTo31 then height else -height
    ensures 0 < height ==> h.biHeight < 0
    ensures h.biXPelsPerMeter == ppmX && h.biYPelsPerMeter == ppmY
    ensures h.biClrUsed == 0 && h.biClrImportant == 0 && h.biSizeImage == 0
  {
    InfoHeader(40, width, Wrap32(-height), 1, bitCount, compression, 0, ppmX, ppmY, 0, 0)
  }

  /**
   * Bytes one padded row takes: the smallest multiple of four that holds
   * `width` pixels of `bitCount` bits (1 and 4 bits pack several pixels per
   * byte; the other depths use `bytesPerPixel` whole bytes).
   */
  function PaddedRowSize(width: int, bytesPerPixel: int, bitCount: int): (rs: int)
    ensures rs % 4 == 0
    ensures width >= 0 && bitCount == 1 ==> width <= 8 * rs && 8 * (rs - 4) < width
    ensures width >= 0 && bitCount == 4 ==> width <= 2 * rs && 2 * (rs - 4) < width
    ensures width >= 0 && bitCount != 1 && bitCount != 4 && bytesPerPixel >= 0 ==>
              width * bytesPerPixel <= rs < width * bytesPerPixel + 4
  {
    match bitCount
    case 1 => ClearLow2(GoQuot(width + 7, 8) + 3)
    case 4 => ClearLow2(GoQuot(width + 1, 2) + 3)
    case _ => ClearLow2(width * bytesPerPixel + 3)
  }

  /** calcBmpSize: padded row size times the number of rows. */
  function CalcBmpSize(width: int, height: int, bytesPerPixel: int, bitCount: int): (n: int)
    ensures n % 4 == 0
    ensures width >= 0 && height >= 0 && bitCount != 1 && bitCount != 4 && bytesPerPixel >= 0 ==>
              width * bytesPerPixel * height <= n
  {
    var rs := PaddedRowSize(width, bytesPerPixel, bitCount);
    assert rs * height == 4 * ((rs / 4) * height);
    assert width >= 0 && height >= 0 && bitCount != 1 && bitCount != 4 && bytesPerPixel >= 0 ==>
             width * bytesPerPixel * height <= rs * height by {
      if width >= 0 && height >= 0 && bitCount != 1 && bitCount != 4 && bytesPerPixel >= 0 {
        MulLeftMono(width * bytesPerPixel, rs, height);
      }
    }
    rs * height
  }
}
