/**
 * LoadBmp and the per-depth decoders of device/display/display__tools.go:
 * header parsing, the rejection order, and the six processBmp* variants.
 * A Go runtime panic on a decoder path (a slice with bounds out of range,
 * `make` with a negative length) is the error `Panic`.
 */
module BmpDecode {
  import opened Tools
  import opened Wrappers
  import opened BmpFormat
  import opened BmpPixels

  datatype BmpError =
    | TooSmall
    | BadFileType(fileType: int)
    | Compressed
    | UnsupportedBitCount(bitCount: int)
    | PixelDataOutOfBounds
    | Panic

  /** The decoders' `height`: BiHeight with its sign dropped. */
  function AbsHeight(biHeight: int): (h: int)
    ensures h >= 0 && (h == biHeight || h == -biHeight)
  {
    if biHeight < 0 then -biHeight else biHeight
  }

  /**
   * The padded row size each decoder computes. The 24-bit decoder rounds
   * with a truncating division instead of `&^ 3`; the two agree for every
   * non-negative width.
   */
  function DecoderRowSize(bitCount: int, width: int): (rs: int)
    ensures width >= 0 && IsBmpBitCount(bitCount) ==>
              rs == PaddedRowSize(width, CalcBytesPerPixel(bitCount), bitCount) && rs >= 0
  {
    match bitCount
    case 32 => ClearLow2(width * 4 + 3)
    case 24 => GoQuot(width * 3 + 3, 4) * 4
    case 16 => ClearLow2(width * 2 + 3)
    case 8 => ClearLow2(width + 3)
    case 4 => ClearLow2(GoQuot(width + 1, 2) + 3)
    case _ => ClearLow2(GoQuot(width + 7, 8) + 3)
  }

  /** Bytes of padded pixel rows a decoder expects after OffBits. */
  function DataSize(ih: InfoHeader): int {
    DecoderRowSize(ih.biBitCount, ih.biWidth) * AbsHeight(ih.biHeight)
  }

  /**
   * processBmp32bit / processBmp24bit: the padded rows, sliced out of the
   * file as they are.
   */
  function ProcessBmpSlice(data: seq<Byte>, fh: FileHeader, ih: InfoHeader): (r: Result<Bmp, BmpError>)
    requires fh.Valid() && ih.Valid()
    ensures r == Err(PixelDataOutOfBounds) <==> fh.offBits + DataSize(ih) > |data|
    ensures r.Ok? <==> fh.offBits + DataSize(ih) <= |data| && DataSize(ih) >= 0
    ensures r.Ok? ==>
      r.value.data == data[fh.offBits .. fh.offBits + DataSize(ih)] &&
      r.value.width == ih.biWidth && r.value.height == AbsHeight(ih.biHeight) &&
      r.value.fileHeader == fh && r.value.infoHeader == ih
  {
    var off, ds := fh.offBits, DataSize(ih);
    if off + ds > |data| then Err(PixelDataOutOfBounds)
    else if ds < 0 then Err(Panic)
    else Ok(Bmp(fh, ih, data[off .. off + ds], ih.biWidth, AbsHeight(ih.biHeight)))
  }

  /** Palette entries assumed when BiClrUsed is 0. */
  function DefaultPaletteEntries(bitCount: int): int {
    if bitCount == 8 then 256 else if bitCount == 4 then 16 else 2
  }

  /** Palette entries an indexed decoder slices out of the file. */
  function PaletteEntries(ih: InfoHeader): int {
    if ih.biClrUsed == 0 then DefaultPaletteEntries(ih.biBitCount) else ih.biClrUsed
  }

  /** The colour table starts right after the info header, whose size is BiSize. */
  function PaletteOffsetInFile(ih: InfoHeader): int {
    FileHeaderSize + ih.biSize
  }

  /** The checks a converting decoder passes before its pixel loop, in the order it makes them. */
  function ConvertedPrecheck(data: seq<Byte>, fh: FileHeader, ih: InfoHeader): Option<BmpError> {
    var ds := DataSize(ih);
    if fh.offBits + ds > |data| then Some(PixelDataOutOfBounds)
    else if ih.biBitCount != 16 && PaletteOffsetInFile(ih) + PaletteEntries(ih) * 4 > |data| then Some(Panic)
    else if ds < 0 then Some(Panic)
    else if ih.biWidth * AbsHeight(ih.biHeight) * 3 < 0 then Some(Panic)
    else None
  }

  /** Where a converting decoder reads its pixels from, once its checks have passed. */
  function ConvertedSource(data: seq<Byte>, fh: FileHeader, ih: InfoHeader): (src: PixelSource)
    requires fh.Valid() && ih.Valid() && ConvertedPrecheck(data, fh, ih).None?
    ensures |src.raw| == DataSize(ih) && src.rowSize == DecoderRowSize(ih.biBitCount, ih.biWidth)
    ensures src.Indexed? <==> ih.biBitCount != 16
    ensures src.Indexed? ==> |src.table| == 4 * PaletteEntries(ih) && src.bitCount == ih.biBitCount
  {
    var off, ds := fh.offBits, DataSize(ih);
    var raw := data[off .. off + ds];
    var rs := DecoderRowSize(ih.biBitCount, ih.biWidth);
    if ih.biBitCount == 16 then Packed565(raw, rs)
    else
      var cto := PaletteOffsetInFile(ih);
      Indexed(ih.biBitCount, raw, rs, data[cto .. cto + PaletteEntries(ih) * 4])
  }

  function Reader(src: PixelSource): PixelReader {
    (y, x) => src.PixelAt(y, x)
  }

  /** The image width the pixel loop runs over (a negative width only gets here with no rows). */
  function LoopWidth(ih: InfoHeader): nat {
    if ih.biWidth < 0 then 0 else ih.biWidth
  }

  /** What processBmp16bit, 8bit, 4bit and 1bit return. */
  function ConvertedBmp(data: seq<Byte>, fh: FileHeader, ih: InfoHeader): Result<Bmp, BmpError>
    requires fh.Valid() && ih.Valid()
  {
    match ConvertedPrecheck(data, fh, ih)
    case Some(e) => Err(e)
    case None =>
      match Rows(Reader(ConvertedSource(data, fh, ih)), LoopWidth(ih), AbsHeight(ih.biHeight))
      case None => Err(Panic)
      case Some(pixels) => Ok(Bmp(fh, ih, pixels, ih.biWidth, AbsHeight(ih.biHeight)))
  }

  /** The converting decoders: the checks, then the nested pixel loop. */
  method ProcessBmpConverted(data: seq<Byte>, fh: FileHeader, ih: InfoHeader) returns (r: Result<Bmp, BmpError>)
    requires fh.Valid() && ih.Valid()
    ensures r == ConvertedBmp(data, fh, ih)
  {
    var pre := ConvertedPrecheck(data, fh, ih);
    if pre.Some? {
      return Err(pre.value);
    }
    var height := AbsHeight(ih.biHeight);
    var src := ConvertedSource(data, fh, ih);
    var pixels := FillPixels(Reader(src), LoopWidth(ih), height);
    if pixels.None? {
      return Err(Panic);
    }
    return Ok(Bmp(fh, ih, pixels.value, ih.biWidth, height));
  }

  /** What LoadBmp returns for the bytes of a file. */
  function LoadBmpResult(data: seq<Byte>): (r: Result<Bmp, BmpError>)
    ensures r == Err(TooSmall) <==> |data| < HeadersSize
  {
    if |data| < HeadersSize then Err(TooSmall)
    else
      var fh := ParseFileHeader(data);
      if fh.fileType != BmMagic then Err(BadFileType(fh.fileType))
      else
        var ih := ParseInfoHeader(data);
        if ih.biCompression != 0 then Err(Compressed)
        else if ih.biBitCount == 32 || ih.biBitCount == 24 then ProcessBmpSlice(data, fh, ih)
        else if ih.biBitCount == 16 || ih.biBitCount == 8 || ih.biBitCount == 4 || ih.biBitCount == 1 then
          ConvertedBmp(data, fh, ih)
        else Err(UnsupportedBitCount(ih.biBitCount))
  }

  /** LoadBmp: validate the headers, then dispatch on the bit count. */
  method LoadBmp(data: seq<Byte>) returns (r: Result<Bmp, BmpError>)
    ensures r == LoadBmpResult(data)
  {
    if |data| < HeadersSize {
      return Err(TooSmall);
    }
    var fh := ParseFileHeader(data);
    if fh.fileType != BmMagic {
      return Err(BadFileType(fh.fileType));
    }
    var ih := ParseInfoHeader(data);
    if ih.biCompression != 0 {
      return Err(Compressed);
    }
    match ih.biBitCount
    case 32 => r := ProcessBmpSlice(data, fh, ih);
    case 24 => r := ProcessBmpSlice(data, fh, ih);
    case 16 => r := ProcessBmpConverted(data, fh, ih);
    case 8 => r := ProcessBmpConverted(data, fh, ih);
    case 4 => r := ProcessBmpConverted(data, fh, ih);
    case 1 => r := ProcessBmpConverted(data, fh, ih);
    case _ => r := Err(UnsupportedBitCount(ih.biBitCount));
  }

  /** LoadBmp makes its checks in order, each on the header field at its fixed offset. */
  lemma LoadBmpChecks(data: seq<Byte>)
    requires |data| >= HeadersSize
    ensures var r := LoadBmpResult(data);
      (r.Err? && r.error.BadFileType? <==> U16(data, 0) != BmMagic) &&
      (U16(data, 0) == BmMagic ==> (r == Err(Compressed) <==> U32(data, 30) != 0)) &&
      (U16(data, 0) == BmMagic && U32(data, 30) == 0 ==>
         (r.Err? && r.error.UnsupportedBitCount? <==> !IsBmpBitCount(U16(data, 28))))
    ensures var fh, ih := ParseFileHeader(data), ParseInfoHeader(data);
      fh.fileType == BmMagic && ih.biCompression == 0 && IsBmpBitCount(ih.biBitCount) ==>
        LoadBmpResult(data) ==
          if ih.biBitCount >= 24 then ProcessBmpSlice(data, fh, ih) else ConvertedBmp(data, fh, ih)
  {
    var fh, ih := ParseFileHeader(data), ParseInfoHeader(data);
    if fh.fileType == BmMagic && ih.biCompression == 0 && IsBmpBitCount(ih.biBitCount) {
      if ih.biBitCount < 24 {
      }
    }
  }

  /**
   * A 24- or 32-bit top-down file put together from buildBitMapHeader,
   * buildBitMapInfoHeader and rows of calcBmpSize bytes loads back as those
   * headers, rows and dimensions.
   */
  lemma {:induction false} BuiltBmpLoads(width: int, height: int, ppmX: int, ppmY: int, bitCount: int, pixels: seq<Byte>)
    requires bitCount == 24 || bitCount == 32
    requires IsInt32(width) && IsInt32(height) && IsInt32(ppmX) && IsInt32(ppmY)
    requires 0 <= width && 0 < height
    requires |pixels| == CalcBmpSize(width, height, CalcBytesPerPixel(bitCount), bitCount)
    requires HeadersSize + |pixels| < TwoTo32
    ensures var fh := BuildBitMapHeader(InfoHeaderSize, |pixels|);
            var ih := BuildBitMapInfoHeader(width, height, ppmX, ppmY, bitCount, 0);
      LoadBmpResult(EncodeFileHeader(fh) + EncodeInfoHeader(ih) + pixels) ==
        Ok(Bmp(fh, ih, pixels, width, height))
  {
    var fh := BuildBitMapHeader(InfoHeaderSize, |pixels|);
    var ih := BuildBitMapInfoHeader(width, height, ppmX, ppmY, bitCount, 0);
    var ef, ei := EncodeFileHeader(fh), EncodeInfoHeader(ih);
    var data := ef + ei + pixels;
    FileHeaderRoundTrip(fh, ei + pixels);
    Assoc(ef, ei, pixels);
    InfoHeaderRoundTrip(ef, ih, pixels);
    assert fh.offBits == HeadersSize == |ef + ei|;
    BuiltDataSize(ih, width, height, bitCount);
    SliceAfter(ef + ei, pixels);
    assert ParseFileHeader(data) == fh && ParseInfoHeader(data) == ih;
    SliceLoads(data, fh, ih);
    assert AbsHeight(ih.biHeight) == height;
  }

  /**
   * A 24- or 32-bit uncompressed file whose rows fit loads as the slice of
   * its rows, with the width and height its info header gives.
   */
  lemma SliceLoads(data: seq<Byte>, fh: FileHeader, ih: InfoHeader)
    requires |data| >= HeadersSize && ParseFileHeader(data) == fh && ParseInfoHeader(data) == ih
    requires fh.Valid() && ih.Valid() && fh.fileType == BmMagic && ih.biCompression == 0
    requires ih.biBitCount == 24 || ih.biBitCount == 32
    requires 0 <= DataSize(ih) && fh.offBits + DataSize(ih) <= |data|
    ensures LoadBmpResult(data) ==
      Ok(Bmp(fh, ih, data[fh.offBits .. fh.offBits + DataSize(ih)], ih.biWidth, AbsHeight(ih.biHeight)))
  {
  }

  /** The bytes after a prefix are the suffix. */
  lemma SliceAfter(a: seq<Byte>, b: seq<Byte>)
    ensures (a + b)[|a| .. |a| + |b|] == b
  {
  }

  /** The decoder reads back exactly the rows calcBmpSize counted for a 24- or 32-bit image. */
  lemma BuiltDataSize(ih: InfoHeader, width: int, height: int, bitCount: int)
    requires bitCount == 24 || bitCount == 32
    requires 0 <= width && 0 < height
    requires ih.biWidth == width && ih.biHeight == -height && ih.biBitCount == bitCount
    ensures DataSize(ih) == CalcBmpSize(width, height, CalcBytesPerPixel(bitCount), bitCount)
  {
    assert AbsHeight(ih.biHeight) == height;
  }

  /** Row `y` starts at y * rs; an offset within the row stays within `h` rows. */
  lemma WithinRows(y: int, h: int, rs: int, k: int)
    requires 0 <= y < h && 0 <= k < rs
    ensures 0 <= y * rs && y * rs + k < rs * h
  {
    MulLeftMono(y + 1, h, rs);
    MulLeftMono(0, y, rs);
  }

  /** Bytes a row needs at each depth, the padded row size being at least that. */
  lemma RowHoldsPixels(bitCount: int, w: int, x: int)
    requires (bitCount == 16 || bitCount == 8 || bitCount == 4 || bitCount == 1) && 0 <= x < w
    ensures var rs := DecoderRowSize(bitCount, w);
      if bitCount == 16 then 2 * x + 1 < rs
      else if bitCount == 8 then x < rs
      else if bitCount == 4 then x / 2 < rs
      else x / 8 < rs
  {
    if bitCount == 4 {
      assert (w - 1) / 2 < (w + 1) / 2;
    } else if bitCount == 1 {
      assert (w - 1) / 8 < (w + 7) / 8;
    }
  }

  /** The decoders never read a pixel byte outside the padded rows they sliced. */
  lemma ConvertedReadsInRows(data: seq<Byte>, fh: FileHeader, ih: InfoHeader, y: int, x: int)
    requires fh.Valid() && ih.Valid() && ConvertedPrecheck(data, fh, ih).None?
    requires ih.biBitCount == 16 || ih.biBitCount == 8 || ih.biBitCount == 4 || ih.biBitCount == 1
    requires 0 <= y < AbsHeight(ih.biHeight) && 0 <= x < LoopWidth(ih)
    ensures ConvertedSource(data, fh, ih).Readable(y, x)
  {
    var src := ConvertedSource(data, fh, ih);
    var bc, rs, h := ih.biBitCount, src.rowSize, AbsHeight(ih.biHeight);
    assert |src.raw| == rs * h;
    RowHoldsPixels(bc, ih.biWidth, x);
    var k := if bc == 16 then 2 * x else if bc == 8 then x else if bc == 4 then x / 2 else x / 8;
    var extra := if bc == 16 then 1 else 0;
    assert src.ReadOffset(y, x) == y * rs + k;
    WithinRows(y, h, rs, k + extra);
    assert 0 <= y * rs + k && y * rs + k + extra < |src.raw|;
  }

  /**
   * A converting decoder whose checks pass returns an image exactly when
   * every pixel is read from an entry of the palette (at 8 bits the entry
   * of its index modulo 64); 16-bit images always decode.
   */
  lemma {:induction false} ConvertedSucceeds(data: seq<Byte>, fh: FileHeader, ih: InfoHeader)
    requires fh.Valid() && ih.Valid()
    requires ih.biBitCount == 16 || ih.biBitCount == 8 || ih.biBitCount == 4 || ih.biBitCount == 1
    ensures ConvertedBmp(data, fh, ih).Ok? <==>
      ConvertedPrecheck(data, fh, ih).None? &&
      (ih.biBitCount == 16 ||
       forall y, x | 0 <= y < AbsHeight(ih.biHeight) && 0 <= x < LoopWidth(ih) ::
         ConvertedSource(data, fh, ih).Readable(y, x) &&
         ConvertedSource(data, fh, ih).EntryIndex(y, x) < PaletteEntries(ih))
  {
    if ConvertedPrecheck(data, fh, ih).None? {
      var src := ConvertedSource(data, fh, ih);
      var w, h := LoopWidth(ih), AbsHeight(ih.biHeight);
      assert ConvertedBmp(data, fh, ih).Ok? <==> Rows(Reader(src), w, h).Some?;
      RowsSomeIff(Reader(src), w, h);
      ConvertedPixelsSome(data, fh, ih);
    }
  }

  /** Each pixel the loop visits is readable, and it decodes exactly when the entry it is read from is in the palette. */
  lemma ConvertedPixelsSome(data: seq<Byte>, fh: FileHeader, ih: InfoHeader)
    requires fh.Valid() && ih.Valid() && ConvertedPrecheck(data, fh, ih).None?
    requires ih.biBitCount == 16 || ih.biBitCount == 8 || ih.biBitCount == 4 || ih.biBitCount == 1
    ensures var src := ConvertedSource(data, fh, ih);
      forall y, x | 0 <= y < AbsHeight(ih.biHeight) && 0 <= x < LoopWidth(ih) ::
        src.Readable(y, x) &&
        (Reader(src)(y, x).Some? <==> (ih.biBitCount == 16 || src.EntryIndex(y, x) < PaletteEntries(ih)))
  {
    var src := ConvertedSource(data, fh, ih);
    forall y, x | 0 <= y < AbsHeight(ih.biHeight) && 0 <= x < LoopWidth(ih)
      ensures src.Readable(y, x)
      ensures Reader(src)(y, x).Some? <==>
        (ih.biBitCount == 16 || src.EntryIndex(y, x) < PaletteEntries(ih))
    {
      ConvertedReadsInRows(data, fh, ih, y, x);
      if ih.biBitCount != 16 {
        IndexedPixelSome(src, y, x, PaletteEntries(ih));
      }
    }
  }

  /** A decoded 16/8/4/1-bit image holds 3 * width * height bytes: three per pixel, unpadded. */
  lemma ConvertedSize(data: seq<Byte>, fh: FileHeader, ih: InfoHeader)
    requires fh.Valid() && ih.Valid() && ConvertedBmp(data, fh, ih).Ok?
    ensures ConvertedPrecheck(data, fh, ih).None?
    ensures ConvertedBmp(data, fh, ih).value.width == ih.biWidth
    ensures ConvertedBmp(data, fh, ih).value.height == AbsHeight(ih.biHeight)
    ensures |ConvertedBmp(data, fh, ih).value.data| == 3 * LoopWidth(ih) * AbsHeight(ih.biHeight)
    ensures AbsHeight(ih.biHeight) > 0 ==> LoopWidth(ih) == ih.biWidth
  {
    var src := ConvertedSource(data, fh, ih);
    var w, h := LoopWidth(ih), AbsHeight(ih.biHeight);
    var rows := Rows(Reader(src), w, h);
    assert rows.Some? && ConvertedBmp(data, fh, ih).value.data == rows.value;
    if ih.biWidth < 0 && h > 0 {
      MulLeftMono(ih.biWidth, -1, h);
    }
    RowsLength(Reader(src), w, h);
  }

  /**
   * Pixel (x, y) of a decoded 16/8/4/1-bit image is stored as B, G, R at
   * (y * width + x) * 3, taken from the pixel the source holds there: a
   * 16-bit pixel is its 5-6-5 word expanded by Rgb565, an indexed pixel the
   * first three bytes of the palette entry it is read from.
   */
  lemma ConvertedPixel(data: seq<Byte>, fh: FileHeader, ih: InfoHeader, y: nat, x: nat, c: nat)
    requires fh.Valid() && ih.Valid() && ConvertedBmp(data, fh, ih).Ok?
    requires ConvertedPrecheck(data, fh, ih).None?
    requires y < AbsHeight(ih.biHeight) && x < LoopWidth(ih) && c < 3
    ensures PixelIndex(LoopWidth(ih), y, x, c) < |ConvertedBmp(data, fh, ih).value.data|
    ensures ConvertedSource(data, fh, ih).PixelAt(y, x).Some?
    ensures ConvertedBmp(data, fh, ih).value.data[PixelIndex(LoopWidth(ih), y, x, c)] ==
            ConvertedSource(data, fh, ih).PixelAt(y, x).value.Bytes()[c]
  {
    var src := ConvertedSource(data, fh, ih);
    var w, h := LoopWidth(ih), AbsHeight(ih.biHeight);
    var rows := Rows(Reader(src), w, h);
    assert rows.Some? && ConvertedBmp(data, fh, ih).value.data == rows.value;
    RowsAt(Reader(src), w, h, y, x, c);
  }

  /**
   * At the palette depths, byte c of decoded pixel (x, y) is byte c of the
   * palette entry the pixel is read from, which lies in the table.
   */
  lemma ConvertedPaletteEntry(data: seq<Byte>, fh: FileHeader, ih: InfoHeader, y: nat, x: nat, c: nat)
    requires fh.Valid() && ih.Valid() && ConvertedBmp(data, fh, ih).Ok? && ih.biBitCount != 16
    requires ConvertedPrecheck(data, fh, ih).None?
    requires y < AbsHeight(ih.biHeight) && x < LoopWidth(ih) && c < 3
    ensures var src := ConvertedSource(data, fh, ih);
      src.Readable(y, x) && 0 <= src.EntryIndex(y, x) < PaletteEntries(ih) &&
      PixelIndex(LoopWidth(ih), y, x, c) < |ConvertedBmp(data, fh, ih).value.data| &&
      ConvertedBmp(data, fh, ih).value.data[PixelIndex(LoopWidth(ih), y, x, c)] == src.table[4 * src.EntryIndex(y, x) + c]
  {
    var src := ConvertedSource(data, fh, ih);
    ConvertedPixel(data, fh, ih, y, x, c);
    assert src.Readable(y, x);
    IndexedPixelByte(src, y, x, PaletteEntries(ih), c);
  }
}
