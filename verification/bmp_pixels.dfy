/**
 * The pixel conversion shared by the 16-, 8-, 4- and 1-bit BMP decoders
 * (device/display/display__tools.go, processBmp16bit .. processBmp1bit):
 * each walks the padded source rows top to bottom, left to right, and
 * writes three bytes B, G, R per pixel into a fresh packed buffer.
 */
module BmpPixels {
  import opened Tools
  import opened Wrappers
  import opened BmpFormat

  /** One output pixel, in the order the decoders store it: blue, green, red. */
  datatype Bgr = Bgr(blue: Byte, green: Byte, red: Byte)
  {
    function Bytes(): (s: seq<Byte>)
      ensures |s| == 3 && s[0] == blue && s[1] == green && s[2] == red
    {
      [blue, green, red]
    }
  }

  function Pow2(k: nat): (p: nat)
    ensures p >= 1
  {
    if k == 0 then 1 else 2 * Pow2(k - 1)
  }

  /** Go's `(b >> k) & 1` on a byte. */
  function BitOf(b: Byte, k: nat): (r: int)
    ensures r == 0 || r == 1
  {
    (b / Pow2(k)) % 2
  }

  /** The colour index of 4-bit pixel `x` in byte `b`: high nibble first. */
  function NibbleOf(b: Byte, x: int): (r: int)
    ensures 0 <= r < 16
  {
    if x % 2 == 0 then b / 16 else b % 16
  }

  /** The colour index of 1-bit pixel `x` in byte `b`: most significant bit first. */
  function BitPixelOf(b: Byte, x: int): (r: int)
    ensures r == 0 || r == 1
  {
    BitOf(b, 7 - x % 8)
  }

  /** Splitting a byte into its two nibbles loses nothing: high nibble first. */
  lemma NibblesRecombine(b: Byte)
    ensures 16 * NibbleOf(b, 0) + NibbleOf(b, 1) == b
  {
  }

  /** The eight 1-bit pixels of a byte, most significant first, are the byte. */
  lemma BitsRecombine(b: Byte)
    ensures b == 128 * BitPixelOf(b, 0) + 64 * BitPixelOf(b, 1) + 32 * BitPixelOf(b, 2) +
                 16 * BitPixelOf(b, 3) + 8 * BitPixelOf(b, 4) + 4 * BitPixelOf(b, 5) +
                 2 * BitPixelOf(b, 6) + BitPixelOf(b, 7)
  {
    BitPixelsOfByte(b);
    BinaryDigits(b);
  }

  /** A byte is the sum of its binary digits, each weighted by its power of two. */
  lemma BinaryDigits(b: nat)
    requires b < 256
    ensures b == 128 * ((b / 128) % 2) + 64 * ((b / 64) % 2) + 32 * ((b / 32) % 2) +
                 16 * ((b / 16) % 2) + 8 * ((b / 8) % 2) + 4 * ((b / 4) % 2) +
                 2 * ((b / 2) % 2) + b % 2
  {
    HalveStep(b, 1);
    HalveStep(b, 2);
    HalveStep(b, 4);
    HalveStep(b, 8);
    HalveStep(b, 16);
    HalveStep(b, 32);
    HalveStep(b, 64);
    assert b / 128 < 2;
    SumOfDigits(b, b / 2, b / 4, b / 8, b / 16, b / 32, b / 64, b / 128,
                b % 2, (b / 2) % 2, (b / 4) % 2, (b / 8) % 2, (b / 16) % 2, (b / 32) % 2, (b / 64) % 2, (b / 128) % 2);
  }

  /** Seven halvings with their remainders rebuild the number: the linear core of BinaryDigits. */
  lemma SumOfDigits(b: int, q1: int, q2: int, q3: int, q4: int, q5: int, q6: int, q7: int,
                    r0: int, r1: int, r2: int, r3: int, r4: int, r5: int, r6: int, r7: int)
    requires b == 2 * q1 + r0 && q1 == 2 * q2 + r1 && q2 == 2 * q3 + r2 && q3 == 2 * q4 + r3
    requires q4 == 2 * q5 + r4 && q5 == 2 * q6 + r5 && q6 == 2 * q7 + r6 && q7 == r7
    ensures b == 128 * r7 + 64 * r6 + 32 * r5 + 16 * r4 + 8 * r3 + 4 * r2 + 2 * r1 + r0
  {
  }

  /** The eight 1-bit pixels of a byte as quotients by powers of two. */
  lemma BitPixelsOfByte(b: Byte)
    ensures BitPixelOf(b, 0) == (b / 128) % 2 && BitPixelOf(b, 1) == (b / 64) % 2
    ensures BitPixelOf(b, 2) == (b / 32) % 2 && BitPixelOf(b, 3) == (b / 16) % 2
    ensures BitPixelOf(b, 4) == (b / 8) % 2 && BitPixelOf(b, 5) == (b / 4) % 2
    ensures BitPixelOf(b, 6) == (b / 2) % 2 && BitPixelOf(b, 7) == b % 2
  {
    assert Pow2(0) == 1 && Pow2(1) == 2 && Pow2(2) == 4 && Pow2(3) == 8;
    assert Pow2(4) == 16 && Pow2(5) == 32 && Pow2(6) == 64 && Pow2(7) == 128;
  }

  /** Peeling the low bit off `b / d`: the step behind BitsRecombine. */
  lemma HalveStep(b: nat, d: nat)
    requires d > 0
    ensures b / d == 2 * (b / (2 * d)) + (b / d) % 2
  {
    var q := b / d;
    assert q / 2 == b / (2 * d) by {
      var r := b % d;
      assert b == d * q + r;
      assert b == (2 * d) * (q / 2) + (d * (q % 2) + r);
      assert 0 <= d * (q % 2) + r < 2 * d;
      DivUnique(b, 2 * d, q / 2, d * (q % 2) + r);
    }
  }

  /** A 5-6-5 word expanded to eight-bit channels (blue low, red high). */
  function Rgb565(word: int): (p: Bgr)
    requires 0 <= word < 0x1_0000
    ensures p.blue % 8 == 0 && p.green % 4 == 0 && p.red % 8 == 0
  {
    Bgr((word % 32) * 8, ((word / 32) % 64) * 4, ((word / 2048) % 32) * 8)
  }

  /** The 5-6-5 word a pixel's top channel bits spell. */
  function Pack565(p: Bgr): int {
    p.blue / 8 + 32 * (p.green / 4) + 2048 * (p.red / 8)
  }

  /** The expansion keeps every bit of the word. */
  lemma Rgb565Lossless(word: int)
    requires 0 <= word < 0x1_0000
    ensures Pack565(Rgb565(word)) == word
  {
    var p := Rgb565(word);
    var b, g, r := word % 32, (word / 32) % 64, word / 2048;
    assert p.blue / 8 == b && p.green / 4 == g;
    assert r < 32 && p.red / 8 == r;
    assert word / 32 == g + 64 * r;
    assert word == b + 32 * (word / 32);
  }

  /**
   * The byte offset in the colour table at which palette entry `index`
   * starts; entries are 4 bytes (B, G, R, reserved) wide. This is the
   * offset the indexed decoders are meant to compute.
   */
  function PaletteOffset(index: int): int {
    index * 4
  }

  /** Entry `index` lies inside a table of `n` entries exactly when index < n, and entries do not overlap. */
  lemma PaletteOffsetSelectsEntry(index: nat, other: nat, n: nat)
    ensures PaletteOffset(index) + 2 < 4 * n <==> index < n
    ensures index != other ==>
      PaletteOffset(index) + 4 <= PaletteOffset(other) || PaletteOffset(other) + 4 <= PaletteOffset(index)
  {
  }

  /**
   * The offset processBmp8bit computes as written: the colour index is a
   * uint8, so `colorIndex*4` is taken modulo 256.
   */
  function PaletteOffset8AsWritten(index: Byte): int {
    (index * 4) % 256
  }

  /** As written, index 64 reads palette entry 0, where entry 64 was meant. */
  lemma PaletteOffset8Wraps()
    ensures PaletteOffset8AsWritten(64) == PaletteOffset8AsWritten(0) == 0
    ensures PaletteOffset(64) == 256
  {
  }

  /**
   * A one-pixel 8-bit image of index 66 over a ten-entry table, entry k
   * being (k, k, k, k): as written the pixel decodes to entry 2, where the
   * intended offset 264 lies outside the 40-byte table.
   */
  lemma PaletteIndex66ReadsEntry2()
    ensures var table: seq<Byte> := seq(40, i requires 0 <= i < 40 => i / 4);
      Indexed(8, [66], 4, table).PixelAt(0, 0) == Some(Bgr(2, 2, 2)) &&
      PaletteOffset(66) + 2 >= |table|
  {
    var table: seq<Byte> := seq(40, i requires 0 <= i < 40 => i / 4);
    var src := Indexed(8, [66], 4, table);
    assert src.Readable(0, 0) && src.ReadOffset(0, 0) == 0;
    assert PaletteOffset8AsWritten(66) == 8;
    assert table[8] == 2 && table[9] == 2 && table[10] == 2;
  }

  /** As written, every index reads entry `index % 64`; the two agree exactly below 64. */
  lemma PaletteOffset8AsWrittenMeaning(index: Byte)
    ensures PaletteOffset8AsWritten(index) == PaletteOffset(index % 64)
    ensures PaletteOffset8AsWritten(index) == PaletteOffset(index) <==> index < 64
  {
  }

  /**
   * Where the pixels of a decoder come from: 5-6-5 packed words, or colour
   * indexes of `bitCount` bits (8, 4 or 1) looked up in `table`.
   */
  datatype PixelSource =
    | Packed565(raw: seq<Byte>, rowSize: int)
    | Indexed(bitCount: int, raw: seq<Byte>, rowSize: int, table: seq<Byte>)
  {
    /** Offset in `raw` of the first byte that pixel (x, y) is read from. */
    function ReadOffset(y: int, x: int): int {
      match this
      case Packed565(_, rs) => y * rs + x * 2
      case Indexed(bc, _, rs, _) =>
        if bc == 8 then y * rs + x else if bc == 4 then y * rs + x / 2 else y * rs + x / 8
    }

    /** Both bytes of a 5-6-5 word, or the one byte holding a colour index, lie in `raw`. */
    predicate Readable(y: int, x: int) {
      0 <= ReadOffset(y, x) && ReadOffset(y, x) + (if Packed565? then 1 else 0) < |raw|
    }

    /** The palette index of pixel (x, y). */
    function ColourIndex(y: int, x: int): int
      requires Indexed? && Readable(y, x)
    {
      var b := raw[ReadOffset(y, x)];
      if bitCount == 8 then b else if bitCount == 4 then NibbleOf(b, x) else BitPixelOf(b, x)
    }

    /**
     * The palette entry pixel (x, y) is actually read from: its colour
     * index, except at 8 bits, where the uint8 offset arithmetic of
     * processBmp8bit reduces the index modulo 64.
     */
    function EntryIndex(y: int, x: int): int
      requires Indexed? && Readable(y, x)
    {
      if bitCount == 8 then ColourIndex(y, x) % 64 else ColourIndex(y, x)
    }

    /**
     * The pixel at (x, y), or None where a read would fall outside the pixel
     * rows or the colour table (the source panics there). The 8-bit decoder
     * computes the table offset as written, in uint8 arithmetic; the 4- and
     * 1-bit ones cannot overflow it, their indexes being below 16.
     */
    function PixelAt(y: int, x: int): (p: Option<Bgr>)
      ensures Packed565? ==> (p.Some? <==> Readable(y, x))
    {
      if !Readable(y, x) then None else
      match this
      case Packed565(raw, rs) =>
        var o := ReadOffset(y, x);
        Some(Rgb565(raw[o] as int + 256 * (raw[o + 1] as int)))
      case Indexed(bc, raw, _, table) =>
        var off := if bc == 8 then PaletteOffset8AsWritten(raw[ReadOffset(y, x)]) else PaletteOffset(ColourIndex(y, x));
        if 0 <= off && off + 2 < |table| then Some(Bgr(table[off], table[off + 1], table[off + 2]))
        else None
    }
  }

  /**
   * A readable indexed pixel decodes exactly when the entry it is read from
   * lies in the table of n 4-byte entries, and is then
   * that entry's first three bytes. Below 64, or at 4 and 1 bits, that
   * entry is the one the colour index names.
   */
  lemma IndexedPixelSome(src: PixelSource, y: int, x: int, n: nat)
    requires src.Indexed? && src.Readable(y, x) && |src.table| == 4 * n
    ensures src.PixelAt(y, x).Some? <==> src.EntryIndex(y, x) < n
    ensures src.PixelAt(y, x).Some? ==>
      var e := src.EntryIndex(y, x);
      src.PixelAt(y, x).value == Bgr(src.table[4 * e], src.table[4 * e + 1], src.table[4 * e + 2])
    ensures src.bitCount != 8 || src.ColourIndex(y, x) < 64 ==> src.EntryIndex(y, x) == src.ColourIndex(y, x)
  {
    var e := src.EntryIndex(y, x);
    if src.bitCount == 8 {
      PaletteOffset8AsWrittenMeaning(src.raw[src.ReadOffset(y, x)]);
    }
    assert 0 <= e;
    PaletteOffsetSelectsEntry(e, 0, n);
  }

  /** Byte c of a decoded indexed pixel is byte c of the table entry it is read from. */
  lemma IndexedPixelByte(src: PixelSource, y: int, x: int, n: nat, c: nat)
    requires src.Indexed? && src.Readable(y, x) && |src.table| == 4 * n
    requires src.PixelAt(y, x).Some? && c < 3
    ensures 0 <= src.EntryIndex(y, x) < n
    ensures src.PixelAt(y, x).value.Bytes()[c] == src.table[4 * src.EntryIndex(y, x) + c]
  {
    IndexedPixelSome(src, y, x, n);
  }

  /** A pixel reader: the pixel at (x, y), or None where the source would panic. */
  type PixelReader = (int, int) -> Option<Bgr>

  /** The first `x` pixels of row `y`, packed, or None if one of them cannot be read. */
  function Row(px: PixelReader, y: nat, x: nat): Option<seq<Byte>>
  {
    if x == 0 then Some([])
    else
      var prev := Row(px, y, x - 1);
      var p := px(y, x - 1);
      if prev.Some? && p.Some? then Some(prev.value + p.value.Bytes()) else None
  }

  /** The first `y` rows of a `w`-pixel-wide image, packed, or None if a pixel cannot be read. */
  function Rows(px: PixelReader, w: nat, y: nat): Option<seq<Byte>>
  {
    if y == 0 then Some([])
    else
      var prev := Rows(px, w, y - 1);
      var r := Row(px, y - 1, w);
      if prev.Some? && r.Some? then Some(prev.value + r.value) else None
  }

  /** Offset of channel `c` of pixel (x, y) in a packed `w`-wide buffer. */
  function PixelIndex(w: nat, y: nat, x: nat, c: nat): nat {
    (y * w + x) * 3 + c
  }

  /** Offset of channel `c` of the `i`-th pixel in a packed buffer. */
  function Off3(i: int, c: int): int {
    3 * i + c
  }

  /** A row decodes exactly when each of its pixels can be read. */
  lemma {:induction false} RowSomeIff(px: PixelReader, y: nat, x: nat)
    ensures Row(px, y, x).Some? <==> forall i | 0 <= i < x :: px(y, i).Some?
  {
    if x > 0 {
      RowSomeIff(px, y, x - 1);
    }
  }

  lemma {:induction false} RowLength(px: PixelReader, y: nat, x: nat)
    requires Row(px, y, x).Some?
    ensures |Row(px, y, x).value| == 3 * x
  {
    if x > 0 {
      RowLength(px, y, x - 1);
    }
  }

  /** Channel `c` of pixel `i` of a decoded row sits at `Off3(i, c)`. */
  lemma {:induction false} RowAt(px: PixelReader, y: nat, x: nat, i: nat, c: nat)
    requires Row(px, y, x).Some? && i < x && c < 3
    ensures px(y, i).Some? && Off3(i, c) < |Row(px, y, x).value|
    ensures Row(px, y, x).value[Off3(i, c)] == px(y, i).value.Bytes()[c]
  {
    RowLength(px, y, x);
    var s := Row(px, y, x - 1).value;
    RowLength(px, y, x - 1);
    if i < x - 1 {
      RowAt(px, y, x - 1, i, c);
    } else {
      assert Off3(i, c) == |s| + c;
    }
  }

  lemma RowsIndexBound(w: nat, y: nat, x: nat, c: nat, h: nat)
    requires y < h && x < w && c < 3
    ensures 0 <= PixelIndex(w, y, x, c) < 3 * w * h
  {
    assert y * w + x < (y + 1) * w;
    MulLeftMono(y + 1, h, w);
  }

  lemma LastRowIndex(w: nat, h: nat, x: nat, c: nat)
    requires h > 0
    ensures PixelIndex(w, h - 1, x, c) == 3 * w * (h - 1) + Off3(x, c)
  {
    calc {
      PixelIndex(w, h - 1, x, c);
      ((h - 1) * w + x) * 3 + c;
      3 * ((h - 1) * w) + 3 * x + c;
      { assert (h - 1) * w == w * (h - 1); }
      3 * w * (h - 1) + Off3(x, c);
    }
  }

  lemma {:induction false} RowsLength(px: PixelReader, w: nat, h: nat)
    requires Rows(px, w, h).Some?
    ensures |Rows(px, w, h).value| == 3 * w * h
  {
    if h > 0 {
      RowsLength(px, w, h - 1);
      RowLength(px, h - 1, w);
      assert 3 * w * (h - 1) + 3 * w == 3 * w * h;
    }
  }

  /** A decoded image exists exactly when every pixel can be read. */
  lemma {:induction false} RowsSomeIff(px: PixelReader, w: nat, h: nat)
    ensures Rows(px, w, h).Some? <==>
      forall y, x | 0 <= y < h && 0 <= x < w :: px(y, x).Some?
  {
    if h > 0 {
      RowsSomeIff(px, w, h - 1);
      RowSomeIff(px, h - 1, w);
      if Rows(px, w, h - 1).Some? && !Row(px, h - 1, w).Some? {
        var x :| 0 <= x < w && px(h - 1, x).None?;
      }
    }
  }

  /** One row that cannot be decoded spoils the whole image. */
  lemma RowsNoneOfRow(px: PixelReader, w: nat, h: nat, y: nat)
    requires y < h && Row(px, y, w).None?
    ensures Rows(px, w, h).None?
  {
    RowSomeIff(px, y, w);
    var x :| 0 <= x < w && px(y, x).None?;
    RowsSomeIff(px, w, h);
  }

  /** Channel `c` of pixel (x, y) sits at `PixelIndex(w, y, x, c)` of the decoded image. */
  lemma {:induction false} RowsAt(px: PixelReader, w: nat, h: nat, y: nat, x: nat, c: nat)
    requires Rows(px, w, h).Some? && y < h && x < w && c < 3
    ensures px(y, x).Some? && PixelIndex(w, y, x, c) < |Rows(px, w, h).value|
    ensures Rows(px, w, h).value[PixelIndex(w, y, x, c)] == px(y, x).value.Bytes()[c]
  {
    RowsLength(px, w, h);
    RowsIndexBound(w, y, x, c, h);
    var s := Rows(px, w, h - 1).value;
    RowsLength(px, w, h - 1);
    if y < h - 1 {
      RowsAt(px, w, h - 1, y, x, c);
    } else {
      LastRowIndex(w, h, x, c);
      RowAt(px, h - 1, w, x, c);
    }
  }

  /** Pixel p stored as B, G, R at i, i + 1 and i + 2; the bytes before i are kept. */
  method PutBgr(a: array<Byte>, i: nat, p: Bgr)
    requires i + 3 <= a.Length
    modifies a
    ensures a[..i + 3] == old(a[..i]) + p.Bytes()
  {
    a[i] := p.blue;
    a[i + 1] := p.green;
    a[i + 2] := p.red;
    assert a[..i + 3] == old(a[..i]) + p.Bytes();
  }

  /**
   * The decoders' inner x loop over row `y`: writes the row's pixels from
   * `dst` on; false as soon as a pixel cannot be read.
   */
  method FillRow(pixelData: array<Byte>, px: PixelReader, y: nat, w: nat, dst: nat) returns (ok: bool)
    requires dst + 3 * w <= pixelData.Length
    modifies pixelData
    ensures ok <==> Row(px, y, w).Some?
    ensures ok ==> pixelData[..dst + 3 * w] == old(pixelData[..dst]) + Row(px, y, w).value
  {
    var x := 0;
    while x < w
      invariant 0 <= x <= w
      invariant Row(px, y, x).Some? && |Row(px, y, x).value| == 3 * x
      invariant pixelData[..dst + 3 * x] == old(pixelData[..dst]) + Row(px, y, x).value
    {
      match px(y, x)
      case None =>
        RowSomeIff(px, y, w);
        return false;
      case Some(p) =>
        PutBgr(pixelData, dst + 3 * x, p);
        assert Row(px, y, x + 1).value == Row(px, y, x).value + p.Bytes();
        Assoc(old(pixelData[..dst]), Row(px, y, x).value, p.Bytes());
      x := x + 1;
    }
    return true;
  }

  lemma Assoc(a: seq<Byte>, b: seq<Byte>, c: seq<Byte>)
    ensures a + b + c == a + (b + c)
  {
  }

  /** Row y of a w-wide image ends where row y + 1 starts, inside the buffer. */
  lemma NextRowFits(w: nat, y: nat, h: nat)
    requires y < h
    ensures 3 * w * (y + 1) == 3 * w * y + 3 * w <= 3 * w * h
  {
    MulLeftMono(y + 1, h, 3 * w);
  }

  /**
   * The decoders' nested y/x loop: a fresh `w * h * 3` buffer filled pixel
   * by pixel; None as soon as a pixel cannot be read.
   */
  method FillPixels(px: PixelReader, w: nat, h: nat) returns (r: Option<seq<Byte>>)
    ensures r == Rows(px, w, h)
  {
    var pixelData := new Byte[w * h * 3];
    assert pixelData.Length == 3 * w * h;
    var y := 0;
    var dst := 0;
    while y < h
      invariant 0 <= y <= h && dst == 3 * w * y
      invariant Rows(px, w, y).Some?
      invariant pixelData[..dst] == Rows(px, w, y).value
    {
      NextRowFits(w, y, h);
      var ok := FillRow(pixelData, px, y, w, dst);
      if !ok {
        RowsNoneOfRow(px, w, h, y);
        return None;
      }
      assert Rows(px, w, y + 1).value == Rows(px, w, y).value + Row(px, y, w).value;
      dst := dst + 3 * w;
      y := y + 1;
    }
    assert pixelData[..] == pixelData[..dst];
    return Some(pixelData[..]);
  }
}
