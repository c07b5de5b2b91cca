/**
 * The matcher's split of the scan into overlapping chunks
 * (tools/matcher/matcher_tools.go): chunkBMP, extractChunk and
 * validateBMPDimensions.
 *
 * chunkBMP walks a grid whose chunks are `max(W/10, 2*tw)` by
 * `max(H/10, 2*th)` pixels and overlap by the template's size, so the grid
 * advances by the chunk size less the template size; chunks at the right and
 * bottom edges are clipped to the scan. Go fills each row band in its own
 * goroutine and appends the bands in completion order; the model walks the
 * bands top to bottom.
 */
module Chunking {
  import opened Tools
  import opened Wrappers
  import opened BmpFormat
  import opened BmpSearch

  /** A chunk's place in the scan. Its Data is not kept: see extractChunk below. */
  datatype Chunk = Chunk(x: int, y: int, width: int, height: int)

  /** The grid chunkBMP derives from the scan's and the template's dimensions. */
  datatype Layout = Layout(
    width: int, height: int, chunkWidth: int, chunkHeight: int, overlapX: int, overlapY: int)
  {
    function StrideX(): int { chunkWidth - overlapX }
    function StrideY(): int { chunkHeight - overlapY }

    /** The steps of both grid loops move forward whenever the loop runs at all. */
    predicate Advances() {
      (width > 0 ==> StrideX() > 0) && (height > 0 ==> StrideY() > 0)
    }
  }

  function LayoutOf(scanWidth: int, scanHeight: int, smallWidth: int, smallHeight: int): (l: Layout)
    ensures l.chunkWidth >= 2 * smallWidth && l.chunkHeight >= 2 * smallHeight
    ensures l.StrideX() >= smallWidth && l.StrideY() >= smallHeight
  {
    Layout(scanWidth, scanHeight,
      Max(GoQuot(scanWidth, 10), smallWidth * 2), Max(GoQuot(scanHeight, 10), smallHeight * 2),
      smallWidth, smallHeight)
  }

  /**
   * A stride is never negative on a non-empty scan; it is zero only when the
   * template is empty and the scan under ten pixels.
   */
  lemma LayoutStrides(l: Layout, scanWidth: int, scanHeight: int, smallWidth: int, smallHeight: int)
    requires l == LayoutOf(scanWidth, scanHeight, smallWidth, smallHeight)
    ensures scanWidth > 0 ==> l.StrideX() >= 0 && l.chunkWidth >= 0
    ensures scanHeight > 0 ==> l.StrideY() >= 0 && l.chunkHeight >= 0
    ensures scanWidth > 0 && l.StrideX() == 0 ==> smallWidth == 0 && scanWidth < 10
    ensures scanHeight > 0 && l.StrideY() == 0 ==> smallHeight == 0 && scanHeight < 10
    ensures smallWidth >= 1 && smallHeight >= 1 ==> l.StrideX() >= 1 && l.StrideY() >= 1
  {
  }

  /** The chunk size along one axis at `start`: clipped to the scan at the far edge. */
  function Clip(start: int, size: int, limit: int): (r: int)
    ensures start + r <= limit || r == size
    ensures start + size > limit ==> start + r == limit
    ensures start + size <= limit ==> r == size
  {
    if start + size > limit then limit - start else size
  }

  /** The chunk chunkBMP records at grid point (x, y). */
  function GridChunk(l: Layout, x: int, y: int): Chunk {
    Chunk(x, y, Clip(x, l.chunkWidth, l.width), Clip(y, l.chunkHeight, l.height))
  }

  /** The chunks of the row band at `y`, from column `x` on. */
  function Band(l: Layout, x: int, y: int): seq<Chunk>
    requires x < l.width ==> l.StrideX() > 0
    decreases l.width - x
  {
    if x >= l.width then [] else [GridChunk(l, x, y)] + Band(l, x + l.StrideX(), y)
  }

  /** The row bands from `y` down. */
  function Bands(l: Layout, y: int): seq<Chunk>
    requires y >= 0 && l.Advances()
    decreases l.height - y
  {
    if y >= l.height then [] else Band(l, 0, y) + Bands(l, y + l.StrideY())
  }

  /** The chunk lies inside the scan and is not empty. */
  predicate Inside(l: Layout, c: Chunk) {
    0 <= c.x && 1 <= c.width && c.x + c.width <= l.width &&
    0 <= c.y && 1 <= c.height && c.y + c.height <= l.height
  }

  lemma {:induction false} BandInside(l: Layout, x: int, y: int)
    requires 0 <= x && 0 <= y < l.height && l.Advances()
    requires l.chunkWidth >= 1 && l.chunkHeight >= 1
    ensures forall c | c in Band(l, x, y) :: Inside(l, c) && c.y == y && c.x >= x
    decreases l.width - x
  {
    if x < l.width {
      BandInside(l, x + l.StrideX(), y);
    }
  }

  lemma {:induction false} BandsInside(l: Layout, y: int)
    requires 0 <= y && l.Advances()
    requires l.chunkWidth >= 1 && l.chunkHeight >= 1
    ensures forall c | c in Bands(l, y) :: Inside(l, c) && c.y >= y
    decreases l.height - y
  {
    if y < l.height {
      BandInside(l, 0, y);
      BandsInside(l, y + l.StrideY());
    }
  }

  /** Chunk `a` comes before chunk `b` in the grid: an earlier band, or further left in the same band. */
  predicate GridBefore(a: Chunk, b: Chunk) {
    a.y < b.y || (a.y == b.y && a.x < b.x)
  }

  predicate GridSorted(s: seq<Chunk>) {
    forall i, j | 0 <= i < j < |s| :: GridBefore(s[i], s[j])
  }

  lemma {:induction false} BandSorted(l: Layout, x: int, y: int)
    requires x < l.width ==> l.StrideX() > 0
    ensures GridSorted(Band(l, x, y))
    ensures forall c | c in Band(l, x, y) :: c.y == y && c.x >= x
    decreases l.width - x
  {
    if x < l.width {
      BandSorted(l, x + l.StrideX(), y);
      var rest := Band(l, x + l.StrideX(), y);
      assert forall j | 0 <= j < |rest| :: GridBefore(GridChunk(l, x, y), rest[j]) by {
        forall j | 0 <= j < |rest| ensures GridBefore(GridChunk(l, x, y), rest[j]) {
          assert rest[j] in rest;
        }
      }
    }
  }

  lemma {:induction false} BandsSorted(l: Layout, y: int)
    requires 0 <= y && l.Advances()
    ensures GridSorted(Bands(l, y))
    ensures forall c | c in Bands(l, y) :: c.y >= y
    decreases l.height - y
  {
    if y < l.height {
      var band, rest := Band(l, 0, y), Bands(l, y + l.StrideY());
      assert Bands(l, y) == band + rest;
      BandSorted(l, 0, y);
      BandsSorted(l, y + l.StrideY());
      assert l.StrideY() > 0;
      SortedConcat(band, rest, y);
    }
  }

  /** A sorted band followed by sorted chunks of later bands is sorted. */
  lemma SortedConcat(band: seq<Chunk>, rest: seq<Chunk>, y: int)
    requires GridSorted(band) && GridSorted(rest)
    requires forall c | c in band :: c.y == y
    requires forall c | c in rest :: c.y > y
    ensures GridSorted(band + rest)
    ensures forall c | c in band + rest :: c.y >= y
  {
    var all := band + rest;
    forall i, j | 0 <= i < j < |all| ensures GridBefore(all[i], all[j]) {
      if j < |band| {
        assert all[i] == band[i] && all[j] == band[j];
      } else if i >= |band| {
        assert all[i] == rest[i - |band|] && all[j] == rest[j - |band|];
      } else {
        assert all[i] == band[i] && band[i] in band;
        assert all[j] == rest[j - |band|] && all[j] in rest;
      }
    }
  }

  /** The template window at (x, y) lies wholly inside chunk `c`. */
  predicate HoldsWindow(c: Chunk, x: int, y: int, smallWidth: int, smallHeight: int) {
    c.x <= x && x + smallWidth <= c.x + c.width && c.y <= y && y + smallHeight <= c.y + c.height
  }

  /** The grid point at or left of `x` along one axis: the chunk whose extent holds the window. */
  lemma {:induction false} BandHolds(l: Layout, x0: int, y: int, x: int) returns (c: Chunk)
    requires 0 <= x0 <= x && l.StrideX() > 0 && l.overlapX >= 1
    requires x + l.overlapX <= l.width
    ensures c in Band(l, x0, y) && c.y == y && c.x <= x && x + l.overlapX <= c.x + c.width
    ensures c.height == Clip(y, l.chunkHeight, l.height)
    decreases x - x0
  {
    if x < x0 + l.StrideX() {
      c := GridChunk(l, x0, y);
    } else {
      c := BandHolds(l, x0 + l.StrideX(), y, x);
    }
  }

  lemma {:induction false} BandsHold(l: Layout, y0: int, x: int, y: int) returns (c: Chunk)
    requires 0 <= y0 <= y && l.Advances() && l.overlapX >= 1 && l.overlapY >= 1
    requires 0 <= x && x + l.overlapX <= l.width && y + l.overlapY <= l.height
    ensures c in Bands(l, y0) && HoldsWindow(c, x, y, l.overlapX, l.overlapY)
    decreases y - y0
  {
    if y < y0 + l.StrideY() {
      c := BandHolds(l, 0, y0, x);
    } else {
      c := BandsHold(l, y0 + l.StrideY(), x, y);
    }
  }

  lemma {:induction false} BandsAreGridChunks(l: Layout, y: int)
    requires 0 <= y && l.Advances()
    ensures forall c | c in Bands(l, y) :: c == GridChunk(l, c.x, c.y)
    decreases l.height - y
  {
    if y < l.height {
      BandAreGridChunks(l, 0, y);
      BandsAreGridChunks(l, y + l.StrideY());
    }
  }

  lemma {:induction false} BandAreGridChunks(l: Layout, x: int, y: int)
    requires x < l.width ==> l.StrideX() > 0
    ensures forall c | c in Band(l, x, y) :: c == GridChunk(l, c.x, c.y) && c.y == y
    decreases l.width - x
  {
    if x < l.width {
      BandAreGridChunks(l, x + l.StrideX(), y);
    }
  }

  /**
   * The first `rows` rows of a chunk copied one by one: row r is `rowBytes`
   * bytes of scan row startY+r from column startX; None where a row lies
   * outside the data.
   */
  function ChunkRows(data: seq<Byte>, startX: int, startY: int, rowBytes: nat, rowSize: int, bpp: int, rows: nat)
    : (r: Option<seq<Byte>>)
    ensures r.Some? ==> |r.value| == rows * rowBytes
  {
    if rows == 0 then Some([])
    else
      var prev := ChunkRows(data, startX, startY, rowBytes, rowSize, bpp, rows - 1);
      var src := (startY + rows - 1) * rowSize + startX * bpp;
      if prev.Some? && 0 <= src && src + rowBytes <= |data| then Some(prev.value + data[src .. src + rowBytes])
      else None
  }

  /**
   * What a chunk's bytes are meant to be: its rows, each taken from its own
   * scan row. This is extractChunk's row-by-row branch.
   */
  function ExtractedChunk(data: seq<Byte>, startX: int, startY: int, chunkWidth: int, chunkHeight: int,
                          rowSize: int, bpp: int): Option<seq<Byte>>
    requires chunkWidth >= 0 && chunkHeight >= 0 && bpp >= 0
  {
    ChunkRows(data, startX, startY, chunkWidth * bpp, rowSize, bpp, chunkHeight)
  }

  /** extractChunk's test for taking one linear copy: the chunk's columns fit in a row. */
  predicate Contiguous(startX: int, chunkWidth: int, rowSize: int, bpp: int) {
    startX * bpp + chunkWidth * bpp <= rowSize
  }

  /**
   * extractChunk as written: when the columns fit in a row it copies
   * `chunkWidth*chunkHeight*bpp` consecutive bytes from the chunk's top-left
   * pixel, otherwise it copies row by row.
   */
  function ExtractedChunkAsWritten(data: seq<Byte>, startX: int, startY: int, chunkWidth: int, chunkHeight: int,
                                   rowSize: int, bpp: int): (r: Option<seq<Byte>>)
    requires chunkWidth >= 0 && chunkHeight >= 0 && bpp >= 0
    ensures r.Some? ==> |r.value| == chunkWidth * chunkHeight * bpp
  {
    if Contiguous(startX, chunkWidth, rowSize, bpp) then
      var src, size := startY * rowSize + startX * bpp, chunkWidth * chunkHeight * bpp;
      if 0 <= src && src + size <= |data| then Some(data[src .. src + size]) else None
    else
      assert chunkWidth * bpp * chunkHeight == chunkWidth * chunkHeight * bpp;
      ExtractedChunk(data, startX, startY, chunkWidth, chunkHeight, rowSize, bpp)
  }

  lemma {:induction false} ChunkRowsNoneStays(data: seq<Byte>, startX: int, startY: int, rowBytes: nat,
                                               rowSize: int, bpp: int, n: nat, m: nat)
    requires n <= m && ChunkRows(data, startX, startY, rowBytes, rowSize, bpp, n).None?
    ensures ChunkRows(data, startX, startY, rowBytes, rowSize, bpp, m).None?
  {
    if n < m {
      ChunkRowsNoneStays(data, startX, startY, rowBytes, rowSize, bpp, n, m - 1);
    }
  }

  /**
   * Byte k of row `row` of a chunk copied row by row is byte k of scan row
   * startY+row from column startX.
   */
  lemma {:induction false} ChunkRowsAt(data: seq<Byte>, startX: int, startY: int, rowBytes: nat,
                                        rowSize: int, bpp: int, rows: nat, row: nat, k: nat)
    requires ChunkRows(data, startX, startY, rowBytes, rowSize, bpp, rows).Some?
    requires row < rows && k < rowBytes
    ensures var src := (startY + row) * rowSize + startX * bpp;
      0 <= src + k < |data| && row * rowBytes + k < rows * rowBytes &&
      ChunkRows(data, startX, startY, rowBytes, rowSize, bpp, rows).value[row * rowBytes + k] == data[src + k]
  {
    var prev := ChunkRows(data, startX, startY, rowBytes, rowSize, bpp, rows - 1);
    if prev.None? {
      assert false;
    }
    MulLeftMono(row + 1, rows, rowBytes);
    if row < rows - 1 {
      ChunkRowsAt(data, startX, startY, rowBytes, rowSize, bpp, rows - 1, row, k);
      MulLeftMono(row + 1, rows - 1, rowBytes);
    } else {
      assert row * rowBytes == |prev.value|;
    }
  }

  /** The row-by-row copy succeeds exactly when every row it reads lies inside the data. */
  lemma {:induction false} ChunkRowsSomeIff(data: seq<Byte>, startX: int, startY: int, rowBytes: nat,
                                             rowSize: int, bpp: int, rows: nat)
    ensures ChunkRows(data, startX, startY, rowBytes, rowSize, bpp, rows).Some? <==>
      forall row | 0 <= row < rows :: RowInData(data, startX, startY, rowBytes, rowSize, bpp, row)
  {
    if rows > 0 {
      ChunkRowsSomeIff(data, startX, startY, rowBytes, rowSize, bpp, rows - 1);
      assert (forall row | 0 <= row < rows :: RowInData(data, startX, startY, rowBytes, rowSize, bpp, row)) <==>
        (forall row | 0 <= row < rows - 1 :: RowInData(data, startX, startY, rowBytes, rowSize, bpp, row)) &&
        RowInData(data, startX, startY, rowBytes, rowSize, bpp, rows - 1);
    }
  }

  predicate RowInData(data: seq<Byte>, startX: int, startY: int, rowBytes: nat, rowSize: int, bpp: int, row: int) {
    var src := (startY + row) * rowSize + startX * bpp;
    0 <= src && src + rowBytes <= |data|
  }

  /**
   * The one linear copy is right only for a chunk of at most one row or one
   * whose rows fill the scan's rows; otherwise it differs from the
   * row-by-row bytes. With rows of 4 bytes, a 2 by 2 chunk of one-byte
   * pixels at the origin is read as bytes 0..3 instead of 0, 1, 4, 5.
   */
  lemma ContiguousCopyMisplacesRows()
    ensures var data: seq<Byte> := [0, 1, 2, 3, 4, 5, 6, 7];
      Contiguous(0, 2, 4, 1) &&
      ExtractedChunkAsWritten(data, 0, 0, 2, 2, 4, 1) == Some([0, 1, 2, 3]) &&
      ExtractedChunk(data, 0, 0, 2, 2, 4, 1) == Some([0, 1, 4, 5])
  {
    var data: seq<Byte> := [0, 1, 2, 3, 4, 5, 6, 7];
    assert data[0 .. 2] == [0, 1] && data[4 .. 6] == [4, 5] && data[0 .. 4] == [0, 1, 2, 3];
    assert ChunkRows(data, 0, 0, 2, 4, 1, 0) == Some([]);
    assert ChunkRows(data, 0, 0, 2, 4, 1, 1) == Some([] + data[0 .. 2]);
    assert ChunkRows(data, 0, 0, 2, 4, 1, 2) == Some([] + data[0 .. 2] + data[4 .. 6]);
    assert [] + data[0 .. 2] + data[4 .. 6] == [0, 1, 4, 5];
  }

  /** Where a chunk is a single row, or as wide as a scan row, the linear copy agrees with the rows. */
  lemma {:induction false} ContiguousAgrees(data: seq<Byte>, startX: int, startY: int, chunkWidth: int,
                                             chunkHeight: int, rowSize: int, bpp: int)
    requires chunkWidth >= 0 && chunkHeight >= 1 && bpp >= 0
    requires chunkHeight == 1 || chunkWidth * bpp == rowSize
    requires ExtractedChunk(data, startX, startY, chunkWidth, chunkHeight, rowSize, bpp).Some?
    ensures ExtractedChunkAsWritten(data, startX, startY, chunkWidth, chunkHeight, rowSize, bpp) ==
            ExtractedChunk(data, startX, startY, chunkWidth, chunkHeight, rowSize, bpp)
  {
    LinearChunk(data, startX, startY, chunkWidth, chunkHeight, rowSize, bpp);
  }

  /** Such a chunk's rows are the one run of bytes from its top-left pixel. */
  lemma LinearChunk(data: seq<Byte>, startX: int, startY: int, chunkWidth: int,
                    chunkHeight: int, rowSize: int, bpp: int)
    requires chunkWidth >= 0 && chunkHeight >= 1 && bpp >= 0
    requires chunkHeight == 1 || chunkWidth * bpp == rowSize
    requires ExtractedChunk(data, startX, startY, chunkWidth, chunkHeight, rowSize, bpp).Some?
    ensures var src, size := startY * rowSize + startX * bpp, chunkWidth * chunkHeight * bpp;
      0 <= src && src + size <= |data| &&
      ExtractedChunk(data, startX, startY, chunkWidth, chunkHeight, rowSize, bpp) == Some(data[src .. src + size])
  {
    var n := chunkWidth * bpp;
    assert chunkHeight * n == chunkWidth * chunkHeight * bpp;
    LinearRows(data, startX, startY, n, rowSize, bpp, chunkHeight);
  }

  /** Rows that follow one another in the data are one linear run. */
  lemma {:induction false} LinearRows(data: seq<Byte>, startX: int, startY: int, rowBytes: nat,
                                       rowSize: int, bpp: int, rows: nat)
    requires rows <= 1 || rowBytes == rowSize
    requires ChunkRows(data, startX, startY, rowBytes, rowSize, bpp, rows).Some?
    ensures var src := startY * rowSize + startX * bpp;
      rows > 0 ==>
        0 <= src && src + rows * rowBytes <= |data| &&
        ChunkRows(data, startX, startY, rowBytes, rowSize, bpp, rows).value == data[src .. src + rows * rowBytes]
  {
    if rows > 1 {
      LinearRows(data, startX, startY, rowBytes, rowSize, bpp, rows - 1);
    }
  }

  /**
   * Every chunk of chunkBMP's grid passes extractChunk's contiguity test, so
   * each is read with the one linear copy.
   */
  lemma GridChunksContiguous(l: Layout, c: Chunk, bitCount: int)
    requires Inside(l, c)
    ensures Contiguous(c.x, c.width, SearchRowSize(l.width, bitCount), CalcBytesPerPixel(bitCount))
  {
    var bpp := CalcBytesPerPixel(bitCount);
    MulLeftMono(c.x + c.width, l.width, bpp);
  }

  /** extractChunk's two branches, one lemma each. */
  lemma AsWrittenBranches(data: seq<Byte>, startX: int, startY: int, chunkWidth: int, chunkHeight: int,
                          rowSize: int, bpp: int)
    requires chunkWidth >= 0 && chunkHeight >= 0 && bpp >= 0
    ensures var src, size := startY * rowSize + startX * bpp, chunkWidth * chunkHeight * bpp;
      Contiguous(startX, chunkWidth, rowSize, bpp) ==>
        ExtractedChunkAsWritten(data, startX, startY, chunkWidth, chunkHeight, rowSize, bpp) ==
        if 0 <= src && src + size <= |data| then Some(data[src .. src + size]) else None
    ensures !Contiguous(startX, chunkWidth, rowSize, bpp) ==>
      ExtractedChunkAsWritten(data, startX, startY, chunkWidth, chunkHeight, rowSize, bpp) ==
      ChunkRows(data, startX, startY, chunkWidth * bpp, rowSize, bpp, chunkHeight)
  {
  }

  /** extractChunk's row-by-row branch: `rows` rows of `rowBytes` bytes into `buf`. */
  method CopyChunkRows(buf: array<Byte>, data: seq<Byte>, startX: int, startY: int, rowBytes: nat,
                       rowSize: int, bpp: int, rows: nat) returns (ok: bool)
    requires rows * rowBytes <= buf.Length
    modifies buf
    ensures ok <==> ChunkRows(data, startX, startY, rowBytes, rowSize, bpp, rows).Some?
    ensures ok ==> buf[..rows * rowBytes] == ChunkRows(data, startX, startY, rowBytes, rowSize, bpp, rows).value
  {
    var row, dst := 0, 0;
    while row < rows
      invariant 0 <= row <= rows && dst == row * rowBytes
      invariant ChunkRows(data, startX, startY, rowBytes, rowSize, bpp, row).Some?
      invariant buf[..dst] == ChunkRows(data, startX, startY, rowBytes, rowSize, bpp, row).value
    {
      var src := (startY + row) * rowSize + startX * bpp;
      if !(0 <= src && src + rowBytes <= |data|) {
        ChunkRowsNoneStays(data, startX, startY, rowBytes, rowSize, bpp, row + 1, rows);
        return false;
      }
      MulLeftMono(row + 1, rows, rowBytes);
      ghost var done := ChunkRows(data, startX, startY, rowBytes, rowSize, bpp, row).value;
      assert ChunkRows(data, startX, startY, rowBytes, rowSize, bpp, row + 1) == Some(done + data[src .. src + rowBytes]);
      CopyRow(buf, dst, data, src, rowBytes);
      row, dst := row + 1, dst + rowBytes;
    }
    return true;
  }

  /**
   * extractChunk: the chunk's bytes are written into `buffer` (a fresh one
   * when it is too small) and its first `chunkWidth*chunkHeight*bpp` bytes
   * are returned; every chunk of one chunkBMP call shares the buffer.
   */
  method ExtractChunk(data: seq<Byte>, startX: int, startY: int, chunkWidth: int, chunkHeight: int,
                      rowSize: int, bpp: int, buffer: array<Byte>) returns (r: Option<seq<Byte>>)
    requires chunkWidth >= 0 && chunkHeight >= 0 && bpp >= 0
    modifies buffer
    ensures r == ExtractedChunkAsWritten(data, startX, startY, chunkWidth, chunkHeight, rowSize, bpp)
    ensures r.Some? && buffer.Length >= |r.value| ==> buffer[..|r.value|] == r.value
  {
    AsWrittenBranches(data, startX, startY, chunkWidth, chunkHeight, rowSize, bpp);
    var size := chunkWidth * chunkHeight * bpp;
    var buf := buffer;
    if buffer.Length < size {
      buf := new Byte[size];
    }
    if startX * bpp + chunkWidth * bpp <= rowSize {
      var src := startY * rowSize + startX * bpp;
      if !(0 <= src && src + size <= |data|) {
        return None;
      }
      CopyRow(buf, 0, data, src, size);
      ghost var want := data[src .. src + size];
      assert buf[..size] == [] + want;
      assert [] + want == want;
      return Some(buf[..size]);
    }
    var n := chunkWidth * bpp;
    assert size == chunkHeight * n;
    var ok := CopyChunkRows(buf, data, startX, startY, n, rowSize, bpp, chunkHeight);
    if !ok {
      return None;
    }
    return Some(buf[..size]);
  }

  /** chunkBMP's preallocation estimate; Go divides by each stride. */
  function EstimatedChunks(l: Layout): int
    requires l.StrideX() != 0 && l.StrideY() != 0
  {
    GoDiv(l.height + l.StrideY() - 1, l.StrideY()) * GoDiv(l.width + l.StrideX() - 1, l.StrideX())
  }

  /**
   * chunkBMP panics before its loops: a zero stride divides by zero, and a
   * negative estimate or buffer size is a negative `make`.
   */
  predicate LayoutPanics(l: Layout, bpp: int) {
    l.StrideY() == 0 || l.StrideX() == 0 || EstimatedChunks(l) < 0 || l.chunkWidth * l.chunkHeight * bpp < 0
  }

  /** extractChunk panics on this chunk. */
  predicate ChunkFails(data: seq<Byte>, c: Chunk, rowSize: int, bpp: int) {
    c.width >= 0 && c.height >= 0 && bpp >= 0 &&
    ExtractedChunkAsWritten(data, c.x, c.y, c.width, c.height, rowSize, bpp).None?
  }

  /** What chunkBMP returns, with the bands in top-to-bottom order; None where Go panics. */
  function ChunkGrid(large: Bmp, smallWidth: int, smallHeight: int): Option<seq<Chunk>> {
    var l := LayoutOf(large.width, large.height, smallWidth, smallHeight);
    var bitCount := large.infoHeader.biBitCount;
    var bpp, rowSize := CalcBytesPerPixel(bitCount), SearchRowSize(large.width, bitCount);
    if LayoutPanics(l, bpp) then None
    else
      LayoutStrides(l, large.width, large.height, smallWidth, smallHeight);
      var grid := Bands(l, 0);
      if exists c | c in grid :: ChunkFails(large.data, c, rowSize, bpp) then None else Some(grid)
  }

  /** Some chunk of the row band at `y` makes extractChunk panic. */
  predicate BandFails(data: seq<Byte>, l: Layout, y: int, rowSize: int, bpp: int)
    requires 0 < l.width ==> l.StrideX() > 0
  {
    exists c | c in Band(l, 0, y) :: ChunkFails(data, c, rowSize, bpp)
  }

  /** The body of chunkBMP's goroutine for the row band at `y`. */
  method RowBand(data: seq<Byte>, l: Layout, y: int, rowSize: int, bpp: int, buffer: array<Byte>)
    returns (r: Option<seq<Chunk>>)
    requires 0 <= y < l.height && l.chunkHeight >= 0 && bpp >= 0
    requires 0 < l.width ==> l.StrideX() > 0 && l.chunkWidth >= 0
    modifies buffer
    ensures r == if BandFails(data, l, y, rowSize, bpp) then None else Some(Band(l, 0, y))
  {
    var actualChunkHeight := if y + l.chunkHeight > l.height then l.height - y else l.chunkHeight;
    var rowChunks: seq<Chunk> := [];
    var x := 0;
    while x < l.width
      invariant x >= 0
      invariant rowChunks + Band(l, x, y) == Band(l, 0, y)
      invariant forall c | c in rowChunks :: !ChunkFails(data, c, rowSize, bpp)
      decreases l.width - x
    {
      var actualChunkWidth := if x + l.chunkWidth > l.width then l.width - x else l.chunkWidth;
      var chunkData := ExtractChunk(data, x, y, actualChunkWidth, actualChunkHeight, rowSize, bpp, buffer);
      ghost var c := GridChunk(l, x, y);
      ghost var rest := Band(l, x + l.StrideX(), y);
      assert c == Chunk(x, y, actualChunkWidth, actualChunkHeight);
      assert Band(l, x, y) == [c] + rest;
      assert c == Band(l, 0, y)[|rowChunks|];
      if chunkData.None? {
        assert ChunkFails(data, c, rowSize, bpp);
        return None;
      }
      assert !ChunkFails(data, c, rowSize, bpp);
      assert rowChunks + [c] + rest == rowChunks + ([c] + rest);
      rowChunks := rowChunks + [Chunk(x, y, actualChunkWidth, actualChunkHeight)];
      x := x + l.chunkWidth - l.overlapX;
    }
    assert Band(l, x, y) == [];
    assert rowChunks == Band(l, 0, y);
    return Some(rowChunks);
  }

  /**
   * chunkBMP: the chunk grid, each chunk's bytes extracted into the one
   * shared buffer. Go runs every row band in a goroutine; here the bands run
   * in order.
   */
  method ChunkBmp(large: Bmp, smallWidth: int, smallHeight: int) returns (r: Option<seq<Chunk>>)
    ensures r == ChunkGrid(large, smallWidth, smallHeight)
  {
    var bitCount := large.infoHeader.biBitCount;
    var bpp := CalcBytesPerPixel(bitCount);
    var rowSize := SearchRowSize(large.width, bitCount);
    var chunkWidth := Max(GoQuot(large.width, 10), smallWidth * 2);
    var chunkHeight := Max(GoQuot(large.height, 10), smallHeight * 2);
    var overlapX, overlapY := smallWidth, smallHeight;
    var l := Layout(large.width, large.height, chunkWidth, chunkHeight, overlapX, overlapY);
    LayoutStrides(l, large.width, large.height, smallWidth, smallHeight);
    if chunkHeight - overlapY == 0 || chunkWidth - overlapX == 0 {
      return None;
    }
    var estimated := GoDiv(large.height + chunkHeight - overlapY - 1, chunkHeight - overlapY) *
                     GoDiv(large.width + chunkWidth - overlapX - 1, chunkWidth - overlapX);
    if estimated < 0 {
      return None;
    }
    var bufferSize := chunkWidth * chunkHeight * bpp;
    if bufferSize < 0 {
      return None;
    }
    var buffer := new Byte[bufferSize];
    GridOfLayout(large, smallWidth, smallHeight, l);
    r := ChunkBands(large.data, l, rowSize, bpp, buffer);
  }

  /** Once the layout passes chunkBMP's checks, the grid is its bands unless a chunk panics. */
  lemma GridOfLayout(large: Bmp, smallWidth: int, smallHeight: int, l: Layout)
    requires l == LayoutOf(large.width, large.height, smallWidth, smallHeight)
    requires !LayoutPanics(l, CalcBytesPerPixel(large.infoHeader.biBitCount))
    ensures l.Advances()
    ensures var bpp, rowSize := CalcBytesPerPixel(large.infoHeader.biBitCount), SearchRowSize(large.width, large.infoHeader.biBitCount);
      ChunkGrid(large, smallWidth, smallHeight) ==
        if exists c | c in Bands(l, 0) :: ChunkFails(large.data, c, rowSize, bpp) then None else Some(Bands(l, 0))
  {
    LayoutStrides(l, large.width, large.height, smallWidth, smallHeight);
  }

  /**
   * chunkBMP's loop over the row bands, top to bottom: the whole grid, or
   * None as soon as a chunk of it makes extractChunk panic.
   */
  method ChunkBands(data: seq<Byte>, l: Layout, rowSize: int, bpp: int, buffer: array<Byte>)
    returns (r: Option<seq<Chunk>>)
    requires l.Advances() && bpp >= 0
    requires 0 < l.height ==> l.chunkHeight >= 0
    requires 0 < l.width ==> l.chunkWidth >= 0
    modifies buffer
    ensures r == if exists c | c in Bands(l, 0) :: ChunkFails(data, c, rowSize, bpp) then None else Some(Bands(l, 0))
  {
    var chunks: seq<Chunk> := [];
    var y := 0;
    while y < l.height
      invariant y >= 0
      invariant chunks + Bands(l, y) == Bands(l, 0)
      invariant forall c | c in chunks :: !ChunkFails(data, c, rowSize, bpp)
      decreases l.height - y
    {
      var rowChunks := RowBand(data, l, y, rowSize, bpp, buffer);
      ghost var band, rest := Band(l, 0, y), Bands(l, y + l.StrideY());
      assert Bands(l, y) == band + rest;
      if rowChunks.None? {
        ghost var c :| c in band && ChunkFails(data, c, rowSize, bpp);
        assert c in chunks + (band + rest);
        return None;
      }
      assert chunks + band + rest == chunks + (band + rest);
      chunks := chunks + rowChunks.value;
      y := y + l.StrideY();
    }
    assert Bands(l, y) == [];
    assert chunks == Bands(l, 0);
    return Some(chunks);
  }

  /**
   * validateBMPDimensions: no error exactly when the template fits the scan
   * in both directions, so that the window at the origin is a window the
   * search visits.
   */
  function ValidateBmpDimensions(large: Bmp, small: Bmp): (ok: bool)
    ensures ok <==> InScan(0, 0, large.width - small.width, large.height - small.height)
    ensures ok <==> !Exceeds(large, small)
  {
    !(small.width > large.width || small.height > large.height)
  }

  lemma ChunkGridIsBands(large: Bmp, smallWidth: int, smallHeight: int, chunks: seq<Chunk>)
    requires ChunkGrid(large, smallWidth, smallHeight) == Some(chunks)
    ensures var l := LayoutOf(large.width, large.height, smallWidth, smallHeight);
      l.Advances() && chunks == Bands(l, 0)
  {
    LayoutStrides(LayoutOf(large.width, large.height, smallWidth, smallHeight),
                  large.width, large.height, smallWidth, smallHeight);
  }

  /**
   * Coverage: because neighbouring chunks overlap by the template's size,
   * every window start the sequential search visits lies in a chunk that
   * holds the whole window.
   */
  lemma GridCovers(large: Bmp, smallWidth: int, smallHeight: int, chunks: seq<Chunk>, x: int, y: int)
    returns (c: Chunk)
    requires ChunkGrid(large, smallWidth, smallHeight) == Some(chunks)
    requires smallWidth >= 1 && smallHeight >= 1
    requires InScan(x, y, large.width - smallWidth, large.height - smallHeight)
    ensures c in chunks && HoldsWindow(c, x, y, smallWidth, smallHeight)
  {
    ChunkGridIsBands(large, smallWidth, smallHeight, chunks);
    var l := LayoutOf(large.width, large.height, smallWidth, smallHeight);
    c := BandsHold(l, 0, x, y);
  }

  /**
   * Every chunk of a non-empty template's grid lies inside the scan, full
   * sized or clipped at the right and bottom edges.
   */
  lemma GridInside(large: Bmp, smallWidth: int, smallHeight: int, chunks: seq<Chunk>)
    requires ChunkGrid(large, smallWidth, smallHeight) == Some(chunks)
    requires smallWidth >= 1 && smallHeight >= 1
    ensures var l := LayoutOf(large.width, large.height, smallWidth, smallHeight);
      forall c | c in chunks ::
        Inside(l, c) && c.width == Min(l.chunkWidth, large.width - c.x) && c.height == Min(l.chunkHeight, large.height - c.y)
  {
    ChunkGridIsBands(large, smallWidth, smallHeight, chunks);
    var l := LayoutOf(large.width, large.height, smallWidth, smallHeight);
    BandsInside(l, 0);
    BandsAreGridChunks(l, 0);
  }

  /**
   * The chunks come strictly ordered, bands top to bottom and left to right
   * within a band, so no chunk appears twice. (Go appends whole bands in
   * goroutine completion order; the order within a band is the one fixed.)
   */
  lemma GridOrdered(large: Bmp, smallWidth: int, smallHeight: int, chunks: seq<Chunk>)
    requires ChunkGrid(large, smallWidth, smallHeight) == Some(chunks)
    ensures GridSorted(chunks)
    ensures forall i, j | 0 <= i < j < |chunks| :: chunks[i] != chunks[j]
  {
    ChunkGridIsBands(large, smallWidth, smallHeight, chunks);
    BandsSorted(LayoutOf(large.width, large.height, smallWidth, smallHeight), 0);
  }

  lemma EstimateNonNegative(l: Layout)
    requires l.StrideX() >= 1 && l.StrideY() >= 1 && l.width >= 0 && l.height >= 0
    ensures EstimatedChunks(l) >= 0
  {
    var a := GoDiv(l.height + l.StrideY() - 1, l.StrideY());
    var b := GoDiv(l.width + l.StrideX() - 1, l.StrideX());
    MulLeftMono(0, a, b);
  }

  lemma ProductNonNegative(a: int, b: int, c: int)
    requires a >= 0 && b >= 0 && c >= 0
    ensures a * b * c >= 0
  {
    MulLeftMono(0, a, b);
    MulLeftMono(0, a * b, c);
  }

  /**
   * After FindTemplate's dimension check, with a non-empty template,
   * chunkBMP gets past its divisions and allocations: it can then fail only
   * in extractChunk.
   */
  lemma GuardedGridReachesLoops(large: Bmp, smallWidth: int, smallHeight: int)
    requires 1 <= smallWidth <= large.width && 1 <= smallHeight <= large.height
    ensures !LayoutPanics(LayoutOf(large.width, large.height, smallWidth, smallHeight),
                          CalcBytesPerPixel(large.infoHeader.biBitCount))
  {
    var l := LayoutOf(large.width, large.height, smallWidth, smallHeight);
    EstimateNonNegative(l);
    ProductNonNegative(l.chunkWidth, l.chunkHeight, CalcBytesPerPixel(large.infoHeader.biBitCount));
  }
}
