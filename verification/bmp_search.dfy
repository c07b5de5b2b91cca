/**
 * The sequential template search over decoded pixel buffers:
 * normalizeBMPData (bottom-up rows flipped to top-down), calculateMSE and
 * the sliding-window FindSubBMP of device/display/display__tools.go. The
 * matcher package carries identical copies of the first two
 * (tools/matcher/matcher_tools.go); both are modelled by the members here.
 *
 * An index outside a buffer makes Go panic; the model returns None there.
 * MSE is kept exact: the integer sum of squared differences and the number
 * of pixels it was taken over.
 */
module BmpSearch {
  import opened Tools
  import opened Wrappers
  import opened BmpFormat

  /** `((width*bytesPerPixel + 3) / 4) * 4`, the row size the search code computes. */
  function SearchRowSize(width: int, bitCount: int): (rs: int)
    ensures width >= 0 ==> rs % 4 == 0 && width * CalcBytesPerPixel(bitCount) <= rs < width * CalcBytesPerPixel(bitCount) + 4
  {
    var n := width * CalcBytesPerPixel(bitCount);
    assert width >= 0 ==> n >= 0;
    GoQuot(n + 3, 4) * 4
  }

  function Zeros(n: nat): (z: seq<Byte>)
    ensures |z| == n && forall i | 0 <= i < n :: z[i] == 0
  {
    seq(n, _ => 0)
  }

  /**
   * The first `n` rows of the top-down image whose bottom-up rows of `rs`
   * bytes are `data`: output row r is input row h-1-r.
   */
  function FlipRows(data: seq<Byte>, rs: nat, h: nat, n: nat): (r: seq<Byte>)
    requires n <= h && h * rs <= |data|
    ensures |r| == n * rs
  {
    if n == 0 then []
    else
      MulLeftMono(h - n + 1, h, rs);
      FlipRows(data, rs, h, n - 1) + data[(h - n) * rs .. (h - n) * rs + rs]
  }

  /** Offset of byte `k` of row `row` in rows of `rs` bytes. */
  function At(row: int, rs: int, k: int): int {
    row * rs + k
  }

  lemma RowStartBound(row: nat, n: nat, rs: nat, k: nat)
    requires row < n && k < rs
    ensures At(row, rs, k) < n * rs
    ensures At(row, rs, k) >= row * rs
  {
    MulLeftMono(row + 1, n, rs);
  }

  /** Row `row` of the flipped image is row h-1-row of the input. */
  lemma {:induction false} FlipRowsAt(data: seq<Byte>, rs: nat, h: nat, n: nat, row: nat, k: nat)
    requires n <= h && h * rs <= |data| && row < n && k < rs
    ensures At(row, rs, k) < n * rs && 0 <= At(h - 1 - row, rs, k) < h * rs
    ensures FlipRows(data, rs, h, n)[At(row, rs, k)] == data[At(h - 1 - row, rs, k)]
  {
    RowStartBound(row, n, rs, k);
    RowStartBound(h - 1 - row, h, rs, k);
    if row < n - 1 {
      FlipRowsAt(data, rs, h, n - 1, row, k);
    } else {
      assert At(row, rs, k) == (n - 1) * rs + k;
      assert (h - n) * rs + k == At(h - 1 - row, rs, k);
    }
  }

  /** Byte `i` of `h` rows of `rs` bytes is byte i % rs of row i / rs. */
  lemma SplitOffset(i: nat, rs: nat, h: nat) returns (row: nat, k: nat)
    requires i < h * rs
    ensures row < h && k < rs && i == At(row, rs, k)
  {
    if rs == 0 {
      assert false;
    }
    row, k := i / rs, i % rs;
    if row >= h {
      MulLeftMono(h, row, rs);
    }
  }

  lemma FlipTwiceAt(data: seq<Byte>, rs: nat, h: nat, i: nat)
    requires h * rs <= |data| && i < h * rs
    ensures FlipRows(FlipRows(data, rs, h, h), rs, h, h)[i] == data[i]
  {
    var row, k := SplitOffset(i, rs, h);
    var once := FlipRows(data, rs, h, h);
    FlipRowsAt(once, rs, h, h, row, k);
    FlipRowsAt(data, rs, h, h, h - 1 - row, k);
  }

  /** Flipping the rows twice gives the rows back. */
  lemma FlipRowsTwice(data: seq<Byte>, rs: nat, h: nat)
    requires h * rs <= |data|
    ensures FlipRows(FlipRows(data, rs, h, h), rs, h, h) == data[..h * rs]
  {
    forall i | 0 <= i < h * rs
      ensures FlipRows(FlipRows(data, rs, h, h), rs, h, h)[i] == data[i]
    {
      FlipTwiceAt(data, rs, h, i);
    }
  }

  /** What normalizeBMPData returns: None where its row copies would slice out of range. */
  function NormalizedData(bmp: Bmp): Option<seq<Byte>> {
    var h := bmp.infoHeader.biHeight;
    var rs := SearchRowSize(bmp.width, bmp.infoHeader.biBitCount);
    if h < 0 then Some(bmp.data)
    else if h == 0 then Some(Zeros(|bmp.data|))
    else if rs < 0 || h * rs > |bmp.data| then None
    else Some(FlipRows(bmp.data, rs, h, h) + Zeros(|bmp.data| - h * rs))
  }

  /** Where the copies of row `row` read and write, in rows of `rs` bytes. */
  lemma RowCopyBounds(row: int, h: int, rs: int)
    requires 0 <= row < h && rs >= 0
    ensures 0 <= (h - 1 - row) * rs && (h - 1 - row) * rs + rs == (h - row) * rs <= h * rs
    ensures row * rs + rs == (row + 1) * rs <= h * rs
    ensures row == 0 ==> rs <= h * rs && (h - 1 - row) * rs + rs == h * rs
  {
    MulLeftMono(0, h - 1 - row, rs);
    MulLeftMono(h - row, h, rs);
    MulLeftMono(row + 1, h, rs);
  }

  /** One `copy` of normalizeBMPData: `rs` bytes of `data` from `src` into `a` from `dst`. */
  method CopyRow(a: array<Byte>, dst: nat, data: seq<Byte>, src: nat, rs: nat)
    requires dst + rs <= a.Length && src + rs <= |data|
    modifies a
    ensures a[..dst + rs] == old(a[..dst]) + data[src .. src + rs]
    ensures a[dst + rs ..] == old(a[dst + rs ..])
  {
    forall k | 0 <= k < rs {
      a[dst + k] := data[src + k];
    }
  }

  /**
   * One iteration of normalizeBMPData's loop once its bounds hold: input row
   * h-1-row is copied to output row `row`, after the rows already flipped.
   */
  method CopyFlippedRow(a: array<Byte>, data: seq<Byte>, rs: nat, h: nat, row: nat)
    requires row < h && h * rs <= |data| && h * rs <= a.Length
    requires a[..row * rs] == FlipRows(data, rs, h, row)
    requires a[row * rs ..] == Zeros(a.Length - row * rs)
    modifies a
    ensures (row + 1) * rs <= a.Length
    ensures a[..(row + 1) * rs] == FlipRows(data, rs, h, row + 1)
    ensures a[(row + 1) * rs ..] == Zeros(a.Length - (row + 1) * rs)
  {
    RowCopyBounds(row, h, rs);
    var src, dst := (h - 1 - row) * rs, row * rs;
    assert src == (h - (row + 1)) * rs;
    ghost var done := a[..dst];
    ghost var tail := a[dst + rs ..];
    assert tail == Zeros(a.Length - dst - rs);
    CopyRow(a, dst, data, src, rs);
    assert FlipRows(data, rs, h, row + 1) == done + data[src .. src + rs];
  }

  /**
   * normalizeBMPData: a top-down image (negative BiHeight) is returned as it
   * is; otherwise a zeroed buffer of the same length receives the rows in
   * reverse order.
   */
  method NormalizeBmpData(bmp: Bmp) returns (r: Option<seq<Byte>>)
    ensures r == NormalizedData(bmp)
  {
    if bmp.infoHeader.biHeight < 0 {
      return Some(bmp.data);
    }
    var rs := SearchRowSize(bmp.width, bmp.infoHeader.biBitCount);
    var height := bmp.infoHeader.biHeight;
    var normalized := new Byte[|bmp.data|](_ => 0);
    if height == 0 {
      assert normalized[..] == Zeros(normalized.Length);
      return Some(normalized[..]);
    }
    var row, dst := 0, 0;
    while row < height
      invariant 0 <= row <= height && 0 <= dst <= normalized.Length && dst == row * rs
      invariant row > 0 ==> rs >= 0 && height * rs <= |bmp.data|
      invariant row > 0 ==> normalized[..dst] == FlipRows(bmp.data, rs, height, row)
      invariant normalized[dst ..] == Zeros(normalized.Length - dst)
    {
      var src := (height - 1 - row) * rs;
      if rs >= 0 {
        RowCopyBounds(row, height, rs);
      }
      if rs < 0 || dst + rs > normalized.Length || src + rs > |bmp.data| {
        if row > 0 {
          assert false;
        }
        return None;
      }
      CopyFlippedRow(normalized, bmp.data, rs, height, row);
      row, dst := row + 1, dst + rs;
    }
    assert normalized[..] == normalized[..dst] + normalized[dst ..];
    return Some(normalized[..]);
  }

  /**
   * What normalizeBMPData promises: the same length; for a top-down image
   * the data itself; otherwise row r is input row height-1-r. The bytes
   * after the last row are zero, as NormalizedTail states.
   */
  lemma NormalizedMeaning(bmp: Bmp, row: nat, k: nat)
    requires NormalizedData(bmp).Some?
    ensures |NormalizedData(bmp).value| == |bmp.data|
    ensures bmp.infoHeader.biHeight < 0 ==> NormalizedData(bmp).value == bmp.data
    ensures var h, rs := bmp.infoHeader.biHeight, SearchRowSize(bmp.width, bmp.infoHeader.biBitCount);
      0 <= h && row < h && k < rs ==>
        0 <= At(row, rs, k) < |bmp.data| && 0 <= At(h - 1 - row, rs, k) < |bmp.data| &&
        NormalizedData(bmp).value[At(row, rs, k)] == bmp.data[At(h - 1 - row, rs, k)]
  {
    var h, rs := bmp.infoHeader.biHeight, SearchRowSize(bmp.width, bmp.infoHeader.biBitCount);
    if 0 <= h && row < h && k < rs {
      FlipRowsAt(bmp.data, rs, h, h, row, k);
    }
  }

  /** Of a bottom-up image, the bytes after the last flipped row are zero. */
  lemma NormalizedTail(bmp: Bmp, k: nat)
    requires NormalizedData(bmp).Some?
    requires var h, rs := bmp.infoHeader.biHeight, SearchRowSize(bmp.width, bmp.infoHeader.biBitCount);
      0 <= h && 0 <= rs && h * rs <= k < |bmp.data|
    ensures NormalizedData(bmp).value[k] == 0
  {
    var h, rs := bmp.infoHeader.biHeight, SearchRowSize(bmp.width, bmp.infoHeader.biBitCount);
    var n := h * rs;
    if h > 0 {
      var z := Zeros(|bmp.data| - n);
      assert NormalizedData(bmp).value == FlipRows(bmp.data, rs, h, h) + z;
      assert NormalizedData(bmp).value[k] == z[k - n];
    }
  }

  /**
   * The inputs calculateMSE shares across windows: both pixel buffers, their
   * row sizes and bytes per pixel, and the template's dimensions.
   */
  datatype MseInput = MseInput(
    large: seq<Byte>, small: seq<Byte>,
    largeRowSize: int, smallRowSize: int, largeBpp: int, smallBpp: int,
    smallWidth: int, smallHeight: int)

  /** A window's error: the sum of squared channel differences and the pixels it covers. */
  datatype Mse = Mse(sse: nat, pixels: nat)
  {
    /** The float64 quotient `totalError / (pixelCount*3)`, when it is a number. */
    function Value(): real
      requires pixels > 0
    {
      (sse as real) / ((3 * pixels) as real)
    }

    /**
     * `mse <= t` in Go: false when no pixel was compared, where the quotient
     * is 0/0, a NaN.
     */
    predicate AtMost(t: real) {
      pixels > 0 && Value() <= t
    }
  }

  function AddOpt(a: Option<nat>, b: Option<nat>): (r: Option<nat>)
    ensures r.Some? <==> a.Some? && b.Some?
  {
    if a.Some? && b.Some? then Some(a.value + b.value) else None
  }

  /** Squared difference of two bytes; None when either index is outside its buffer. */
  function SqDiff(large: seq<Byte>, small: seq<Byte>, lp: int, sp: int): Option<nat> {
    if 0 <= lp < |large| && 0 <= sp < |small| then
      var d := large[lp] as int - small[sp] as int;
      Some(d * d)
    else None
  }

  /** Squared differences of channels 0 .. n-1 of the pixels at `lp` and `sp`. */
  function PixelSse(large: seq<Byte>, small: seq<Byte>, lp: int, sp: int, n: nat): Option<nat> {
    if n == 0 then Some(0)
    else AddOpt(PixelSse(large, small, lp, sp, n - 1), SqDiff(large, small, lp + n - 1, sp + n - 1))
  }

  /** Squared differences of the first `cols` pixels of a template row and its window row. */
  function RowSse(inp: MseInput, lRow: int, sRow: int, cols: nat): Option<nat> {
    if cols == 0 then Some(0)
    else
      var c := cols - 1;
      AddOpt(RowSse(inp, lRow, sRow, c),
             PixelSse(inp.large, inp.small, lRow + c * inp.largeBpp, sRow + c * inp.smallBpp, 3))
  }

  /** Squared differences of the first `rows` template rows against the window at (sx, sy). */
  function WindowSse(inp: MseInput, sx: int, sy: int, rows: nat): Option<nat> {
    if rows == 0 then Some(0)
    else
      var r := rows - 1;
      AddOpt(WindowSse(inp, sx, sy, r),
             RowSse(inp, (sy + r) * inp.largeRowSize + sx * inp.largeBpp, r * inp.smallRowSize, Cols(inp)))
  }

  /** Columns the loops visit: none for a non-positive width. */
  function Cols(inp: MseInput): nat {
    if inp.smallWidth < 0 then 0 else inp.smallWidth
  }

  function Rows(inp: MseInput): nat {
    if inp.smallHeight < 0 then 0 else inp.smallHeight
  }

  /** calculateMSE at (sx, sy); None when a read falls outside a buffer. */
  function WindowMse(inp: MseInput, sx: int, sy: int): Option<Mse> {
    match WindowSse(inp, sx, sy, Rows(inp))
    case None => None
    case Some(sse) => Some(Mse(sse, Rows(inp) * Cols(inp)))
  }

  /** Channel i of the pixels at `lp` and `sp` is readable in both buffers and equal. */
  predicate ChannelSame(large: seq<Byte>, small: seq<Byte>, lp: int, sp: int, i: int) {
    0 <= lp + i < |large| && 0 <= sp + i < |small| && large[lp + i] == small[sp + i]
  }

  /** Channels 0..2 of the pixels at `lp` and `sp` are readable and equal. */
  predicate PixelSame(large: seq<Byte>, small: seq<Byte>, lp: int, sp: int) {
    forall i | 0 <= i < 3 :: ChannelSame(large, small, lp, sp, i)
  }

  /** Pixel `col` of a template row starting at `sRow` equals that of the window row at `lRow`. */
  predicate ColSame(inp: MseInput, lRow: int, sRow: int, col: int) {
    PixelSame(inp.large, inp.small, lRow + col * inp.largeBpp, sRow + col * inp.smallBpp)
  }

  /** The first `cols` pixels of a template row equal the window row. */
  predicate RowSame(inp: MseInput, lRow: int, sRow: int, cols: nat) {
    forall col | 0 <= col < cols :: ColSame(inp, lRow, sRow, col)
  }

  /** The window at (sx, sy) equals the template on every channel calculateMSE compares. */
  predicate SameWindow(inp: MseInput, sx: int, sy: int) {
    forall row | 0 <= row < Rows(inp) ::
      RowSame(inp, (sy + row) * inp.largeRowSize + sx * inp.largeBpp, row * inp.smallRowSize, Cols(inp))
  }

  lemma {:induction false} PixelSseNoneStays(large: seq<Byte>, small: seq<Byte>, lp: int, sp: int, n: nat, m: nat)
    requires n <= m && PixelSse(large, small, lp, sp, n).None?
    ensures PixelSse(large, small, lp, sp, m).None?
  {
    if n < m {
      PixelSseNoneStays(large, small, lp, sp, n, m - 1);
    }
  }

  lemma {:induction false} RowSseNoneStays(inp: MseInput, lRow: int, sRow: int, n: nat, m: nat)
    requires n <= m && RowSse(inp, lRow, sRow, n).None?
    ensures RowSse(inp, lRow, sRow, m).None?
  {
    if n < m {
      RowSseNoneStays(inp, lRow, sRow, n, m - 1);
    }
  }

  lemma {:induction false} WindowSseNoneStays(inp: MseInput, sx: int, sy: int, n: nat, m: nat)
    requires n <= m && WindowSse(inp, sx, sy, n).None?
    ensures WindowSse(inp, sx, sy, m).None?
  {
    if n < m {
      WindowSseNoneStays(inp, sx, sy, n, m - 1);
    }
  }

  /** The innermost loop of calculateMSE: channels 0..2 of one pixel pair. */
  method PixelError(large: seq<Byte>, small: seq<Byte>, lp: int, sp: int) returns (r: Option<nat>)
    ensures r == PixelSse(large, small, lp, sp, 3)
  {
    var total := 0;
    var i := 0;
    while i < 3
      invariant 0 <= i <= 3
      invariant PixelSse(large, small, lp, sp, i) == Some(total)
    {
      if !(0 <= lp + i < |large| && 0 <= sp + i < |small|) {
        PixelSseNoneStays(large, small, lp, sp, i + 1, 3);
        return None;
      }
      var d := large[lp + i] as int - small[sp + i] as int;
      total := total + d * d;
      i := i + 1;
    }
    return Some(total);
  }

  /** The column loop of calculateMSE over one template row. */
  method RowError(inp: MseInput, lRow: int, sRow: int) returns (r: Option<nat>)
    ensures r == RowSse(inp, lRow, sRow, Cols(inp))
  {
    var total := 0;
    var col := 0;
    while col < inp.smallWidth
      invariant 0 <= col <= Cols(inp)
      invariant RowSse(inp, lRow, sRow, col) == Some(total)
    {
      var e := PixelError(inp.large, inp.small, lRow + col * inp.largeBpp, sRow + col * inp.smallBpp);
      if e.None? {
        RowSseNoneStays(inp, lRow, sRow, col + 1, Cols(inp));
        return None;
      }
      assert RowSse(inp, lRow, sRow, col + 1) == AddOpt(RowSse(inp, lRow, sRow, col), e);
      total := total + e.value;
      col := col + 1;
    }
    return Some(total);
  }

  /**
   * calculateMSE: the squared channel differences summed row by row and
   * pixel by pixel, with the number of pixels visited; None where Go would
   * index outside a buffer.
   */
  method CalculateMse(inp: MseInput, startX: int, startY: int) returns (r: Option<Mse>)
    ensures r == WindowMse(inp, startX, startY)
  {
    var totalError := 0;
    var pixelCount := 0;
    var row := 0;
    while row < inp.smallHeight
      invariant 0 <= row <= Rows(inp)
      invariant WindowSse(inp, startX, startY, row) == Some(totalError)
      invariant pixelCount == row * Cols(inp)
    {
      var e := RowError(inp, (startY + row) * inp.largeRowSize + startX * inp.largeBpp, row * inp.smallRowSize);
      if e.None? {
        WindowSseNoneStays(inp, startX, startY, row + 1, Rows(inp));
        return None;
      }
      assert WindowSse(inp, startX, startY, row + 1) == AddOpt(WindowSse(inp, startX, startY, row), e);
      assert (row + 1) * Cols(inp) == row * Cols(inp) + Cols(inp);
      totalError := totalError + e.value;
      pixelCount := pixelCount + Cols(inp);
      row := row + 1;
    }
    return Some(Mse(totalError, pixelCount));
  }

  lemma AddOptZero(a: Option<nat>, b: Option<nat>)
    ensures AddOpt(a, b) == Some(0) <==> a == Some(0) && b == Some(0)
  {
  }

  lemma {:induction false} PixelSseZero(large: seq<Byte>, small: seq<Byte>, lp: int, sp: int, n: nat)
    ensures PixelSse(large, small, lp, sp, n) == Some(0) <==>
      forall i | 0 <= i < n :: ChannelSame(large, small, lp, sp, i)
  {
    if n > 0 {
      PixelSseZero(large, small, lp, sp, n - 1);
      AddOptZero(PixelSse(large, small, lp, sp, n - 1), SqDiff(large, small, lp + n - 1, sp + n - 1));
      var j := n - 1;
      if 0 <= lp + j < |large| && 0 <= sp + j < |small| {
        var d := large[lp + j] as int - small[sp + j] as int;
        assert SqDiff(large, small, lp + j, sp + j) == Some(d * d);
        if d != 0 {
          var m := if d > 0 then d else -d;
          MulLeftMono(1, m, m);
          assert d * d == m * m;
        }
        assert ChannelSame(large, small, lp, sp, j) <==> d * d == 0;
      } else {
        assert !ChannelSame(large, small, lp, sp, j);
      }
    }
  }

  lemma {:induction false} RowSseZero(inp: MseInput, lRow: int, sRow: int, cols: nat)
    ensures RowSse(inp, lRow, sRow, cols) == Some(0) <==> RowSame(inp, lRow, sRow, cols)
  {
    if cols > 0 {
      var c := cols - 1;
      var lp, sp := lRow + c * inp.largeBpp, sRow + c * inp.smallBpp;
      RowSseZero(inp, lRow, sRow, c);
      PixelSseZero(inp.large, inp.small, lp, sp, 3);
      AddOptZero(RowSse(inp, lRow, sRow, c), PixelSse(inp.large, inp.small, lp, sp, 3));
      assert ColSame(inp, lRow, sRow, c) <==> PixelSame(inp.large, inp.small, lp, sp);
      assert RowSame(inp, lRow, sRow, cols) <==> RowSame(inp, lRow, sRow, c) && ColSame(inp, lRow, sRow, c);
    }
  }

  lemma {:induction false} WindowSseZero(inp: MseInput, sx: int, sy: int, rows: nat)
    requires rows <= Rows(inp)
    ensures WindowSse(inp, sx, sy, rows) == Some(0) <==>
      forall row | 0 <= row < rows ::
        RowSame(inp, (sy + row) * inp.largeRowSize + sx * inp.largeBpp, row * inp.smallRowSize, Cols(inp))
  {
    if rows > 0 {
      var r := rows - 1;
      var lRow, sRow := (sy + r) * inp.largeRowSize + sx * inp.largeBpp, r * inp.smallRowSize;
      WindowSseZero(inp, sx, sy, r);
      RowSseZero(inp, lRow, sRow, Cols(inp));
      AddOptZero(WindowSse(inp, sx, sy, r), RowSse(inp, lRow, sRow, Cols(inp)));
    }
  }

  /**
   * The error calculateMSE sums is zero exactly when the window equals the
   * template on every compared channel; such a window is then accepted at
   * every threshold of zero or more, unless the template is empty.
   */
  lemma ExactWindowMatches(inp: MseInput, sx: int, sy: int, t: real)
    ensures (WindowMse(inp, sx, sy).Some? && WindowMse(inp, sx, sy).value.sse == 0) <==> SameWindow(inp, sx, sy)
    ensures SameWindow(inp, sx, sy) && Rows(inp) * Cols(inp) > 0 && t >= 0.0 ==>
      WindowMse(inp, sx, sy).value.AtMost(t)
  {
    WindowSseZero(inp, sx, sy, Rows(inp));
  }

  /**
   * Go's `mse <= t/5 || mse <= t`, the acceptance the matcher's tasks apply
   * (a fast path, then the same value recomputed): it is `mse <= t`.
   */
  lemma AcceptRule(m: Mse, t: real)
    ensures m.AtMost(t / 5.0) || m.AtMost(t) <==> m.AtMost(t)
  {
    if m.AtMost(t / 5.0) {
      assert m.Value() >= 0.0;
    }
  }

  /** What FindSubBMP reports. */
  datatype SearchResult =
    | Found(x: int, y: int)
    | DimensionsExceed
    | NoMatch
    | SearchPanic

  /** The template is wider or taller than the scan. */
  predicate Exceeds(large: Bmp, small: Bmp) {
    small.width > large.width || small.height > large.height
  }

  /** The calculateMSE inputs FindSubBMP builds from two normalized buffers. */
  function SearchInput(large: Bmp, small: Bmp, largeData: seq<Byte>, smallData: seq<Byte>): MseInput {
    MseInput(largeData, smallData,
      SearchRowSize(large.width, large.infoHeader.biBitCount),
      SearchRowSize(small.width, small.infoHeader.biBitCount),
      CalcBytesPerPixel(large.infoHeader.biBitCount),
      CalcBytesPerPixel(small.infoHeader.biBitCount),
      small.width, small.height)
  }

  /** (x1, y1) comes before (x2, y2) in the scan: y-major, then x. */
  predicate Before(x1: int, y1: int, x2: int, y2: int) {
    y1 < y2 || (y1 == y2 && x1 < x2)
  }

  /** A window start the scan visits: 0 <= x <= maxX and 0 <= y <= maxY. */
  predicate InScan(x: int, y: int, maxX: int, maxY: int) {
    0 <= x <= maxX && 0 <= y <= maxY
  }

  /** The window at (x, y) is within the threshold. */
  predicate Accepted(inp: MseInput, x: int, y: int, t: real) {
    WindowMse(inp, x, y).Some? && WindowMse(inp, x, y).value.AtMost(t)
  }

  /** The window at (x, y) was measured without leaving a buffer and is over the threshold. */
  predicate Rejected(inp: MseInput, x: int, y: int, t: real) {
    WindowMse(inp, x, y).Some? && !WindowMse(inp, x, y).value.AtMost(t)
  }

  /** Every window the scan visits before (x, y) was rejected. */
  ghost predicate RejectedBefore(inp: MseInput, maxX: int, maxY: int, x: int, y: int, t: real) {
    forall x', y' | InScan(x', y', maxX, maxY) && Before(x', y', x, y) :: Rejected(inp, x', y', t)
  }

  /**
   * FindSubBMP: after the dimension check, both images are normalized and
   * the windows are scanned row by row, left to right; the first window
   * whose MSE is within the threshold is reported. A read outside a buffer,
   * here or while normalizing, is a Go panic.
   */
  method FindSubBmp(large: Bmp, small: Bmp, t: real) returns (r: SearchResult)
    ensures r == DimensionsExceed <==> Exceeds(large, small)
    ensures r.Found? ==>
      var nl, ns := NormalizedData(large), NormalizedData(small);
      nl.Some? && ns.Some? &&
      var inp := SearchInput(large, small, nl.value, ns.value);
      var maxX, maxY := large.width - small.width, large.height - small.height;
      InScan(r.x, r.y, maxX, maxY) && Accepted(inp, r.x, r.y, t) &&
      RejectedBefore(inp, maxX, maxY, r.x, r.y, t)
    ensures r == NoMatch ==>
      var nl, ns := NormalizedData(large), NormalizedData(small);
      !Exceeds(large, small) && nl.Some? && ns.Some? &&
      var inp := SearchInput(large, small, nl.value, ns.value);
      forall x, y | InScan(x, y, large.width - small.width, large.height - small.height) :: Rejected(inp, x, y, t)
    ensures r == SearchPanic ==>
      var nl, ns := NormalizedData(large), NormalizedData(small);
      !Exceeds(large, small) &&
      (nl.None? || ns.None? ||
       var inp := SearchInput(large, small, nl.value, ns.value);
       var maxX, maxY := large.width - small.width, large.height - small.height;
       exists x, y :: InScan(x, y, maxX, maxY) && WindowMse(inp, x, y).None? &&
         RejectedBefore(inp, maxX, maxY, x, y, t))
  {
    if small.width > large.width || small.height > large.height {
      return DimensionsExceed;
    }
    var largeData := NormalizeBmpData(large);
    var smallData := NormalizeBmpData(small);
    if largeData.None? || smallData.None? {
      return SearchPanic;
    }
    var inp := SearchInput(large, small, largeData.value, smallData.value);
    var maxX, maxY := large.width - small.width, large.height - small.height;
    var y := 0;
    while y <= maxY
      invariant 0 <= y <= maxY + 1
      invariant RejectedBefore(inp, maxX, maxY, 0, y, t)
    {
      var x := 0;
      while x <= maxX
        invariant 0 <= x <= maxX + 1
        invariant RejectedBefore(inp, maxX, maxY, x, y, t)
      {
        var mse := CalculateMse(inp, x, y);
        if mse.None? {
          return SearchPanic;
        }
        if mse.value.AtMost(t) {
          return Found(x, y);
        }
        x := x + 1;
      }
      y := y + 1;
    }
    return NoMatch;
  }
}
