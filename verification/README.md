# automation: template matching over BMP screenshots, modelled in Dafny

The `automation` Go module captures the screen as a BMP bitmap and looks for a
smaller template bitmap inside it. This project models the part of the module
that computes:

- **BMP decoding.** `LoadBmp` reads the 14-byte file header and the 40-byte
  info header (little-endian). It checks the magic, the compression and the
  bit count, then dispatches to a decoder per depth:
  - 32 and 24 bits slice the padded rows;
  - 16 bits (5-6-5) and 8, 4 and 1 bits (palette) convert to packed B,G,R.

  The header builders and the row-size arithmetic are modelled too.
- **Sequential search.** `normalizeBMPData` flips bottom-up rows to top-down.
  `calculateMSE` is the sum of squared differences over the first three
  channels of each pixel. `FindSubBMP` scans windows y-major and reports the
  first one whose MSE is within the threshold.
- **The matcher.**
  - `chunkBMP` builds an overlapping chunk grid; `extractChunk` copies a
    chunk's bytes.
  - `splitChunksForWorkers` deals chunks round-robin and reverses the
    odd-numbered groups.
  - `validateBMPDimensions` checks the template fits.
  - The task each group runs is modelled, as are `New`, `FindTemplate`,
    `SetScan` and the find options.
- **The dynamic worker pool.** The pool's bookkeeping is a sequential state
  machine over its workers (id and active flag), task queue, `maxWorkers`,
  `activeWorkers`, `stopped`, and whether its context is cancelled.
- **Display helpers:**
  - primary-display selection;
  - the capture options;
  - the virtual-screen bounding box;
  - the capture rectangle in int32 arithmetic;
  - the parser for `xrandr` output;
  - the XWD header skip.

Go's `int` is modelled as an unbounded integer. `int32`, `uint32` and `uint8`
are wrapped explicitly where their width changes a result, using `Tools.Wrap32`
and, in the 8-bit decoder, the uint8 palette offset `colorIndex*4`, which the
decoder computes modulo 256 as Go does (see Findings). Go panics become `None`, `Panic` or
`SearchPanic` results. MSE is kept as an exact pair: the integer sum of
squared differences and the pixel count, compared against the threshold over
the reals.

Two `normalizeBMPData` and `calculateMSE` functions exist, one in
`device/display/display__tools.go` and one in `tools/matcher/matcher_tools.go`.
They differ only in which `CalcBytesPerPixel` they call, and both of those
compute the same thing. `BmpSearch.NormalizeBmpData` and
`BmpSearch.CalculateMse` model both.

Modules, one per file:

| module | file | models |
|---|---|---|
| `Tools` | tools.dfy | `tools/tools.go`, plus Go's truncating division and int32 wrap-around |
| `Wrappers` | wrappers.dfy | `Option` and `Result` |
| `BmpFormat` | bmp_format.dfy | header fields, little-endian codec, header builders, row sizes |
| `BmpPixels` | bmp_pixels.dfy | pixel extraction per depth, and the pixel loops of the converting decoders |
| `BmpDecode` | bmp_decode.dfy | `LoadBmp` and the `processBmp*` decoders |
| `BmpSearch` | bmp_search.dfy | `normalizeBMPData`, `calculateMSE`, `FindSubBMP` |
| `Chunking` | chunking.dfy | `chunkBMP`, `extractChunk`, `validateBMPDimensions` |
| `Grouping` | grouping.dfy | `splitChunksForWorkers` |
| `WorkerPool` | pool.dfy | `dynamicWorkerPool` |
| `Matcher` | matcher.dfy | find options, the task loop of `submitTasks`, `New`, `FindTemplate`, `SetScan` |
| `DisplayDevice` | display.dfy | `display.go`, `display__capture_builder.go` and the computing part of `display_linux.go` |

## Model

| member | source | states |
|---|---|---|
| `Tools.Max` | tools/tools.go:11-16 | the result is at least both arguments and equals one of them |
| `Tools.Min` | tools/tools.go:26-31 | the result is at most both arguments and equals one of them |
| `Tools.CalcBytesPerPixel` | tools/tools.go:40-46 | at 8 bits or more the result r is the quotient of bitCount by 8 (8r <= bitCount < 8r + 8); below 8 bits it is 1 |
| `Tools.BytesPerPixelOfBmpDepths` | device/display/display__tools.go:223-229 | for every legal BMP depth the bytes per pixel are at least 1, exactly bitCount/8 from 8 bits up, and 2, 3, 4 for 16, 24, 32 bits |
| `BmpFormat.U16` | device/display/display__tools.go:130-133 | a little-endian 16-bit field read at an offset lies in 0 .. 2^16-1 |
| `BmpFormat.U32` | device/display/display__tools.go:131-134 | a little-endian 32-bit field read at an offset lies in 0 .. 2^32-1 |
| `BmpFormat.ParseFileHeader` | device/display/display__tools.go:129-135 | the file header read from bytes 0..13 has every field within its unsigned width |
| `BmpFormat.ParseInfoHeader` | device/display/display__tools.go:141-153 | the info header read from bytes 14..53 has each unsigned field within its width and each signed field (width, height, pixels per meter) within int32 |
| `BmpFormat.FileHeaderRoundTrip` | device/display/display__tools.go:129-135 | decoding the 14 encoded bytes of any valid file header, whatever follows them, gives that header back |
| `BmpFormat.FileHeaderBytesRoundTrip` | device/display/display__tools.go:129-135 | re-encoding the decoded file header reproduces the first 14 bytes exactly |
| `BmpFormat.InfoHeaderRoundTrip` | device/display/display__tools.go:141-153 | decoding the 40 encoded bytes of any valid info header, placed after any 14 bytes, gives that header back |
| `BmpFormat.BuildBitMapHeader` | device/display/display__tools.go:211-217 | the header has type 'BM' and zero reserved fields; the offset is 14 plus the header size and the size is the offset plus the data size, whenever those sums fit in a uint32 |
| `BmpFormat.BuildBitMapInfoHeader` | device/display/display__tools.go:198-209 | size 40 and one plane; width, bit count and compression as given; the height is stored negated in int32 arithmetic, so a positive height gives top-down rows and -2^31 stays unchanged; the pixels-per-meter fields as given; colours used, important colours and image size are 0 |
| `BmpFormat.PaddedRowSize` | device/display/display__tools.go:231-241 | the row size is a multiple of 4 and the smallest one holding `width` pixels: 8 per byte at 1 bit, 2 per byte at 4 bits, otherwise width times bytes per pixel |
| `BmpFormat.CalcBmpSize` | device/display/display__tools.go:231-243 | the size is a multiple of 4 and, for byte-sized pixels, at least width times bytes per pixel times height |
| `BmpPixels.Rgb565Lossless` | device/display/display__tools.go:326-338 | the 16-bit pixel's 5-6-5 fields, shifted left by 3, 2 and 3 into blue, green and red bytes, recover the original word |
| `BmpPixels.Rgb565` | device/display/display__tools.go:331-333 | blue and red are multiples of 8 and green a multiple of 4 (the low bits the shifts leave empty) |
| `BmpPixels.NibblesRecombine` | device/display/display__tools.go:436-442 | the 4-bit index of an even x is the high nibble and that of an odd x the low nibble; together they are the byte |
| `BmpPixels.BitsRecombine` | device/display/display__tools.go:494-497 | the 1-bit index of pixel x is bit 7-(x%8) of byte x/8, most significant first; the eight indices make up the byte |
| `BmpPixels.PaletteOffsetSelectsEntry` | device/display/display__tools.go:384-386 | the corrected colour-table offset `4*index` stays inside a table of n entries exactly when index < n, and distinct indices read distinct entries |
| `BmpPixels.PaletteOffset8Wraps` | device/display/display__tools.go:381-386 | as written, index 64 computes offset 0 in uint8 arithmetic, the same as index 0, where the intended offset is 256 |
| `BmpPixels.PaletteOffset8AsWrittenMeaning` | device/display/display__tools.go:381-386 | the as-written 8-bit offset is the corrected offset of index mod 64, and agrees with it exactly when index < 64 |
| `BmpPixels.IndexedPixelSome` | device/display/display__tools.go:369-386 | a readable indexed pixel decodes exactly when the entry it is read from lies in the table of n entries, and is then that entry's B, G, R; the entry is the colour index, reduced modulo 64 at 8 bits by the uint8 offset; otherwise Go panics |
| `BmpPixels.IndexedPixelByte` | device/display/display__tools.go:384-386 | byte c of a decoded indexed pixel is byte c of the table entry it is read from, which lies in the table |
| `BmpPixels.PaletteIndex66ReadsEntry2` | device/display/display__tools.go:381-386 | as written, index 66 over a ten-entry table decodes to entry 2 where the intended offset falls outside the table |
| `BmpPixels.RowSomeIff` | device/display/display__tools.go:379-392 | a row of the converting loop completes exactly when each of its pixels can be read |
| `BmpPixels.RowAt` | device/display/display__tools.go:389-391 | byte 3i+c of a completed row is channel c (blue, green, red) of pixel i |
| `BmpPixels.RowsSomeIff` | device/display/display__tools.go:376-393 | the whole loop completes exactly when every pixel of every row can be read |
| `BmpPixels.RowsLength` | device/display/display__tools.go:374-376 | the converted buffer holds 3·width·height bytes |
| `BmpPixels.RowsAt` | device/display/display__tools.go:387-391 | output byte (y·width + x)·3 + c is channel c of source pixel (y, x) |
| `BmpPixels.FillRow` | device/display/display__tools.go:379-392 | the inner loop writes exactly the row's bytes after the rows already written, or reports the pixel that panics |
| `BmpPixels.FillPixels` | device/display/display__tools.go:374-395 | the nested y/x loops fill a fresh buffer with the converted rows, or fail where Go panics |
| `BmpDecode.AbsHeight` | device/display/display__tools.go:249-251 | the decoded height is the absolute value of BiHeight |
| `BmpDecode.DecoderRowSize` | device/display/display__tools.go:255 | each decoder's padded row size is that of `calcBmpSize` for its depth |
| `BmpDecode.ProcessBmpSlice` | device/display/display__tools.go:245-296 | the 32/24-bit decoder errors exactly when OffBits + rowSize·\|height\| exceeds the input; on success Data is exactly that slice, Width is BiWidth and Height is \|BiHeight\| |
| `BmpDecode.ConvertedSource` | device/display/display__tools.go:355-369 | the converting decoders read rowSize·\|height\| pixel bytes and, except at 16 bits, a colour table of 4 bytes per entry (BiClrUsed, or 256/16/2 by default) |
| `BmpDecode.ProcessBmpConverted` | device/display/display__tools.go:299-511 | the 16/8/4/1-bit decoder returns the converted image, or the out-of-bounds error or panic the code reaches first |
| `BmpDecode.ConvertedSucceeds` | device/display/display__tools.go:345-395 | a converting decoder succeeds exactly when its bounds checks pass and, for palette depths, every pixel is read from an entry within the table: its colour index at 4 and 1 bits, the index modulo 64 at 8 bits |
| `BmpDecode.ConvertedSize` | device/display/display__tools.go:316-342 | a converted image keeps BiWidth, has height \|BiHeight\| and holds 3·width·height bytes |
| `BmpDecode.ConvertedPixel` | device/display/display__tools.go:322-340 | each converted pixel's three bytes are the B,G,R of the source pixel at the same row and column |
| `BmpDecode.ConvertedPaletteEntry` | device/display/display__tools.go:376-392 | at 8, 4 and 1 bits, byte c of decoded pixel (x, y) is byte c of the palette entry that pixel is read from, and that entry lies in the table |
| `BmpDecode.LoadBmpResult` | device/display/display__tools.go:124-126 | input shorter than 54 bytes is rejected as too small, and nothing else is |
| `BmpDecode.LoadBmpChecks` | device/display/display__tools.go:129-195 | with 54 bytes or more: a bad file type exactly when bytes 0..1 are not 0x4D42; then compressed exactly when bytes 30..33 are non-zero; then an unsupported bit count exactly when bytes 28..29 are not 1, 4, 8, 16, 24 or 32; otherwise the result is the matching decoder's |
| `BmpDecode.LoadBmp` | device/display/display__tools.go:122-196 | the method computes `LoadBmpResult` |
| `BmpDecode.BuiltBmpLoads` | device/display/display__tools.go:198-217 | a 24/32-bit image whose headers come from the builders loads back as exactly those headers, that pixel data and those dimensions |
| `BmpSearch.SearchRowSize` | device/display/display__tools.go:33-34 | the search's row size is a multiple of 4 with under 4 bytes of padding past width·bytesPerPixel |
| `BmpSearch.FlipRowsAt` | device/display/display__tools.go:104-108 | row r of the flipped buffer is row h-1-r of the input |
| `BmpSearch.FlipRowsTwice` | device/display/display__tools.go:104-108 | flipping the rows twice gives back the rows |
| `BmpSearch.CopyRow` | device/display/display__tools.go:108 | one row copy writes the source row at the destination offset and leaves the bytes after it alone |
| `BmpSearch.NormalizeBmpData` | device/display/display__tools.go:93-112 | the copy loop returns `NormalizedData`, or fails where a row copy leaves the data |
| `BmpSearch.NormalizedMeaning` | device/display/display__tools.go:93-112 | the data comes back unchanged when BiHeight < 0; otherwise it has the same length and row r equals input row height-1-r |
| `BmpSearch.NormalizedTail` | device/display/display__tools.go:97-110 | of a bottom-up image, every byte after the last row of the normalized copy is zero |
| `BmpSearch.PixelError` | device/display/display__tools.go:77-81 | the channel loop sums the squared differences of channels 0..2 of the two pixels, or fails where a read leaves a buffer |
| `BmpSearch.RowError` | device/display/display__tools.go:71-84 | the column loop sums the pixel errors of one template row against its window row |
| `BmpSearch.CalculateMse` | device/display/display__tools.go:62-89 | the loops compute the window's sum of squared differences over three channels per pixel, with pixel count height·width, or fail where a read leaves a buffer |
| `BmpSearch.ExactWindowMatches` | device/display/display__tools.go:62-89 | the sum is 0 exactly when the window equals the template on every channel compared, and such a window is within any non-negative threshold |
| `BmpSearch.PixelSseZero` | device/display/display__tools.go:77-81 | a pixel's error is 0 exactly when its compared channels are readable and equal |
| `BmpSearch.RowSseZero` | device/display/display__tools.go:71-84 | a row's error is 0 exactly when each of its pixels equals the window's |
| `BmpSearch.WindowSseZero` | device/display/display__tools.go:69-84 | the first rows' sum is 0 exactly when each of those template rows equals its window row |
| `BmpSearch.AcceptRule` | tools/matcher/matcher_tools.go:249-269 | accepting at threshold/5 or, after re-measuring, at threshold is the same as accepting at threshold |
| `BmpSearch.FindSubBmp` | device/display/display__tools.go:18-49 | dimension error exactly when the template is wider or taller; a reported (x, y) is in range, within the threshold, and every earlier window in y-major order was over it; "no match" means every window was over it; a panic means some window read outside a buffer with all earlier ones over the threshold |
| `Chunking.LayoutOf` | tools/matcher/matcher_tools.go:31-34 | chunks are at least twice the template in each direction, so the stride (chunk size minus overlap) is at least the template size |
| `Chunking.LayoutStrides` | tools/matcher/matcher_tools.go:31-38 | strides are never negative on a non-empty scan, at least 1 for a non-empty template, and zero only for an empty template on a scan under ten pixels |
| `Chunking.Clip` | tools/matcher/matcher_tools.go:56-66 | an edge chunk is clipped to end exactly at the scan's edge; a chunk that fits keeps the full size |
| `Chunking.ChunkRowsAt` | tools/matcher/matcher_tools.go:116-126 | row r of the row-by-row copy is the chunk's width of bytes from scan row startY+r at column startX |
| `Chunking.ChunkRowsSomeIff` | tools/matcher/matcher_tools.go:116-126 | the row-by-row copy succeeds exactly when each source row lies inside the data |
| `Chunking.ExtractedChunkAsWritten` | tools/matcher/matcher_tools.go:103-130 | extractChunk as written returns exactly chunkWidth·chunkHeight·bpp bytes |
| `Chunking.ContiguousCopyMisplacesRows` | tools/matcher/matcher_tools.go:110-114 | with a 2-byte chunk on two rows of a 4-byte-wide scan, the one-copy branch returns bytes 0..3, but the chunk's rows are bytes 0,1 and 4,5 |
| `Chunking.ContiguousAgrees` | tools/matcher/matcher_tools.go:110-127 | the one-copy branch agrees with the row-by-row copy when the chunk has one row or spans whole rows |
| `Chunking.GridChunksContiguous` | tools/matcher/matcher_tools.go:62-69 | every chunk of chunkBMP's grid takes the one-copy branch |
| `Chunking.AsWrittenBranches` | tools/matcher/matcher_tools.go:110-127 | the one-copy branch is one linear slice from startY·rowSize + startX·bpp; the other is the row-by-row copy |
| `Chunking.CopyChunkRows` | tools/matcher/matcher_tools.go:117-126 | the row loop writes the row-by-row copy into the buffer, or fails at a row outside the data |
| `Chunking.ExtractChunk` | tools/matcher/matcher_tools.go:103-130 | extractChunk computes `ExtractedChunkAsWritten`, and a buffer that is large enough holds the result |
| `Chunking.RowBand` | tools/matcher/matcher_tools.go:51-85 | a row band's goroutine yields its chunks in increasing x, or fails at a chunk extractChunk panics on |
| `Chunking.ChunkBmp` | tools/matcher/matcher_tools.go:26-91 | chunkBMP yields the grid of chunks, or None where Go panics (division by a zero stride, negative `make`, or a copy outside the data) |
| `Chunking.ChunkBands` | tools/matcher/matcher_tools.go:49-89 | the bands, top to bottom, give the whole grid `Bands(l, 0)`, or None exactly when some chunk of it makes extractChunk panic |
| `Chunking.ValidateBmpDimensions` | tools/matcher/matcher_tools.go:140-145 | no error exactly when the template is no wider and no taller than the scan |
| `Chunking.GridCovers` | tools/matcher/matcher_tools.go:49-79 | every window start with x <= W-tw and y <= H-th lies in a chunk that holds the whole window |
| `Chunking.GridInside` | tools/matcher/matcher_tools.go:56-66 | every chunk lies inside the scan and is full sized or clipped at the right and bottom edges |
| `Chunking.GridOrdered` | tools/matcher/matcher_tools.go:55-84 | chunks are ordered by band and by x within a band, so no chunk appears twice |
| `Chunking.GuardedGridReachesLoops` | tools/matcher/matcher_tools.go:36-42 | after the dimension check, with a non-empty template, chunkBMP neither divides by zero nor makes a negative allocation |
| `Grouping.ReverseGroup` | tools/matcher/matcher_tools.go:194-196 | the swap loop reverses one group and leaves the others alone |
| `Grouping.DealChunks` | tools/matcher/matcher_tools.go:187-190 | the first loop appends chunk i to group i % n |
| `Grouping.ReverseOddGroups` | tools/matcher/matcher_tools.go:193-197 | the second loop reverses groups 1, 3, 5, ... |
| `Grouping.SplitChunksForWorkers` | tools/matcher/matcher_tools.go:185-200 | the method returns `SplitGroups`, which is None where Go panics (negative `make`, or `% 0` with any chunk) |
| `Grouping.SplitGroupsMeaning` | tools/matcher/matcher_tools.go:185-200 | for n >= 1: exactly n groups whose union is a permutation of the chunks; group g has \|chunks\|/n elements, one more when g < \|chunks\| % n; element j is chunk g + j·n, counted from the back in odd groups |
| `Grouping.DealLength` | tools/matcher/matcher_tools.go:187-190 | dealing puts \|s\|/n chunks in group g, one more when g < \|s\| % n, so sizes differ by at most one |
| `Grouping.DealAt` | tools/matcher/matcher_tools.go:187-190 | element j of dealt group g is chunk g + j·n |
| `Grouping.Reverse` | tools/matcher/matcher_tools.go:194-196 | the reversed group has the same length and element i is element \|s\|-1-i of the original |
| `Grouping.ReversePermutation` | tools/matcher/matcher_tools.go:194-196 | reversing a group keeps its elements, counted with multiplicity |
| `Grouping.DealtPermutation` | tools/matcher/matcher_tools.go:187-190 | the dealt groups together hold exactly the chunks, counted with multiplicity |
| `Grouping.UnionMembers` | tools/matcher/matcher_tools.go:185-200 | a chunk is in the union exactly when some group holds it |
| `WorkerPool.Pool.constructor` | tools/worker/pool.go:90-110 | maxWorkers <= 0 becomes 1; workers 0 .. maxWorkers-1, all inactive; empty queue; not stopped |
| `WorkerPool.Pool.InitWorkers` | tools/worker/pool.go:221-228 | appends exactly maxWorkers inactive workers numbered from 0 |
| `WorkerPool.FreshIdle` | tools/worker/pool.go:221-228 | fresh workers are inactive, max(n, 0) of them, numbered consecutively |
| `WorkerPool.Pool.AddWorker` | tools/worker/pool.go:212-219 | appends one inactive worker numbered \|workers\| only while \|workers\| < maxWorkers |
| `WorkerPool.Pool.IncreaseMaxWorkers` | tools/worker/pool.go:187-195 | nothing for n <= 0; otherwise maxWorkers grows by n and n fresh workers are added, keeping \|workers\| <= maxWorkers |
| `WorkerPool.Pool.GetMaxWorkers` | tools/worker/pool.go:181-185 | the limit is at least 1, the number of workers and the active count |
| `WorkerPool.Pool.Stop` | tools/worker/pool.go:122-133 | every worker is stopped, activeWorkers is 0, the pool is stopped and its context cancelled, and the queue is untouched |
| `WorkerPool.StopIdempotent` | tools/worker/pool.go:122-133 | stopping the workers twice gives the same workers as stopping them once, with the ids kept |
| `WorkerPool.Pool.Start` | tools/worker/pool.go:135-142 | only when activeWorkers is 0: the pool runs again and its context is renewed (see Findings) |
| `WorkerPool.Pool.StartAsWritten` | tools/worker/pool.go:135-142 | as written: `stopped` is cleared when activeWorkers is 0, but the cancelled context stays cancelled |
| `WorkerPool.Pool.ClearTaskQueue` | tools/worker/pool.go:112-120 | the queue is emptied and nothing else changes |
| `WorkerPool.Pool.Wait` | tools/worker/pool.go:203-210 | blocks exactly when tasks are queued or workers are counted active |
| `WorkerPool.Pool.DecreaseMaxWorkers` | tools/worker/pool.go:148-179 | the corrected removal: n is clamped to maxWorkers; inactive workers are removed first, then active ones; maxWorkers never changes |
| `WorkerPool.DecreasedMeaning` | tools/worker/pool.go:148-179 | removes exactly min(n, \|workers\|) workers (none for n <= 0); the active ones stay when n is at most the idle count; no idle one stays otherwise; the result is a sub-multiset |
| `WorkerPool.DropIdleCounts` | tools/worker/pool.go:157-166 | the first loop removes min(k, idle) inactive workers and keeps every active one |
| `WorkerPool.DropActiveCounts` | tools/worker/pool.go:169-178 | the second loop removes min(k, active) active workers |
| `WorkerPool.RemoveIdle` | tools/worker/pool.go:157-166 | the first removal loop computes `DropIdle` |
| `WorkerPool.RemoveActive` | tools/worker/pool.go:169-178 | the second removal loop computes `DropActive` |
| `WorkerPool.DecreaseAsWrittenPanics` | tools/worker/pool.go:157-166 | as written, removing 2 of 2 inactive workers panics on the slot slices.Delete zeroed; the intended result is no workers |
| `WorkerPool.DecreaseAsWrittenZero` | tools/worker/pool.go:157-166 | as written, n = 0 still removes an inactive worker; the intended result keeps it |
| `WorkerPool.Pool.DispatchPass` | tools/worker/pool.go:237-252 | the first i workers in slice order are run (idle ones started, running ones kept), the rest untouched; the counter grows by the idle workers among those i, and i stops short of the end only when the counter reaches maxWorkers |
| `WorkerPool.StartIdle` | tools/worker/pool.go:238-251 | the dispatch range loop: workers are started in slice order, a prefix of the slice being run and the rest untouched, stopping early only at the limit; every worker keeps its id and no running one stops; the counter ends at min(maxWorkers, start + idle workers), and it grew by exactly the number of workers started |
| `WorkerPool.Pool.ReleasePass` | tools/worker/pool.go:254-273 | stops every active worker and takes each off the count |
| `WorkerPool.StopRunning` | tools/worker/pool.go:255-272 | the release range loop: given a counter at least the number running, every worker ends stopped with its id kept and the counter drops by the number that ran |
| `WorkerPool.Pool.Tick` | tools/worker/pool.go:230-276 | one handler pass: nothing once the context is cancelled; with tasks queued and room, the dispatch pass's prefix of started workers and its counter; with the queue empty and workers counted, every worker stopped and the counter lowered by those running; otherwise workers and counter unchanged; always keeps 0 <= activeWorkers <= maxWorkers |
| `WorkerPool.RestartAsWritten` | tools/worker/pool.go:122-142 | as written, after Stop then Start, a handler pass dispatches nothing and leaves the queued tasks with no worker running |
| `WorkerPool.Restart` | tools/worker/pool.go:122-142 | with the context renewed, Stop then Start then one pass dispatches min(maxWorkers, \|workers\|) >= 1 workers to queued tasks |
| `Matcher.FindBuilderOption.constructor` | tools/matcher/matcher.go:53 | the find options start with a zero threshold and a zero timeout |
| `Matcher.FindBuilderOption.Apply` | tools/matcher/matcher__find_builder.go:12-22 | MseThresholdOpt sets only the threshold and TimeoutOpt only the timeout |
| `Matcher.LastThresholdWins` | tools/matcher/matcher.go:54-56 | the threshold after applying options in order is that of the last threshold option |
| `Matcher.NoThresholdOption` | tools/matcher/matcher.go:54-56 | without a threshold option the threshold stays as it was |
| `Matcher.LastTimeoutWins` | tools/matcher/matcher.go:54-56 | the timeout is that of the last timeout option |
| `Matcher.NoTimeoutOption` | tools/matcher/matcher.go:54-56 | without a timeout option the timeout stays as it was |
| `Matcher.ResolveOptions` | tools/matcher/matcher.go:53-63 | applies the options in order, then defaults a zero threshold to 100.0 and a zero timeout to 500 ms |
| `Matcher.ScanRow` | tools/matcher/matcher_tools.go:235-279 | a reported window is in the chunk's row and within the threshold, each earlier one being over it; "no match" means every window of the row is over it |
| `Matcher.ScanChunk` | tools/matcher/matcher_tools.go:230-280 | a reported window is held by the chunk and within the threshold, and every window of the chunk before it (rows above, then columns to its left) is over it; "no match" means every window the chunk holds is over it |
| `Matcher.ScanGroup` | tools/matcher/matcher_tools.go:228-283 | a group's task reports a window some chunk of it holds that is within the threshold, or rejects every window its chunks hold |
| `Matcher.ScanTasks` | tools/matcher/matcher_tools.go:219-288 | the tasks run in group order: the result is a window within the threshold held by some group, or every group rejected all its windows |
| `Matcher.WorkerCount` | tools/matcher/matcher.go:82 | the worker count is at least 1 |
| `Matcher.WorkerCountMeaning` | tools/matcher/matcher.go:82-83 | the count is max(chunks/6, 1), so each worker gets at least six chunks once there are six |
| `Matcher.AcceptedNonEmpty` | tools/matcher/matcher_tools.go:301-328 | a window within the threshold compared at least one pixel, so the template is at least 1 by 1 |
| `Matcher.EmptyNotAccepted` | tools/matcher/matcher_tools.go:301-328 | with an empty template the MSE is 0/0, a NaN, and no window is accepted |
| `Matcher.ChunkWindowInScan` | tools/matcher/matcher_tools.go:56-79 | an accepted window held by a chunk of the grid lies in the scan's range of window starts |
| `Matcher.NoMatchCoversScan` | tools/matcher/matcher.go:72-90 | when every task rejects its windows, no window of the scan is within the threshold |
| `Matcher.PanicInScan` | tools/matcher/matcher_tools.go:235-246 | a window some task fails to measure lies in the scan's range of window starts |
| `Matcher.FoundInScan` | tools/matcher/matcher.go:118-122 | a window a task reports lies in the scan's range of window starts |
| `Matcher.Prepare` | tools/matcher/matcher.go:68-83 | both images normalized, the scan chunked and the chunks split into exactly WorkerCount groups, or None where Go panics |
| `Matcher.Matcher.constructor` | tools/matcher/matcher.go:44-49 | New stores the scan, with a pool of one worker allowed and queue capacity 3000, running and with a live context |
| `Matcher.Matcher.FindTemplate` | tools/matcher/matcher.go:51-128 | the dimension error exactly when the template does not fit, before any pool call; on a pool whose context is live, a reported window is in range and within the effective threshold and "no match found" means no window of the scan is; maxWorkers is raised to the worker count and never lowered; the pool ends stopped with its context cancelled, so on any later call (context already cancelled) no task is dispatched and, a stopped worker running nothing in this model, no window is ever reported and, once the images normalize and chunk, the result is "no match found" (see Findings); a result SearchPanic means normalizing or chunking failed or some window of the scan's range cannot be measured |
| `Matcher.Matcher.ReadyPool` | tools/matcher/matcher.go:84-90 | the limit becomes max(old limit, worker count), never lower; a pool not reporting itself working is marked running, one that does (in particular a stopped one) keeps its `stopped` flag; the context, the queue and the active count are untouched; when the limit grows, fresh inactive workers numbered from the old length are appended, otherwise the workers are unchanged |
| `Matcher.Matcher.SetScan` | tools/matcher/matcher.go:131-138 | after ClearTaskQueue, Stop, Wait and Start the scan is replaced, the queue is empty, every worker is the old one stopped (count and ids kept), no worker is counted active and maxWorkers is kept; the pool is marked running but its context stays cancelled (see Findings) |
| `DisplayDevice.FirstPrimary` | device/display/display.go:27-31 | the index of the first display flagged primary, or -1 exactly when none is |
| `DisplayDevice.GetPrimaryDisplay` | device/display/display.go:22-33 | a detection error gives a zero display with that error; an empty list gives a zero display and no error; "no primary display found" exactly when the list is non-empty with no primary; otherwise the first primary display |
| `DisplayDevice.DisplayCaptureOption.constructor` | device/display/display_linux.go:56 | the capture options start zeroed |
| `DisplayDevice.DisplayCaptureOption.Apply` | device/display/display__capture_builder.go:13-38 | DisplaysOpt sets only Displays, BoundsOpt only Bounds, and a bit-count option only BitCount |
| `DisplayDevice.BitCountOptEffect` | device/display/display__capture_builder.go:19-32 | BitCountOpt(b) changes nothing for b outside {1,4,8,16,24,32} and otherwise sets exactly b; the default-24 branch is never taken |
| `DisplayDevice.LastDisplaysWins` | device/display/display_linux.go:56-59 | after applying options in order, Displays is that of the last DisplaysOpt, or empty |
| `DisplayDevice.LastBoundsWins` | device/display/display_linux.go:56-59 | Bounds is that of the last BoundsOpt, or all zero |
| `DisplayDevice.NewVirtualScreen` | device/display/display_linux.go:17-53 | a detection error or no displays gives the zero screen; otherwise Left is the least X, Bottom the least Y, Right the greatest int32 X+Width and Top the greatest Y+Height, each attained by some display |
| `DisplayDevice.CaptureRect` | device/display/display_linux.go:76-93 | a returned region has positive width and height; otherwise the error carries the non-positive width or height |
| `DisplayDevice.CaptureRectWithBounds` | device/display/display_linux.go:77-92 | with non-zero bounds the size is the int32 difference of the right/left and bottom/top offsets, whatever the display origin, and the corner is the origin plus the left and top offsets |
| `DisplayDevice.CaptureRectBoundsExact` | device/display/display_linux.go:77-92 | without overflow, a bounded region is valid exactly when left < right and top < bottom, and is then the plain sums and differences |
| `DisplayDevice.CaptureRectWholeDisplay` | device/display/display_linux.go:82-92 | without bounds the region is the whole display, or an error when it is empty |
| `DisplayDevice.CollectMeaning` | device/display/display_linux.go:75-113 | every region in display order, or the first error |
| `DisplayDevice.CollectPrefixErr` | device/display/display_linux.go:75-113 | once a region fails, later displays do not change the result |
| `DisplayDevice.CaptureRegions` | device/display/display_linux.go:55-93 | CaptureBmp up to the capture commands: options applied, BitCount forced to 24, the named displays or else the primary one, and each region in order up to the first invalid one |
| `DisplayDevice.CaptureEach` | device/display/display_linux.go:75-93 | the loop over the displays returns each display's region in order, or the error of the first display whose region is invalid |
| `DisplayDevice.DigitRun` | device/display/display_linux.go:142 | the longest run of digits from a position |
| `DisplayDevice.FindGeometryMeaning` | device/display/display_linux.go:142-143 | a WxH+X+Y token is found exactly when one starts at or after the given position, and what is found is the token at one of those positions (which one: `LeftmostGeometry`) |
| `DisplayDevice.NumeralValue` | device/display/display_linux.go:148-153 | the decimal digits of n read back as n |
| `DisplayDevice.FieldRoundTrip` | device/display/display_linux.go:146-153 | a number followed by its separator is read back as that number, with the position after the separator |
| `DisplayDevice.GeometryRoundTrip` | device/display/display_linux.go:142-153 | the printed token WxH+X+Y, whatever follows it, parses back to W, H, X and Y |
| `DisplayDevice.DetailLineGeometry` | device/display/display_linux.go:140-158 | a " connected " line holding the token, with no earlier token, yields that width, height, x and y |
| `DisplayDevice.LeftmostGeometry` | device/display/display_linux.go:142-143 | the token found is the one at the first position where a token starts |
| `DisplayDevice.EntryOf` | device/display/display_linux.go:136-161 | primary exactly when the line has " primary " or x = y = 0; the values are exact when in range (Atoi and ParseInt saturate) |
| `DisplayDevice.ParseLine` | device/display/display_linux.go:134-174 | a line either keeps the displays or appends the pending one; the pending display is the previous one or one the line announces |
| `DisplayDevice.ParsedDisplaysAnnounced` | device/display/display_linux.go:134-174 | every parsed display, and the pending one, comes from a " connected " line with a geometry token |
| `DisplayDevice.DetailThenModeLine` | device/display/display_linux.go:162-173 | a detail line followed by a "*+" refresh line appends that display; a "*+" line with nothing pending changes nothing |
| `DisplayDevice.SplitLinesJoin` | device/display/display_linux.go:130 | joining the split lines with newlines gives the output back |
| `DisplayDevice.SplitLines` | device/display/display_linux.go:130 | at least one line and no newline inside any |
| `DisplayDevice.ExtractDisplaysFromXrandrOutput` | device/display/display_linux.go:129-178 | the loop computes the displays of `ParseLines` over the split output |
| `DisplayDevice.ExtractRawPixelData` | device/display/display_linux.go:180-203 | an error for 100 bytes or fewer, or fewer than w·h·4 bytes after the header; otherwise exactly everything after byte 100 |

## Left out

- Concurrency. The goroutines, channels and mutexes are not modelled:
  - chunkBMP's per-band goroutines: the bands run in order, so the grid's band order is fixed here, where Go appends bands in completion order;
  - the workers' task goroutines: the tasks run one after another in group order, so which task wins a race is not modelled;
  - the atomic match flag, `sendResult`, and the `select` between the result channel and the timeout;
  - `SubmitTask` blocking on a full channel; the `errorHandler` goroutine;
  - `taskHandler`'s endless loop: `Tick` models one pass of its body.
- Time. The timeout is only an integer option value. Its expiry, and the printing of elapsed time, are not modelled.
- Console printing in `LoadBmp` and `FindTemplate`.
- Floating point:
  - `calcPixelsPerMeter`;
  - the refresh rate in `extractDisplaysFromXrandrOutput`, so `Display.RefreshRate` is not a field;
  - float64 rounding of the MSE: the sum of squares is an exact integer, compared over the reals.
- OS calls:
  - running `xrandr`: `DetectDisplays` becomes a `Detection` parameter (the parsed displays or an error);
  - running `import`, and `LoadBmp` of its output: `CaptureRegions` stops at the list of regions;
  - the Windows capture code, X11, mouse and keyboard.
- Chunk data. `Chunk` keeps position and size but not `Data`. In Go every chunk's `Data` aliases the one shared buffer, and the search never reads it.
- `Chunking.ExtractChunk` requires non-negative chunk dimensions and bytes per pixel, which chunkBMP always passes. A negative length would be a `make` panic in Go.
- `WorkerPool.Pool.constructor` takes the queue size as a `nat`. Go's `make` panics on a negative capacity.
- `WorkerPool.Pool.DecreaseMaxWorkers` models the intended removal (see Findings), not the as-written deletion while ranging, which `WorkerPool.DecreaseAsWritten` models separately.
- Go's 64-bit `int` overflow, in `w·h·4`, row sizes and chunk sizes: `int` is unbounded here.
- Slice capacity. Slicing past a slice's length but within its capacity is legal in Go. The model's byte sequences have no spare capacity, so every read past the length is a panic (`None`).
- Two mismatches in the source keep it from compiling:
  - `pool.go` calls `NewWorker` with four arguments where `worker.go` declares five; a worker is modelled as its id and active flag;
  - `NewVirtualScreen` returns `&vs` of the unexported `virtualScreen` type. The model returns the screen's fields.
- Worker goroutines. A worker is its id and active flag, and a stopped worker runs nothing. In Go, `Stop` sends the id on a shared `stopChan`, which another worker's goroutine may receive and drop (worker.go:63-66), and workers read `taskQueue` directly. So goroutines may outlive `Stop` and run queued tasks with no handler. `Matcher.Matcher.FindTemplate`'s "no match found" on a cancelled context rests on this abstraction.
- `Matcher.Matcher.FindTemplate`: the tasks `submitTasks` sends are not added to `taskQueue`. With a live context they run at once, in order; with a cancelled one they are not run. So the queue contents after a call are not stated.
- `BitCountOpt`'s inner default-to-24 branch is unreachable, as `DisplayDevice.BitCountOptEffect` states, and is not modelled separately.

## Findings

| source | as written | input that shows it | evidently intended | confidence | as-written member | corrected member |
|---|---|---|---|---|---|---|
| device/display/display__tools.go:381-386 | `colorIndex` is a `uint8`, so `colorIndex*4+k` is computed mod 256 | palette index 64 in an 8-bit BMP with a 256-entry table reads entry 0 (`BmpPixels.PaletteOffset8Wraps`); index 66 with BiClrUsed = 10 decodes to entry 2 where the intended lookup is out of the table (`BmpPixels.PaletteIndex66ReadsEntry2`) | offset `4*index` as an `int`, reading entry 64, as the 4- and 1-bit decoders' `BmpPixels.PaletteOffset` does | not executed; high | `BmpPixels.PaletteOffset8AsWrittenMeaning` | `BmpPixels.PaletteOffsetSelectsEntry` |
| tools/matcher/matcher_tools.go:110-114 | when a chunk's columns fit in a row, one linear copy of width·height·bpp bytes is taken from the chunk's top-left pixel | a 2-byte-wide (2 pixels at 1 byte each), 2-row chunk of a scan 4 bytes per row: bytes 0..3 instead of rows 0,1 and 4,5 (`Chunking.ContiguousCopyMisplacesRows`) | the chunk's rows, each from its own scan row | not executed; high (the chunk data is never read by the search, so the result is unaffected) | `Chunking.ExtractChunk` | `Chunking.ChunkRowsAt` |
| tools/worker/pool.go:148-179 | workers are deleted with `slices.Delete` from the slice being ranged over, and `removed >= n` is tested only after a removal | two inactive workers and n = 2 panic on the zeroed slot; n = 0 still removes a worker (`WorkerPool.DecreaseAsWrittenPanics`, `WorkerPool.DecreaseAsWrittenZero`) | remove min(n, len) workers, inactive ones first | not executed; high | `WorkerPool.DecreaseAsWrittenPanics` | `WorkerPool.DecreasedMeaning` |
| tools/worker/pool.go:122-142 | `Stop` cancels `poolCtx`; `Start` launches a new `taskHandler` without renewing it, so the handler returns at once | `SetScan`, or any Stop followed by Start, with tasks queued: nothing is dispatched again (`WorkerPool.RestartAsWritten`); a second `FindTemplate` on the same matcher does not even call Start, since a stopped pool reports itself working, so no handler dispatches its tasks; with stopped workers running nothing, as modelled, it ends in "no match found" whatever the scan (`Matcher.Matcher.FindTemplate`, `Matcher.Matcher.SetScan`) | Start creates a fresh context so that the pool works again | not executed; medium | `WorkerPool.RestartAsWritten` | `WorkerPool.Restart` |
