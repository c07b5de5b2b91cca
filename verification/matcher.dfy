/**
 * The template matcher (tools/matcher): its options, the task each worker
 * runs over a group of chunks, FindTemplate and SetScan. The pool runs the
 * tasks concurrently; here they run one after another, in group order,
 * and a task that finds a window ends the search.
 */
module Matcher {
  import opened Tools
  import opened Wrappers
  import opened BmpFormat
  import opened BmpSearch
  import opened Chunking
  import opened Grouping
  import opened WorkerPool

  /** A FindTemplate option; a timeout is a time.Duration, in nanoseconds. */
  datatype FindOption = MseThresholdOpt(threshold: real) | TimeoutOpt(timeout: int)

  const DefaultThreshold: real := 100.0
  /** 500 * time.Millisecond. */
  const DefaultTimeout: int := 500_000_000

  /** findBuilderOption: the settings FindTemplate's options write. */
  class FindBuilderOption {
    var mseThreshold: real
    var timeout: int

    constructor ()
      ensures mseThreshold == 0.0 && timeout == 0
    {
      mseThreshold := 0.0;
      timeout := 0;
    }

    /** Applies one option: it writes its own field and leaves the other. */
    method Apply(opt: FindOption)
      modifies this
      ensures mseThreshold == if opt.MseThresholdOpt? then opt.threshold else old(mseThreshold)
      ensures timeout == if opt.TimeoutOpt? then opt.timeout else old(timeout)
    {
      match opt
      case MseThresholdOpt(t) => mseThreshold := t;
      case TimeoutOpt(d) => timeout := d;
    }
  }

  /** The threshold after applying `opts` in order to a start value. */
  function ThresholdAfter(opts: seq<FindOption>, t0: real): real {
    if |opts| == 0 then t0
    else if opts[|opts| - 1].MseThresholdOpt? then opts[|opts| - 1].threshold
    else ThresholdAfter(opts[..|opts| - 1], t0)
  }

  /** The timeout after applying `opts` in order to a start value. */
  function TimeoutAfter(opts: seq<FindOption>, d0: int): int {
    if |opts| == 0 then d0
    else if opts[|opts| - 1].TimeoutOpt? then opts[|opts| - 1].timeout
    else TimeoutAfter(opts[..|opts| - 1], d0)
  }

  /** The threshold FindTemplate searches with: a zero one becomes the default. */
  function EffectiveThreshold(opts: seq<FindOption>): real {
    var t := ThresholdAfter(opts, 0.0);
    if t == 0.0 then DefaultThreshold else t
  }

  /** The timeout FindTemplate waits for: a zero one becomes the default. */
  function EffectiveTimeout(opts: seq<FindOption>): int {
    var d := TimeoutAfter(opts, 0);
    if d == 0 then DefaultTimeout else d
  }

  /** Of several threshold options, the last one applied wins. */
  lemma {:induction false} LastThresholdWins(opts: seq<FindOption>, t0: real, i: int)
    requires 0 <= i < |opts| && opts[i].MseThresholdOpt?
    requires forall j | i < j < |opts| :: !opts[j].MseThresholdOpt?
    ensures ThresholdAfter(opts, t0) == opts[i].threshold
  {
    if i < |opts| - 1 {
      LastThresholdWins(opts[..|opts| - 1], t0, i);
    }
  }

  /** Options that set no threshold leave it as it was. */
  lemma {:induction false} NoThresholdOption(opts: seq<FindOption>, t0: real)
    requires forall j | 0 <= j < |opts| :: !opts[j].MseThresholdOpt?
    ensures ThresholdAfter(opts, t0) == t0
  {
    if |opts| > 0 {
      NoThresholdOption(opts[..|opts| - 1], t0);
    }
  }

  /** Of several timeout options, the last one applied wins. */
  lemma {:induction false} LastTimeoutWins(opts: seq<FindOption>, d0: int, i: int)
    requires 0 <= i < |opts| && opts[i].TimeoutOpt?
    requires forall j | i < j < |opts| :: !opts[j].TimeoutOpt?
    ensures TimeoutAfter(opts, d0) == opts[i].timeout
  {
    if i < |opts| - 1 {
      LastTimeoutWins(opts[..|opts| - 1], d0, i);
    }
  }

  /** Options that set no timeout leave it as it was. */
  lemma {:induction false} NoTimeoutOption(opts: seq<FindOption>, d0: int)
    requires forall j | 0 <= j < |opts| :: !opts[j].TimeoutOpt?
    ensures TimeoutAfter(opts, d0) == d0
  {
    if |opts| > 0 {
      NoTimeoutOption(opts[..|opts| - 1], d0);
    }
  }

  /**
   * The start of FindTemplate: the options applied in order to zeroed
   * settings, then a zero threshold or timeout replaced by its default;
   * neither setting comes out zero.
   */
  method ResolveOptions(opts: seq<FindOption>) returns (threshold: real, timeout: int)
    ensures threshold == EffectiveThreshold(opts) && threshold != 0.0
    ensures timeout == EffectiveTimeout(opts) && timeout != 0
  {
    var fbo := new FindBuilderOption();
    var i := 0;
    while i < |opts|
      invariant 0 <= i <= |opts|
      invariant fbo.mseThreshold == ThresholdAfter(opts[..i], 0.0)
      invariant fbo.timeout == TimeoutAfter(opts[..i], 0)
    {
      fbo.Apply(opts[i]);
      assert opts[..i + 1][..i] == opts[..i];
      i := i + 1;
    }
    assert opts[..i] == opts;
    threshold := fbo.mseThreshold;
    if threshold == 0.0 {
      threshold := DefaultThreshold;
    }
    timeout := fbo.timeout;
    if timeout == 0 {
      timeout := DefaultTimeout;
    }
  }

  /**
   * The windows of one row of a chunk's task, at absolute row y: each MSE is
   * taken; one within a fifth of the threshold is reported at once, one
   * within the threshold after being measured again. A read outside a
   * buffer is a Go panic.
   */
  method ScanRow(inp: MseInput, c: Chunk, y: int, t: real) returns (r: SearchResult)
    ensures r.Found? ==>
      r.y == y && c.x <= r.x && r.x + inp.smallWidth <= c.x + c.width && Accepted(inp, r.x, r.y, t)
    ensures r.Found? ==> forall x' | c.x <= x' < r.x :: Rejected(inp, x', y, t)
    ensures r.NoMatch? ==>
      forall x | c.x <= x && x + inp.smallWidth <= c.x + c.width :: Rejected(inp, x, y, t)
    ensures r.SearchPanic? ==>
      exists x | c.x <= x && x + inp.smallWidth <= c.x + c.width :: WindowMse(inp, x, y).None?
    ensures !r.DimensionsExceed?
  {
    var x := 0;
    while x <= c.width - inp.smallWidth
      invariant x >= 0
      invariant forall x' | c.x <= x' < c.x + x && x' + inp.smallWidth <= c.x + c.width :: Rejected(inp, x', y, t)
    {
      var absoluteX := c.x + x;
      var mse := CalculateMse(inp, absoluteX, y);
      if mse.None? {
        return SearchPanic;
      }
      AcceptRule(mse.value, t);
      if mse.value.AtMost(t / 5.0) {
        return Found(absoluteX, y);
      }
      if mse.value.AtMost(t) {
        var validation := CalculateMse(inp, absoluteX, y);
        if validation.Some? && validation.value.AtMost(t) {
          return Found(absoluteX, y);
        }
      }
      x := x + 1;
    }
    return NoMatch;
  }

  /**
   * One chunk of a task: its rows of window starts from the top, each over
   * its columns from the left, covering exactly the windows the chunk holds.
   */
  method ScanChunk(inp: MseInput, c: Chunk, t: real) returns (r: SearchResult)
    ensures r.Found? ==>
      HoldsWindow(c, r.x, r.y, inp.smallWidth, inp.smallHeight) && Accepted(inp, r.x, r.y, t)
    ensures r.Found? ==>
      (forall x', y' | HoldsWindow(c, x', y', inp.smallWidth, inp.smallHeight) && y' < r.y :: Rejected(inp, x', y', t)) &&
      (forall x' | c.x <= x' < r.x :: Rejected(inp, x', r.y, t))
    ensures r.NoMatch? ==>
      forall x, y | HoldsWindow(c, x, y, inp.smallWidth, inp.smallHeight) :: Rejected(inp, x, y, t)
    ensures r.SearchPanic? ==>
      exists x, y | HoldsWindow(c, x, y, inp.smallWidth, inp.smallHeight) :: WindowMse(inp, x, y).None?
    ensures !r.DimensionsExceed?
  {
    var y := 0;
    while y <= c.height - inp.smallHeight
      invariant y >= 0
      invariant forall x', y' | HoldsWindow(c, x', y', inp.smallWidth, inp.smallHeight) && y' < c.y + y ::
        Rejected(inp, x', y', t)
    {
      var row := ScanRow(inp, c, c.y + y, t);
      if !row.NoMatch? {
        return row;
      }
      y := y + 1;
    }
    return NoMatch;
  }

  /** Some chunk of `cs` holds the window at (x, y). */
  predicate Visited(inp: MseInput, cs: seq<Chunk>, x: int, y: int) {
    exists c | c in cs :: HoldsWindow(c, x, y, inp.smallWidth, inp.smallHeight)
  }

  /** Every window a chunk of `cs` holds is measured and over the threshold. */
  ghost predicate AllRejected(inp: MseInput, cs: seq<Chunk>, t: real) {
    forall c, x, y | c in cs && HoldsWindow(c, x, y, inp.smallWidth, inp.smallHeight) :: Rejected(inp, x, y, t)
  }

  /** The task submitTasks builds for one group: its chunks in order. */
  method ScanGroup(inp: MseInput, group: seq<Chunk>, t: real) returns (r: SearchResult)
    ensures r.Found? ==> Visited(inp, group, r.x, r.y) && Accepted(inp, r.x, r.y, t)
    ensures r.NoMatch? ==> AllRejected(inp, group, t)
    ensures r.SearchPanic? ==> exists x, y | Visited(inp, group, x, y) :: WindowMse(inp, x, y).None?
    ensures !r.DimensionsExceed?
  {
    var i := 0;
    while i < |group|
      invariant 0 <= i <= |group|
      invariant AllRejected(inp, group[..i], t)
    {
      var c := group[i];
      r := ScanChunk(inp, c, t);
      if !r.NoMatch? {
        if r.SearchPanic? {
          var x, y :| HoldsWindow(c, x, y, inp.smallWidth, inp.smallHeight) && WindowMse(inp, x, y).None?;
          assert Visited(inp, group, x, y);
        }
        return r;
      }
      assert group[..i + 1] == group[..i] + [c];
      i := i + 1;
    }
    assert group[..i] == group;
    return NoMatch;
  }

  /** The tasks of all groups, run in group order until one reports a window. */
  method ScanTasks(inp: MseInput, groups: seq<seq<Chunk>>, t: real) returns (r: SearchResult)
    ensures r.Found? ==>
      Accepted(inp, r.x, r.y, t) && exists g | 0 <= g < |groups| :: Visited(inp, groups[g], r.x, r.y)
    ensures r.NoMatch? ==> forall g | 0 <= g < |groups| :: AllRejected(inp, groups[g], t)
    ensures r.SearchPanic? ==>
      exists g, x, y | 0 <= g < |groups| && Visited(inp, groups[g], x, y) :: WindowMse(inp, x, y).None?
    ensures !r.DimensionsExceed?
  {
    var g := 0;
    while g < |groups|
      invariant 0 <= g <= |groups|
      invariant forall h | 0 <= h < g :: AllRejected(inp, groups[h], t)
    {
      r := ScanGroup(inp, groups[g], t);
      if !r.NoMatch? {
        return r;
      }
      g := g + 1;
    }
    return NoMatch;
  }

  /** FindTemplate's worker count: one per six chunks, at least one. */
  function WorkerCount(chunkCount: int): (n: int)
    ensures n >= 1
  {
    Max((chunkCount / 3) / 2, 1)
  }

  /**
   * The worker count is chunks/6, at least one; so with six chunks or more
   * every group gets at least six.
   */
  lemma WorkerCountMeaning(chunkCount: nat)
    ensures WorkerCount(chunkCount) == Max(chunkCount / 6, 1)
    ensures chunkCount >= 6 ==> chunkCount / WorkerCount(chunkCount) >= 6
  {
    var q1, r1 := chunkCount / 3, chunkCount % 3;
    var q2, r2 := q1 / 2, q1 % 2;
    assert chunkCount == 6 * q2 + (3 * r2 + r1);
    DivUnique(chunkCount, 6, q2, 3 * r2 + r1);
    if chunkCount >= 6 {
      var n := q2;
      var q, r := chunkCount / n, chunkCount % n;
      assert chunkCount == n * q + r && r < n;
      if q < 6 {
        MulLeftMono(q + 1, 6, n);
        assert false;
      }
    }
  }

  lemma PositiveProduct(a: nat, b: nat)
    requires a * b > 0
    ensures a >= 1 && b >= 1
  {
  }

  /** A window within the threshold has a template at least one pixel each way. */
  lemma AcceptedNonEmpty(inp: MseInput, x: int, y: int, t: real)
    requires Accepted(inp, x, y, t)
    ensures inp.smallWidth >= 1 && inp.smallHeight >= 1
  {
    assert WindowMse(inp, x, y).value.pixels == Rows(inp) * Cols(inp);
    PositiveProduct(Rows(inp), Cols(inp));
  }

  /** An empty template's window covers no pixel, and 0/0 is never within a threshold. */
  lemma EmptyNotAccepted(inp: MseInput, x: int, y: int, t: real)
    requires inp.smallWidth < 1 || inp.smallHeight < 1
    ensures !Accepted(inp, x, y, t)
  {
    assert Rows(inp) == 0 || Cols(inp) == 0;
    if WindowMse(inp, x, y).Some? {
      assert WindowMse(inp, x, y).value.pixels == Rows(inp) * Cols(inp) == 0;
    }
  }

  /** A window some chunk of the grid holds lies in the scan. */
  lemma ChunkWindowInScan(large: Bmp, small: Bmp, inp: MseInput, chunks: seq<Chunk>, c: Chunk, x: int, y: int, t: real)
    requires ChunkGrid(large, small.width, small.height) == Some(chunks)
    requires inp.smallWidth == small.width && inp.smallHeight == small.height
    requires c in chunks && HoldsWindow(c, x, y, small.width, small.height) && Accepted(inp, x, y, t)
    ensures InScan(x, y, large.width - small.width, large.height - small.height)
  {
    AcceptedNonEmpty(inp, x, y, t);
    GridInside(large, small.width, small.height, chunks);
  }

  /**
   * Coverage: when every task rejects every window its chunks hold, no
   * window the scan has room for is within the threshold. The chunk grid
   * holds each such window, splitting the grid loses no chunk, and an
   * empty template's windows measure nothing.
   */
  lemma NoMatchCoversScan(large: Bmp, small: Bmp, inp: MseInput, chunks: seq<Chunk>, n: int,
                          groups: seq<seq<Chunk>>, t: real)
    requires ChunkGrid(large, small.width, small.height) == Some(chunks)
    requires inp.smallWidth == small.width && inp.smallHeight == small.height
    requires n >= 1 && SplitGroups(chunks, n) == Some(groups)
    requires forall g | 0 <= g < |groups| :: AllRejected(inp, groups[g], t)
    ensures forall x, y | InScan(x, y, large.width - small.width, large.height - small.height) ::
      !Accepted(inp, x, y, t)
  {
    forall x, y | InScan(x, y, large.width - small.width, large.height - small.height)
      ensures !Accepted(inp, x, y, t)
    {
      if small.width >= 1 && small.height >= 1 {
        var c := GridCovers(large, small.width, small.height, chunks, x, y);
        SplitGroupsMeaning(chunks, n, 0, 0);
        assert c in Union(groups);
        UnionMembers(groups, c);
        var g :| 0 <= g < |groups| && c in groups[g];
        assert Rejected(inp, x, y, t);
      } else {
        EmptyNotAccepted(inp, x, y, t);
      }
    }
  }

  /** With no template column, every row measures nothing and so cannot fail. */
  lemma {:induction false} NoColumnsMeasured(inp: MseInput, x: int, y: int, rows: nat)
    requires Cols(inp) == 0
    ensures WindowSse(inp, x, y, rows).Some?
  {
    if rows > 0 {
      NoColumnsMeasured(inp, x, y, rows - 1);
    }
  }

  /** A window whose measurement fails compares at least one pixel. */
  lemma FailedWindowNonEmpty(inp: MseInput, x: int, y: int)
    requires WindowMse(inp, x, y).None?
    ensures inp.smallWidth >= 1 && inp.smallHeight >= 1
  {
    if Cols(inp) == 0 {
      NoColumnsMeasured(inp, x, y, Rows(inp));
    }
  }

  /** A window some task fails to measure lies in the scan. */
  lemma PanicInScan(large: Bmp, small: Bmp, inp: MseInput, chunks: seq<Chunk>, n: int,
                    groups: seq<seq<Chunk>>)
    requires ChunkGrid(large, small.width, small.height) == Some(chunks)
    requires inp.smallWidth == small.width && inp.smallHeight == small.height
    requires n >= 1 && SplitGroups(chunks, n) == Some(groups)
    requires exists g, x, y | 0 <= g < |groups| && Visited(inp, groups[g], x, y) :: WindowMse(inp, x, y).None?
    ensures exists x, y | InScan(x, y, large.width - small.width, large.height - small.height) ::
      WindowMse(inp, x, y).None?
  {
    var g, x, y :| 0 <= g < |groups| && Visited(inp, groups[g], x, y) && WindowMse(inp, x, y).None?;
    var c :| c in groups[g] && HoldsWindow(c, x, y, inp.smallWidth, inp.smallHeight);
    UnionMembers(groups, c);
    SplitGroupsMeaning(chunks, n, 0, 0);
    assert c in multiset(chunks);
    FailedWindowNonEmpty(inp, x, y);
    GridInside(large, small.width, small.height, chunks);
    assert InScan(x, y, large.width - small.width, large.height - small.height);
  }

  /** A window some task reports lies in the scan. */
  lemma FoundInScan(large: Bmp, small: Bmp, inp: MseInput, chunks: seq<Chunk>, n: int,
                    groups: seq<seq<Chunk>>, x: int, y: int, t: real)
    requires ChunkGrid(large, small.width, small.height) == Some(chunks)
    requires inp.smallWidth == small.width && inp.smallHeight == small.height
    requires n >= 1 && SplitGroups(chunks, n) == Some(groups)
    requires Accepted(inp, x, y, t) && exists g | 0 <= g < |groups| :: Visited(inp, groups[g], x, y)
    ensures InScan(x, y, large.width - small.width, large.height - small.height)
  {
    var g :| 0 <= g < |groups| && Visited(inp, groups[g], x, y);
    var c :| c in groups[g] && HoldsWindow(c, x, y, inp.smallWidth, inp.smallHeight);
    UnionMembers(groups, c);
    SplitGroupsMeaning(chunks, n, 0, 0);
    assert c in multiset(chunks);
    ChunkWindowInScan(large, small, inp, chunks, c, x, y, t);
  }

  /** What FindTemplate computes before it sizes the pool: the MSE inputs, the chunks and their groups. */
  datatype Prepared = Prepared(inp: MseInput, chunks: seq<Chunk>, groups: seq<seq<Chunk>>)

  /**
   * FindTemplate's steps 2 to 5 after the dimension check: both images
   * normalized, the scan chunked, and the chunks split over
   * WorkerCount(|chunks|) groups. None where Go panics.
   */
  method Prepare(scan: Bmp, template: Bmp) returns (r: Option<Prepared>)
    ensures r.Some? <==>
      NormalizedData(scan).Some? && NormalizedData(template).Some? &&
      ChunkGrid(scan, template.width, template.height).Some?
    ensures r.Some? ==>
      r.value.inp == SearchInput(scan, template, NormalizedData(scan).value, NormalizedData(template).value) &&
      Some(r.value.chunks) == ChunkGrid(scan, template.width, template.height) &&
      Some(r.value.groups) == SplitGroups(r.value.chunks, WorkerCount(|r.value.chunks|)) &&
      |r.value.groups| == WorkerCount(|r.value.chunks|)
  {
    var largeData := NormalizeBmpData(scan);
    var smallData := NormalizeBmpData(template);
    if largeData.None? || smallData.None? {
      return None;
    }
    var inp := SearchInput(scan, template, largeData.value, smallData.value);
    var chunks := ChunkBmp(scan, template.width, template.height);
    if chunks.None? {
      return None;
    }
    var numWorkers := WorkerCount(|chunks.value|);
    var groups := SplitChunksForWorkers(chunks.value, numWorkers);
    SplitGroupsMeaning(chunks.value, numWorkers, 0, 0);
    return Some(Prepared(inp, chunks.value, groups.value));
  }

  class Matcher {
    const pool: Pool
    var scan: Bmp

    ghost predicate Valid()
      reads this, pool
    {
      pool.Valid()
    }

    /** New: a pool of one worker with room for 3000 queued tasks, and the scan. */
    constructor (bmp: Bmp)
      ensures Valid() && fresh(pool) && scan == bmp
      ensures pool.maxWorkers == 1 && pool.queueSize == 3000 && pool.workers == [Worker(0, false)]
      ensures pool.taskQueue == [] && pool.activeWorkers == 0 && !pool.stopped && !pool.cancelled
    {
      var p := new Pool(1, 3000);
      assert p.workers == [Worker(0, false)];
      pool := p;
      scan := bmp;
    }

    /**
     * FindTemplate, its tasks run in order: the dimension error comes
     * before any work; a reported window lies in the scan and is within
     * the threshold; "no match found" means no window of the scan is. The
     * pool is grown to the worker count, never shrunk, and stopped at the
     * end, which cancels its context. On a pool whose context is already
     * cancelled no task handler dispatches the tasks and, a stopped worker
     * being modelled as running nothing, the call ends in the timeout's
     * "no match found".
     */
    method FindTemplate(template: Bmp, options: seq<FindOption>) returns (r: SearchResult)
      requires Valid()
      modifies pool
      ensures Valid()
      ensures r == DimensionsExceed <==> Exceeds(scan, template)
      ensures Exceeds(scan, template) ==> unchanged(pool)
      ensures r.Found? ==> !old(pool.cancelled)
      ensures r.Found? ==>
        var nl, ns := NormalizedData(scan), NormalizedData(template);
        nl.Some? && ns.Some? &&
        InScan(r.x, r.y, scan.width - template.width, scan.height - template.height) &&
        Accepted(SearchInput(scan, template, nl.value, ns.value), r.x, r.y, EffectiveThreshold(options))
      ensures r == NoMatch && !old(pool.cancelled) ==>
        var nl, ns := NormalizedData(scan), NormalizedData(template);
        nl.Some? && ns.Some? &&
        forall x, y | InScan(x, y, scan.width - template.width, scan.height - template.height) ::
          !Accepted(SearchInput(scan, template, nl.value, ns.value), x, y, EffectiveThreshold(options))
      ensures r.Found? || r == NoMatch ==>
        var chunks := ChunkGrid(scan, template.width, template.height);
        chunks.Some? && pool.maxWorkers == Max(old(pool.maxWorkers), WorkerCount(|chunks.value|)) &&
        pool.stopped && pool.cancelled && pool.activeWorkers == 0
      ensures r == SearchPanic ==>
        var nl, ns := NormalizedData(scan), NormalizedData(template);
        nl.None? || ns.None? || ChunkGrid(scan, template.width, template.height).None? ||
        exists x, y | InScan(x, y, scan.width - template.width, scan.height - template.height) ::
          WindowMse(SearchInput(scan, template, nl.value, ns.value), x, y).None?
      ensures old(pool.cancelled) && !Exceeds(scan, template) ==>
        (r == NoMatch <==>
          NormalizedData(scan).Some? && NormalizedData(template).Some? &&
          ChunkGrid(scan, template.width, template.height).Some?)
    {
      var threshold, timeout := ResolveOptions(options);
      if !ValidateBmpDimensions(scan, template) {
        return DimensionsExceed;
      }
      var prep := Prepare(scan, template);
      if prep.None? {
        return SearchPanic;
      }
      var numWorkers := |prep.value.groups|;
      ReadyPool(numWorkers);
      if pool.cancelled {
        // Stop already cancelled the context: no handler dispatches the tasks and the timeout fires.
        pool.Stop();
        return NoMatch;
      }
      r := ScanTasks(prep.value.inp, prep.value.groups, threshold);
      if r.SearchPanic? {
        PanicInScan(scan, template, prep.value.inp, prep.value.chunks, numWorkers, prep.value.groups);
        return SearchPanic;
      }
      pool.Stop();
      if r.Found? {
        FoundInScan(scan, template, prep.value.inp, prep.value.chunks, numWorkers, prep.value.groups, r.x, r.y, threshold);
      } else {
        NoMatchCoversScan(scan, template, prep.value.inp, prep.value.chunks, numWorkers, prep.value.groups, threshold);
      }
    }

    /**
     * FindTemplate's pool set-up: grown to n workers when it allows fewer,
     * then started unless it reports itself working. A stopped pool does,
     * so it is not started again; the context is never renewed.
     */
    method ReadyPool(n: int)
      requires Valid()
      modifies pool
      ensures Valid()
      ensures pool.maxWorkers == Max(old(pool.maxWorkers), n)
      ensures !old(pool.IsWorking()) ==> !pool.stopped
      ensures old(pool.IsWorking()) ==> pool.stopped == old(pool.stopped)
      ensures pool.cancelled == old(pool.cancelled)
      ensures pool.taskQueue == old(pool.taskQueue) && pool.activeWorkers == old(pool.activeWorkers)
      ensures pool.workers ==
        if n > old(pool.maxWorkers) then old(pool.workers) + Fresh(|old(pool.workers)|, n - old(pool.maxWorkers))
        else old(pool.workers)
    {
      if n > pool.GetMaxWorkers() {
        pool.IncreaseMaxWorkers(n - pool.GetMaxWorkers());
      }
      if !pool.IsWorking() {
        pool.StartAsWritten();
      }
    }

    /**
     * SetScan: the queue is cleared, the pool stopped and waited for (which
     * then returns at once), the scan replaced, and the pool started again:
     * marked running, but with the context Stop cancelled.
     */
    method SetScan(bmp: Bmp)
      requires Valid()
      modifies this, pool
      ensures Valid() && scan == bmp
      ensures pool.taskQueue == [] && pool.activeWorkers == 0 && CountActive(pool.workers) == 0
      ensures pool.workers == AllStopped(old(pool.workers))
      ensures !pool.stopped && pool.cancelled && pool.maxWorkers == old(pool.maxWorkers)
    {
      pool.ClearTaskQueue();
      pool.Stop();
      var blocks := pool.Wait();
      assert !blocks;
      scan := bmp;
      pool.StartAsWritten();
    }
  }
}
