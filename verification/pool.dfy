/**
 * dynamicWorkerPool (tools/worker/pool.go): the pool's bookkeeping, run
 * sequentially. Goroutines and channels are abstracted away: the task
 * queue is a sequence, a worker is its id and whether it is running, and
 * the pool context is a flag that Stop sets.
 */
module WorkerPool {
  import opened Tools
  import opened Wrappers

  /** A worker as the pool sees it. */
  datatype Worker = Worker(id: int, active: bool)

  /** A queued task; only its ID is kept. */
  datatype Task = Task(id: int)

  /** The number of running workers. */
  function CountActive(ws: seq<Worker>): (n: nat)
    ensures n <= |ws|
  {
    if |ws| == 0 then 0
    else CountActive(ws[..|ws| - 1]) + (if ws[|ws| - 1].active then 1 else 0)
  }

  function CountIdle(ws: seq<Worker>): nat {
    |ws| - CountActive(ws)
  }

  /** `n` new inactive workers numbered from `first` (none for a negative n). */
  function Fresh(first: int, n: int): seq<Worker> {
    seq(if n < 0 then 0 else n, j => Worker(first + j, false))
  }

  /** The workers with every one marked stopped. */
  function AllStopped(ws: seq<Worker>): seq<Worker> {
    seq(|ws|, i requires 0 <= i < |ws| => ws[i].(active := false))
  }

  lemma {:induction false} CountActiveSplit(s: seq<Worker>, i: nat)
    requires i <= |s|
    ensures CountActive(s) == CountActive(s[..i]) + CountActive(s[i..])
    decreases |s|
  {
    if i < |s| {
      var L := |s| - 1;
      CountActiveSplit(s[..L], i);
      assert s[..L][..i] == s[..i];
      assert s[..L][i..] == s[i..][..|s[i..]| - 1];
    } else {
      assert s[..i] == s;
    }
  }

  lemma {:induction false} CountActivePrefix(s: seq<Worker>, i: nat)
    requires i < |s|
    ensures CountActive(s[..i + 1]) == CountActive(s[..i]) + (if s[i].active then 1 else 0)
  {
    assert s[..i + 1][..i] == s[..i];
  }

  /** A sequence of workers none of which runs. */
  lemma {:induction false} NoneActive(s: seq<Worker>)
    requires forall i | 0 <= i < |s| :: !s[i].active
    ensures CountActive(s) == 0
  {
    if |s| > 0 {
      NoneActive(s[..|s| - 1]);
    }
  }

  /**
   * Stop's effect on the workers: none is left running, ids are kept, and
   * stopping again changes nothing.
   */
  lemma StopIdempotent(ws: seq<Worker>)
    ensures CountActive(AllStopped(ws)) == 0
    ensures AllStopped(AllStopped(ws)) == AllStopped(ws)
    ensures |AllStopped(ws)| == |ws| && forall i | 0 <= i < |ws| :: AllStopped(ws)[i].id == ws[i].id
  {
    NoneActive(AllStopped(ws));
  }

  /** initWorkers and addWorker create workers that are not running. */
  lemma FreshIdle(first: int, n: int)
    ensures CountActive(Fresh(first, n)) == 0
    ensures |Fresh(first, n)| == Max(n, 0)
    ensures forall j | 0 <= j < |Fresh(first, n)| :: Fresh(first, n)[j].id == first + j
  {
    NoneActive(Fresh(first, n));
  }

  /** The workers without their first k inactive ones. */
  function DropIdle(ws: seq<Worker>, k: int): seq<Worker> {
    if |ws| == 0 then []
    else
      var init, w := ws[..|ws| - 1], ws[|ws| - 1];
      if !w.active && CountIdle(init) < k then DropIdle(init, k) else DropIdle(init, k) + [w]
  }

  /** The workers without their first k active ones. */
  function DropActive(ws: seq<Worker>, k: int): seq<Worker> {
    if |ws| == 0 then []
    else
      var init, w := ws[..|ws| - 1], ws[|ws| - 1];
      if w.active && CountActive(init) < k then DropActive(init, k) else DropActive(init, k) + [w]
  }

  /** k clamped to 0 .. hi. */
  function Clamp(k: int, hi: int): int {
    if k < 0 then 0 else if k > hi then hi else k
  }

  /**
   * The pool's workers after removing k of them, inactive ones first and
   * active ones only once no inactive one is left.
   */
  function Decreased(ws: seq<Worker>, k: int): seq<Worker> {
    DropActive(DropIdle(ws, k), k - CountIdle(ws))
  }

  lemma {:induction false} DropIdleCounts(ws: seq<Worker>, k: int)
    ensures |DropIdle(ws, k)| == |ws| - Clamp(k, CountIdle(ws))
    ensures CountActive(DropIdle(ws, k)) == CountActive(ws)
    ensures multiset(DropIdle(ws, k)) <= multiset(ws)
  {
    if |ws| > 0 {
      var L := |ws| - 1;
      DropIdleCounts(ws[..L], k);
      assert ws == ws[..L] + [ws[L]];
      var d := DropIdle(ws[..L], k);
      if !(!ws[L].active && CountIdle(ws[..L]) < k) {
        assert DropIdle(ws, k) == d + [ws[L]];
        assert (d + [ws[L]])[..|d|] == d;
      }
    }
  }

  lemma {:induction false} DropActiveCounts(ws: seq<Worker>, k: int)
    ensures |DropActive(ws, k)| == |ws| - Clamp(k, CountActive(ws))
    ensures CountActive(DropActive(ws, k)) == CountActive(ws) - Clamp(k, CountActive(ws))
    ensures multiset(DropActive(ws, k)) <= multiset(ws)
  {
    if |ws| > 0 {
      var L := |ws| - 1;
      DropActiveCounts(ws[..L], k);
      assert ws == ws[..L] + [ws[L]];
      var d := DropActive(ws[..L], k);
      if !(ws[L].active && CountActive(ws[..L]) < k) {
        assert DropActive(ws, k) == d + [ws[L]];
        assert (d + [ws[L]])[..|d|] == d;
      }
    }
  }

  /**
   * What DecreaseMaxWorkers is for: exactly k workers go (none for k <= 0,
   * all of them for k >= their number), no running worker goes while an
   * inactive one is left, and every worker left was there before.
   */
  lemma DecreasedMeaning(ws: seq<Worker>, k: int)
    ensures |Decreased(ws, k)| == |ws| - Clamp(k, |ws|)
    ensures k <= CountIdle(ws) ==> CountActive(Decreased(ws, k)) == CountActive(ws)
    ensures k >= CountIdle(ws) ==> CountIdle(Decreased(ws, k)) == 0
    ensures multiset(Decreased(ws, k)) <= multiset(ws)
  {
    var mid := DropIdle(ws, k);
    DropIdleCounts(ws, k);
    DropActiveCounts(mid, k - CountIdle(ws));
    assert CountActive(mid) == |ws| - CountIdle(ws);
    ClampSplit(k, CountIdle(ws), |ws|);
  }

  /** Removing up to i, then up to n - i more, removes up to n. */
  lemma ClampSplit(k: int, i: int, n: int)
    requires 0 <= i <= n
    ensures Clamp(k, i) + Clamp(k - i, n - i) == Clamp(k, n)
    ensures k <= i ==> Clamp(k - i, n - i) == 0
  {
  }

  lemma DecreasedShrinks(ws: seq<Worker>, k: int)
    ensures |Decreased(ws, k)| <= |ws| && CountActive(Decreased(ws, k)) <= CountActive(ws)
  {
    var mid := DropIdle(ws, k);
    DropIdleCounts(ws, k);
    assert |mid| <= |ws| && CountActive(mid) == CountActive(ws);
    DropActiveCounts(mid, k - CountIdle(ws));
  }

  class Pool {
    var workers: seq<Worker>
    var taskQueue: seq<Task>
    const queueSize: nat
    var maxWorkers: int
    var activeWorkers: int
    var stopped: bool
    /** poolCtx has been cancelled: a task handler sees it and returns at once. */
    var cancelled: bool

    /**
     * What every operation keeps: at least one worker allowed, no more
     * workers than allowed, the active counter within 0 .. maxWorkers and
     * never below the number of running workers, the queue within capacity.
     */
    ghost predicate Valid()
      reads this
    {
      1 <= maxWorkers && |workers| <= maxWorkers &&
      0 <= activeWorkers <= maxWorkers && CountActive(workers) <= activeWorkers &&
      |taskQueue| <= queueSize
    }

    /** NewDynamicWorkerPool for a queue size Go's `make` accepts. */
    constructor (maxWorkers: int, queueSize: nat)
      ensures Valid()
      ensures this.maxWorkers == if maxWorkers <= 0 then 1 else maxWorkers
      ensures this.queueSize == queueSize
      ensures workers == Fresh(0, this.maxWorkers)
      ensures taskQueue == [] && activeWorkers == 0 && !stopped && !cancelled
    {
      this.maxWorkers := if maxWorkers <= 0 then 1 else maxWorkers;
      this.queueSize := queueSize;
      workers := [];
      taskQueue := [];
      activeWorkers := 0;
      stopped := false;
      cancelled := false;
      new;
      InitWorkers();
      assert workers == Fresh(0, this.maxWorkers);
      FreshIdle(0, this.maxWorkers);
      assert |workers| == this.maxWorkers && CountActive(workers) == 0;
    }

    /** initWorkers: one worker per allowed slot, numbered from 0. */
    method InitWorkers()
      modifies this
      ensures workers == old(workers) + Fresh(0, maxWorkers)
      ensures taskQueue == old(taskQueue) && maxWorkers == old(maxWorkers)
      ensures activeWorkers == old(activeWorkers) && stopped == old(stopped) && cancelled == old(cancelled)
    {
      var i := 0;
      while i < maxWorkers
        invariant 0 <= i <= Max(maxWorkers, 0)
        invariant workers == old(workers) + Fresh(0, i)
        invariant taskQueue == old(taskQueue) && maxWorkers == old(maxWorkers)
        invariant activeWorkers == old(activeWorkers) && stopped == old(stopped) && cancelled == old(cancelled)
      {
        workers := workers + [Worker(i, false)];
        i := i + 1;
      }
    }

    /** addWorker: one more inactive worker, numbered by the current count, only below the limit. */
    method AddWorker()
      requires Valid()
      modifies this
      ensures Valid()
      ensures workers == if |old(workers)| < maxWorkers then old(workers) + [Worker(|old(workers)|, false)] else old(workers)
      ensures taskQueue == old(taskQueue) && maxWorkers == old(maxWorkers)
      ensures activeWorkers == old(activeWorkers) && stopped == old(stopped) && cancelled == old(cancelled)
    {
      if |workers| < maxWorkers {
        CountActivePrefix(workers + [Worker(|workers|, false)], |workers|);
        assert (workers + [Worker(|workers|, false)])[..|workers|] == workers;
        workers := workers + [Worker(|workers|, false)];
      }
    }

    /**
     * IncreaseMaxWorkers: nothing for n <= 0; otherwise the limit grows by n
     * and, because the pool never holds more workers than its old limit,
     * all n new workers are added.
     */
    method IncreaseMaxWorkers(n: int)
      requires Valid()
      modifies this
      ensures Valid()
      ensures n <= 0 ==> maxWorkers == old(maxWorkers) && workers == old(workers)
      ensures n > 0 ==> maxWorkers == old(maxWorkers) + n && workers == old(workers) + Fresh(|old(workers)|, n)
      ensures taskQueue == old(taskQueue) && activeWorkers == old(activeWorkers)
      ensures stopped == old(stopped) && cancelled == old(cancelled)
    {
      if n <= 0 {
        return;
      }
      maxWorkers := maxWorkers + n;
      var j := 0;
      while j < n
        invariant 0 <= j <= n && Valid()
        invariant maxWorkers == old(maxWorkers) + n
        invariant workers == old(workers) + Fresh(|old(workers)|, j)
        invariant taskQueue == old(taskQueue) && activeWorkers == old(activeWorkers)
        invariant stopped == old(stopped) && cancelled == old(cancelled)
      {
        AddWorker();
        j := j + 1;
      }
    }

    /** GetMaxWorkers: the limit, which is at least one and at least the number of workers. */
    function GetMaxWorkers(): (r: int)
      reads this
      requires Valid()
      ensures r >= 1 && r >= |workers| && r >= activeWorkers
    {
      maxWorkers
    }

    /** IsWorking: stopped, tasks queued, or workers counted active. */
    function IsWorking(): bool
      reads this
    {
      stopped || |taskQueue| > 0 || activeWorkers > 0
    }

    /**
     * Stop: every running worker is stopped, the counter reset, the pool
     * marked stopped and its context cancelled; the queue is left alone.
     * The pool then reports itself working.
     */
    method Stop()
      requires Valid()
      modifies this
      ensures Valid()
      ensures workers == AllStopped(old(workers)) && CountActive(workers) == 0
      ensures activeWorkers == 0 && stopped && cancelled
      ensures taskQueue == old(taskQueue) && maxWorkers == old(maxWorkers)
      ensures IsWorking()
    {
      cancelled := true;
      ghost var ws := workers;
      var i := 0;
      while i < |workers|
        invariant 0 <= i <= |workers| && |workers| == |ws|
        invariant forall j | 0 <= j < |ws| :: workers[j] == if j < i then ws[j].(active := false) else ws[j]
        invariant taskQueue == old(taskQueue) && maxWorkers == old(maxWorkers) && cancelled
      {
        if workers[i].active {
          workers := workers[i := workers[i].(active := false)];
        }
        i := i + 1;
      }
      assert workers == AllStopped(ws);
      StopIdempotent(ws);
      activeWorkers := 0;
      stopped := true;
    }

    /**
     * Start with a fresh context: when no worker is counted active, the
     * pool is marked running and its task handler can dispatch again.
     */
    method Start()
      requires Valid()
      modifies this
      ensures Valid()
      ensures old(activeWorkers) == 0 ==> !stopped && !cancelled
      ensures old(activeWorkers) != 0 ==> stopped == old(stopped) && cancelled == old(cancelled)
      ensures workers == old(workers) && taskQueue == old(taskQueue)
      ensures maxWorkers == old(maxWorkers) && activeWorkers == old(activeWorkers)
    {
      if activeWorkers == 0 {
        stopped := false;
        cancelled := false;
      }
    }

    /**
     * Start as written: the pool is marked running, but the context Stop
     * cancelled stays cancelled, so the handler it launches returns at once.
     */
    method StartAsWritten()
      requires Valid()
      modifies this
      ensures Valid()
      ensures old(activeWorkers) == 0 ==> !stopped
      ensures old(activeWorkers) != 0 ==> stopped == old(stopped)
      ensures cancelled == old(cancelled)
      ensures workers == old(workers) && taskQueue == old(taskQueue)
      ensures maxWorkers == old(maxWorkers) && activeWorkers == old(activeWorkers)
    {
      if activeWorkers == 0 {
        stopped := false;
      }
    }

    /** ClearTaskQueue: drains the queue and touches nothing else. */
    method ClearTaskQueue()
      requires Valid()
      modifies this
      ensures Valid()
      ensures taskQueue == []
      ensures workers == old(workers) && maxWorkers == old(maxWorkers) && activeWorkers == old(activeWorkers)
      ensures stopped == old(stopped) && cancelled == old(cancelled)
    {
      while |taskQueue| > 0
        invariant Valid()
        invariant workers == old(workers) && maxWorkers == old(maxWorkers) && activeWorkers == old(activeWorkers)
        invariant stopped == old(stopped) && cancelled == old(cancelled)
      {
        taskQueue := taskQueue[1..];
      }
    }

    /** Wait blocks exactly while tasks are queued or workers are counted active. */
    method Wait() returns (blocks: bool)
      ensures blocks <==> |taskQueue| > 0 || activeWorkers > 0
    {
      blocks := |taskQueue| > 0 || activeWorkers > 0;
    }

    /**
     * DecreaseMaxWorkers, corrected: n clamped to the limit, then that many
     * workers removed, inactive ones first; the limit itself is unchanged.
     */
    method DecreaseMaxWorkers(n: int)
      requires Valid()
      modifies this
      ensures Valid()
      ensures workers == Decreased(old(workers), Min(n, maxWorkers))
      ensures maxWorkers == old(maxWorkers) && taskQueue == old(taskQueue) && activeWorkers == old(activeWorkers)
      ensures stopped == old(stopped) && cancelled == old(cancelled)
    {
      var k := if n > maxWorkers then maxWorkers else n;
      var kept := RemoveIdle(workers, k);
      var left := RemoveActive(kept, k - CountIdle(workers));
      DecreasedShrinks(workers, k);
      workers := left;
    }

    /**
     * The first half of a task-handler pass: with tasks queued and room
     * under the limit, inactive workers are started in order until the
     * counter reaches the limit (Go breaks out of the range loop there).
     */
    method DispatchPass()
      requires Valid() && activeWorkers < maxWorkers
      modifies this
      ensures Valid()
      ensures |workers| == |old(workers)|
      ensures forall i | 0 <= i < |workers| ::
        workers[i].id == old(workers[i].id) && (old(workers[i].active) ==> workers[i].active)
      ensures exists i | StartedUpTo(old(workers), workers, i) ::
        activeWorkers == old(activeWorkers) + CountIdle(old(workers)[..i]) &&
        (i < |workers| ==> activeWorkers == maxWorkers)
      ensures activeWorkers == Min(maxWorkers, old(activeWorkers) + CountIdle(old(workers)))
      ensures activeWorkers - old(activeWorkers) == CountActive(workers) - CountActive(old(workers))
      ensures taskQueue == old(taskQueue) && maxWorkers == old(maxWorkers)
      ensures stopped == old(stopped) && cancelled == old(cancelled)
    {
      workers, activeWorkers := StartIdle(workers, activeWorkers, maxWorkers);
    }

    /**
     * The second half of a task-handler pass: with the queue empty and
     * workers counted active, running workers are stopped in order until
     * the counter reaches zero. Every running worker is stopped, and the
     * counter drops by their number.
     */
    method ReleasePass()
      requires Valid() && activeWorkers > 0
      modifies this
      ensures Valid()
      ensures |workers| == |old(workers)| && CountActive(workers) == 0
      ensures forall i | 0 <= i < |workers| :: workers[i] == old(workers[i]).(active := false)
      ensures activeWorkers == old(activeWorkers) - CountActive(old(workers))
      ensures taskQueue == old(taskQueue) && maxWorkers == old(maxWorkers)
      ensures stopped == old(stopped) && cancelled == old(cancelled)
    {
      workers, activeWorkers := StopRunning(workers, activeWorkers);
    }

    /**
     * One pass of taskHandler's loop: nothing once the context is
     * cancelled; otherwise a dispatch pass when tasks are queued, a release
     * pass when the queue is empty.
     */
    method Tick()
      requires Valid()
      modifies this
      ensures Valid()
      ensures cancelled ==> workers == old(workers) && activeWorkers == old(activeWorkers)
      ensures |workers| == |old(workers)|
      ensures !cancelled && |taskQueue| > 0 && old(activeWorkers) < maxWorkers ==>
        activeWorkers == Min(maxWorkers, old(activeWorkers) + CountIdle(old(workers))) &&
        activeWorkers - old(activeWorkers) == CountActive(workers) - CountActive(old(workers))
      ensures !cancelled && |taskQueue| > 0 && old(activeWorkers) < maxWorkers ==>
        exists i | StartedUpTo(old(workers), workers, i) ::
          activeWorkers == old(activeWorkers) + CountIdle(old(workers)[..i]) &&
          (i < |workers| ==> activeWorkers == maxWorkers)
      ensures !cancelled && |taskQueue| == 0 && old(activeWorkers) > 0 ==>
        activeWorkers == old(activeWorkers) - CountActive(old(workers)) && CountActive(workers) == 0
      ensures !cancelled && |taskQueue| == 0 && old(activeWorkers) > 0 ==>
        forall i | 0 <= i < |workers| :: workers[i] == old(workers[i]).(active := false)
      ensures (!cancelled && !(|taskQueue| > 0 && old(activeWorkers) < maxWorkers) &&
               !(|taskQueue| == 0 && old(activeWorkers) > 0)) ==>
        workers == old(workers) && activeWorkers == old(activeWorkers)
      ensures taskQueue == old(taskQueue) && maxWorkers == old(maxWorkers)
      ensures stopped == old(stopped) && cancelled == old(cancelled)
    {
      if cancelled {
        return;
      }
      var queued := |taskQueue|;
      if queued > 0 && activeWorkers < maxWorkers {
        DispatchPass();
      }
      if queued == 0 && activeWorkers > 0 {
        ReleasePass();
      }
    }
  }

  /** DecreaseMaxWorkers' first loop: inactive workers are removed in order while fewer than k are gone. */
  method RemoveIdle(ws: seq<Worker>, k: int) returns (kept: seq<Worker>)
    ensures kept == DropIdle(ws, k)
  {
    kept := [];
    var removed := 0;
    var i := 0;
    while i < |ws|
      invariant 0 <= i <= |ws|
      invariant kept == DropIdle(ws[..i], k)
      invariant removed == if k <= 0 then 0 else Min(CountIdle(ws[..i]), k)
    {
      assert ws[..i + 1][..i] == ws[..i];
      CountActivePrefix(ws, i);
      if !ws[i].active && removed < k {
        removed := removed + 1;
      } else {
        kept := kept + [ws[i]];
      }
      i := i + 1;
    }
    assert ws[..i] == ws;
  }

  /** DecreaseMaxWorkers' second loop: running workers are removed in order while fewer than k are gone. */
  method RemoveActive(ws: seq<Worker>, k: int) returns (left: seq<Worker>)
    ensures left == DropActive(ws, k)
  {
    left := [];
    var removed := 0;
    var i := 0;
    while i < |ws|
      invariant 0 <= i <= |ws|
      invariant left == DropActive(ws[..i], k)
      invariant removed == if k <= 0 then 0 else Min(CountActive(ws[..i]), k)
    {
      assert ws[..i + 1][..i] == ws[..i];
      CountActivePrefix(ws, i);
      if ws[i].active && removed < k {
        removed := removed + 1;
      } else {
        left := left + [ws[i]];
      }
      i := i + 1;
    }
    assert ws[..i] == ws;
  }

  /** A sequence of workers all of which run. */
  lemma {:induction false} AllActive(s: seq<Worker>)
    requires forall i | 0 <= i < |s| :: s[i].active
    ensures CountActive(s) == |s|
  {
    if |s| > 0 {
      AllActive(s[..|s| - 1]);
    }
  }

  /** w is ws with its first i workers running and the others as they were. */
  predicate StartedUpTo(ws: seq<Worker>, w: seq<Worker>, i: int) {
    0 <= i <= |ws| == |w| &&
    forall j | 0 <= j < |w| :: w[j] == if j < i then ws[j].(active := true) else ws[j]
  }

  /**
   * The range loop of a dispatch pass over the workers ws with the counter
   * at active: inactive workers are started in order, each adding one to
   * the counter, until the counter reaches max.
   */
  method StartIdle(ws: seq<Worker>, active: int, max: int) returns (w: seq<Worker>, a: int)
    requires active < max
    ensures |w| == |ws|
    ensures forall j | 0 <= j < |w| :: w[j].id == ws[j].id && (ws[j].active ==> w[j].active)
    ensures exists i | StartedUpTo(ws, w, i) ::
      a == active + CountIdle(ws[..i]) && (i < |ws| ==> a == max)
    ensures a == Min(max, active + CountIdle(ws))
    ensures a - active == CountActive(w) - CountActive(ws)
  {
    w, a := ws, active;
    var i := 0;
    while i < |w| && a < max
      invariant 0 <= i <= |w| && |w| == |ws|
      invariant forall j | 0 <= j < |w| :: w[j] == if j < i then ws[j].(active := true) else ws[j]
      invariant a == active + CountIdle(ws[..i]) <= max
    {
      CountActivePrefix(ws, i);
      if !w[i].active {
        w := w[i := w[i].(active := true)];
        a := a + 1;
      }
      i := i + 1;
    }
    assert StartedUpTo(ws, w, i);
    Dispatched(ws, w, i);
  }

  /**
   * The range loop of a release pass over the workers ws with the counter
   * at active, which is at least their number running: running workers
   * are stopped in order, each taking one off the counter, until it
   * reaches zero. Every running worker is stopped.
   */
  method StopRunning(ws: seq<Worker>, active: int) returns (w: seq<Worker>, a: int)
    requires CountActive(ws) <= active
    ensures |w| == |ws| && CountActive(w) == 0
    ensures forall j | 0 <= j < |w| :: w[j] == ws[j].(active := false)
    ensures a == active - CountActive(ws)
  {
    w, a := ws, active;
    var i := 0;
    while i < |w| && a > 0
      invariant 0 <= i <= |w| && |w| == |ws|
      invariant forall j | 0 <= j < |w| :: w[j] == if j < i then ws[j].(active := false) else ws[j]
      invariant a == active - CountActive(ws[..i])
    {
      CountActivePrefix(ws, i);
      if w[i].active {
        w := w[i := w[i].(active := false)];
        a := a - 1;
      }
      i := i + 1;
    }
    Released(ws, w, i);
    if i < |w| {
      ReleasedAll(ws, w, i);
      NoneActive(w);
    }
  }

  /**
   * After the first i workers of ws are started: exactly the idle ones
   * among them became running, and there are no more of those than idle
   * workers overall.
   */
  lemma Dispatched(ws: seq<Worker>, w: seq<Worker>, i: nat)
    requires i <= |ws| == |w|
    requires forall j | 0 <= j < |w| :: w[j] == if j < i then ws[j].(active := true) else ws[j]
    ensures CountActive(w) - CountActive(ws) == CountIdle(ws[..i]) <= CountIdle(ws)
    ensures i == |ws| ==> CountIdle(ws[..i]) == CountIdle(ws)
  {
    CountActiveSplit(ws, i);
    CountActiveSplit(w, i);
    AllActive(w[..i]);
    assert w[i..] == ws[i..];
    assert i == |ws| ==> ws[..i] == ws;
  }

  /** After the first i workers of ws are stopped, only those after them may run. */
  lemma Released(ws: seq<Worker>, w: seq<Worker>, i: nat)
    requires i <= |ws| == |w|
    requires forall j | 0 <= j < |w| :: w[j] == if j < i then ws[j].(active := false) else ws[j]
    ensures CountActive(w) == CountActive(ws[i..]) == CountActive(ws) - CountActive(ws[..i])
    ensures i == |ws| ==> CountActive(w) == 0
  {
    CountActiveSplit(ws, i);
    CountActiveSplit(w, i);
    NoneActive(w[..i]);
    assert w[i..] == ws[i..];
    assert i == |ws| ==> ws[i..] == [];
  }

  /** When none of the workers after the first i runs, stopping the first i stops them all. */
  lemma ReleasedAll(ws: seq<Worker>, w: seq<Worker>, i: nat)
    requires i <= |ws| == |w| && CountActive(ws[i..]) == 0
    requires forall j | 0 <= j < |w| :: w[j] == if j < i then ws[j].(active := false) else ws[j]
    ensures forall j | 0 <= j < |w| :: w[j] == ws[j].(active := false)
  {
    NoneActiveOfZero(ws[i..]);
    forall j | i <= j < |w|
      ensures w[j] == ws[j].(active := false)
    {
      assert ws[j] == ws[i..][j - i];
    }
  }

  /** No running worker when the count is zero. */
  lemma {:induction false} NoneActiveOfZero(s: seq<Worker>)
    requires CountActive(s) == 0
    ensures forall i | 0 <= i < |s| :: !s[i].active
  {
    if |s| > 0 {
      NoneActiveOfZero(s[..|s| - 1]);
      assert forall i | 0 <= i < |s| - 1 :: s[i] == s[..|s| - 1][i];
    }
  }

  /**
   * Go's view of p.workers inside one of DecreaseMaxWorkers' range loops:
   * the backing array the range reads (None for a slot slices.Delete has
   * zeroed), the slice's length, the workers removed so far, and whether
   * the method has returned.
   */
  datatype RangeState = RangeState(arr: seq<Option<Worker>>, len: nat, removed: int, returned: bool)

  /**
   * One range loop of DecreaseMaxWorkers as written, from index i: a worker
   * whose state matches `wantActive` is deleted from the slice being ranged
   * over, which shifts the next worker into the slot just visited and
   * zeroes the last one. None where Go panics: a method call on a zeroed
   * slot.
   */
  function RangeDelete(arr: seq<Option<Worker>>, len: nat, i: nat, removed: int, n: int, wantActive: bool)
    : (r: Option<RangeState>)
    requires len <= |arr|
    ensures r.Some? ==> r.value.len <= |r.value.arr| == |arr|
    decreases |arr| - i
  {
    if i >= |arr| then Some(RangeState(arr, len, removed, false))
    else match arr[i]
      case None => None
      case Some(w) =>
        if w.active != wantActive then RangeDelete(arr, len, i + 1, removed, n, wantActive)
        else if i >= len then None
        else
          var arr' := arr[..i] + arr[i + 1..len] + [None] + arr[len..];
          if removed + 1 >= n then Some(RangeState(arr', len - 1, removed + 1, true))
          else RangeDelete(arr', len - 1, i + 1, removed + 1, n, wantActive)
  }

  /** The workers as slots of a backing array. */
  function Slots(ws: seq<Worker>): (r: seq<Option<Worker>>)
    ensures |r| == |ws|
  {
    seq(|ws|, i requires 0 <= i < |ws| => Some(ws[i]))
  }

  /**
   * DecreaseMaxWorkers as written: the slots of p.workers afterwards, or
   * None where it panics.
   */
  function DecreaseAsWritten(ws: seq<Worker>, maxWorkers: int, n: int): Option<seq<Option<Worker>>> {
    var k := if n > maxWorkers then maxWorkers else n;
    match RangeDelete(Slots(ws), |ws|, 0, 0, k, false)
    case None => None
    case Some(s1) =>
      if s1.returned then Some(s1.arr[..s1.len])
      else
        match RangeDelete(s1.arr[..s1.len], s1.len, 0, s1.removed, k, true)
        case None => None
        case Some(s2) => Some(s2.arr[..s2.len])
  }

  /**
   * As written, removing two workers from a pool of two inactive ones
   * panics: the first deletion moves the second worker into slot 0, which
   * the loop has passed, and zeroes slot 1, which it visits next. The
   * intended result is an empty pool.
   */
  lemma DecreaseAsWrittenPanics()
    ensures DecreaseAsWritten([Worker(0, false), Worker(1, false)], 2, 2).None?
    ensures Decreased([Worker(0, false), Worker(1, false)], 2) == []
  {
    var ws := [Worker(0, false), Worker(1, false)];
    var arr := Slots(ws);
    assert arr == [Some(Worker(0, false)), Some(Worker(1, false))];
    var arr' := [Some(Worker(1, false)), None];
    assert arr[..0] + arr[1..2] + [None] + arr[2..] == arr';
    assert RangeDelete(arr', 1, 1, 1, 2, false).None?;
    assert RangeDelete(arr, 2, 0, 0, 2, false).None?;
    assert ws[..1] == [Worker(0, false)];
    assert CountIdle([Worker(0, false)]) == 1 by {
      assert [Worker(0, false)][..0] == [];
    }
    assert DropIdle([Worker(0, false)], 2) == [] by {
      assert [Worker(0, false)][..0] == [];
    }
    assert DropIdle(ws, 2) == [];
  }

  /**
   * As written, asking to remove no worker still removes one: the count is
   * compared with n only after a removal. The intended result keeps the
   * pool as it is.
   */
  lemma DecreaseAsWrittenZero()
    ensures DecreaseAsWritten([Worker(0, false)], 1, 0) == Some([])
    ensures Decreased([Worker(0, false)], 0) == [Worker(0, false)]
  {
    var ws := [Worker(0, false)];
    var arr := Slots(ws);
    assert arr == [Some(Worker(0, false))];
    assert arr[..0] + arr[1..1] + [None] + arr[1..] == [None];
    assert RangeDelete(arr, 1, 0, 0, 0, false) == Some(RangeState([None], 0, 1, true));
    assert ws[..0] == [];
    assert DropIdle(ws, 0) == ws;
    assert DropActive(ws, 0 - CountIdle(ws)) == ws by {
      assert DropActive(ws[..0], 0 - CountIdle(ws)) == [];
    }
  }

  /**
   * As written, a pool restarted after Stop never dispatches: Start does
   * not renew the context Stop cancelled, so its task handler returns at
   * once, and tasks left in the queue stay there with no worker running.
   */
  method RestartAsWritten(p: Pool)
    requires p.Valid()
    modifies p
    ensures p.Valid() && !p.stopped && p.cancelled
    ensures p.taskQueue == old(p.taskQueue) && p.activeWorkers == 0 && CountActive(p.workers) == 0
  {
    p.Stop();
    p.StartAsWritten();
    p.Tick();
  }

  /**
   * With the context renewed by Start, a pool restarted after Stop with
   * tasks queued and at least one worker dispatches again.
   */
  method Restart(p: Pool)
    requires p.Valid() && |p.taskQueue| > 0 && |p.workers| > 0
    modifies p
    ensures p.Valid() && !p.stopped && !p.cancelled
    ensures p.activeWorkers == Min(p.maxWorkers, |p.workers|) >= 1 && CountActive(p.workers) >= 1
  {
    p.Stop();
    p.Start();
    p.Tick();
  }
}
