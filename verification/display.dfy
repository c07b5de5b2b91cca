/**
 * The display package's own logic (device/display): choosing the primary
 * display, the capture options, the virtual screen's bounding box, the
 * rectangle CaptureBmp asks for, the parsing of xrandr's output and the
 * XWD header skip. Detecting displays and running the capture commands
 * are calls into the operating system: their results are parameters here.
 */
module DisplayDevice {
  import opened Tools
  import opened Wrappers
  import opened BmpFormat

  /** A Go int32. */
  type Int32 = x: int | IsInt32(x)

  const MaxInt32: int := 0x7FFF_FFFF
  const MaxInt64: int := 0x7FFF_FFFF_FFFF_FFFF

  /** A monitor: its origin is int32, its size Go ints. */
  datatype Display = Display(x: Int32, y: Int32, width: int, height: int, primary: bool)

  const ZeroDisplay: Display := Display(0, 0, 0, 0, false)

  datatype DisplayError =
    | DetectionFailed(msg: string)
    | NoPrimaryDisplay
    | InvalidCaptureBounds(width: int, height: int)
    | XwdTooSmall
    | XwdInsufficientData

  /** What DetectDisplays returned: a display list, and an error when it failed. */
  datatype Detection = Detection(displays: seq<Display>, err: Option<string>)

  // ---------------------------------------------------------------------
  // GetPrimaryDisplay (display.go)
  // ---------------------------------------------------------------------

  /** The position of the first primary display in list order, or -1 when none is primary. */
  function FirstPrimary(ds: seq<Display>): (i: int)
    ensures -1 <= i < |ds|
    ensures i >= 0 ==> ds[i].primary && forall j | 0 <= j < i :: !ds[j].primary
    ensures i == -1 <==> forall j | 0 <= j < |ds| :: !ds[j].primary
  {
    if |ds| == 0 then -1
    else if ds[0].primary then 0
    else
      var k := FirstPrimary(ds[1..]);
      if k == -1 then -1 else k + 1
  }

  /**
   * GetPrimaryDisplay over a detection result: the detection error or an
   * empty list gives the zero display with that error (none for an empty
   * list); otherwise the first primary display, or "no primary display".
   */
  function GetPrimaryDisplay(det: Detection): (r: (Display, Option<DisplayError>))
    ensures det.err.Some? ==> r == (ZeroDisplay, Some(DetectionFailed(det.err.value)))
    ensures det.err.None? && |det.displays| == 0 ==> r == (ZeroDisplay, None)
    ensures r.1 == Some(NoPrimaryDisplay) <==>
      det.err.None? && |det.displays| > 0 && forall j | 0 <= j < |det.displays| :: !det.displays[j].primary
    ensures det.err.None? && |det.displays| > 0 && r.1.None? ==>
      exists i | 0 <= i < |det.displays| ::
        r.0 == det.displays[i] && r.0.primary && forall j | 0 <= j < i :: !det.displays[j].primary
  {
    if det.err.Some? then (ZeroDisplay, Some(DetectionFailed(det.err.value)))
    else if |det.displays| == 0 then (ZeroDisplay, None)
    else
      var i := FirstPrimary(det.displays);
      if i >= 0 then (det.displays[i], None) else (ZeroDisplay, Some(NoPrimaryDisplay))
  }

  // ---------------------------------------------------------------------
  // Capture options (display__capture_builder.go)
  // ---------------------------------------------------------------------

  /** Bounds [left, right, top, bottom]: int32 offsets from a display's origin. */
  datatype Bounds = Bounds(left: Int32, right: Int32, top: Int32, bottom: Int32)

  const NoBounds: Bounds := Bounds(0, 0, 0, 0)

  const ValidBitCounts: seq<int> := [1, 4, 8, 16, 24, 32]

  /** The closure a capture option builder returns, by what it writes. */
  datatype CaptureOption =
    | DisplaysOpt(displays: seq<Display>)
    | SetBitCount(bitCount: int)
    | BoundsOpt(bounds: Bounds)
    | NoChange

  /** BitCountOpt: a bit count off the whitelist gives an option that does nothing. */
  function BitCountOpt(bitCount: int): CaptureOption {
    if bitCount !in ValidBitCounts then NoChange else SetBitCount(bitCount)
  }

  /** displayCaptureOption as a value. */
  datatype CaptureSettings = CaptureSettings(displays: seq<Display>, bitCount: int, bounds: Bounds)

  const ZeroSettings: CaptureSettings := CaptureSettings([], 0, NoBounds)

  /** What one option closure does to the settings. */
  function Step(s: CaptureSettings, o: CaptureOption): CaptureSettings {
    match o
    case DisplaysOpt(ds) => s.(displays := ds)
    case SetBitCount(b) => s.(bitCount := if b !in ValidBitCounts then 24 else b)
    case BoundsOpt(b) => s.(bounds := b)
    case NoChange => s
  }

  /** The settings after applying `opts` in order to zeroed settings. */
  function Settled(opts: seq<CaptureOption>): CaptureSettings {
    if |opts| == 0 then ZeroSettings else Step(Settled(opts[..|opts| - 1]), opts[|opts| - 1])
  }

  /** displayCaptureOption, which the option closures update in place. */
  class DisplayCaptureOption {
    var displays: seq<Display>
    var bitCount: int
    var bounds: Bounds

    function Settings(): CaptureSettings
      reads this
    {
      CaptureSettings(displays, bitCount, bounds)
    }

    constructor ()
      ensures Settings() == ZeroSettings
    {
      displays := [];
      bitCount := 0;
      bounds := NoBounds;
    }

    /** Runs one option closure: it writes its own field and leaves the others. */
    method Apply(o: CaptureOption)
      modifies this
      ensures displays == if o.DisplaysOpt? then o.displays else old(displays)
      ensures bounds == if o.BoundsOpt? then o.bounds else old(bounds)
      ensures o.SetBitCount? && IsBmpBitCount(o.bitCount) ==> bitCount == o.bitCount
      ensures !o.SetBitCount? ==> bitCount == old(bitCount)
      ensures Settings() == Step(old(Settings()), o)
    {
      match o
      case DisplaysOpt(ds) => displays := ds;
      case SetBitCount(b) =>
        if b !in ValidBitCounts {
          bitCount := 24;
        } else {
          bitCount := b;
        }
      case BoundsOpt(b) => bounds := b;
      case NoChange =>
    }
  }

  /**
   * BitCountOpt(b) sets the bit count to exactly b when b is one of
   * 1, 4, 8, 16, 24, 32 and changes nothing otherwise: the closure's own
   * fallback to 24 is never reached.
   */
  lemma BitCountOptEffect(s: CaptureSettings, b: int)
    ensures Step(s, BitCountOpt(b)) == if IsBmpBitCount(b) then s.(bitCount := b) else s
    ensures BitCountOpt(b).SetBitCount? ==> BitCountOpt(b).bitCount in ValidBitCounts
  {
  }

  /** Of several displays options, the last one applied wins; with none the list is empty. */
  lemma {:induction false} LastDisplaysWins(opts: seq<CaptureOption>, i: int)
    requires -1 <= i < |opts| && (i >= 0 ==> opts[i].DisplaysOpt?)
    requires forall j | i < j < |opts| :: !opts[j].DisplaysOpt?
    ensures Settled(opts).displays == if i >= 0 then opts[i].displays else []
  {
    if |opts| > 0 && i < |opts| - 1 {
      LastDisplaysWins(opts[..|opts| - 1], i);
    }
  }

  /** Of several bounds options, the last one applied wins; with none the bounds are zero. */
  lemma {:induction false} LastBoundsWins(opts: seq<CaptureOption>, i: int)
    requires -1 <= i < |opts| && (i >= 0 ==> opts[i].BoundsOpt?)
    requires forall j | i < j < |opts| :: !opts[j].BoundsOpt?
    ensures Settled(opts).bounds == if i >= 0 then opts[i].bounds else NoBounds
  {
    if |opts| > 0 && i < |opts| - 1 {
      LastBoundsWins(opts[..|opts| - 1], i);
    }
  }

  // ---------------------------------------------------------------------
  // The virtual screen (display_linux.go, NewVirtualScreen)
  // ---------------------------------------------------------------------

  datatype VirtualScreen = VirtualScreen(left: Int32, right: Int32, top: Int32, bottom: Int32, displays: seq<Display>)

  const EmptyScreen: VirtualScreen := VirtualScreen(0, 0, 0, 0, [])

  /** X + int32(Width), in int32 arithmetic. */
  function RightEdge(d: Display): Int32 {
    Wrap32(d.x + Wrap32(d.width))
  }

  /** Y + int32(Height), in int32 arithmetic. */
  function TopEdge(d: Display): Int32 {
    Wrap32(d.y + Wrap32(d.height))
  }

  /**
   * NewVirtualScreen: the bounding box of all displays, Left the least X,
   * Bottom the least Y, Right the greatest right edge and Top the greatest
   * top edge, each attained by some display; a failed detection or an
   * empty list gives the zero screen.
   */
  method NewVirtualScreen(det: Detection) returns (vs: VirtualScreen)
    ensures det.err.Some? || |det.displays| == 0 ==> vs == EmptyScreen
    ensures det.err.None? && |det.displays| > 0 ==>
      var ds := det.displays;
      vs.displays == ds &&
      (exists i | 0 <= i < |ds| :: vs.left == ds[i].x) && (forall i | 0 <= i < |ds| :: vs.left <= ds[i].x) &&
      (exists i | 0 <= i < |ds| :: vs.bottom == ds[i].y) && (forall i | 0 <= i < |ds| :: vs.bottom <= ds[i].y) &&
      (exists i | 0 <= i < |ds| :: vs.right == RightEdge(ds[i])) && (forall i | 0 <= i < |ds| :: vs.right >= RightEdge(ds[i])) &&
      (exists i | 0 <= i < |ds| :: vs.top == TopEdge(ds[i])) && (forall i | 0 <= i < |ds| :: vs.top >= TopEdge(ds[i]))
  {
    if det.err.Some? || |det.displays| == 0 {
      return EmptyScreen;
    }
    var ds := det.displays;
    var left, bottom := ds[0].x, ds[0].y;
    var right, top := RightEdge(ds[0]), TopEdge(ds[0]);
    ghost var li, bi, ri, ti := 0, 0, 0, 0;
    for k := 0 to |ds|
      invariant 0 <= li < |ds| && left == ds[li].x && forall i | 0 <= i < k :: left <= ds[i].x
      invariant 0 <= bi < |ds| && bottom == ds[bi].y && forall i | 0 <= i < k :: bottom <= ds[i].y
      invariant 0 <= ri < |ds| && right == RightEdge(ds[ri]) && forall i | 0 <= i < k :: right >= RightEdge(ds[i])
      invariant 0 <= ti < |ds| && top == TopEdge(ds[ti]) && forall i | 0 <= i < k :: top >= TopEdge(ds[i])
    {
      var d := ds[k];
      if d.x < left {
        left, li := d.x, k;
      }
      assert forall i | 0 <= i < k + 1 :: left <= ds[i].x;
      if d.y < bottom {
        bottom, bi := d.y, k;
      }
      assert forall i | 0 <= i < k + 1 :: bottom <= ds[i].y;
      var r := RightEdge(d);
      if r > right {
        right, ri := r, k;
      }
      assert forall i | 0 <= i < k + 1 :: right >= RightEdge(ds[i]);
      var t := TopEdge(d);
      if t > top {
        top, ti := t, k;
      }
      assert forall i | 0 <= i < k + 1 :: top >= TopEdge(ds[i]);
    }
    vs := VirtualScreen(left, right, top, bottom, ds);
  }

  // ---------------------------------------------------------------------
  // The capture rectangle (display_linux.go, CaptureBmp)
  // ---------------------------------------------------------------------

  /** The region CaptureBmp asks `import` to capture. */
  datatype Rect = Rect(left: Int32, top: Int32, width: int, height: int)

  /** The region between four edges; a size that is not positive in int32 is an error. */
  function RegionBetween(left: Int32, right: Int32, top: Int32, bottom: Int32): (r: Result<Rect, DisplayError>)
    ensures r.Ok? ==> r.value.width > 0 && r.value.height > 0
    ensures r.Err? ==> r.error.InvalidCaptureBounds? && (r.error.width <= 0 || r.error.height <= 0)
  {
    var width, height := Wrap32(right - left), Wrap32(bottom - top);
    if width <= 0 || height <= 0 then Err(InvalidCaptureBounds(width, height))
    else Ok(Rect(left, top, width, height))
  }

  /**
   * One display's capture region: the display origin plus the bounds when
   * they are not all zero, the whole display otherwise; corners and sizes
   * in int32 arithmetic, and a size that is not positive is an error.
   */
  function CaptureRect(d: Display, b: Bounds): (r: Result<Rect, DisplayError>)
    ensures r.Ok? ==> r.value.width > 0 && r.value.height > 0
    ensures r.Err? ==> r.error.InvalidCaptureBounds? && (r.error.width <= 0 || r.error.height <= 0)
  {
    if b != NoBounds then
      RegionBetween(Wrap32(d.x + b.left), Wrap32(d.x + b.right), Wrap32(d.y + b.top), Wrap32(d.y + b.bottom))
    else RegionBetween(d.x, RightEdge(d), d.y, TopEdge(d))
  }

  /** Wrap32 gives the same value for integers that agree modulo 2^32. */
  lemma Wrap32Congruent(a: int, b: int, k: int)
    requires a - b == k * TwoTo32
    ensures Wrap32(a) == Wrap32(b)
  {
    var ra, rb := Wrap32(a), Wrap32(b);
    var qa, qb := (a - ra) / TwoTo32, (b - rb) / TwoTo32;
    assert a - ra == qa * TwoTo32;
    assert b - rb == qb * TwoTo32;
    assert ra - rb == (k - qa + qb) * TwoTo32;
  }

  /** The int32 difference of two int32 sums with the same first term. */
  lemma WrappedDifference(x: int, p: int, q: int)
    ensures Wrap32(Wrap32(x + q) - Wrap32(x + p)) == Wrap32(q - p)
  {
    var rq, rp := Wrap32(x + q), Wrap32(x + p);
    var kq, kp := (x + q - rq) / TwoTo32, (x + p - rp) / TwoTo32;
    assert x + q - rq == kq * TwoTo32;
    assert x + p - rp == kp * TwoTo32;
    Wrap32Congruent(rq - rp, q - p, kp - kq);
  }

  /**
   * With bounds, the capture size is the int32 differences right-left and
   * bottom-top whatever the display's origin, and the corner is the origin
   * plus the left and top offsets.
   */
  lemma CaptureRectWithBounds(d: Display, b: Bounds)
    requires b != NoBounds
    ensures var w, h := Wrap32(b.right - b.left), Wrap32(b.bottom - b.top);
      CaptureRect(d, b) ==
        if w <= 0 || h <= 0 then Err(InvalidCaptureBounds(w, h))
        else Ok(Rect(Wrap32(d.x + b.left), Wrap32(d.y + b.top), w, h))
  {
    WrappedDifference(d.x, b.left, b.right);
    WrappedDifference(d.y, b.top, b.bottom);
    var left, right, top, bottom := Wrap32(d.x + b.left), Wrap32(d.x + b.right), Wrap32(d.y + b.top), Wrap32(d.y + b.bottom);
    BoundedRegion(d, b);
    RegionOfSizes(left, right, top, bottom, Wrap32(b.right - b.left), Wrap32(b.bottom - b.top));
  }

  lemma BoundedRegion(d: Display, b: Bounds)
    requires b != NoBounds
    ensures CaptureRect(d, b) ==
      RegionBetween(Wrap32(d.x + b.left), Wrap32(d.x + b.right), Wrap32(d.y + b.top), Wrap32(d.y + b.bottom))
  {
  }

  lemma RegionOfSizes(left: Int32, right: Int32, top: Int32, bottom: Int32, w: int, h: int)
    requires Wrap32(right - left) == w && Wrap32(bottom - top) == h
    ensures RegionBetween(left, right, top, bottom) ==
      if w <= 0 || h <= 0 then Err(InvalidCaptureBounds(w, h)) else Ok(Rect(left, top, w, h))
  {
  }

  /** When nothing overflows int32, the bounded region is the plain sums and differences. */
  lemma CaptureRectBoundsExact(d: Display, b: Bounds)
    requires b != NoBounds
    requires IsInt32(d.x + b.left) && IsInt32(d.y + b.top) && IsInt32(b.right - b.left) && IsInt32(b.bottom - b.top)
    ensures CaptureRect(d, b).Ok? <==> b.left < b.right && b.top < b.bottom
    ensures CaptureRect(d, b).Ok? ==>
      CaptureRect(d, b).value == Rect(d.x + b.left, d.y + b.top, b.right - b.left, b.bottom - b.top)
  {
    CaptureRectWithBounds(d, b);
  }

  /** Without bounds, the region is the whole display, when its edges fit in int32. */
  lemma CaptureRectWholeDisplay(d: Display)
    requires IsInt32(d.width) && IsInt32(d.height) && IsInt32(d.x + d.width) && IsInt32(d.y + d.height)
    ensures CaptureRect(d, NoBounds) ==
      if d.width <= 0 || d.height <= 0 then Err(InvalidCaptureBounds(d.width, d.height))
      else Ok(Rect(d.x, d.y, d.width, d.height))
  {
  }

  /**
   * Every result in order, or the first error: Go's loops that return on
   * the first failure.
   */
  function Collect<T, E>(rs: seq<Result<T, E>>): Result<seq<T>, E> {
    if |rs| == 0 then Ok([])
    else
      var n := |rs| - 1;
      var prev := Collect(rs[..n]);
      if prev.Err? then Err(prev.error)
      else if rs[n].Err? then Err(rs[n].error)
      else Ok(prev.value + [rs[n].value])
  }

  /** Collect gives every value when all are Ok, and otherwise the first error. */
  lemma {:induction false} CollectMeaning<T, E>(rs: seq<Result<T, E>>)
    ensures Collect(rs).Ok? <==> forall i | 0 <= i < |rs| :: rs[i].Ok?
    ensures Collect(rs).Ok? ==> |Collect(rs).value| == |rs| && forall i | 0 <= i < |rs| :: rs[i] == Ok(Collect(rs).value[i])
    ensures Collect(rs).Err? ==> exists i | 0 <= i < |rs| :: rs[i] == Err(Collect(rs).error) && forall j | 0 <= j < i :: rs[j].Ok?
  {
    if |rs| > 0 {
      var n := |rs| - 1;
      CollectMeaning(rs[..n]);
      assert forall i | 0 <= i < n :: rs[..n][i] == rs[i];
      var r, prev := Collect(rs), Collect(rs[..n]);
      if prev.Err? {
        var i :| 0 <= i < n && rs[..n][i] == Err(prev.error) && forall j | 0 <= j < i :: rs[..n][j].Ok?;
        assert rs[i] == Err(r.error) && forall j | 0 <= j < i :: rs[j].Ok?;
      } else if rs[n].Err? {
        assert rs[n] == Err(r.error) && forall j | 0 <= j < n :: rs[j].Ok?;
      }
    }
  }

  /** An error in a prefix is the error of the whole. */
  lemma {:induction false} CollectPrefixErr<T, E>(rs: seq<Result<T, E>>, k: nat)
    requires k <= |rs| && Collect(rs[..k]).Err?
    ensures Collect(rs) == Collect(rs[..k])
    decreases |rs|
  {
    if k < |rs| {
      var n := |rs| - 1;
      assert rs[..n][..k] == rs[..k];
      CollectPrefixErr(rs[..n], k);
    } else {
      assert rs[..k] == rs;
    }
  }

  /** Each display's capture region, in order. */
  function RegionResults(ds: seq<Display>, b: Bounds): (rs: seq<Result<Rect, DisplayError>>)
    ensures |rs| == |ds| && forall i | 0 <= i < |ds| :: rs[i] == CaptureRect(ds[i], b)
  {
    seq(|ds|, i requires 0 <= i < |ds| => CaptureRect(ds[i], b))
  }

  /** The displays CaptureBmp captures: the ones the options name, or else the primary one. */
  function CaptureTargets(s: CaptureSettings, det: Detection): Result<seq<Display>, DisplayError> {
    if |s.displays| == 0 then
      var pd := GetPrimaryDisplay(det);
      if pd.1.Some? then Err(pd.1.value) else Ok([pd.0])
    else Ok(s.displays)
  }

  /** The regions CaptureBmp asks for with the given options. */
  function CapturePlan(opts: seq<CaptureOption>, det: Detection): Result<seq<Rect>, DisplayError> {
    var s := Settled(opts);
    var targets := CaptureTargets(s, det);
    if targets.Err? then Err(targets.error) else Collect(RegionResults(targets.value, s.bounds))
  }

  /**
   * CaptureBmp up to the capture commands: applies the options, forces 24
   * bits per pixel, picks the displays, and computes each region in order,
   * stopping at the first invalid one before anything is captured for it.
   */
  method CaptureRegions(options: seq<CaptureOption>, det: Detection) returns (r: Result<seq<Rect>, DisplayError>)
    ensures r == CapturePlan(options, det)
  {
    var opt := new DisplayCaptureOption();
    for i := 0 to |options|
      invariant opt.Settings() == Settled(options[..i])
    {
      opt.Apply(options[i]);
      assert options[..i + 1][..i] == options[..i];
    }
    assert options[..|options|] == options;
    ghost var settled := opt.Settings();
    opt.bitCount := 24;

    var displays: seq<Display>;
    if |opt.displays| == 0 {
      var pd := GetPrimaryDisplay(det);
      if pd.1.Some? {
        return Err(pd.1.value);
      }
      displays := [pd.0];
    } else {
      displays := opt.displays;
    }
    assert CaptureTargets(settled, det) == Ok(displays);
    r := CaptureEach(displays, opt.bounds);
  }

  /** CaptureBmp's loop over the displays, up to the capture commands: each region in order, or the first error. */
  method CaptureEach(displays: seq<Display>, bounds: Bounds) returns (r: Result<seq<Rect>, DisplayError>)
    ensures r == Collect(RegionResults(displays, bounds))
  {
    var region := d => CaptureRect(d, bounds);
    r := CollectEach(displays, region);
    assert Applied(displays, region) == RegionResults(displays, bounds);
  }

  /** f applied to every element, in order. */
  function Applied<T, U>(xs: seq<T>, f: T -> U): (ys: seq<U>)
    ensures |ys| == |xs| && forall i | 0 <= i < |xs| :: ys[i] == f(xs[i])
  {
    seq(|xs|, i requires 0 <= i < |xs| => f(xs[i]))
  }

  /** A loop that applies f to each element in order and returns at the first error. */
  method CollectEach<T, U, E>(xs: seq<T>, f: T -> Result<U, E>) returns (r: Result<seq<U>, E>)
    ensures r == Collect(Applied(xs, f))
  {
    ghost var rs := Applied(xs, f);
    var values: seq<U> := [];
    for i := 0 to |xs|
      invariant Collect(rs[..i]) == Ok(values)
    {
      var x := f(xs[i]);
      assert rs[..i + 1][..i] == rs[..i] && rs[..i + 1][i] == x;
      if x.Err? {
        CollectPrefixErr(rs, i + 1);
        return Err(x.error);
      }
      values := values + [x.value];
    }
    assert rs[..|xs|] == rs;
    return Ok(values);
  }

  // ---------------------------------------------------------------------
  // Parsing xrandr's output (display_linux.go)
  // ---------------------------------------------------------------------

  /** strings.Contains. */
  predicate Contains(s: string, sub: string) {
    exists i | 0 <= i <= |s| - |sub| :: OccursAt(s, sub, i)
  }

  predicate OccursAt(s: string, sub: string, i: int)
    requires 0 <= i <= |s| - |sub|
  {
    s[i..i + |sub|] == sub
  }

  /** isDisplayDetails: the line names a connected output. */
  predicate IsDisplayDetails(line: string) {
    Contains(line, " connected ")
  }

  /** isPrimaryDisplay: the line marks the output primary. */
  predicate IsPrimaryDisplay(line: string) {
    Contains(line, " primary ")
  }

  predicate IsDigit(c: char) {
    '0' <= c <= '9'
  }

  predicate AllDigits(s: string) {
    forall k | 0 <= k < |s| :: IsDigit(s[k])
  }

  /** The length of the run of digits starting at p. */
  function DigitRun(s: string, p: nat): (n: nat)
    requires p <= |s|
    ensures p + n <= |s| && AllDigits(s[p..p + n])
    ensures p + n == |s| || !IsDigit(s[p + n])
    decreases |s| - p
  {
    if p < |s| && IsDigit(s[p]) then
      var r := DigitRun(s, p + 1);
      assert s[p..p + 1 + r] == [s[p]] + s[p + 1..p + 1 + r];
      1 + r
    else 0
  }

  /** The value of a decimal numeral. */
  function DigitsValue(s: string): nat
    requires AllDigits(s)
  {
    if |s| == 0 then 0 else 10 * DigitsValue(s[..|s| - 1]) + (s[|s| - 1] as int - '0' as int)
  }

  /** The decimal numeral of n, without leading zeros. */
  function Numeral(n: nat): (s: string)
    ensures |s| >= 1 && AllDigits(s)
  {
    var d := ['0' + (n % 10) as char];
    if n < 10 then d else Numeral(n / 10) + d
  }

  /** The four numbers of a `WxH+X+Y` token, as written. */
  datatype Geometry = Geometry(width: nat, height: nat, x: nat, y: nat)

  /** The `WxH+X+Y` token in the form xrandr prints it. */
  function FormatGeometry(g: Geometry): string {
    Numeral(g.width) + "x" + Numeral(g.height) + "+" + Numeral(g.x) + "+" + Numeral(g.y)
  }

  /** A number read from a line, and the position after its separator. */
  datatype Field = Field(value: nat, next: nat)

  /** A run of digits at p ended by `sep`: its value and the position after `sep`. */
  function FieldAt(line: string, p: nat, sep: char): (r: Option<Field>)
    requires p <= |line|
    ensures r.Some? ==> p < r.value.next <= |line|
  {
    var n := DigitRun(line, p);
    if n == 0 || p + n == |line| || line[p + n] != sep then None
    else Some(Field(DigitsValue(line[p..p + n]), p + n + 1))
  }

  /**
   * A match of \d+x\d+\+\d+\+\d+ starting at p. Each digit run must be
   * followed by its separator, so only the longest run can be part of a
   * match, and the last run is taken whole.
   */
  function GeometryAt(line: string, p: nat): Option<Geometry>
    requires p <= |line|
  {
    var w := FieldAt(line, p, 'x');
    if w.None? then None
    else
      var h := FieldAt(line, w.value.next, '+');
      if h.None? then None
      else
        var x := FieldAt(line, h.value.next, '+');
        if x.None? then None
        else
          var y := LastNumber(line, x.value.next);
          if y.None? then None
          else Some(Geometry(w.value.value, h.value.value, x.value.value, y.value))
  }

  /** The token's last number: the whole run of digits at p, which must not be empty. */
  function LastNumber(line: string, p: nat): Option<nat>
    requires p <= |line|
  {
    var n := DigitRun(line, p);
    if n == 0 then None else Some(DigitsValue(line[p..p + n]))
  }

  /** regexp FindString: the leftmost match at or after p. */
  function FindGeometry(line: string, p: nat): Option<Geometry>
    requires p <= |line|
    decreases |line| - p
  {
    if p == |line| then None
    else if GeometryAt(line, p).Some? then GeometryAt(line, p)
    else FindGeometry(line, p + 1)
  }

  /**
   * A token is found exactly when one starts at or after p, and what is
   * found is the token at one of those positions.
   */
  lemma {:induction false} FindGeometryMeaning(line: string, p: nat)
    requires p <= |line|
    ensures FindGeometry(line, p).None? <==> forall q | p <= q < |line| :: GeometryAt(line, q).None?
    ensures FindGeometry(line, p).Some? ==> exists q | p <= q < |line| :: FindGeometry(line, p) == GeometryAt(line, q)
    decreases |line| - p
  {
    if p == |line| {
    } else if GeometryAt(line, p).Some? {
      assert FindGeometry(line, p) == GeometryAt(line, p);
    } else {
      FindGeometryMeaning(line, p + 1);
      var r := FindGeometry(line, p + 1);
      assert FindGeometry(line, p) == r;
      if r.Some? {
        var q :| p + 1 <= q < |line| && r == GeometryAt(line, q);
      } else {
        assert forall q | p <= q < |line| :: GeometryAt(line, q).None? by {
          forall q | p <= q < |line| ensures GeometryAt(line, q).None? {
            if q > p {
              assert p + 1 <= q < |line|;
            }
          }
        }
      }
    }
  }

  /** Reading back a printed number gives the number. */
  lemma {:induction false} NumeralValue(n: nat)
    ensures DigitsValue(Numeral(n)) == n
  {
    var s := Numeral(n);
    if n >= 10 {
      NumeralValue(n / 10);
      assert s[..|s| - 1] == Numeral(n / 10);
    }
  }

  /** A run of k digits that ends at the end of s or before a non-digit is the run DigitRun finds. */
  lemma {:induction false} DigitRunExact(s: string, p: nat, k: nat)
    requires p + k <= |s| && AllDigits(s[p..p + k])
    requires p + k == |s| || !IsDigit(s[p + k])
    ensures DigitRun(s, p) == k
    decreases k
  {
    if k > 0 {
      assert s[p..p + k][0] == s[p];
      assert s[p + 1..p + k] == s[p..p + k][1..];
      DigitRunExact(s, p + 1, k - 1);
    }
  }

  /** One number of the token: its numeral at p, ended by the end of the line or a non-digit. */
  lemma NumeralAt(line: string, p: nat, n: nat)
    requires p + |Numeral(n)| <= |line| && line[p..p + |Numeral(n)|] == Numeral(n)
    requires p + |Numeral(n)| == |line| || !IsDigit(line[p + |Numeral(n)|])
    ensures DigitRun(line, p) == |Numeral(n)| && DigitsValue(line[p..p + |Numeral(n)|]) == n
  {
    DigitRunExact(line, p, |Numeral(n)|);
    NumeralValue(n);
  }

  /** A printed number followed by a separator reads back as that number. */
  lemma FieldRoundTrip(pre: string, n: nat, sep: char, post: string)
    requires !IsDigit(sep)
    ensures FieldAt(pre + Numeral(n) + [sep] + post, |pre|, sep) == Some(Field(n, |pre| + |Numeral(n)| + 1))
  {
    var line := pre + Numeral(n) + [sep] + post;
    assert line[|pre|..|pre| + |Numeral(n)|] == Numeral(n);
    assert line[|pre| + |Numeral(n)|] == sep;
    NumeralAt(line, |pre|, n);
  }

  /** Where the height, x and y numerals of a printed token start, after `pre`. */
  function HeightPos(pre: string, g: Geometry): nat {
    |pre| + |Numeral(g.width)| + 1
  }

  function XPos(pre: string, g: Geometry): nat {
    HeightPos(pre, g) + |Numeral(g.height)| + 1
  }

  function YPos(pre: string, g: Geometry): nat {
    XPos(pre, g) + |Numeral(g.x)| + 1
  }

  /** Concatenation regrouped one step at a time, so that no proof needs it all at once. */
  lemma Assoc(a: string, b: string, c: string)
    ensures a + (b + c) == a + b + c
  {
  }

  /**
   * The printed line, regrouped around one of its numerals: `front` is the
   * part of the token before the numeral, `sep` the separator after it and
   * `tail` the rest of the token.
   */
  lemma Regroup(pre: string, front: string, num: string, sep: string, tail: string, post: string)
    ensures pre + (front + num + sep + tail) + post == pre + front + num + sep + (tail + post)
  {
    Assoc(pre, front + num + sep, tail);
    Assoc(pre + (front + num + sep), tail, post);
    Assoc(pre, front + num, sep);
    Assoc(pre, front, num);
  }

  lemma WidthRoundTrip(g: Geometry, pre: string, post: string)
    ensures FieldAt(pre + FormatGeometry(g) + post, |pre|, 'x') == Some(Field(g.width, HeightPos(pre, g)))
  {
    var tail := Numeral(g.height) + "+" + Numeral(g.x) + "+" + Numeral(g.y);
    assert FormatGeometry(g) == [] + Numeral(g.width) + "x" + tail by {
      Assoc(Numeral(g.width) + "x", Numeral(g.height) + "+" + Numeral(g.x) + "+", Numeral(g.y));
      Assoc(Numeral(g.width) + "x", Numeral(g.height) + "+" + Numeral(g.x), "+");
      Assoc(Numeral(g.width) + "x", Numeral(g.height) + "+", Numeral(g.x));
      Assoc(Numeral(g.width) + "x", Numeral(g.height), "+");
    }
    Regroup(pre, [], Numeral(g.width), "x", tail, post);
    assert pre + [] == pre;
    var line := pre + FormatGeometry(g) + post;
    assert line == pre + Numeral(g.width) + ['x'] + (tail + post);
    assert HeightPos(pre, g) == |pre| + |Numeral(g.width)| + 1;
    FieldRoundTrip(pre, g.width, 'x', tail + post);
  }

  lemma HeightRoundTrip(g: Geometry, pre: string, post: string)
    ensures HeightPos(pre, g) <= |pre + FormatGeometry(g) + post|
    ensures FieldAt(pre + FormatGeometry(g) + post, HeightPos(pre, g), '+') == Some(Field(g.height, XPos(pre, g)))
  {
    var front := Numeral(g.width) + "x";
    var tail := Numeral(g.x) + "+" + Numeral(g.y);
    assert FormatGeometry(g) == front + Numeral(g.height) + "+" + tail by {
      Assoc(front + Numeral(g.height) + "+", Numeral(g.x) + "+", Numeral(g.y));
      Assoc(front + Numeral(g.height) + "+", Numeral(g.x), "+");
    }
    Regroup(pre, front, Numeral(g.height), "+", tail, post);
    var line := pre + FormatGeometry(g) + post;
    assert line == pre + front + Numeral(g.height) + ['+'] + (tail + post);
    assert HeightPos(pre, g) == |pre + front|;
    assert XPos(pre, g) == |pre + front| + |Numeral(g.height)| + 1;
    FieldRoundTrip(pre + front, g.height, '+', tail + post);
  }

  lemma XRoundTrip(g: Geometry, pre: string, post: string)
    ensures XPos(pre, g) <= |pre + FormatGeometry(g) + post|
    ensures FieldAt(pre + FormatGeometry(g) + post, XPos(pre, g), '+') == Some(Field(g.x, YPos(pre, g)))
  {
    var front := Numeral(g.width) + "x" + Numeral(g.height) + "+";
    var tail := Numeral(g.y);
    Regroup(pre, front, Numeral(g.x), "+", tail, post);
    var line := pre + FormatGeometry(g) + post;
    assert line == pre + front + Numeral(g.x) + ['+'] + (tail + post);
    assert XPos(pre, g) == |pre + front|;
    assert YPos(pre, g) == |pre + front| + |Numeral(g.x)| + 1;
    FieldRoundTrip(pre + front, g.x, '+', tail + post);
  }

  lemma YRoundTrip(g: Geometry, pre: string, post: string)
    requires |post| == 0 || !IsDigit(post[0])
    ensures YPos(pre, g) <= |pre + FormatGeometry(g) + post|
    ensures LastNumber(pre + FormatGeometry(g) + post, YPos(pre, g)) == Some(g.y)
  {
    var front := Numeral(g.width) + "x" + Numeral(g.height) + "+" + Numeral(g.x) + "+";
    var line, yp, ny := pre + FormatGeometry(g) + post, YPos(pre, g), Numeral(g.y);
    Assoc(pre, front, ny);
    assert line == pre + front + ny + post;
    assert |pre + front| == yp;
    assert line[yp..yp + |ny|] == ny;
    assert yp + |ny| == |line| || !IsDigit(line[yp + |ny|]) by {
      if yp + |ny| < |line| {
        assert line[yp + |ny|] == post[0];
      }
    }
    NumeralAt(line, yp, g.y);
  }

  /** A printed `WxH+X+Y` token parses back to its four numbers wherever it stands, unless a digit follows it. */
  lemma GeometryRoundTrip(g: Geometry, pre: string, post: string)
    requires |post| == 0 || !IsDigit(post[0])
    ensures GeometryAt(pre + FormatGeometry(g) + post, |pre|) == Some(g)
  {
    WidthRoundTrip(g, pre, post);
    HeightRoundTrip(g, pre, post);
    XRoundTrip(g, pre, post);
    YRoundTrip(g, pre, post);
    GeometryFromFields(pre + FormatGeometry(g) + post, |pre|, g, HeightPos(pre, g), XPos(pre, g), YPos(pre, g));
  }

  /** The token is its three separated fields and a final run of digits. */
  lemma GeometryFromFields(line: string, p: nat, g: Geometry, hp: nat, xp: nat, yp: nat)
    requires p <= |line| && FieldAt(line, p, 'x') == Some(Field(g.width, hp))
    requires hp <= |line| && FieldAt(line, hp, '+') == Some(Field(g.height, xp))
    requires xp <= |line| && FieldAt(line, xp, '+') == Some(Field(g.x, yp))
    requires yp <= |line| && LastNumber(line, yp) == Some(g.y)
    ensures GeometryAt(line, p) == Some(g)
  {
  }

  /**
   * No token starts inside a prefix that ends in a non-digit and has no
   * digit directly followed by 'x'.
   */
  lemma NoGeometryInPrefix(pre: string, rest: string, q: nat)
    requires q < |pre| && !IsDigit(pre[|pre| - 1])
    requires forall k | 0 <= k < |pre| - 1 :: IsDigit(pre[k]) ==> pre[k + 1] != 'x'
    ensures GeometryAt(pre + rest, q).None?
  {
    var line := pre + rest;
    var w := DigitRun(line, q);
    if w > 0 {
      forall m | q <= m < q + w
        ensures IsDigit(line[m])
      {
        assert line[q..q + w][m - q] == line[m];
      }
      assert !IsDigit(line[|pre| - 1]);
      assert q + w < |pre|;
      assert line[q + w - 1] == pre[q + w - 1];
    }
  }

  /**
   * The geometry of an xrandr detail line such as
   * "eDP-1 connected primary 1920x1080+0+0 (normal ...)" is the first
   * printed token after the output's name and flags.
   */
  lemma DetailLineGeometry(g: Geometry, pre: string, post: string)
    requires |pre| > 0 && !IsDigit(pre[|pre| - 1])
    requires forall k | 0 <= k < |pre| - 1 :: IsDigit(pre[k]) ==> pre[k + 1] != 'x'
    requires |post| == 0 || !IsDigit(post[0])
    ensures FindGeometry(pre + FormatGeometry(g) + post, 0) == Some(g)
  {
    var line := pre + FormatGeometry(g) + post;
    GeometryRoundTrip(g, pre, post);
    Assoc(pre, FormatGeometry(g), post);
    NoGeometryBefore(pre, FormatGeometry(g) + post);
    LeftmostGeometry(line, |pre|);
  }

  lemma NoGeometryBefore(pre: string, rest: string)
    requires |pre| > 0 && !IsDigit(pre[|pre| - 1])
    requires forall k | 0 <= k < |pre| - 1 :: IsDigit(pre[k]) ==> pre[k + 1] != 'x'
    ensures forall q | 0 <= q < |pre| :: GeometryAt(pre + rest, q).None?
  {
    forall q | 0 <= q < |pre| ensures GeometryAt(pre + rest, q).None? {
      NoGeometryInPrefix(pre, rest, q);
    }
  }

  /** The match FindGeometry reports is the one at the first position where there is one. */
  lemma LeftmostGeometry(line: string, p: nat)
    requires p <= |line| && GeometryAt(line, p).Some?
    requires forall q | 0 <= q < p :: GeometryAt(line, q).None?
    ensures FindGeometry(line, 0) == GeometryAt(line, p)
  {
    LeftmostFrom(line, p, 0);
  }

  lemma {:induction false} LeftmostFrom(line: string, p: nat, q: nat)
    requires q <= p <= |line| && GeometryAt(line, p).Some?
    requires forall q' | q <= q' < p :: GeometryAt(line, q').None?
    ensures FindGeometry(line, q) == GeometryAt(line, p)
    decreases p - q
  {
    if q < p {
      assert GeometryAt(line, q).None?;
      assert FindGeometry(line, q) == FindGeometry(line, q + 1);
      LeftmostFrom(line, p, q + 1);
    }
  }

  /**
   * The display a detail line with geometry g describes: Atoi and
   * ParseInt(…, 10, 32) saturate at the largest int and int32; primary
   * when the line says so or the origin is 0,0.
   */
  function EntryOf(line: string, g: Geometry): (d: Display)
    ensures d.primary <==> IsPrimaryDisplay(line) || (g.x == 0 && g.y == 0)
    ensures g.x <= MaxInt32 && g.y <= MaxInt32 && g.width <= MaxInt64 && g.height <= MaxInt64 ==>
      d.x == g.x && d.y == g.y && d.width == g.width && d.height == g.height
  {
    var x, y := Min(g.x, MaxInt32), Min(g.y, MaxInt32);
    Display(x, y, Min(g.width, MaxInt64), Min(g.height, MaxInt64), IsPrimaryDisplay(line) || (x == 0 && y == 0))
  }

  /** A match of \d+\.\d+\*\+ whose `*+` is at j. */
  predicate RefreshTokenAt(line: string, j: int)
    requires 0 <= j < |line| - 1
  {
    line[j] == '*' && line[j + 1] == '+' &&
    exists k | 1 <= k < j - 1 :: line[k] == '.' && IsDigit(line[k - 1]) && AllDigits(line[k + 1..j])
  }

  predicate HasRefreshToken(line: string) {
    exists j | 0 <= j < |line| - 1 :: RefreshTokenAt(line, j)
  }

  /** The loop's state: the display waiting for its mode line, and the displays so far. */
  datatype ParseState = ParseState(current: Option<Display>, displays: seq<Display>)

  /** One iteration of extractDisplaysFromXrandrOutput's loop. */
  function ParseLine(st: ParseState, line: string): (next: ParseState)
    ensures next.displays == st.displays || (st.current.Some? && next.displays == st.displays + [st.current.value])
    ensures next.current.Some? ==> next.current == st.current || Announces(line, next.current.value)
  {
    if IsDisplayDetails(line) then
      var g := FindGeometry(line, 0);
      if g.Some? then st.(current := Some(EntryOf(line, g.value))) else st
    else if st.current.Some? && Contains(line, "*+") && HasRefreshToken(line) then
      ParseState(None, st.displays + [st.current.value])
    else st
  }

  function ParseLines(lines: seq<string>): ParseState {
    if |lines| == 0 then ParseState(None, [])
    else ParseLine(ParseLines(lines[..|lines| - 1]), lines[|lines| - 1])
  }

  /** strings.Split(s, "\n"): the pieces between newlines, always at least one. */
  function SplitLines(s: string): (lines: seq<string>)
    ensures |lines| >= 1
    ensures forall i | 0 <= i < |lines| :: '\n' !in lines[i]
  {
    if |s| == 0 then [""]
    else
      var prev := SplitLines(s[..|s| - 1]);
      var c := s[|s| - 1];
      if c == '\n' then prev + [""]
      else prev[..|prev| - 1] + [prev[|prev| - 1] + [c]]
  }

  /** strings.Join(lines, "\n"). */
  function JoinLines(lines: seq<string>): string
    requires |lines| >= 1
  {
    if |lines| == 1 then lines[0] else JoinLines(lines[..|lines| - 1]) + "\n" + lines[|lines| - 1]
  }

  /** Splitting loses nothing: joining the lines with newlines gives the output back. */
  lemma {:induction false} SplitLinesJoin(s: string)
    ensures JoinLines(SplitLines(s)) == s
  {
    if |s| > 0 {
      var prev := SplitLines(s[..|s| - 1]);
      SplitLinesJoin(s[..|s| - 1]);
      var c := s[|s| - 1];
      assert s == s[..|s| - 1] + [c];
      if c == '\n' {
        assert SplitLines(s) == prev + [""];
        JoinNewline(prev);
      } else {
        assert SplitLines(s) == prev[..|prev| - 1] + [prev[|prev| - 1] + [c]];
        JoinExtended(prev, c);
      }
    }
  }

  /** Appending an empty line appends one newline. */
  lemma JoinNewline(lines: seq<string>)
    requires |lines| >= 1
    ensures JoinLines(lines + [""]) == JoinLines(lines) + "\n"
  {
    assert (lines + [""])[..|lines|] == lines;
  }

  /** Extending the last line by c extends the join by c. */
  lemma JoinExtended(lines: seq<string>, c: char)
    requires |lines| >= 1
    ensures JoinLines(lines[..|lines| - 1] + [lines[|lines| - 1] + [c]]) == JoinLines(lines) + [c]
  {
    var n := |lines| - 1;
    var ext := lines[..n] + [lines[n] + [c]];
    assert ext[..n] == lines[..n];
    if n > 0 {
      assert lines[..n] + [lines[n]] == lines;
      Assoc(JoinLines(lines[..n]) + "\n", lines[n], [c]);
    }
  }

  /** extractDisplaysFromXrandrOutput: the loop over the output's lines. */
  method ExtractDisplaysFromXrandrOutput(output: string) returns (displays: seq<Display>)
    ensures displays == ParseLines(SplitLines(output)).displays
  {
    var lines := SplitLines(output);
    displays := [];
    var current: Option<Display> := None;
    for i := 0 to |lines|
      invariant ParseState(current, displays) == ParseLines(lines[..i])
    {
      var line := lines[i];
      assert lines[..i + 1][..i] == lines[..i];
      if IsDisplayDetails(line) {
        var g := FindGeometry(line, 0);
        if g.Some? {
          current := Some(EntryOf(line, g.value));
        }
      } else if current.Some? && Contains(line, "*+") {
        if HasRefreshToken(line) {
          displays := displays + [current.value];
          current := None;
        }
      }
    }
    assert lines[..|lines|] == lines;
  }

  /** The display a detail line announces, when it has a geometry token. */
  ghost predicate Announces(line: string, d: Display) {
    IsDisplayDetails(line) && FindGeometry(line, 0).Some? && d == EntryOf(line, FindGeometry(line, 0).value)
  }

  /**
   * Every parsed display, and the one waiting for its mode line, is the
   * one some detail line with a geometry token announces.
   */
  lemma {:induction false} ParsedDisplaysAnnounced(lines: seq<string>)
    ensures forall d | d in ParseLines(lines).displays :: exists l | l in lines :: Announces(l, d)
    ensures ParseLines(lines).current.Some? ==> exists l | l in lines :: Announces(l, ParseLines(lines).current.value)
  {
    if |lines| > 0 {
      var n := |lines| - 1;
      ParsedDisplaysAnnounced(lines[..n]);
      assert forall l | l in lines[..n] :: l in lines;
    }
  }

  /**
   * A detail line with a geometry token followed by a mode line with a
   * refresh token appends the announced display; a mode line with no
   * display pending changes nothing.
   */
  lemma DetailThenModeLine(prefix: seq<string>, detail: string, mode: string)
    requires IsDisplayDetails(detail) && FindGeometry(detail, 0).Some?
    requires !IsDisplayDetails(mode) && Contains(mode, "*+") && HasRefreshToken(mode)
    ensures ParseLines(prefix + [detail, mode]) ==
      ParseState(None, ParseLines(prefix).displays + [EntryOf(detail, FindGeometry(detail, 0).value)])
    ensures ParseLines(prefix).current.None? ==> ParseLines(prefix + [mode]) == ParseLines(prefix)
  {
    assert (prefix + [detail, mode])[..|prefix| + 1] == prefix + [detail];
    assert (prefix + [detail])[..|prefix|] == prefix;
    assert (prefix + [mode])[..|prefix|] == prefix;
  }

  // ---------------------------------------------------------------------
  // The XWD header skip (display_linux.go, extractRawPixelData)
  // ---------------------------------------------------------------------

  const XwdHeaderSize: nat := 100

  /**
   * extractRawPixelData: everything after the 100-byte header, provided
   * there is more than the header and at least w*h*4 bytes follow it.
   */
  function ExtractRawPixelData(xwd: seq<Byte>, width: int, height: int): (r: Result<seq<Byte>, DisplayError>)
    ensures r.Ok? <==> |xwd| > XwdHeaderSize && |xwd| - XwdHeaderSize >= width * height * 4
    ensures r.Ok? ==> xwd == xwd[..XwdHeaderSize] + r.value && |r.value| >= width * height * 4
    ensures |xwd| <= XwdHeaderSize ==> r == Err(XwdTooSmall)
  {
    if |xwd| <= XwdHeaderSize then Err(XwdTooSmall)
    else
      var raw := xwd[XwdHeaderSize..];
      if |raw| < width * height * 4 then Err(XwdInsufficientData) else Ok(raw)
  }
}
