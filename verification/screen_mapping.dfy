/** ScreenMappingService: per-screen snapshots and the conversions between
    physical device pixels of the virtual desktop and screen-relative logical
    pixels (physical divided by the screen's DPI scale). */
module ScreenMapping {
  import opened Geometry
  import opened Seqs

  /** A toolkit screen. `id` stands for the object's identity, which the source
      compares with `==`; `scaling` is the toolkit's own scale factor. */
  datatype Screen = Screen(id: nat, bounds: PixelRect, scaling: PosReal)

  /** `ScreenSnapshot(Screen, PhysicalBounds, LogicalBounds, Scaling)`. */
  datatype Snapshot = Snapshot(screen: Screen, physicalBounds: PixelRect, logicalBounds: Rect, scaling: PosReal)

  /** A DPI value a successful `GetDpiForMonitor` reports. */
  type Dpi = d: int | d > 0 witness 96

  /** The OS's answer to `GetDpiForMonitor`: an HRESULT and the horizontal DPI. */
  datatype DpiAnswer = DpiAnswer(hresult: int, dpiX: Dpi)

  /** Everything the DPI query asks the OS, as inputs: the platform test,
      whether the interop call throws (missing DLL or entry point),
      `MonitorFromPoint` (0 is the null handle) and `GetDpiForMonitor`. */
  datatype DpiEnvironment = DpiEnvironment(
    isWindows: bool,
    interopThrows: bool,
    monitorFromPoint: PixelPoint -> int,
    getDpiForMonitor: int -> DpiAnswer)

  /** `HRESULT.Succeeded`: every non-negative code counts as success. */
  predicate Succeeded(hresult: int) { hresult >= 0 }

  /** The point whose monitor is asked for its DPI: the centre of the bounds,
      halving the size with C#'s truncating integer division. */
  function DpiQueryPoint(b: PixelRect): (c: PixelPoint)
    ensures b.width >= 0 ==> b.x <= c.x <= b.x + b.width
    ensures b.height >= 0 ==> b.y <= c.y <= b.y + b.height
    ensures -1 <= 2 * (c.x - b.x) - b.width <= 1 && -1 <= 2 * (c.y - b.y) - b.height <= 1
    ensures b.width >= 0 ==> 0 <= 2 * (c.x - b.x) <= b.width
    ensures b.width < 0 ==> b.width <= 2 * (c.x - b.x) <= 0
    ensures b.height >= 0 ==> 0 <= 2 * (c.y - b.y) <= b.height
    ensures b.height < 0 ==> b.height <= 2 * (c.y - b.y) <= 0
  {
    PixelPoint(b.x + HalfTowardZero(b.width), b.y + HalfTowardZero(b.height))
  }

  /** `TryGetDpiForMonitor`: Some(dpi) exactly when the call returns true. */
  function TryGetDpiForMonitor(b: PixelRect, env: DpiEnvironment): (r: Option<Dpi>)
    ensures r.Some? <==>
      (env.isWindows && !env.interopThrows
       && env.monitorFromPoint(DpiQueryPoint(b)) != 0
       && Succeeded(env.getDpiForMonitor(env.monitorFromPoint(DpiQueryPoint(b))).hresult))
    ensures r.Some? ==> r.value == env.getDpiForMonitor(env.monitorFromPoint(DpiQueryPoint(b))).dpiX
  {
    if !env.isWindows || env.interopThrows then None
    else
      var monitor := env.monitorFromPoint(DpiQueryPoint(b));
      if monitor != 0 && Succeeded(env.getDpiForMonitor(monitor).hresult)
      then Some(env.getDpiForMonitor(monitor).dpiX)
      else None
  }

  /** `GetScalingForScreen`: dpi/96 when the DPI query succeeds, else the toolkit's scaling. */
  function ScalingForScreen(s: Screen, env: DpiEnvironment): (r: PosReal)
    ensures TryGetDpiForMonitor(s.bounds, env).Some? ==>
              r * 96.0 == TryGetDpiForMonitor(s.bounds, env).value as real
    ensures TryGetDpiForMonitor(s.bounds, env).None? ==> r == s.scaling
  {
    if env.isWindows then
      match TryGetDpiForMonitor(s.bounds, env)
      case Some(dpi) => dpi as real / 96.0
      case None => s.scaling
    else s.scaling
  }

  /** The logical bounds are the physical bounds with every component divided by the
      scale; `LogicalLength` guarantees each one times the scale is the physical value. */
  predicate LogicalIsScaled(snap: Snapshot)
  {
    && snap.logicalBounds.x == LogicalLength(snap.physicalBounds.x, snap.scaling)
    && snap.logicalBounds.y == LogicalLength(snap.physicalBounds.y, snap.scaling)
    && snap.logicalBounds.width == LogicalLength(snap.physicalBounds.width, snap.scaling)
    && snap.logicalBounds.height == LogicalLength(snap.physicalBounds.height, snap.scaling)
  }

  /** The snapshot the constructor builds for one screen. */
  function SnapshotOf(s: Screen, env: DpiEnvironment): (snap: Snapshot)
    ensures snap.screen == s && snap.physicalBounds == s.bounds
    ensures snap.scaling == ScalingForScreen(s, env)
    ensures LogicalIsScaled(snap)
  {
    var scaling := ScalingForScreen(s, env);
    var physical := s.bounds;
    Snapshot(s, physical,
      Rect(LogicalLength(physical.x, scaling), LogicalLength(physical.y, scaling),
           LogicalLength(physical.width, scaling), LogicalLength(physical.height, scaling)),
      scaling)
  }

  /** The constructor: one snapshot per screen, in the screens' order. */
  function Snapshots(screens: seq<Screen>, env: DpiEnvironment): (r: seq<Snapshot>)
    ensures |r| == |screens|
    ensures forall i :: 0 <= i < |r| ==>
              r[i].screen == screens[i] && r[i].physicalBounds == screens[i].bounds
              && r[i].scaling == ScalingForScreen(screens[i], env) && LogicalIsScaled(r[i])
  {
    if |screens| == 0 then []
    else [SnapshotOf(screens[0], env)] + Snapshots(screens[1..], env)
  }

  /** `_screens.First(s => s.Screen == screen)`; None is the InvalidOperationException. */
  function FindSnapshot(snaps: seq<Snapshot>, screen: Screen): (r: Option<Snapshot>)
    ensures r.None? <==> forall i :: 0 <= i < |snaps| ==> snaps[i].screen != screen
    ensures r.Some? ==> r.value.screen == screen
    ensures r.Some? ==> exists k :: 0 <= k < |snaps| && snaps[k] == r.value
                           && forall j :: 0 <= j < k ==> snaps[j].screen != screen
  {
    FirstWhere(snaps, (s: Snapshot) => s.screen == screen)
  }

  /** `GetScreenForLogicalPoint`: the first snapshot whose logical bounds contain the
      point, else the first snapshot; None when there are no screens (`First` throws).
      `contains` is Avalonia's `Rect.Contains`, taken as given. */
  function ScreenForLogicalPoint(snaps: seq<Snapshot>, p: Point, contains: (Rect, Point) -> bool)
    : (r: Option<Snapshot>)
    ensures r.None? <==> |snaps| == 0
    ensures (exists i :: 0 <= i < |snaps| && contains(snaps[i].logicalBounds, p)) ==>
              exists k :: 0 <= k < |snaps| && r == Some(snaps[k])
                && contains(snaps[k].logicalBounds, p)
                && forall j :: 0 <= j < k ==> !contains(snaps[j].logicalBounds, p)
    ensures |snaps| > 0 && (forall i :: 0 <= i < |snaps| ==> !contains(snaps[i].logicalBounds, p)) ==>
              r == Some(snaps[0])
  {
    match FirstWhere(snaps, (s: Snapshot) => contains(s.logicalBounds, p))
    case Some(s) => Some(s)
    case None => if |snaps| == 0 then None else Some(snaps[0])
  }

  /** An integer pixel count within half a pixel of an exact length. */
  predicate NearestPixel(n: int, x: real)
  {
    -0.5 <= n as real - x <= 0.5
  }

  /** One logical length in physical pixels: `(int)Math.Round(v * scaling)`. */
  function PhysicalLength(v: real, s: PosReal): (n: int)
    ensures NearestPixel(n, v * s)
  {
    RoundHalfEven(v * s)
  }

  /** One physical length in logical pixels: `v / scaling`. */
  function LogicalLength(a: int, s: PosReal): (v: real)
    ensures v * s == a as real
  {
    DivMulCancel(a, s);
    a as real / s
  }

  lemma DivMulCancel(a: int, s: PosReal)
    ensures (a as real / s) * s == a as real
  {
  }

  /** Dividing by the scale and then scaling and rounding gives back the integer. */
  lemma PhysicalLengthRoundTrip(a: int, s: PosReal)
    ensures PhysicalLength(LogicalLength(a, s), s) == a
  {
    RoundHalfEvenOfInt(a);
  }

  /** Two logical lengths differ by at most half a physical pixel at scale `s`. */
  predicate WithinHalfPixel(a: real, b: real, s: PosReal)
  {
    -0.5 <= (a - b) * s <= 0.5
  }

  /** Scaling, rounding and dividing again moves a length by at most half a physical pixel. */
  lemma LogicalLengthError(v: real, s: PosReal)
    ensures WithinHalfPixel(LogicalLength(PhysicalLength(v, s), s), v, s)
  {
    var back := LogicalLength(PhysicalLength(v, s), s);
    assert (back - v) * s == back * s - v * s;
  }

  /** The arithmetic shared by `ToPhysicalBounds` and `LogicalToVirtualPhysical`:
      the position is scaled, rounded and offset by the screen's physical origin;
      the size is scaled and rounded with no offset. */
  function ScaleToPhysical(logical: Rect, snap: Snapshot): (r: PixelRect)
    ensures NearestPixel(r.x - snap.physicalBounds.x, logical.x * snap.scaling)
    ensures NearestPixel(r.y - snap.physicalBounds.y, logical.y * snap.scaling)
    ensures NearestPixel(r.width, logical.width * snap.scaling)
    ensures NearestPixel(r.height, logical.height * snap.scaling)
  {
    PixelRect(
      snap.physicalBounds.x + PhysicalLength(logical.x, snap.scaling),
      snap.physicalBounds.y + PhysicalLength(logical.y, snap.scaling),
      PhysicalLength(logical.width, snap.scaling),
      PhysicalLength(logical.height, snap.scaling))
  }

  /** The arithmetic of `ToLogicalRect`: subtract the screen's physical origin from the
      position and divide every component by the scale. */
  function ScaleToLogical(physical: PixelRect, snap: Snapshot): (r: Rect)
    ensures r.x * snap.scaling + snap.physicalBounds.x as real == physical.x as real
    ensures r.y * snap.scaling + snap.physicalBounds.y as real == physical.y as real
    ensures r.width * snap.scaling == physical.width as real
    ensures r.height * snap.scaling == physical.height as real
  {
    Rect(
      LogicalLength(physical.x - snap.physicalBounds.x, snap.scaling),
      LogicalLength(physical.y - snap.physicalBounds.y, snap.scaling),
      LogicalLength(physical.width, snap.scaling),
      LogicalLength(physical.height, snap.scaling))
  }

  /** `ToPhysicalBounds`: screen-relative logical pixels to virtual-desktop physical pixels. */
  function ToPhysicalBounds(logical: Rect, screen: Screen, snaps: seq<Snapshot>): (r: Option<PixelRect>)
    ensures r.None? <==> forall i :: 0 <= i < |snaps| ==> snaps[i].screen != screen
    ensures r.Some? ==> r.value == ScaleToPhysical(logical, FindSnapshot(snaps, screen).value)
  {
    match FindSnapshot(snaps, screen)
    case None => None
    case Some(snap) => Some(ScaleToPhysical(logical, snap))
  }

  /** `ToLogicalRect`: virtual-desktop physical pixels to screen-relative logical pixels. */
  function ToLogicalRect(physical: PixelRect, screen: Screen, snaps: seq<Snapshot>): (r: Option<Rect>)
    ensures r.None? <==> forall i :: 0 <= i < |snaps| ==> snaps[i].screen != screen
    ensures r.Some? ==> r.value == ScaleToLogical(physical, FindSnapshot(snaps, screen).value)
  {
    match FindSnapshot(snaps, screen)
    case None => None
    case Some(snap) => Some(ScaleToLogical(physical, snap))
  }

  /** `LogicalToVirtualPhysical`: written out a second time in the source with the same
      arithmetic, and therefore the same answer as `ToPhysicalBounds` on every input. */
  function LogicalToVirtualPhysical(logical: Rect, screen: Screen, snaps: seq<Snapshot>): (r: Option<PixelRect>)
    ensures r == ToPhysicalBounds(logical, screen, snaps)
  {
    match FindSnapshot(snaps, screen)
    case None => None
    case Some(snap) => Some(ScaleToPhysical(logical, snap))
  }

  /** Physical -> logical -> physical is the identity on every integer rectangle:
      the division is undone exactly and rounding an integer changes nothing. */
  lemma {:induction false} PhysicalRoundTrip(p: PixelRect, screen: Screen, snaps: seq<Snapshot>)
    requires exists i :: 0 <= i < |snaps| && snaps[i].screen == screen
    ensures ToLogicalRect(p, screen, snaps).Some?
    ensures ToPhysicalBounds(ToLogicalRect(p, screen, snaps).value, screen, snaps) == Some(p)
  {
    var snap := FindSnapshot(snaps, screen).value;
    var o := snap.physicalBounds;
    PhysicalLengthRoundTrip(p.x - o.x, snap.scaling);
    PhysicalLengthRoundTrip(p.y - o.y, snap.scaling);
    PhysicalLengthRoundTrip(p.width, snap.scaling);
    PhysicalLengthRoundTrip(p.height, snap.scaling);
  }

  /** Logical -> physical -> logical moves every component by at most half a
      physical pixel, i.e. at most 0.5 / scale logical pixels. */
  lemma {:induction false} LogicalRoundTripError(l: Rect, screen: Screen, snaps: seq<Snapshot>)
    requires exists i :: 0 <= i < |snaps| && snaps[i].screen == screen
    ensures ToPhysicalBounds(l, screen, snaps).Some?
    ensures
      var back := ToLogicalRect(ToPhysicalBounds(l, screen, snaps).value, screen, snaps).value;
      var s := FindSnapshot(snaps, screen).value.scaling;
      && WithinHalfPixel(back.x, l.x, s) && WithinHalfPixel(back.y, l.y, s)
      && WithinHalfPixel(back.width, l.width, s) && WithinHalfPixel(back.height, l.height, s)
  {
    var snap := FindSnapshot(snaps, screen).value;
    var o := snap.physicalBounds;
    var s := snap.scaling;
    var p := ScaleToPhysical(l, snap);
    var back := ScaleToLogical(p, snap);
    assert ToLogicalRect(ToPhysicalBounds(l, screen, snaps).value, screen, snaps).value == back;
    assert back.x == LogicalLength(PhysicalLength(l.x, s), s) by { assert p.x - o.x == PhysicalLength(l.x, s); }
    assert back.y == LogicalLength(PhysicalLength(l.y, s), s) by { assert p.y - o.y == PhysicalLength(l.y, s); }
    assert back.width == LogicalLength(PhysicalLength(l.width, s), s);
    assert back.height == LogicalLength(PhysicalLength(l.height, s), s);
    LogicalLengthError(l.x, s);
    LogicalLengthError(l.y, s);
    LogicalLengthError(l.width, s);
    LogicalLengthError(l.height, s);
  }

  /** Equal multiples of a positive scale have equal factors. */
  lemma MulCancel(a: real, b: real, s: PosReal)
    requires a * s == b * s
    ensures a == b
  {
    assert (a - b) * s == 0.0;
  }

  /** A screen's own physical bounds map to the logical rectangle at (0, 0) whose size
      is the physical size divided by the scale. */
  lemma {:induction false} OwnBoundsAtLogicalOrigin(screen: Screen, snaps: seq<Snapshot>)
    requires exists i :: 0 <= i < |snaps| && snaps[i].screen == screen
    ensures
      var snap := FindSnapshot(snaps, screen).value;
      var l := ToLogicalRect(snap.physicalBounds, screen, snaps).value;
      && l.x == 0.0 && l.y == 0.0
      && l.width * snap.scaling == snap.physicalBounds.width as real
      && l.height * snap.scaling == snap.physicalBounds.height as real
  {
    var snap := FindSnapshot(snaps, screen).value;
    var l := ToLogicalRect(snap.physicalBounds, screen, snaps).value;
    MulCancel(l.x, 0.0, snap.scaling);
    MulCancel(l.y, 0.0, snap.scaling);
  }

  /** A consistent snapshot's own bounds become its logical size, placed at (0, 0). */
  lemma OwnBoundsOfScaledSnapshot(snap: Snapshot)
    requires LogicalIsScaled(snap)
    ensures ScaleToLogical(snap.physicalBounds, snap)
              == Rect(0.0, 0.0, snap.logicalBounds.width, snap.logicalBounds.height)
  {
    var l := ScaleToLogical(snap.physicalBounds, snap);
    MulCancel(l.x, 0.0, snap.scaling);
    MulCancel(l.y, 0.0, snap.scaling);
    MulCancel(l.width, snap.logicalBounds.width, snap.scaling);
    MulCancel(l.height, snap.logicalBounds.height, snap.scaling);
  }

  /** For snapshots built by the constructor, that logical rectangle has exactly the
      size of the snapshot's `LogicalBounds`. */
  lemma {:induction false} OwnBoundsMatchLogicalSize(screens: seq<Screen>, env: DpiEnvironment, screen: Screen)
    requires screen in screens
    ensures
      var snaps := Snapshots(screens, env);
      var snap := FindSnapshot(snaps, screen).value;
      ToLogicalRect(snap.physicalBounds, screen, snaps)
        == Some(Rect(0.0, 0.0, snap.logicalBounds.width, snap.logicalBounds.height))
  {
    var snaps := Snapshots(screens, env);
    var i :| 0 <= i < |screens| && screens[i] == screen;
    assert snaps[i].screen == screen;
    var snap := FindSnapshot(snaps, screen).value;
    var k :| 0 <= k < |snaps| && snaps[k] == snap;
    OwnBoundsOfScaledSnapshot(snap);
  }
}
