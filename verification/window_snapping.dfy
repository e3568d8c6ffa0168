/** Win32WindowSnappingService: the physical bounds of the native window under the
    cursor, with the DWM frame preferred over the plain window rectangle. */
module WindowSnapping {
  import opened Geometry
  import opened NativeWindows

  /** The OS answers the service asks for: the platform test, `GetCursorPos` (None when
      it fails), `WindowFromPoint` (0 is the null handle), and what the OS reports about
      each window handle. */
  datatype SnapEnvironment = SnapEnvironment(
    isWindows: bool,
    cursor: Option<PixelPoint>,
    windowFromPoint: PixelPoint -> int,
    window: int -> NativeWindow)

  /** The boolean result of `TryGetWindowUnderCursor` and its `out` rectangle. */
  datatype SnapResult = SnapResult(found: bool, rect: PixelRect)

  /** The frame the service measures: the DWM extended frame when that call returns 0,
      otherwise `GetWindowRect`; None when both fail. */
  function SnapFrame(w: NativeWindow): (f: Option<Win32Rect>)
    ensures f.Some? <==> w.dwmResult == 0 || w.windowRect.Some?
    ensures w.dwmResult == 0 ==> f == Some(w.dwmRect)
    ensures w.dwmResult != 0 ==> f == w.windowRect
  {
    if w.dwmResult != 0 then w.windowRect else Some(w.dwmRect)
  }

  /** `TryGetWindowUnderCursor`. */
  function TryGetWindowUnderCursor(env: SnapEnvironment): (r: SnapResult)
    ensures !r.found ==> r.rect == ZeroPixelRect
    ensures r.found <==>
      && env.isWindows && env.cursor.Some?
      && env.windowFromPoint(env.cursor.value) != 0
      && SnapFrame(env.window(env.windowFromPoint(env.cursor.value))).Some?
    ensures r.found ==>
      var frame := SnapFrame(env.window(env.windowFromPoint(env.cursor.value))).value;
      r.rect.x == frame.left && r.rect.y == frame.top
      && r.rect.x + r.rect.width == frame.right && r.rect.y + r.rect.height == frame.bottom
  {
    if !env.isWindows then SnapResult(false, ZeroPixelRect)
    else match env.cursor
      case None => SnapResult(false, ZeroPixelRect)
      case Some(point) =>
        var hwnd := env.windowFromPoint(point);
        if hwnd == 0 then SnapResult(false, ZeroPixelRect)
        else match SnapFrame(env.window(hwnd))
          case None => SnapResult(false, ZeroPixelRect)
          case Some(frame) =>
            SnapResult(true, PixelRect(frame.left, frame.top, frame.right - frame.left, frame.bottom - frame.top))
  }

  /** When the window under the cursor is one the enumeration accepts, the snapped rectangle
      is exactly the `VisualBounds` the enumeration records for it: both prefer the DWM
      frame and fall back to the window rectangle. */
  lemma {:induction false} SnapAgreesWithVisualBounds(env: SnapEnvironment, zOrder: nat)
    requires env.isWindows && env.cursor.Some? && env.windowFromPoint(env.cursor.value) != 0
    requires Accepted(env.window(env.windowFromPoint(env.cursor.value)))
    ensures TryGetWindowUnderCursor(env).found
    ensures TryGetWindowUnderCursor(env).rect
              == TryGetWindowInfo(env.window(env.windowFromPoint(env.cursor.value)), zOrder).value.visualBounds
  {
    var w := env.window(env.windowFromPoint(env.cursor.value));
    var frame := SnapFrame(w).value;
    assert TryGetWindowUnderCursor(env).rect == ToPixelRect(frame);
  }
}
