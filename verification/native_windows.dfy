/** NativeWindowService: which top-level windows are offered for snapping, how they
    are numbered in z-order, and which one lies under a point. Every answer the OS
    gives about a window is a field of `NativeWindow`. */
module NativeWindows {
  import opened Geometry
  import opened Seqs

  /** `WS_VISIBLE` in the window style and `WS_EX_TOOLWINDOW` in the extended style. */
  const WsVisible: bv64 := 0x1000_0000
  const WsExToolWindow: bv64 := 0x80

  /** The largest class name `GetClassName` copies into its 256-character buffer. */
  const ClassNameCapacity: nat := 256

  /** What the OS reports for one window handle, in `EnumWindows` order:
      - `style`, `exStyle`: `GetWindowLong(Ptr)` for GWL_STYLE / GWL_EXSTYLE;
      - `isVisible`: `IsWindowVisible`; `isIconic`: `IsIconic`;
      - `textLength`, `text`, `className`: the title length and the texts the window holds;
      - `windowRect`: `GetWindowRect` (None when it fails);
      - `dwmResult`, `dwmRect`: `DwmGetWindowAttribute(EXTENDED_FRAME_BOUNDS)`. */
  datatype NativeWindow = NativeWindow(
    handle: int,
    style: bv64,
    exStyle: bv64,
    isVisible: bool,
    textLength: nat,
    text: string,
    className: string,
    windowRect: Option<Win32Rect>,
    dwmResult: int,
    dwmRect: Win32Rect,
    isIconic: bool)

  /** The record the service hands out. */
  datatype WindowInfo = WindowInfo(
    handle: int,
    title: string,
    className: string,
    bounds: PixelRect,
    visualBounds: PixelRect,
    isMinimized: bool,
    zOrder: nat)

  /** The acceptance filter, stated on the OS answers: visible style bit, no tool-window
      bit, `IsWindowVisible`, and a window rectangle of positive width and height.
      Minimized windows are not excluded. */
  predicate Accepted(w: NativeWindow)
  {
    && w.style & WsVisible != 0
    && w.exStyle & WsExToolWindow == 0
    && w.isVisible
    && w.windowRect.Some?
    && w.windowRect.value.right - w.windowRect.value.left > 0
    && w.windowRect.value.bottom - w.windowRect.value.top > 0
  }

  /** `GetWindowRect(hWnd)` as a pixel rectangle, or None when the call fails. */
  function WindowBounds(w: NativeWindow): (r: Option<PixelRect>)
    ensures r.Some? <==> w.windowRect.Some?
    ensures r.Some? ==> r.value.x == w.windowRect.value.left && r.value.y == w.windowRect.value.top
    ensures r.Some? ==> r.value.width == w.windowRect.value.right - w.windowRect.value.left
    ensures r.Some? ==> r.value.height == w.windowRect.value.bottom - w.windowRect.value.top
  {
    match w.windowRect
    case None => None
    case Some(rect) => Some(ToPixelRect(rect))
  }

  /** `GetExtendedFrameBounds`: the DWM frame only when the call returns exactly 0. */
  function ExtendedFrameBounds(w: NativeWindow): (r: Option<PixelRect>)
    ensures r.Some? <==> w.dwmResult == 0
    ensures r.Some? ==> r.value == ToPixelRect(w.dwmRect)
  {
    if w.dwmResult != 0 then None else Some(ToPixelRect(w.dwmRect))
  }

  function Min(a: int, b: int): int { if a <= b then a else b }

  /** `GetWindowTitle`: empty when the reported length is 0, otherwise what
      `GetWindowText` copies into a buffer of `length + 1` characters. */
  function Title(w: NativeWindow): (t: string)
    ensures w.textLength == 0 ==> t == ""
    ensures |t| <= w.textLength && t <= w.text
    ensures 0 < w.textLength ==> |t| == w.textLength || t == w.text
  {
    if w.textLength == 0 then ""
    else w.text[..Min(|w.text|, w.textLength)]
  }

  /** `GetClassName` into a 256-character buffer: at most 255 characters survive. */
  function ClassName(w: NativeWindow): (c: string)
    ensures |c| < ClassNameCapacity && c <= w.className
    ensures |w.className| < ClassNameCapacity ==> c == w.className
    ensures |w.className| >= ClassNameCapacity ==> c == w.className[..ClassNameCapacity - 1]
  {
    w.className[..Min(|w.className|, ClassNameCapacity - 1)]
  }

  /** `TryGetWindowInfo(hWnd, zOrder)`. */
  function TryGetWindowInfo(w: NativeWindow, zOrder: nat): (r: Option<WindowInfo>)
    ensures r.Some? <==> Accepted(w)
    ensures r.Some? ==>
      && r.value.handle == w.handle && r.value.zOrder == zOrder
      && r.value.isMinimized == w.isIconic
      && Some(r.value.bounds) == WindowBounds(w)
      && r.value.bounds.width > 0 && r.value.bounds.height > 0
      && r.value.visualBounds == (if w.dwmResult == 0 then ToPixelRect(w.dwmRect) else r.value.bounds)
      && r.value.title == Title(w) && r.value.className == ClassName(w)
  {
    if w.style & WsVisible == 0 then None
    else if w.exStyle & WsExToolWindow != 0 then None
    else if !w.isVisible then None
    else
      var title := Title(w);
      var className := ClassName(w);
      match WindowBounds(w)
      case None => None
      case Some(bounds) =>
        if bounds.width <= 0 || bounds.height <= 0 then None
        else
          var visualBounds := match ExtendedFrameBounds(w) case Some(b) => b case None => bounds;
          Some(WindowInfo(w.handle, title, className, bounds, visualBounds, w.isIconic, zOrder))
  }

  /** Minimization neither admits nor rejects a window; it is only recorded. */
  lemma MinimizedNotFiltered(w: NativeWindow, z: nat)
    ensures Accepted(w) <==> Accepted(w.(isIconic := !w.isIconic))
    ensures TryGetWindowInfo(w, z).Some? ==> TryGetWindowInfo(w, z).value.isMinimized == w.isIconic
  {
  }

  /** The windows the filter admits, in enumeration order. */
  function AcceptedWindows(ws: seq<NativeWindow>): (r: seq<NativeWindow>)
    ensures |r| <= |ws|
    ensures forall i :: 0 <= i < |r| ==> Accepted(r[i])
  {
    if |ws| == 0 then []
    else if Accepted(ws[0]) then [ws[0]] + AcceptedWindows(ws[1..])
    else AcceptedWindows(ws[1..])
  }

  /** The filter drops exactly the windows it does not accept: a window is kept iff it
      was enumerated and is accepted. */
  lemma {:induction false} AcceptedWindowsExactly(ws: seq<NativeWindow>)
    ensures forall w :: w in AcceptedWindows(ws) <==> w in ws && Accepted(w)
    decreases |ws|
  {
    if |ws| > 0 {
      AcceptedWindowsExactly(ws[1..]);
      assert ws == [ws[0]] + ws[1..];
    }
  }

  /** The `EnumWindows` callback run over the remaining windows: the earlier results are
      kept and every accepted window is appended with `ZOrder` equal to the number of
      results before it. */
  function EnumerateFrom(ws: seq<NativeWindow>, results: seq<WindowInfo>): (r: seq<WindowInfo>)
    ensures |r| == |results| + |AcceptedWindows(ws)|
    ensures r[..|results|] == results
    ensures forall k :: |results| <= k < |r| ==> r[k].zOrder == k
    decreases |ws|
  {
    if |ws| == 0 then results
    else match TryGetWindowInfo(ws[0], |results|)
      case Some(info) =>
        var r := EnumerateFrom(ws[1..], results + [info]);
        assert AcceptedWindows(ws) == [ws[0]] + AcceptedWindows(ws[1..]);
        assert r[..|results|] == (results + [info])[..|results|];
        assert r[|results|] == (results + [info])[|results|];
        r
      case None => EnumerateFrom(ws[1..], results)
  }

  /** Each record the callback appends is the one `TryGetWindowInfo` builds for the
      corresponding accepted window, numbered by its position. */
  lemma {:induction false} EnumerateFromRecords(ws: seq<NativeWindow>, results: seq<WindowInfo>)
    ensures forall k :: 0 <= k < |AcceptedWindows(ws)| ==>
              Some(EnumerateFrom(ws, results)[|results| + k]) == TryGetWindowInfo(AcceptedWindows(ws)[k], |results| + k)
    decreases |ws|
  {
    if |ws| > 0 {
      match TryGetWindowInfo(ws[0], |results|)
      case Some(info) =>
        EnumerateFromRecords(ws[1..], results + [info]);
        AppendedRecords(ws, results, info);
      case None =>
        EnumerateFromRecords(ws[1..], results);
    }
  }

  /** The inductive step of `EnumerateFromRecords` for an accepted first window. */
  lemma {:induction false} AppendedRecords(ws: seq<NativeWindow>, results: seq<WindowInfo>, info: WindowInfo)
    requires |ws| > 0 && TryGetWindowInfo(ws[0], |results|) == Some(info)
    requires forall k :: 0 <= k < |AcceptedWindows(ws[1..])| ==>
               Some(EnumerateFrom(ws[1..], results + [info])[|results| + 1 + k])
                 == TryGetWindowInfo(AcceptedWindows(ws[1..])[k], |results| + 1 + k)
    ensures forall k :: 0 <= k < |AcceptedWindows(ws)| ==>
              Some(EnumerateFrom(ws, results)[|results| + k]) == TryGetWindowInfo(AcceptedWindows(ws)[k], |results| + k)
  {
    var rest := results + [info];
    var r := EnumerateFrom(ws[1..], rest);
    assert EnumerateFrom(ws, results) == r;
    var acc := AcceptedWindows(ws);
    assert acc == [ws[0]] + AcceptedWindows(ws[1..]);
    forall k | 0 <= k < |acc|
      ensures Some(r[|results| + k]) == TryGetWindowInfo(acc[k], |results| + k)
    {
      if k == 0 {
        assert r[..|rest|] == rest;
        assert r[|results|] == rest[|results|];
      } else {
        assert acc[k] == AcceptedWindows(ws[1..])[k - 1];
        assert |results| + k == |results| + 1 + (k - 1);
      }
    }
  }

  /** `EnumerateWindows` (and `EnumerateVisibleWindows`, which returns the same list):
      one record per accepted window, numbered 0, 1, 2, ... */
  function EnumerateWindows(ws: seq<NativeWindow>): (r: seq<WindowInfo>)
    ensures |r| == |AcceptedWindows(ws)|
    ensures forall k :: 0 <= k < |r| ==> r[k].zOrder == k
  {
    EnumerateFrom(ws, [])
  }

  /** The k-th enumerated record is what `TryGetWindowInfo` makes of the k-th accepted
      window with z-order k: the accepted windows in enumeration order. */
  lemma EnumerateWindowsRecords(ws: seq<NativeWindow>)
    ensures forall k :: 0 <= k < |EnumerateWindows(ws)| ==>
              && EnumerateWindows(ws)[k].handle == AcceptedWindows(ws)[k].handle
              && Some(EnumerateWindows(ws)[k]) == TryGetWindowInfo(AcceptedWindows(ws)[k], k)
  {
    var none: seq<WindowInfo> := [];
    EnumerateFromRecords(ws, none);
    forall k | 0 <= k < |EnumerateWindows(ws)|
      ensures Some(EnumerateWindows(ws)[k]) == TryGetWindowInfo(AcceptedWindows(ws)[k], k)
    {
      assert Some(EnumerateFrom(ws, none)[|none| + k]) == TryGetWindowInfo(AcceptedWindows(ws)[k], |none| + k);
    }
  }

  /** The first record, in list order, whose snap bounds contain the point. On a list
      numbered 0, 1, 2, ... the record's z-order is its position. */
  function FirstContaining(es: seq<WindowInfo>, p: PixelPoint, snapContains: (WindowInfo, PixelPoint) -> bool)
    : (r: Option<WindowInfo>)
    requires forall k :: 0 <= k < |es| ==> es[k].zOrder == k
    ensures r.None? <==> forall k :: 0 <= k < |es| ==> !snapContains(es[k], p)
    ensures r.Some? ==>
      && r.value.zOrder < |es| && es[r.value.zOrder] == r.value && snapContains(r.value, p)
      && forall j :: 0 <= j < r.value.zOrder ==> !snapContains(es[j], p)
  {
    match FirstIndex(es, (info: WindowInfo) => snapContains(info, p))
    case None => None
    case Some(k) => Some(es[k])
  }

  /** `GetWindowAtPoint`: the first enumerated window whose snap bounds contain the point,
      or None when none does (a found window is a hit, so the two cases are exact); the
      window found sits at the position its z-order names. `snapContains`
      is `WindowInfo.SnapBounds.Contains`, taken as given. */
  function WindowAtPoint(ws: seq<NativeWindow>, p: PixelPoint, snapContains: (WindowInfo, PixelPoint) -> bool)
    : (r: Option<WindowInfo>)
    ensures r.None? ==> forall k :: 0 <= k < |EnumerateWindows(ws)| ==> !snapContains(EnumerateWindows(ws)[k], p)
    ensures r.Some? ==>
      && r.value.zOrder < |EnumerateWindows(ws)| && EnumerateWindows(ws)[r.value.zOrder] == r.value
      && snapContains(r.value, p)
      && forall j :: 0 <= j < r.value.zOrder ==> !snapContains(EnumerateWindows(ws)[j], p)
  {
    FirstContaining(EnumerateWindows(ws), p, snapContains)
  }
}
