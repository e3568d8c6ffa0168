# Region capture overlay — a Dafny model

This project models the geometry and decision logic of the XerahS region picker. When a capture starts,
a transparent overlay window opens on every monitor. The user drags a rectangle, or hovers a native window
to snap to it. The chosen region is returned to the host in physical pixels of the virtual desktop.

The model has one module per source class, plus two small shared modules:

- `Geometry` holds the shared value types: `PixelRect`, `Rect`, `Point` and the Win32 `RECT`.
  - It also models .NET `Math.Round` as round-half-to-even on reals.
  - It models C#'s truncating `int / 2`.
- `Seqs` models LINQ's `First`/`FirstOrDefault` as "index of the first match".
- `ScreenMapping` (ScreenMappingService) covers:
  - per-screen snapshots;
  - the scale with its DPI query and fallback;
  - the physical↔logical conversions;
  - the screen for a logical point.
- `OverlayViewModel` (RegionCaptureOverlayViewModel) covers:
  - the selection, hover, state and overlay size;
  - the even-odd "hole" geometry.

  Every setter returns the `PropertyChanged` notifications it raises.
- `OverlayWindow` (RegionCaptureOverlayWindow) is the per-screen overlay as a transition system over pointer press, move and release, key presses and client-size changes. A handler returns the new overlay and what it raised: `Confirmed(rect)`, `Canceled`, or `Threw` when a conversion throws.
- `CaptureController` (RegionCaptureController) opens one overlay per snapshot. It completes the pending result with the first confirm or cancel. Then it closes and detaches every overlay.
- `NativeWindows` (NativeWindowService) covers:
  - the window acceptance filter;
  - z-order numbering;
  - title and class-name reading;
  - visual-bounds fallback;
  - first-hit lookup.
- `NativeMonitors` (NativeMonitorService) covers:
  - skip-on-failure monitor enumeration;
  - `MONITORINFOEX` decoding;
  - the cursor fallback chain.
- `WindowSnapping` (Win32WindowSnappingService) finds the window under the cursor. It prefers the DWM frame and falls back to `GetWindowRect`.

Every answer the operating system or the toolkit gives is an input:

- style bits, RECTs, HRESULTs, DPI values, the cursor, window-at-point, the platform test;
- `Rect.Contains` and `WindowInfo.SnapBounds.Contains`, which are passed as given predicates.

Logical coordinates and scale factors are exact reals, and a scale factor is a positive real.

## Model

| member | source | states |
|---|---|---|
| `Geometry.ToPixelRect` | src/RegionCapture/Platform/Windows/NativeWindowService.cs:98-103 | A RECT becomes (Left, Top, Right−Left, Bottom−Top): the left and top edges are kept and right/bottom are recovered as position plus size |
| `Geometry.ToPixelRectInjective` | src/RegionCapture/Platform/Windows/NativeWindowService.cs:163-173 | The RECT→PixelRect conversion loses nothing: two RECTs convert equally iff they are equal |
| `Geometry.RoundHalfEven` | src/RegionCapture/Services/ScreenMappingService.cs:47-50 | `Math.Round` lands within half a unit of its argument, and on a tie it picks the even neighbour |
| `Geometry.RoundHalfEvenNearest` | src/RegionCapture/Services/ScreenMappingService.cs:47-50 | Without a tie, the rounding is the unique integer closer than one half |
| `Geometry.RoundHalfEvenOfInt` | src/RegionCapture/Services/ScreenMappingService.cs:47-50 | Rounding an integral value returns it unchanged |
| `Geometry.HalfTowardZero` | src/RegionCapture/Services/ScreenMappingService.cs:96-100 | C# `Width / 2` is within one of half the width, on the side of zero |
| `Geometry.HalfTowardZeroDiffersFromFloor` | src/RegionCapture/Services/ScreenMappingService.cs:98-99 | For every negative odd size, truncating halving is one more than floor halving (−3 gives −1, not −2); on every other size the two agree |
| `Geometry.RectFromCorners` | src/RegionCapture/ViewModels/RegionCaptureOverlayViewModel.cs:101 | `new Rect(p1, p2)` has p1 as its top-left and p2 as its bottom-right corner |
| `Geometry.RectAt` | src/RegionCapture/ViewModels/RegionCaptureOverlayViewModel.cs:92 | `new Rect(position, size)` has exactly that position and size |
| `Geometry.Translate` | src/RegionCapture/ViewModels/RegionCaptureOverlayViewModel.cs:92 | `Position + delta` moves the point by exactly the vector |
| `Seqs.FirstIndex` | src/RegionCapture/Services/ScreenMappingService.cs:45 | LINQ `First`: the match's index, with no earlier match; None iff no element matches |
| `Seqs.FirstWhere` | src/RegionCapture/Platform/Windows/NativeWindowService.cs:42-49 | The first element satisfying the predicate, or None iff there is none |
| `ScreenMapping.DpiQueryPoint` | src/RegionCapture/Services/ScreenMappingService.cs:96-100 | The DPI is asked at the centre of the bounds: inside them, and off the exact centre by at most half a pixel per axis. The halving truncates toward zero: twice the offset lies between 0 and the size, for either sign of the size |
| `ScreenMapping.TryGetDpiForMonitor` | src/RegionCapture/Services/ScreenMappingService.cs:86-116 | The DPI is reported iff all of: Windows, no interop exception, non-null monitor at the centre point, HRESULT ≥ 0; the value is that monitor's horizontal DPI |
| `ScreenMapping.ScalingForScreen` | src/RegionCapture/Services/ScreenMappingService.cs:73-84 | The scale is dpi/96 when the DPI query succeeds, otherwise the toolkit's `Screen.Scaling` |
| `ScreenMapping.SnapshotOf` | src/RegionCapture/Services/ScreenMappingService.cs:22-31 | A snapshot keeps the screen and its physical bounds and the screen's scale. X, Y, W and H of the logical bounds are each the physical value divided by the scale, so times the scale each gives it back |
| `ScreenMapping.Snapshots` | src/RegionCapture/Services/ScreenMappingService.cs:20-33 | One snapshot per screen, in the screens' order, each scaled as above |
| `ScreenMapping.FindSnapshot` | src/RegionCapture/Services/ScreenMappingService.cs:45 | The first snapshot of the screen; None (the `First` exception) iff no snapshot has that screen |
| `ScreenMapping.ScreenForLogicalPoint` | src/RegionCapture/Services/ScreenMappingService.cs:37-41 | The first snapshot whose logical bounds contain the point, else the first snapshot; None (the `First` exception) iff there are no screens |
| `ScreenMapping.PhysicalLength` | src/RegionCapture/Services/ScreenMappingService.cs:47-50 | `(int)Math.Round(v * s)` is within half a pixel of v·s |
| `ScreenMapping.LogicalLength` | src/RegionCapture/Services/ScreenMappingService.cs:57-60 | A physical length divided by the scale gives back the length when multiplied by the scale |
| `ScreenMapping.PhysicalLengthRoundTrip` | src/RegionCapture/Services/ScreenMappingService.cs:43-61 | Dividing an integer length by the scale, then scaling and rounding, returns the same integer |
| `ScreenMapping.LogicalLengthError` | src/RegionCapture/Services/ScreenMappingService.cs:43-61 | Scaling, rounding and dividing back moves a logical length by at most half a physical pixel |
| `ScreenMapping.ScaleToPhysical` | src/RegionCapture/Services/ScreenMappingService.cs:43-51 | The position is the screen's physical origin plus the rounded scaled position. The size is the rounded scaled size with no origin. Each is within half a pixel |
| `ScreenMapping.ScaleToLogical` | src/RegionCapture/Services/ScreenMappingService.cs:53-61 | The position is relative to the screen's physical origin and divided by the scale; the size is divided by the scale |
| `ScreenMapping.ToPhysicalBounds` | src/RegionCapture/Services/ScreenMappingService.cs:43-51 | It throws (None) iff the screen is not in the mapping; otherwise it is the scaling of the first matching snapshot |
| `ScreenMapping.ToLogicalRect` | src/RegionCapture/Services/ScreenMappingService.cs:53-61 | It throws (None) iff the screen is not in the mapping; otherwise it is the division by the first matching snapshot |
| `ScreenMapping.LogicalToVirtualPhysical` | src/RegionCapture/Services/ScreenMappingService.cs:63-71 | It returns the same result as `ToPhysicalBounds` on every input, the throwing case included |
| `ScreenMapping.PhysicalRoundTrip` | src/RegionCapture/Services/ScreenMappingService.cs:43-61 | `ToPhysicalBounds(ToLogicalRect(p))` is exactly p for every integer rectangle on a mapped screen |
| `ScreenMapping.LogicalRoundTripError` | src/RegionCapture/Services/ScreenMappingService.cs:43-61 | `ToLogicalRect(ToPhysicalBounds(l))` differs from l by at most half a physical pixel in each of X, Y, W and H |
| `ScreenMapping.OwnBoundsAtLogicalOrigin` | src/RegionCapture/Services/ScreenMappingService.cs:53-61 | A screen's own physical bounds convert to a logical rectangle at (0, 0) whose size times the scale is the physical size |
| `ScreenMapping.OwnBoundsOfScaledSnapshot` | src/RegionCapture/Services/ScreenMappingService.cs:22-31 | For a consistently scaled snapshot, its own bounds convert to (0, 0, LogicalBounds.Width, LogicalBounds.Height) |
| `ScreenMapping.OwnBoundsMatchLogicalSize` | src/RegionCapture/Services/ScreenMappingService.cs:20-61 | For the snapshots the constructor builds, a screen's own bounds convert to (0, 0, W/s, H/s), the size of its `LogicalBounds` |
| `OverlayViewModel.RectFigure` | src/RegionCapture/ViewModels/RegionCaptureOverlayViewModel.cs:131-135 | A rectangle figure starts at the top-left and lines to top-right, bottom-right and bottom-left; it is filled and closed |
| `OverlayViewModel.BuildGeometry` | src/RegionCapture/ViewModels/RegionCaptureOverlayViewModel.cs:111-142 | No geometry iff the overlay width ≤ 0 or height ≤ 0. Otherwise it is even-odd: the outer overlay rectangle, plus a second figure tracing the selection iff the selection has positive width and height |
| `OverlayViewModel.InitialConsistent` | src/RegionCapture/ViewModels/RegionCaptureOverlayViewModel.cs:12-16 | A fresh view model's (null) geometry agrees with its zero size and selection |
| `OverlayViewModel.SetOverlayGeometry` | src/RegionCapture/ViewModels/RegionCaptureOverlayViewModel.cs:63-74 | The geometry is stored. It notifies `OverlayGeometry` unless both old and new are null: geometries compare by reference |
| `OverlayViewModel.UpdateOverlayGeometry` | src/RegionCapture/ViewModels/RegionCaptureOverlayViewModel.cs:111-140 | Afterwards the geometry shows the current size and selection; nothing else changes. `OverlayGeometry` is notified unless the geometry was null and stays null |
| `OverlayViewModel.SetSelectionRect` | src/RegionCapture/ViewModels/RegionCaptureOverlayViewModel.cs:20-32 | An equal value changes nothing and raises nothing. A new value raises exactly `SelectionRect`, then `OverlayGeometry` unless the geometry was null and stays null; the geometry is rebuilt. Hover, state and size are untouched |
| `OverlayViewModel.SetHoverRect` | src/RegionCapture/ViewModels/RegionCaptureOverlayViewModel.cs:34-48 | Only the hover changes. `HasHover` holds iff the new value is present. `HoverRect` and `HasHover` are notified iff the value changed |
| `OverlayViewModel.SetState` | src/RegionCapture/ViewModels/RegionCaptureOverlayViewModel.cs:50-61 | Only the state changes; `State` is notified iff it changed |
| `OverlayViewModel.SetOverlaySize` | src/RegionCapture/ViewModels/RegionCaptureOverlayViewModel.cs:76-88 | An equal size changes nothing. A new size raises exactly `OverlaySize`, then `OverlayGeometry` unless the geometry was null and stays null; the geometry is rebuilt |
| `OverlayViewModel.NudgeSelection` | src/RegionCapture/ViewModels/RegionCaptureOverlayViewModel.cs:90-93 | The selection moves by exactly the vector and keeps its width and height; hover, state and size are untouched |
| `OverlayViewModel.NudgeThenOppositeRestores` | src/RegionCapture/ViewModels/RegionCaptureOverlayViewModel.cs:90-93 | Nudging by d and then by −d restores the selection |
| `OverlayViewModel.DragRect` | src/RegionCapture/ViewModels/RegionCaptureOverlayViewModel.cs:95-102 | The drag rectangle has left = min x, top = min y, width = abs(Δx) and height = abs(Δy). Its size is never negative and both points lie in it |
| `OverlayViewModel.DragRectIsBoundingBox` | src/RegionCapture/ViewModels/RegionCaptureOverlayViewModel.cs:95-102 | Every rectangle of non-negative size holding both drag points holds the drag rectangle |
| `OverlayViewModel.DragRectSymmetric` | src/RegionCapture/ViewModels/RegionCaptureOverlayViewModel.cs:97-101 | Swapping anchor and current point gives the same rectangle |
| `OverlayViewModel.SetSelectionFromDrag` | src/RegionCapture/ViewModels/RegionCaptureOverlayViewModel.cs:95-102 | The selection becomes the drag rectangle; hover, state and size are untouched |
| `OverlayViewModel.Reset` | src/RegionCapture/ViewModels/RegionCaptureOverlayViewModel.cs:104-109 | Afterwards the selection is all-zero, the hover is absent, the state is Idle and the size is kept. On an already-reset view model it raises nothing |
| `OverlayViewModel.GeometryRebuiltOnlyForSelectionOrSize` | src/RegionCapture/ViewModels/RegionCaptureOverlayViewModel.cs:20-88 | Hover and state setters never touch or notify the geometry. A changed selection or size notifies itself and then `OverlayGeometry`, unless the geometry stays null |
| `OverlayWindow.NewOverlay` | src/RegionCapture/Views/RegionCaptureOverlayWindow.axaml.cs:36-55 | The window sits at the screen's physical position. Its width and height times the toolkit `Scaling` give the physical size. It takes the given view model or a fresh one, with no anchor, open |
| `OverlayWindow.UpdateCrosshair` | src/RegionCapture/Views/RegionCaptureOverlayWindow.axaml.cs:135-148 | The horizontal line runs (0, y)→(clientW, y) and the vertical line (x, 0)→(x, clientH). Missing controls stay missing; nothing else changes |
| `OverlayWindow.PointerPressed` | src/RegionCapture/Views/RegionCaptureOverlayWindow.axaml.cs:62-69 | The anchor becomes the press point, the state DraggingSelection, the selection the zero rect and the hover none. Nothing is raised and the geometry stays consistent |
| `OverlayWindow.PointerReleased` | src/RegionCapture/Views/RegionCaptureOverlayWindow.axaml.cs:71-81 | Without an anchor it is a no-op. With one it confirms `LogicalToVirtualPhysical(selection)` and clears the anchor, or throws for an unmapped screen |
| `OverlayWindow.PointerMoved` | src/RegionCapture/Views/RegionCaptureOverlayWindow.axaml.cs:83-105 | The crosshair always moves. While dragging, the selection is the drag rectangle and hover and state are kept. Otherwise a snapped window sets hover to its `ToLogicalRect` and state HoveringWindow, or throws, leaving the view model alone, when the screen is unmapped; no window gives no hover and state Idle. Only the crosshair and the view model change |
| `OverlayWindow.ArrowDelta` | src/RegionCapture/Views/RegionCaptureOverlayWindow.axaml.cs:109-131 | An arrow key moves exactly 1 along one axis: Left −x, Right +x, Up −y, Down +y |
| `OverlayWindow.KeyDown` | src/RegionCapture/Views/RegionCaptureOverlayWindow.axaml.cs:107-133 | Escape cancels and closes. Enter confirms the current selection whatever the drag state. Arrows nudge by one with nothing raised and change nothing but the view model. Other keys change nothing |
| `OverlayWindow.OppositeArrowsCancel` | src/RegionCapture/Views/RegionCaptureOverlayWindow.axaml.cs:120-131 | An arrow key followed by the opposite one restores the selection and raises nothing |
| `OverlayWindow.ClientSizeChanged` | src/RegionCapture/Views/RegionCaptureOverlayWindow.axaml.cs:150-156 | The view model's overlay size follows the client size; selection, hover and state are kept, and nothing else of the window changes |
| `OverlayWindow.RunKeepsGeometryConsistent` | src/RegionCapture/Views/RegionCaptureOverlayWindow.axaml.cs:62-156 | Along any sequence of events, the overlay geometry keeps showing the current selection and size |
| `OverlayWindow.Handle` | src/RegionCapture/Views/RegionCaptureOverlayWindow.axaml.cs:47-51 | Each event reaches the handler the constructor wires to it. A handler raises at most one event, a press or resize raises none, and none changes the screen or mapping |
| `OverlayWindow.Run` | src/RegionCapture/Views/RegionCaptureOverlayWindow.axaml.cs:47-51 | A run of events raises at most one event per input event |
| `OverlayWindow.RunKeepsScreen` | src/RegionCapture/Views/RegionCaptureOverlayWindow.axaml.cs:18-19 | No event changes the overlay's screen or mapping |
| `OverlayWindow.DragAndReleaseConfirmsSpannedRect` | src/RegionCapture/Views/RegionCaptureOverlayWindow.axaml.cs:62-105 | Press at a, move to b, release: this confirms the physical image of the rectangle a and b span, and ends the drag |
| `OverlayWindow.ClickWithoutMoveConfirmsEmptyAtScreenOrigin` | src/RegionCapture/Views/RegionCaptureOverlayWindow.axaml.cs:62-81 | A press then release with no move confirms an empty rectangle at the screen's physical origin |
| `CaptureController.NewController` | src/RegionCapture/RegionCaptureController.cs:22-26 | A new controller holds the mapping service's snapshots of the screens, in order, and the given crosshair controls. It has no overlays and no pending result |
| `CaptureController.OpenOverlays` | src/RegionCapture/RegionCaptureController.cs:31-39 | One overlay per snapshot, in order. Each is the window the overlay constructor builds for that snapshot's screen, with a fresh view model, subscribed and shown |
| `CaptureController.StartAsync` | src/RegionCapture/RegionCaptureController.cs:28-42 | A fresh pending result. Existing overlays are kept. One new overlay per snapshot follows them, in snapshot order, each the window the overlay constructor builds for that screen |
| `CaptureController.TrySetResult` | src/RegionCapture/RegionCaptureController.cs:46-52 | Only a pending result is completed; a completed or absent one is left as it was |
| `CaptureController.Detach` | src/RegionCapture/RegionCaptureController.cs:58-63 | Every overlay of the list is unsubscribed and closed, in order, and otherwise unchanged |
| `CaptureController.CloseAll` | src/RegionCapture/RegionCaptureController.cs:56-66 | The overlay list is emptied after every overlay in it is detached and closed; the result is untouched |
| `CaptureController.SelectionConfirmed` | src/RegionCapture/RegionCaptureController.cs:50-54 | A pending result completes with the rect; any other result is kept; then everything is closed |
| `CaptureController.SelectionCanceled` | src/RegionCapture/RegionCaptureController.cs:44-48 | A pending result completes with null; any other result is kept; then everything is closed |
| `CaptureController.OnRaised` | src/RegionCapture/RegionCaptureController.cs:44-54 | A confirm or cancel tries to set the result with the rect or null and then closes and detaches every open overlay. An exception leaves the controller as it was |
| `CaptureController.Dispatch` | src/RegionCapture/RegionCaptureController.cs:35-36 | The subscribed handlers run for each raised event in order: the controller is unchanged or has no overlay open, and the mapping never changes |
| `CaptureController.FirstOutcome` | src/RegionCapture/RegionCaptureController.cs:44-54 | The value of the first confirm or cancel in a sequence; absent iff every event is an exception |
| `CaptureController.SettledStaysSettled` | src/RegionCapture/RegionCaptureController.cs:46-52 | Once completed, or before any `StartAsync`, no sequence of confirms and cancels changes the result |
| `CaptureController.FirstResultWins` | src/RegionCapture/RegionCaptureController.cs:44-54 | From a pending result, any sequence of events completes it with the first confirm's rect or first cancel's null; with neither it stays pending |
| `CaptureController.DispatchWhenClosed` | src/RegionCapture/RegionCaptureController.cs:56-66 | With the overlay list empty, later confirms and cancels neither open nor retire any overlay |
| `CaptureController.DispatchOutcome` | src/RegionCapture/RegionCaptureController.cs:44-66 | Only exceptions leave the controller untouched. Otherwise the open overlays are detached and closed exactly once, and a pending result takes the value of the first confirm or cancel |
| `CaptureController.Deliver` | src/RegionCapture/RegionCaptureController.cs:34-37 | The handled window replaces the stored one, because the list holds the windows that raise the events. What it raised completes a pending result only while the controller's handlers are attached; a detached window's events change neither the result nor the list |
| `CaptureController.OverlayEvent` | src/RegionCapture/RegionCaptureController.cs:34-37 | An event for the k-th overlay: a completed result stays. Unless every overlay was closed, only the k-th entry's window changes, and it stays on its screen |
| `CaptureController.DeliverAll` | src/RegionCapture/RegionCaptureController.cs:34-37 | Events for one overlay, in order, dropped once it has left the list: the mapping and a completed result stay |
| `CaptureController.PressIsStored` | src/RegionCapture/RegionCaptureController.cs:34-37 | A press delivered to an open overlay raises nothing; the pressed window is stored back in place |
| `CaptureController.DragMoveIsStored` | src/RegionCapture/RegionCaptureController.cs:34-37 | A move during a drag raises nothing; the moved window is stored back in place |
| `CaptureController.DeliverAllStep` | src/RegionCapture/RegionCaptureController.cs:34-37 | While the window is still in the list, the first event of a run reaches it |
| `CaptureController.DragIsStored` | src/RegionCapture/RegionCaptureController.cs:34-37 | Press, move and release on one overlay amount to the release reaching the pressed and moved window, stored in place |
| `CaptureController.CompletionClosesEverything` | src/RegionCapture/RegionCaptureController.cs:44-66 | After an overlay raises a confirm or cancel, no overlay is open. Every overlay that was open is closed and unsubscribed, including the window that raised it, in the state its handler left it in |
| `CaptureController.ReleaseCompletes` | src/RegionCapture/RegionCaptureController.cs:50-66 | A subscribed overlay that confirms a rectangle completes a pending result with it; no overlay stays open and all are retired |
| `CaptureController.DragOnOverlay` | src/RegionCapture/RegionCaptureController.cs:34-66 | Press, drag and release on a subscribed overlay of a mapped screen complete a pending result with the physical image of the dragged rectangle, and every overlay is retired |
| `CaptureController.StoredRaiserRetired` | src/RegionCapture/RegionCaptureController.cs:56-66 | The stored window that raised a confirm or cancel is retired closed, at its own position among the retired overlays |
| `CaptureController.DragRetiresDraggedWindow` | src/RegionCapture/RegionCaptureController.cs:34-66 | After press, drag and release, the dragged window itself is retired closed and still holds the dragged selection |
| `CaptureController.CaptureByDrag` | src/RegionCapture/RegionCaptureController.cs:28-54 | After `StartAsync`, press, drag and release on the k-th screen's overlay. This completes the result with that screen's physical image of the dragged rectangle; no overlay stays open, and every overlay opened is retired |
| `NativeWindows.WindowBounds` | src/RegionCapture/Platform/Windows/NativeWindowService.cs:98-103 | None iff `GetWindowRect` fails; otherwise (Left, Top, Right−Left, Bottom−Top) |
| `NativeWindows.ExtendedFrameBounds` | src/RegionCapture/Platform/Windows/NativeWindowService.cs:88-96 | The DWM frame iff `DwmGetWindowAttribute` returns exactly 0 |
| `NativeWindows.Title` | src/RegionCapture/Platform/Windows/NativeWindowService.cs:112-121 | Empty when the reported length is 0. Otherwise the window text cut to that length: a prefix that is either exactly that long or the whole text |
| `NativeWindows.ClassName` | src/RegionCapture/Platform/Windows/NativeWindowService.cs:123-128 | The whole class name when it fits in 255 characters, otherwise exactly its first 255 |
| `NativeWindows.TryGetWindowInfo` | src/RegionCapture/Platform/Windows/NativeWindowService.cs:52-86 | A record iff: WS_VISIBLE set, WS_EX_TOOLWINDOW clear, `IsWindowVisible`, and a window rect of positive size. It carries handle, z-order, `IsIconic`, bounds, title, class name, and visual bounds (the DWM frame on 0, else the bounds) |
| `NativeWindows.MinimizedNotFiltered` | src/RegionCapture/Platform/Windows/NativeWindowService.cs:75-83 | Being minimized neither admits nor rejects a window; `IsMinimized` is recorded as reported |
| `NativeWindows.AcceptedWindows` | src/RegionCapture/Platform/Windows/NativeWindowService.cs:52-72 | Every window kept passes the acceptance filter, and none is added |
| `NativeWindows.AcceptedWindowsExactly` | src/RegionCapture/Platform/Windows/NativeWindowService.cs:26-33 | A window is kept iff it was enumerated and the filter accepts it |
| `NativeWindows.EnumerateFrom` | src/RegionCapture/Platform/Windows/NativeWindowService.cs:26-33 | The callback keeps earlier results and appends one record per accepted window. Each record's `ZOrder` is the count of results before it |
| `NativeWindows.EnumerateFromRecords` | src/RegionCapture/Platform/Windows/NativeWindowService.cs:26-33 | Each appended record is exactly what `TryGetWindowInfo` builds for the matching accepted window, with that z-order |
| `NativeWindows.EnumerateWindows` | src/RegionCapture/Platform/Windows/NativeWindowService.cs:23-37 | One record per accepted window, with `ZOrder` exactly 0, 1, 2, … |
| `NativeWindows.EnumerateWindowsRecords` | src/RegionCapture/Platform/Windows/NativeWindowService.cs:23-37 | The k-th record is `TryGetWindowInfo` of the k-th accepted window with z-order k, so enumeration order and handles are kept |
| `NativeWindows.FirstContaining` | src/RegionCapture/Platform/Windows/NativeWindowService.cs:42-49 | On a list numbered 0, 1, 2, … this is the first record whose snap bounds contain the point, found at the position its z-order names; None iff no record contains it |
| `NativeWindows.WindowAtPoint` | src/RegionCapture/Platform/Windows/NativeWindowService.cs:39-50 | The first enumerated window whose snap bounds contain the point, at the position its z-order names. Null only when none contains it; a found window always contains it, so the cases are exact |
| `NativeMonitors.TrimTrailingNuls` | src/RegionCapture/Platform/Windows/NativeMonitorService.cs:51 | A prefix of the name with no trailing NUL; everything removed was NUL |
| `NativeMonitors.TrimTrailingNulsIdempotent` | src/RegionCapture/Platform/Windows/NativeMonitorService.cs:51 | Trimming twice equals trimming once, and a name without a trailing NUL is kept whole |
| `NativeMonitors.MonitorScale` | src/RegionCapture/Platform/Windows/NativeMonitorService.cs:42-46 | dpiX/96 when `GetDpiForMonitor` returns exactly 0, otherwise 1.0 |
| `NativeMonitors.GetMonitorInfoEx` | src/RegionCapture/Platform/Windows/NativeMonitorService.cs:31-59 | None iff `GetMonitorInfo` fails. Otherwise the trimmed device name, the monitor and work rects as (Left, Top, W, H), the scale, and primary iff bit 0x1 of dwFlags |
| `NativeMonitors.ReadableMonitors` | src/RegionCapture/Platform/Windows/NativeMonitorService.cs:15-29 | The monitors kept are exactly those whose `GetMonitorInfo` succeeds |
| `NativeMonitors.EnumerateMonitors` | src/RegionCapture/Platform/Windows/NativeMonitorService.cs:15-29 | Monitors whose info fails are skipped; the rest are decoded in enumeration order |
| `NativeMonitors.PhysicalCursorPosition` | src/RegionCapture/Platform/Windows/NativeMonitorService.cs:64-77 | The physical cursor if that query succeeds, else `GetCursorPos`, else (0, 0) |
| `NativeMonitors.DpiAcceptanceStricterThanMapping` | src/RegionCapture/Platform/Windows/NativeMonitorService.cs:42-46 | Every DPI this service accepts (result 0) the mapping service accepts too. S_FALSE (1) is accepted by the mapping but scaled 1.0 here |
| `WindowSnapping.SnapFrame` | src/RegionCapture/Services/Win32WindowSnappingService.cs:31-37 | The DWM frame when that call returns 0, else `GetWindowRect`; none iff both fail |
| `WindowSnapping.TryGetWindowUnderCursor` | src/RegionCapture/Services/Win32WindowSnappingService.cs:12-41 | True iff: Windows, the cursor query succeeds, a window is at the cursor, and a frame is available. On true the rect is (Left, Top, Right−Left, Bottom−Top) of that frame; on false it is all-zero |
| `WindowSnapping.SnapAgreesWithVisualBounds` | src/RegionCapture/Services/Win32WindowSnappingService.cs:31-39 | For a window the enumeration accepts, the snapped rect is exactly the `VisualBounds` the enumeration records |

## Left out

- 32-bit integers: `int`, the `(int)` casts of rounded doubles, and `nint` style values are unbounded integers here. Overflow and out-of-range casts on huge coordinates are not modelled.
- IEEE-754 doubles: scales and logical coordinates are exact reals. The round-trip laws hold for exact arithmetic, not for floating-point rounding error.
- P/Invoke, struct marshalling and `DllImport`. Each OS answer is a field of `NativeWindow`, `NativeMonitor`, `DpiEnvironment` or `SnapEnvironment`, or a function-typed field of one.
- `GetWindowLongAuto`: the 32/64-bit choice between `GetWindowLong` and `GetWindowLongPtr` is not modelled. The style words are plain 64-bit inputs.
- The platform test (`RuntimeInformation.IsOSPlatform`, `#if WINDOWS`) is a boolean input.
- `ScreenMapping.TryGetDpiForMonitor`: a DPI the OS reports is taken to be positive (`Dpi`), so a reported 0 (a zero scale in the source) is not modelled.
- .NET strings are sequences of UTF-16 code units, and `GetWindowTextLength` and `GetClassName` count in them. Here a `char` of a title or class name stands for one UTF-16 code unit, not a Unicode scalar value, so `Title` and `ClassName` cut at the same place as the source only under that reading.
- The unshown `WindowInfo`, `MonitorInfo`, `Rect.Contains` and `SnapBounds` definitions. The records are redeclared, and the two containment tests are given predicates.
- Avalonia window lifecycle: `Show`/`Close` are recorded as flags, and pointer capture, the transparency hint and XAML loading are left out. The `Opened` handler is the same size update as `ClientSizeChanged`. `Show()` raises `Opened` in the toolkit, so in the source a window returned by `StartAsync` already has `OverlaySize = ClientSize`. In the model a fresh overlay keeps the initial zero size until a `Resize` event is delivered.
- `PropertyChanged` delivery: notifications are returned as lists, not delivered to listeners. `StreamGeometry` drawing is reduced to its figures.
- The parameterless overlay constructor, which only throws `NotSupportedException`.
- `Task`/`TaskCompletionSource` machinery beyond first completion wins. A second `StartAsync` replaces the pending result; the earlier task, left pending, is not tracked.
- Event-handler wiring is modelled as the `subscribed` flag, which `Deliver` reads: a window's confirm or cancel reaches the controller only while the flag is set. An exception a handler throws (`Threw`) propagates to the toolkit and leaves the controller unchanged.
- Input to a closed window: events are delivered only to windows still in the controller's list. A retired window is closed and gets no input, so no events to it are modelled.
- Object identity is modelled by position: the controller's list holds each overlay by value, and an event for the overlay at position k is handled on that entry and written back there.
- The host window (src/RegionCaptureHost/MainWindow.axaml.cs) is not part of this model.
