/** RegionCaptureOverlayWindow: the per-screen overlay as a transition system driven by
    pointer press, move and release, key presses and client-size changes. Snapping and
    coordinate conversion are delegated to WindowSnapping and ScreenMapping. */
module OverlayWindow {
  import opened Geometry
  import opened ScreenMapping
  import opened OverlayViewModel
  import opened WindowSnapping

  /** A crosshair `Line` control's end points. */
  datatype Line = Line(start: Point, end: Point)

  /** The overlay's state. `horizontal` / `vertical` are None when `FindControl` did not
      find the crosshair line; `closed` records a call to `Close()`. */
  datatype Overlay = Overlay(
    screen: Screen,
    mapping: seq<Snapshot>,
    vm: ViewModel,
    anchor: Option<Point>,
    position: PixelPoint,
    width: real,
    height: real,
    clientSize: Size,
    horizontal: Option<Line>,
    vertical: Option<Line>,
    closed: bool)

  /** What a handler raises: `SelectionConfirmed` with the physical rectangle,
      `SelectionCanceled`, or the exception a conversion throws for a screen the
      mapping does not know. */
  datatype Raised = Confirmed(rect: PixelRect) | Canceled | Threw

  datatype Transition = Transition(o: Overlay, raised: seq<Raised>)

  datatype Key = Escape | Enter | Left | Right | Up | Down | Other(code: int)

  /** The one-pixel arrow-key step, `arrowNudge`. */
  const ArrowNudge: real := 1.0

  /** The overlay's screen is one the mapping knows, so no conversion throws. */
  predicate Mapped(o: Overlay)
  {
    exists i :: 0 <= i < |o.mapping| && o.mapping[i].screen == o.screen
  }

  /** The constructor: placed at the screen's physical origin, sized to the screen's
      physical size divided by the toolkit's `Scaling`, with the given view model or a
      fresh one. */
  function NewOverlay(screen: Screen, mapping: seq<Snapshot>, vm: Option<ViewModel>,
                      horizontal: Option<Line>, vertical: Option<Line>): (o: Overlay)
    ensures o.width * screen.scaling == screen.bounds.width as real
    ensures o.height * screen.scaling == screen.bounds.height as real
    ensures o.position == PixelPoint(screen.bounds.x, screen.bounds.y)
    ensures o.vm == (if vm.Some? then vm.value else Initial)
    ensures o.anchor.None? && !o.closed && o.screen == screen && o.mapping == mapping
  {
    Overlay(screen, mapping, if vm.Some? then vm.value else Initial, None,
            PixelPoint(screen.bounds.x, screen.bounds.y),
            LogicalLength(screen.bounds.width, screen.scaling),
            LogicalLength(screen.bounds.height, screen.scaling),
            Size(0.0, 0.0), horizontal, vertical, false)
  }

  /** `UpdateCrosshair`: a horizontal line across the client area at the pointer's height
      and a vertical one down it at the pointer's x; a missing control stays missing. */
  function UpdateCrosshair(o: Overlay, p: Point): (o': Overlay)
    ensures o'.horizontal.Some? <==> o.horizontal.Some?
    ensures o'.vertical.Some? <==> o.vertical.Some?
    ensures o'.horizontal.Some? ==>
      o'.horizontal.value == Line(Point(0.0, p.y), Point(o.clientSize.width, p.y))
    ensures o'.vertical.Some? ==>
      o'.vertical.value == Line(Point(p.x, 0.0), Point(p.x, o.clientSize.height))
    ensures o' == o.(horizontal := o'.horizontal, vertical := o'.vertical)
  {
    o.(horizontal := if o.horizontal.Some? then Some(Line(Point(0.0, p.y), Point(o.clientSize.width, p.y))) else None,
       vertical := if o.vertical.Some? then Some(Line(Point(p.x, 0.0), Point(p.x, o.clientSize.height))) else None)
  }

  /** `OnPointerPressed`: start a drag at the pointer, clearing selection and hover. */
  function PointerPressed(o: Overlay, p: Point): (t: Transition)
    ensures t.raised == []
    ensures t.o.anchor == Some(p)
    ensures t.o.vm.state == DraggingSelection && t.o.vm.selection == ZeroRect && t.o.vm.hover.None?
    ensures t.o.vm.overlaySize == o.vm.overlaySize
    ensures t.o == o.(anchor := t.o.anchor, vm := t.o.vm)
    ensures GeometryConsistent(o.vm) ==> GeometryConsistent(t.o.vm)
  {
    var a := SetState(o.vm, DraggingSelection);
    var b := SetSelectionRect(a.vm, ZeroRect);
    var c := SetHoverRect(b.vm, None);
    Transition(o.(anchor := Some(p), vm := c.vm), [])
  }

  /** `OnPointerReleased`: confirm the selection, in virtual-desktop physical pixels, only
      while dragging; the anchor is then cleared. */
  function PointerReleased(o: Overlay): (t: Transition)
    ensures o.anchor.None? ==> t == Transition(o, [])
    ensures o.anchor.Some? && Mapped(o) ==>
      && t.raised == [Confirmed(LogicalToVirtualPhysical(o.vm.selection, o.screen, o.mapping).value)]
      && t.o == o.(anchor := None)
    ensures o.anchor.Some? && !Mapped(o) ==> t == Transition(o, [Threw])
  {
    if o.anchor.Some? then
      match LogicalToVirtualPhysical(o.vm.selection, o.screen, o.mapping)
      case None => Transition(o, [Threw])
      case Some(finalRect) => Transition(o.(anchor := None), [Confirmed(finalRect)])
    else Transition(o.(anchor := None), [])
  }

  /** `OnPointerMoved`: move the crosshair; while dragging, stretch the selection from the
      anchor; otherwise hover the snapped window (screen-relative logical bounds) or
      clear the hover. */
  function PointerMoved(o: Overlay, p: Point, env: SnapEnvironment): (t: Transition)
    ensures t.o.anchor == o.anchor && t.o.screen == o.screen && t.o.mapping == o.mapping
    ensures t.o.horizontal == UpdateCrosshair(o, p).horizontal && t.o.vertical == UpdateCrosshair(o, p).vertical
    ensures o.anchor.Some? ==>
      && t.raised == []
      && t.o.vm.selection == DragRect(o.anchor.value, p)
      && t.o.vm.hover == o.vm.hover && t.o.vm.state == o.vm.state
    ensures o.anchor.None? && TryGetWindowUnderCursor(env).found && Mapped(o) ==>
      && t.raised == []
      && t.o.vm.hover == ToLogicalRect(TryGetWindowUnderCursor(env).rect, o.screen, o.mapping)
      && t.o.vm.state == HoveringWindow
      && t.o.vm.selection == o.vm.selection
    ensures o.anchor.None? && TryGetWindowUnderCursor(env).found && !Mapped(o) ==>
      t.raised == [Threw] && t.o.vm == o.vm
    ensures o.anchor.None? && !TryGetWindowUnderCursor(env).found ==>
      t.raised == [] && t.o.vm.hover.None? && t.o.vm.state == Idle && t.o.vm.selection == o.vm.selection
    ensures t.o == UpdateCrosshair(o, p).(vm := t.o.vm)
    ensures t.o.vm.overlaySize == o.vm.overlaySize
    ensures GeometryConsistent(o.vm) ==> GeometryConsistent(t.o.vm)
  {
    var o1 := UpdateCrosshair(o, p);
    if o1.anchor.Some? then
      Transition(o1.(vm := SetSelectionFromDrag(o1.vm, o1.anchor.value, p).vm), [])
    else
      var snap := TryGetWindowUnderCursor(env);
      if snap.found then
        match ToLogicalRect(snap.rect, o1.screen, o1.mapping)
        case None => Transition(o1, [Threw])
        case Some(logicalRect) =>
          var a := SetHoverRect(o1.vm, Some(logicalRect));
          var b := SetState(a.vm, HoveringWindow);
          Transition(o1.(vm := b.vm), [])
      else
        var a := SetHoverRect(o1.vm, None);
        var b := SetState(a.vm, Idle);
        Transition(o1.(vm := b.vm), [])
  }

  /** The vector an arrow key nudges the selection by. */
  function ArrowDelta(k: Key): (d: Vector)
    requires k.Left? || k.Right? || k.Up? || k.Down?
    ensures (d.dx == 0.0 && (d.dy == 1.0 || d.dy == -1.0)) || (d.dy == 0.0 && (d.dx == 1.0 || d.dx == -1.0))
    ensures k.Left? <==> d.dx < 0.0
    ensures k.Right? <==> d.dx > 0.0
    ensures k.Up? <==> d.dy < 0.0
    ensures k.Down? <==> d.dy > 0.0
  {
    match k
    case Left => Vector(-ArrowNudge, 0.0)
    case Right => Vector(ArrowNudge, 0.0)
    case Up => Vector(0.0, -ArrowNudge)
    case Down => Vector(0.0, ArrowNudge)
  }

  /** `OnKeyDown`: Escape cancels and closes; Enter confirms the current selection
      whatever the drag state or size; arrows nudge by one logical pixel; other keys do nothing. */
  function KeyDown(o: Overlay, k: Key): (t: Transition)
    ensures k == Escape ==> t == Transition(o.(closed := true), [Canceled])
    ensures k == Enter && Mapped(o) ==>
      t == Transition(o, [Confirmed(LogicalToVirtualPhysical(o.vm.selection, o.screen, o.mapping).value)])
    ensures k == Enter && !Mapped(o) ==> t == Transition(o, [Threw])
    ensures (k.Left? || k.Right? || k.Up? || k.Down?) ==>
      && t.raised == [] && t.o.anchor == o.anchor
      && t.o.vm.selection.x - o.vm.selection.x == ArrowDelta(k).dx
      && t.o.vm.selection.y - o.vm.selection.y == ArrowDelta(k).dy
      && t.o.vm.selection.width == o.vm.selection.width
      && t.o.vm.selection.height == o.vm.selection.height
      && t.o.vm.hover == o.vm.hover && t.o.vm.state == o.vm.state
      && t.o == o.(vm := t.o.vm)
    ensures k.Other? ==> t == Transition(o, [])
    ensures t.o.vm.overlaySize == o.vm.overlaySize
    ensures GeometryConsistent(o.vm) ==> GeometryConsistent(t.o.vm)
  {
    match k
    case Escape => Transition(o.(closed := true), [Canceled])
    case Enter =>
      (match LogicalToVirtualPhysical(o.vm.selection, o.screen, o.mapping)
       case None => Transition(o, [Threw])
       case Some(finalRect) => Transition(o, [Confirmed(finalRect)]))
    case Left => Transition(o.(vm := NudgeSelection(o.vm, ArrowDelta(k)).vm), [])
    case Right => Transition(o.(vm := NudgeSelection(o.vm, ArrowDelta(k)).vm), [])
    case Up => Transition(o.(vm := NudgeSelection(o.vm, ArrowDelta(k)).vm), [])
    case Down => Transition(o.(vm := NudgeSelection(o.vm, ArrowDelta(k)).vm), [])
    case Other(_) => Transition(o, [])
  }

  /** Opposite arrow keys cancel: Left after Right (or Up after Down, and so on) restores
      the selection and raises nothing. */
  lemma OppositeArrowsCancel(o: Overlay, k: Key)
    requires k.Left? || k.Right? || k.Up? || k.Down?
    ensures
      var back := match k case Left => Right case Right => Left case Up => Down case _ => Up;
      var t1 := KeyDown(o, k);
      var t2 := KeyDown(t1.o, back);
      t2.o.vm.selection == o.vm.selection && t1.raised == [] && t2.raised == []
  {
  }

  /** `Opened` and `OnWindowPropertyChanged(ClientSize)`: the view model's overlay size
      follows the window's client size. */
  function ClientSizeChanged(o: Overlay, size: Size): (t: Transition)
    ensures t.raised == []
    ensures t.o.clientSize == size && t.o.vm.overlaySize == size
    ensures t.o.vm.selection == o.vm.selection && t.o.vm.hover == o.vm.hover && t.o.vm.state == o.vm.state
    ensures t.o == o.(clientSize := size, vm := t.o.vm)
    ensures GeometryConsistent(o.vm) ==> GeometryConsistent(t.o.vm)
  {
    Transition(o.(clientSize := size, vm := SetOverlaySize(o.vm, size).vm), [])
  }

  /** Pointer, key and resize events an overlay receives. */
  datatype Event =
    | Press(at: Point)
    | Move(at: Point, env: SnapEnvironment)
    | Release
    | KeyPress(key: Key)
    | Resize(size: Size)

  /** The handler the window's constructor wires to each event. Each handler raises at
      most one event, and none moves the window to another screen or mapping. */
  function Handle(o: Overlay, e: Event): (t: Transition)
    ensures |t.raised| <= 1
    ensures t.o.screen == o.screen && t.o.mapping == o.mapping
    ensures e.Press? || e.Resize? ==> t.raised == []
  {
    match e
    case Press(p) => PointerPressed(o, p)
    case Move(p, env) => PointerMoved(o, p, env)
    case Release => PointerReleased(o)
    case KeyPress(k) => KeyDown(o, k)
    case Resize(size) => ClientSizeChanged(o, size)
  }

  /** Runs events in order, collecting everything raised. */
  function Run(o: Overlay, es: seq<Event>): (t: Transition)
    ensures |t.raised| <= |es|
    decreases |es|
  {
    if |es| == 0 then Transition(o, [])
    else
      var first := Handle(o, es[0]);
      var rest := Run(first.o, es[1..]);
      Transition(rest.o, first.raised + rest.raised)
  }

  /** Every handler keeps the overlay geometry in step with the selection and overlay size,
      so along any run of events the dimming overlay shows the current selection. */
  lemma {:induction false} RunKeepsGeometryConsistent(o: Overlay, es: seq<Event>)
    requires GeometryConsistent(o.vm)
    ensures GeometryConsistent(Run(o, es).o.vm)
    decreases |es|
  {
    if |es| > 0 {
      var first := Handle(o, es[0]);
      assert GeometryConsistent(first.o.vm);
      RunKeepsGeometryConsistent(first.o, es[1..]);
    }
  }

  /** The screen and the mapping never change, so a mapped overlay stays mapped. */
  lemma {:induction false} RunKeepsScreen(o: Overlay, es: seq<Event>)
    ensures Run(o, es).o.screen == o.screen && Run(o, es).o.mapping == o.mapping
    decreases |es|
  {
    if |es| > 0 {
      RunKeepsScreen(Handle(o, es[0]).o, es[1..]);
    }
  }

  /** Press, drag to a second point, release: the confirmed rectangle is the physical image
      of the rectangle spanned by the two points, and the drag is over. */
  lemma DragAndReleaseConfirmsSpannedRect(o: Overlay, a: Point, b: Point, env: SnapEnvironment)
    requires Mapped(o)
    ensures
      var pressed := PointerPressed(o, a).o;
      var moved := PointerMoved(pressed, b, env).o;
      && PointerReleased(moved).raised
           == [Confirmed(LogicalToVirtualPhysical(DragRect(a, b), o.screen, o.mapping).value)]
      && PointerReleased(moved).o.anchor.None?
  {
    var pressed := PointerPressed(o, a).o;
    assert Mapped(pressed);
    var moved := PointerMoved(pressed, b, env).o;
    assert moved.vm.selection == DragRect(a, b);
    assert Mapped(moved);
  }

  /** A click without a move confirms an empty rectangle at the screen's physical origin,
      not the hovered window: the press resets the selection to the zero rectangle and
      clears the hover before the release reads it. */
  lemma ClickWithoutMoveConfirmsEmptyAtScreenOrigin(o: Overlay, a: Point)
    requires Mapped(o)
    ensures
      var origin := FindSnapshot(o.mapping, o.screen).value.physicalBounds;
      PointerReleased(PointerPressed(o, a).o).raised == [Confirmed(PixelRect(origin.x, origin.y, 0, 0))]
  {
    var pressed := PointerPressed(o, a).o;
    assert Mapped(pressed);
    var snap := FindSnapshot(o.mapping, o.screen).value;
    assert PhysicalLength(0.0, snap.scaling) == 0 by {
      assert 0.0 * snap.scaling == 0 as real;
      RoundHalfEvenOfInt(0);
    }
    assert ScaleToPhysical(ZeroRect, snap) == PixelRect(snap.physicalBounds.x, snap.physicalBounds.y, 0, 0);
  }
}
