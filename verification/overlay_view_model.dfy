/** RegionCaptureOverlayViewModel: the selection, the hovered window, the capture
    state and the dimming overlay whose hole shows the selection. Every setter
    returns the property-changed notifications it raises, in order. */
module OverlayViewModel {
  import opened Geometry

  datatype CaptureState = Idle | HoveringWindow | DraggingSelection

  /** The property names passed to `PropertyChanged`. */
  datatype Property = SelectionRect | HoverRect | HasHover | State | OverlayGeometry | OverlaySize

  datatype FillRule = EvenOdd | NonZero

  /** One `BeginFigure(start, filled) / LineTo ... / EndFigure(closed)` sequence. */
  datatype Figure = Figure(start: Point, lines: seq<Point>, filled: bool, closed: bool)

  /** The content of the overlay's `StreamGeometry`. */
  datatype StreamGeometry = StreamGeometry(fillRule: FillRule, figures: seq<Figure>)

  datatype ViewModel = ViewModel(
    selection: Rect,
    hover: Option<Rect>,
    state: CaptureState,
    geometry: Option<StreamGeometry>,
    overlaySize: Size)

  /** A fresh view model: all fields at their defaults. */
  const Initial := ViewModel(ZeroRect, None, Idle, None, Size(0.0, 0.0))

  /** The view model after an operation, with the notifications it raised. */
  datatype Step = Step(vm: ViewModel, raised: seq<Property>)

  /** `HasHover`. */
  predicate HasHover(vm: ViewModel) { vm.hover.Some? }

  /** `HasSelection`: only a selection of positive area cuts a hole. */
  predicate HasSelection(r: Rect) { r.width > 0.0 && r.height > 0.0 }

  /** A closed, filled figure tracing the corners of `r`: top-left, top-right,
      bottom-right, bottom-left. */
  predicate TracesRect(f: Figure, r: Rect)
  {
    && f.start == r.TopLeft()
    && f.lines == [r.TopRight(), r.BottomRight(), r.BottomLeft()]
    && f.filled && f.closed
  }

  function RectFigure(r: Rect): (f: Figure)
    ensures TracesRect(f, r)
  {
    Figure(r.TopLeft(), [r.TopRight(), r.BottomRight(), r.BottomLeft()], true, true)
  }

  /** The geometry `UpdateOverlayGeometry` builds: none for an empty overlay, otherwise
      the whole overlay plus, under the even-odd rule, the selection as a hole. */
  function BuildGeometry(size: Size, selection: Rect): (g: Option<StreamGeometry>)
    ensures g.None? <==> size.width <= 0.0 || size.height <= 0.0
    ensures g.Some? ==>
      && g.value.fillRule == EvenOdd
      && 1 <= |g.value.figures| <= 2
      && TracesRect(g.value.figures[0], Rect(0.0, 0.0, size.width, size.height))
      && (|g.value.figures| == 2 <==> HasSelection(selection))
      && (|g.value.figures| == 2 ==> TracesRect(g.value.figures[1], selection))
  {
    if size.width <= 0.0 || size.height <= 0.0 then None
    else
      var outer := RectFigure(Rect(0.0, 0.0, size.width, size.height));
      if HasSelection(selection) then Some(StreamGeometry(EvenOdd, [outer, RectFigure(selection)]))
      else Some(StreamGeometry(EvenOdd, [outer]))
  }

  /** The invariant the view model keeps: the geometry shows the current size and selection. */
  predicate GeometryConsistent(vm: ViewModel)
  {
    vm.geometry == BuildGeometry(vm.overlaySize, vm.selection)
  }

  lemma InitialConsistent()
    ensures GeometryConsistent(Initial)
  {
  }

  /** The private `OverlayGeometry` setter. Geometries are compared by reference, so a
      freshly built geometry always differs; only null replacing null is silent. */
  function SetOverlayGeometry(vm: ViewModel, g: Option<StreamGeometry>): (s: Step)
    ensures s.vm == vm.(geometry := g)
    ensures s.raised == [] <==> vm.geometry.None? && g.None?
    ensures s.raised != [] ==> s.raised == [OverlayGeometry]
  {
    if vm.geometry.None? && g.None? then Step(vm, [])
    else Step(vm.(geometry := g), [OverlayGeometry])
  }

  /** `UpdateOverlayGeometry`. */
  function UpdateOverlayGeometry(vm: ViewModel): (s: Step)
    ensures GeometryConsistent(s.vm)
    ensures s.vm.selection == vm.selection && s.vm.hover == vm.hover
    ensures s.vm.state == vm.state && s.vm.overlaySize == vm.overlaySize
    ensures s.raised
              == (if vm.geometry.None? && BuildGeometry(vm.overlaySize, vm.selection).None? then [] else [OverlayGeometry])
  {
    SetOverlayGeometry(vm, BuildGeometry(vm.overlaySize, vm.selection))
  }

  /** `SelectionRect` setter: an equal value changes nothing and raises nothing; a new
      value is stored, notified, and the geometry is rebuilt. */
  function SetSelectionRect(vm: ViewModel, r: Rect): (s: Step)
    ensures s.vm.selection == r
    ensures s.vm.hover == vm.hover && s.vm.state == vm.state && s.vm.overlaySize == vm.overlaySize
    ensures vm.selection == r ==> s == Step(vm, [])
    ensures vm.selection != r ==> GeometryConsistent(s.vm)
    ensures vm.selection != r ==>
      s.raised == [SelectionRect] + (if vm.geometry.None? && BuildGeometry(vm.overlaySize, r).None? then [] else [OverlayGeometry])
    ensures GeometryConsistent(vm) ==> GeometryConsistent(s.vm)
  {
    if vm.selection != r then
      var u := UpdateOverlayGeometry(vm.(selection := r));
      Step(u.vm, [SelectionRect] + u.raised)
    else Step(vm, [])
  }

  /** `HoverRect` setter: notifies `HoverRect` and `HasHover`; never touches the geometry. */
  function SetHoverRect(vm: ViewModel, h: Option<Rect>): (s: Step)
    ensures s.vm == vm.(hover := h)
    ensures HasHover(s.vm) <==> h.Some?
    ensures s.raised == (if vm.hover == h then [] else [HoverRect, Property.HasHover])
  {
    if vm.hover != h then Step(vm.(hover := h), [HoverRect, Property.HasHover])
    else Step(vm, [])
  }

  /** `State` setter: never touches the geometry. */
  function SetState(vm: ViewModel, st: CaptureState): (s: Step)
    ensures s.vm == vm.(state := st)
    ensures s.raised == (if vm.state == st then [] else [State])
  {
    if vm.state != st then Step(vm.(state := st), [State])
    else Step(vm, [])
  }

  /** `OverlaySize` setter: a new size is stored, notified, and the geometry is rebuilt. */
  function SetOverlaySize(vm: ViewModel, size: Size): (s: Step)
    ensures s.vm.overlaySize == size
    ensures s.vm.selection == vm.selection && s.vm.hover == vm.hover && s.vm.state == vm.state
    ensures vm.overlaySize == size ==> s == Step(vm, [])
    ensures vm.overlaySize != size ==> GeometryConsistent(s.vm)
    ensures vm.overlaySize != size ==>
      s.raised == [OverlaySize] + (if vm.geometry.None? && BuildGeometry(size, vm.selection).None? then [] else [OverlayGeometry])
    ensures GeometryConsistent(vm) ==> GeometryConsistent(s.vm)
  {
    if vm.overlaySize != size then
      var u := UpdateOverlayGeometry(vm.(overlaySize := size));
      Step(u.vm, [OverlaySize] + u.raised)
    else Step(vm, [])
  }

  /** `NudgeSelection`: move the selection by `d`, keeping its size. */
  function NudgeSelection(vm: ViewModel, d: Vector): (s: Step)
    ensures s.vm.selection.x - vm.selection.x == d.dx && s.vm.selection.y - vm.selection.y == d.dy
    ensures s.vm.selection.width == vm.selection.width && s.vm.selection.height == vm.selection.height
    ensures s.vm.hover == vm.hover && s.vm.state == vm.state && s.vm.overlaySize == vm.overlaySize
    ensures GeometryConsistent(vm) ==> GeometryConsistent(s.vm)
  {
    SetSelectionRect(vm, RectAt(Translate(vm.selection.Position(), d), vm.selection.Extent()))
  }

  /** Nudging by a vector and then by its opposite puts the selection back where it was. */
  lemma NudgeThenOppositeRestores(vm: ViewModel, d: Vector)
    ensures NudgeSelection(NudgeSelection(vm, d).vm, Vector(-d.dx, -d.dy)).vm.selection == vm.selection
  {
  }

  function Min(a: real, b: real): real { if a <= b then a else b }
  function Max(a: real, b: real): real { if a <= b then b else a }
  function Abs(a: real): real { if a < 0.0 then -a else a }

  /** The rectangle spanned by a drag: the corners are the component-wise minimum and
      maximum of the two points. */
  function DragRect(anchor: Point, current: Point): (r: Rect)
    ensures r.x == Min(anchor.x, current.x) && r.y == Min(anchor.y, current.y)
    ensures r.width == Abs(anchor.x - current.x) && r.height == Abs(anchor.y - current.y)
    ensures r.width >= 0.0 && r.height >= 0.0
    ensures InClosedRect(anchor, r) && InClosedRect(current, r)
  {
    RectFromCorners(
      Point(Min(anchor.x, current.x), Min(anchor.y, current.y)),
      Point(Max(anchor.x, current.x), Max(anchor.y, current.y)))
  }

  /** The drag rectangle is the smallest one holding both points: any rectangle of
      non-negative size that holds both holds all of it. */
  lemma DragRectIsBoundingBox(anchor: Point, current: Point, q: Rect)
    requires q.width >= 0.0 && q.height >= 0.0
    requires InClosedRect(anchor, q) && InClosedRect(current, q)
    ensures
      var r := DragRect(anchor, current);
      q.x <= r.x && r.x + r.width <= q.x + q.width && q.y <= r.y && r.y + r.height <= q.y + q.height
  {
  }

  /** Swapping the anchor and the current point gives the same rectangle. */
  lemma DragRectSymmetric(anchor: Point, current: Point)
    ensures DragRect(anchor, current) == DragRect(current, anchor)
  {
  }

  /** `SetSelectionFromDrag`. */
  function SetSelectionFromDrag(vm: ViewModel, anchor: Point, current: Point): (s: Step)
    ensures s.vm.selection == DragRect(anchor, current)
    ensures s.vm.hover == vm.hover && s.vm.state == vm.state && s.vm.overlaySize == vm.overlaySize
    ensures GeometryConsistent(vm) ==> GeometryConsistent(s.vm)
  {
    SetSelectionRect(vm, DragRect(anchor, current))
  }

  /** `Reset`: clear the selection, then the hover, then the state. */
  function Reset(vm: ViewModel): (s: Step)
    ensures s.vm.selection == ZeroRect && s.vm.hover.None? && s.vm.state == Idle
    ensures s.vm.overlaySize == vm.overlaySize
    ensures GeometryConsistent(vm) ==> GeometryConsistent(s.vm)
    ensures vm.selection == ZeroRect && vm.hover.None? && vm.state == Idle ==> s == Step(vm, [])
  {
    var a := SetSelectionRect(vm, ZeroRect);
    var b := SetHoverRect(a.vm, None);
    var c := SetState(b.vm, Idle);
    Step(c.vm, a.raised + b.raised + c.raised)
  }

  /** Only the selection and the overlay size trigger a geometry rebuild: the hover and
      state setters keep the geometry, and a geometry rebuild follows exactly the
      notifications of those two properties. */
  lemma GeometryRebuiltOnlyForSelectionOrSize(vm: ViewModel, h: Option<Rect>, st: CaptureState, r: Rect, size: Size)
    ensures SetHoverRect(vm, h).vm.geometry == vm.geometry
    ensures SetState(vm, st).vm.geometry == vm.geometry
    ensures OverlayGeometry !in SetHoverRect(vm, h).raised && OverlayGeometry !in SetState(vm, st).raised
    ensures vm.selection != r && (vm.geometry.Some? || BuildGeometry(vm.overlaySize, r).Some?) ==>
              SetSelectionRect(vm, r).raised == [SelectionRect, OverlayGeometry]
    ensures vm.overlaySize != size && (vm.geometry.Some? || BuildGeometry(size, vm.selection).Some?) ==>
              SetOverlaySize(vm, size).raised == [OverlaySize, OverlayGeometry]
  {
  }
}
