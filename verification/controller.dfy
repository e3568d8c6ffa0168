/** RegionCaptureController: opens one overlay per screen snapshot and completes the
    pending selection with the first confirm or cancel any overlay raises, then closes
    and detaches every overlay. */
module CaptureController {
  import opened Geometry
  import opened ScreenMapping
  import opened OverlayViewModel
  import opened OverlayWindow

  /** The pending result (`TaskCompletionSource<PixelRect?>`): still pending, or
      completed with a rectangle or with null. */
  datatype TaskState = Pending | Completed(result: Option<PixelRect>)

  /** An overlay the controller opened; `subscribed` says whether the controller's
      confirm and cancel handlers are still attached, `shown` that `Show()` was called. */
  datatype OverlayEntry = OverlayEntry(window: Overlay, subscribed: bool, shown: bool)

  /** The crosshair controls each overlay finds in its markup. */
  datatype Crosshairs = Crosshairs(horizontal: Option<Line>, vertical: Option<Line>)

  /** `_overlays` and `_selectionTcs`, plus the overlays closed so far (`retired`). */
  datatype Controller = Controller(
    mapping: seq<Snapshot>,
    overlays: seq<OverlayEntry>,
    retired: seq<OverlayEntry>,
    selection: Option<TaskState>,
    crosshairs: Crosshairs)

  /** The constructor: builds the screen mapping; no overlays and no pending result yet. */
  function NewController(screens: seq<Screen>, env: DpiEnvironment, crosshairs: Crosshairs): (c: Controller)
    ensures |c.mapping| == |screens| && c.overlays == [] && c.retired == [] && c.selection.None?
    ensures forall i :: 0 <= i < |c.mapping| ==> c.mapping[i].screen == screens[i]
    ensures c.mapping == Snapshots(screens, env) && c.crosshairs == crosshairs
  {
    Controller(Snapshots(screens, env), [], [], None, crosshairs)
  }

  /** An overlay fresh from `StartAsync`'s loop body: a new view model, subscribed, shown. */
  predicate FreshFor(e: OverlayEntry, snap: Snapshot, mapping: seq<Snapshot>)
  {
    && e.window.screen == snap.screen && e.window.mapping == mapping
    && e.window.vm == Initial && e.window.anchor.None? && !e.window.closed
    && e.subscribed && e.shown
  }

  /** The loop of `StartAsync` over the remaining snapshots. */
  function OpenOverlays(snaps: seq<Snapshot>, mapping: seq<Snapshot>, crosshairs: Crosshairs): (r: seq<OverlayEntry>)
    ensures |r| == |snaps|
    ensures forall i :: 0 <= i < |r| ==> FreshFor(r[i], snaps[i], mapping)
    ensures forall i :: 0 <= i < |r| ==>
              r[i].window == NewOverlay(snaps[i].screen, mapping, Some(Initial), crosshairs.horizontal, crosshairs.vertical)
  {
    if |snaps| == 0 then []
    else
      var window := NewOverlay(snaps[0].screen, mapping, Some(Initial), crosshairs.horizontal, crosshairs.vertical);
      [OverlayEntry(window, true, true)] + OpenOverlays(snaps[1..], mapping, crosshairs)
  }

  /** `StartAsync`: a fresh pending result and one more overlay per snapshot, in snapshot
      order, after any overlays already open. */
  function StartAsync(c: Controller): (c': Controller)
    ensures c'.selection == Some(Pending)
    ensures c'.mapping == c.mapping && c'.retired == c.retired
    ensures |c'.overlays| == |c.overlays| + |c.mapping| && c'.overlays[..|c.overlays|] == c.overlays
    ensures forall i :: 0 <= i < |c.mapping| ==> FreshFor(c'.overlays[|c.overlays| + i], c.mapping[i], c.mapping)
    ensures forall i :: 0 <= i < |c.mapping| ==>
              c'.overlays[|c.overlays| + i].window
                == NewOverlay(c.mapping[i].screen, c.mapping, Some(Initial), c.crosshairs.horizontal, c.crosshairs.vertical)
  {
    var added := OpenOverlays(c.mapping, c.mapping, c.crosshairs);
    var c' := c.(selection := Some(Pending), overlays := c.overlays + added);
    assert forall i :: 0 <= i < |c.mapping| ==> c'.overlays[|c.overlays| + i] == added[i];
    c'
  }

  /** `TrySetResult`: only a pending result is completed; a completed one, or none, stays. */
  function TrySetResult(t: Option<TaskState>, v: Option<PixelRect>): (t': Option<TaskState>)
    ensures t == Some(Pending) ==> t' == Some(Completed(v))
    ensures t != Some(Pending) ==> t' == t
  {
    match t
    case Some(Pending) => Some(Completed(v))
    case _ => t
  }

  /** Unsubscribing and closing every overlay of a list. */
  function Detach(es: seq<OverlayEntry>): (r: seq<OverlayEntry>)
    ensures |r| == |es|
    ensures forall i :: 0 <= i < |r| ==>
              !r[i].subscribed && r[i].window.closed && r[i].window == es[i].window.(closed := true)
              && r[i].shown == es[i].shown
  {
    if |es| == 0 then []
    else [OverlayEntry(es[0].window.(closed := true), false, es[0].shown)] + Detach(es[1..])
  }

  /** `CloseAll`: every open overlay is detached and closed, and the list is cleared. */
  function CloseAll(c: Controller): (c': Controller)
    ensures c'.overlays == []
    ensures c'.retired == c.retired + Detach(c.overlays)
    ensures c'.selection == c.selection && c'.mapping == c.mapping
  {
    c.(overlays := [], retired := c.retired + Detach(c.overlays))
  }

  /** `OnSelectionConfirmed`. */
  function SelectionConfirmed(c: Controller, rect: PixelRect): (c': Controller)
    ensures c.selection == Some(Pending) ==> c'.selection == Some(Completed(Some(rect)))
    ensures c.selection != Some(Pending) ==> c'.selection == c.selection
    ensures c'.overlays == [] && c'.retired == c.retired + Detach(c.overlays)
  {
    CloseAll(c.(selection := TrySetResult(c.selection, Some(rect))))
  }

  /** `OnSelectionCanceled`. */
  function SelectionCanceled(c: Controller): (c': Controller)
    ensures c.selection == Some(Pending) ==> c'.selection == Some(Completed(None))
    ensures c.selection != Some(Pending) ==> c'.selection == c.selection
    ensures c'.overlays == [] && c'.retired == c.retired + Detach(c.overlays)
  {
    CloseAll(c.(selection := TrySetResult(c.selection, None)))
  }

  /** The controller's reaction to what an overlay raised. An exception is not the
      controller's to handle and leaves it as it was. */
  function OnRaised(c: Controller, r: Raised): (c': Controller)
    ensures r.Threw? ==> c' == c
    ensures r.Confirmed? ==> c'.selection == TrySetResult(c.selection, Some(r.rect))
    ensures r.Canceled? ==> c'.selection == TrySetResult(c.selection, None)
    ensures !r.Threw? ==> c'.overlays == [] && c'.retired == c.retired + Detach(c.overlays)
    ensures c'.mapping == c.mapping
  {
    match r
    case Confirmed(rect) => SelectionConfirmed(c, rect)
    case Canceled => SelectionCanceled(c)
    case Threw => c
  }

  /** The controller's handlers run, in order, for each event the overlay raised. */
  function Dispatch(c: Controller, rs: seq<Raised>): (c': Controller)
    ensures c' == c || c'.overlays == []
    ensures c'.mapping == c.mapping
    decreases |rs|
  {
    if |rs| == 0 then c else Dispatch(OnRaised(c, rs[0]), rs[1..])
  }

  /** The value the first confirm or cancel in a sequence carries, if there is one. */
  function FirstOutcome(rs: seq<Raised>): (v: Option<Option<PixelRect>>)
    ensures v.None? <==> forall i :: 0 <= i < |rs| ==> rs[i] == Threw
  {
    if |rs| == 0 then None
    else match rs[0]
      case Confirmed(rect) => Some(Some(rect))
      case Canceled => Some(None)
      case Threw => FirstOutcome(rs[1..])
  }

  /** Once the result is completed, or when no result was ever started, no later confirm
      or cancel changes it. */
  lemma {:induction false} SettledStaysSettled(c: Controller, rs: seq<Raised>)
    requires c.selection != Some(Pending)
    ensures Dispatch(c, rs).selection == c.selection
    decreases |rs|
  {
    if |rs| > 0 {
      SettledStaysSettled(OnRaised(c, rs[0]), rs[1..]);
    }
  }

  /** First result wins: from a pending result, the outcome is the value of the first
      confirm or cancel; if none arrives the result stays pending. */
  lemma {:induction false} FirstResultWins(c: Controller, rs: seq<Raised>)
    requires c.selection == Some(Pending)
    ensures Dispatch(c, rs).selection
              == (if FirstOutcome(rs).Some? then Some(Completed(FirstOutcome(rs).value)) else Some(Pending))
    decreases |rs|
  {
    if |rs| > 0 {
      var next := OnRaised(c, rs[0]);
      if rs[0].Threw? {
        FirstResultWins(next, rs[1..]);
      } else {
        SettledStaysSettled(next, rs[1..]);
      }
    }
  }

  /** With no overlay open, nothing raised opens or retires one. */
  lemma {:induction false} DispatchWhenClosed(c: Controller, rs: seq<Raised>)
    requires c.overlays == []
    ensures Dispatch(c, rs).overlays == [] && Dispatch(c, rs).retired == c.retired
    ensures Dispatch(c, rs).mapping == c.mapping
    decreases |rs|
  {
    if |rs| > 0 {
      var next := OnRaised(c, rs[0]);
      assert next.retired == c.retired + Detach([]) == c.retired;
      DispatchWhenClosed(next, rs[1..]);
    }
  }

  /** What a sequence of raised events does to the controller: only exceptions leave it
      untouched; otherwise the open overlays are detached and closed exactly once, and a
      pending result takes the first confirm or cancel. */
  lemma {:induction false} DispatchOutcome(c: Controller, rs: seq<Raised>)
    ensures Dispatch(c, rs).mapping == c.mapping
    ensures FirstOutcome(rs).None? ==> Dispatch(c, rs) == c
    ensures FirstOutcome(rs).Some? ==>
              Dispatch(c, rs).overlays == [] && Dispatch(c, rs).retired == c.retired + Detach(c.overlays)
    ensures Dispatch(c, rs).selection
              == (if c.selection == Some(Pending) && FirstOutcome(rs).Some?
                  then Some(Completed(FirstOutcome(rs).value)) else c.selection)
    decreases |rs|
  {
    if |rs| > 0 {
      var next := OnRaised(c, rs[0]);
      if rs[0].Threw? {
        DispatchOutcome(next, rs[1..]);
      } else {
        DispatchWhenClosed(next, rs[1..]);
        SettledStaysSettled(next, rs[1..]);
      }
    }
  }

  /** The k-th open overlay has handled an input event, ending as `t.o` and raising
      `t.raised`. The list holds the windows themselves, so the handled window replaces the
      stored one; what it raised reaches the controller only while the controller's
      handlers are attached to it. */
  function Deliver(c: Controller, k: nat, t: Transition): (c': Controller)
    requires k < |c.overlays|
    ensures c'.mapping == c.mapping
    ensures c'.selection
              == (if c.overlays[k].subscribed && c.selection == Some(Pending) && FirstOutcome(t.raised).Some?
                  then Some(Completed(FirstOutcome(t.raised).value)) else c.selection)
    ensures !c.overlays[k].subscribed || FirstOutcome(t.raised).None? ==>
              c' == c.(overlays := c.overlays[k := c.overlays[k].(window := t.o)])
    ensures c.overlays[k].subscribed && FirstOutcome(t.raised).Some? ==> c'.overlays == []
  {
    var handled := c.(overlays := c.overlays[k := c.overlays[k].(window := t.o)]);
    if c.overlays[k].subscribed then
      DispatchOutcome(handled, t.raised);
      Dispatch(handled, t.raised)
    else handled
  }

  /** An input event delivered to the k-th open overlay. */
  function OverlayEvent(c: Controller, k: nat, e: Event): (c': Controller)
    requires k < |c.overlays|
    ensures c'.mapping == c.mapping
    ensures c.selection != Some(Pending) ==> c'.selection == c.selection
    ensures c'.overlays != [] ==>
              && |c'.overlays| == |c.overlays|
              && c'.overlays == c.overlays[k := c.overlays[k].(window := c'.overlays[k].window)]
              && c'.overlays[k].window.screen == c.overlays[k].window.screen
  {
    Deliver(c, k, Handle(c.overlays[k].window, e))
  }

  /** Events delivered in order to the window at position k of the list; once it is no
      longer open there, the rest reach no handler of the controller. */
  function DeliverAll(c: Controller, k: nat, es: seq<Event>): (c': Controller)
    ensures c'.mapping == c.mapping
    ensures c.selection != Some(Pending) ==> c'.selection == c.selection
    decreases |es|
  {
    if |es| == 0 || k >= |c.overlays| then c
    else DeliverAll(OverlayEvent(c, k, es[0]), k, es[1..])
  }

  /** After an overlay raises a confirm or cancel, no overlay is open. Every overlay that was
      open is closed and detached, and that includes the window that raised it, in the state
      its handler left it in. */
  lemma {:induction false} CompletionClosesEverything(c: Controller, k: nat, t: Transition)
    requires k < |c.overlays| && c.overlays[k].subscribed
    requires FirstOutcome(t.raised).Some?
    ensures Deliver(c, k, t).overlays == []
    ensures |Deliver(c, k, t).retired| == |c.retired| + |c.overlays|
    ensures forall i :: 0 <= i < |c.overlays| ==>
              var r := Deliver(c, k, t).retired[|c.retired| + i];
              var w := if i == k then t.o else c.overlays[i].window;
              r.window == w.(closed := true) && r.window.closed && !r.subscribed
  {
    var handled := c.(overlays := c.overlays[k := c.overlays[k].(window := t.o)]);
    DispatchOutcome(handled, t.raised);
  }

  /** A press raises nothing: the pressed window is stored back in place. */
  lemma PressIsStored(c: Controller, k: nat, a: Point)
    requires k < |c.overlays|
    ensures OverlayEvent(c, k, Press(a))
              == c.(overlays := c.overlays[k := c.overlays[k].(window := PointerPressed(c.overlays[k].window, a).o)])
  {
  }

  /** A move during a drag raises nothing: the moved window is stored back in place. */
  lemma DragMoveIsStored(c: Controller, k: nat, b: Point, env: WindowSnapping.SnapEnvironment)
    requires k < |c.overlays| && c.overlays[k].window.anchor.Some?
    ensures OverlayEvent(c, k, Move(b, env))
              == c.(overlays := c.overlays[k := c.overlays[k].(window := PointerMoved(c.overlays[k].window, b, env).o)])
  {
  }

  /** One event of a run reaches the window while it is still open. */
  lemma DeliverAllStep(c: Controller, k: nat, es: seq<Event>)
    requires |es| > 0 && k < |c.overlays|
    ensures DeliverAll(c, k, es) == DeliverAll(OverlayEvent(c, k, es[0]), k, es[1..])
  {
  }

  /** A press and a move raise nothing, so a run of press, move and release comes down to
      the release reaching the pressed and moved window, stored in place. */
  lemma {:induction false} DragIsStored(c: Controller, k: nat, a: Point, b: Point, env: WindowSnapping.SnapEnvironment)
    requires k < |c.overlays|
    ensures
      var moved := PointerMoved(PointerPressed(c.overlays[k].window, a).o, b, env).o;
      DeliverAll(c, k, [Press(a), Move(b, env), Release])
        == Deliver(c.(overlays := c.overlays[k := c.overlays[k].(window := moved)]), k, PointerReleased(moved))
  {
    var es := [Press(a), Move(b, env), Release];
    var e := c.overlays[k];
    var w1 := PointerPressed(e.window, a).o;
    var w2 := PointerMoved(w1, b, env).o;
    PressIsStored(c, k, a);
    var pressed := OverlayEvent(c, k, Press(a));
    assert pressed == c.(overlays := c.overlays[k := e.(window := w1)]);
    DragMoveIsStored(pressed, k, b, env);
    var moved := OverlayEvent(pressed, k, Move(b, env));
    assert moved.overlays == pressed.overlays[k := e.(window := w2)] == c.overlays[k := e.(window := w2)];
    assert moved == c.(overlays := c.overlays[k := e.(window := w2)]);
    DeliverAllStep(c, k, es);
    assert es[1..] == [Move(b, env), Release];
    DeliverAllStep(pressed, k, es[1..]);
    assert es[1..][1..] == [Release];
    DeliverAllStep(moved, k, es[1..][1..]);
    var done := OverlayEvent(moved, k, Release);
    assert done == Deliver(moved, k, PointerReleased(w2));
    assert DeliverAll(done, k, []) == done;
  }

  /** Press, drag and release on an open, subscribed overlay of a mapped screen complete a
      pending result with the physical image of the dragged rectangle and close every
      overlay. */
  lemma {:induction false} DragOnOverlay(c: Controller, k: nat, a: Point, b: Point, env: WindowSnapping.SnapEnvironment)
    requires k < |c.overlays| && c.overlays[k].subscribed && Mapped(c.overlays[k].window)
    requires c.selection == Some(Pending)
    ensures
      var w := c.overlays[k].window;
      var done := DeliverAll(c, k, [Press(a), Move(b, env), Release]);
      && done.selection == Some(Completed(LogicalToVirtualPhysical(DragRect(a, b), w.screen, w.mapping)))
      && done.overlays == []
      && |done.retired| == |c.retired| + |c.overlays|
  {
    var w := c.overlays[k].window;
    var w2 := PointerMoved(PointerPressed(w, a).o, b, env).o;
    DragIsStored(c, k, a, b, env);
    DragAndReleaseConfirmsSpannedRect(w, a, b, env);
    var moved := c.(overlays := c.overlays[k := c.overlays[k].(window := w2)]);
    ReleaseCompletes(moved, k, PointerReleased(w2), LogicalToVirtualPhysical(DragRect(a, b), w.screen, w.mapping).value);
  }

  /** The overlay that was dragged and released is itself retired closed, still holding the
      dragged selection: the window closed is the one the events reached. */
  lemma {:induction false} DragRetiresDraggedWindow(c: Controller, k: nat, a: Point, b: Point, env: WindowSnapping.SnapEnvironment)
    requires k < |c.overlays| && c.overlays[k].subscribed && Mapped(c.overlays[k].window)
    ensures
      var done := DeliverAll(c, k, [Press(a), Move(b, env), Release]);
      && |done.retired| == |c.retired| + |c.overlays|
      && done.retired[|c.retired| + k].window.closed
      && done.retired[|c.retired| + k].window.vm.selection == DragRect(a, b)
  {
    var w := c.overlays[k].window;
    var w1 := PointerPressed(w, a).o;
    var w2 := PointerMoved(w1, b, env).o;
    DragIsStored(c, k, a, b, env);
    assert w2.anchor.Some? && w2.vm.selection == DragRect(a, b);
    assert Mapped(w2) by {
      var i :| 0 <= i < |w.mapping| && w.mapping[i].screen == w.screen;
      assert w2.mapping[i].screen == w2.screen;
    }
    var t := PointerReleased(w2);
    assert t.o == w2.(anchor := None) && t.raised != [] && !t.raised[0].Threw?;
    StoredRaiserRetired(c, k, w2, t);
  }

  /** The window stored at k that raises a confirm or cancel is retired, closed, at the
      same position among the overlays retired with it. */
  lemma StoredRaiserRetired(c: Controller, k: nat, w: Overlay, t: Transition)
    requires k < |c.overlays| && c.overlays[k].subscribed && FirstOutcome(t.raised).Some?
    ensures
      var done := Deliver(c.(overlays := c.overlays[k := c.overlays[k].(window := w)]), k, t);
      && |done.retired| == |c.retired| + |c.overlays|
      && done.retired[|c.retired| + k].window == t.o.(closed := true)
  {
    CompletionClosesEverything(c.(overlays := c.overlays[k := c.overlays[k].(window := w)]), k, t);
  }

  /** A subscribed overlay that confirms a rectangle completes a pending result with it and
      is retired closed, in the state its handler left it in, along with every other overlay. */
  lemma ReleaseCompletes(c: Controller, k: nat, t: Transition, rect: PixelRect)
    requires k < |c.overlays| && c.overlays[k].subscribed && c.selection == Some(Pending)
    requires t.raised == [Confirmed(rect)]
    ensures Deliver(c, k, t).selection == Some(Completed(Some(rect)))
    ensures Deliver(c, k, t).overlays == [] && |Deliver(c, k, t).retired| == |c.retired| + |c.overlays|
  {
    assert FirstOutcome(t.raised) == Some(Some(rect));
    CompletionClosesEverything(c, k, t);
  }

  /** End to end: after `StartAsync`, a press, a drag and a release delivered to the k-th
      screen's overlay complete the result with that screen's physical image of the dragged
      rectangle, and every overlay opened is retired. (`DragOnOverlay` says the dragged
      window itself is among them, closed.) */
  lemma {:induction false} CaptureByDrag(c: Controller, k: nat, a: Point, b: Point, env: WindowSnapping.SnapEnvironment)
    requires c.overlays == [] && k < |c.mapping|
    ensures
      var done := DeliverAll(StartAsync(c), k, [Press(a), Move(b, env), Release]);
      && done.selection == Some(Completed(LogicalToVirtualPhysical(DragRect(a, b), c.mapping[k].screen, c.mapping)))
      && done.overlays == []
      && |done.retired| == |c.retired| + |c.mapping|
  {
    var started := StartAsync(c);
    var w := started.overlays[k].window;
    assert FreshFor(started.overlays[0 + k], c.mapping[k], c.mapping);
    assert Mapped(w) by { assert w.mapping[k].screen == w.screen; }
    DragOnOverlay(started, k, a, b, env);
  }
}
