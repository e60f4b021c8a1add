/** The books carousel (`initBooksCarousel`): mouse and touch dragging, and
    the opacity of the previous/next buttons at the scroll edges. Positions
    are whole CSS pixels; `offsetLeft` is the carousel's left offset in the
    page, a layout fact passed in with each event. */
module Carousel {

  /** Drag sensitivity: the content moves twice as far as the pointer. */
  const DragFactor := 2

  /** How close to the right end the next button already dims. */
  const EndTolerance := 10

  const DimmedOpacity: real := 0.3
  const FullOpacity: real := 1.0

  /** The closure state of the handlers (`isDown`, `startX`, `scrollLeft`,
      `touchStartX`, `touchScrollLeft`), the carousel's `active` class and
      its current `scrollLeft`. */
  datatype Drag = Drag(
    isDown: bool,
    active: bool,
    startX: int,
    startScroll: int,
    touchStartX: int,
    touchStartScroll: int,
    scrollLeft: int)

  datatype Event =
    | MouseDown(pageX: int)
    | MouseLeave
    | MouseUp
    | MouseMove(pageX: int)
    | TouchStart(pageX: int)
    | TouchMove(pageX: int)
    | Scrolled(left: int)      // scrolling by other means (wheel, buttons)

  /** The state at load: nothing pressed, touch anchors at zero. The mouse
      anchors are unset in the script; they are never read before a press. */
  function Init(scrollLeft: int): Drag {
    Drag(false, false, 0, 0, 0, 0, scrollLeft)
  }

  /** Where a drag that started at `startX` with the carousel scrolled to
      `startScroll` puts the carousel when the pointer is at `x`. */
  function DragTarget(startScroll: int, startX: int, x: int): (left: int)
    ensures x > startX ==> left < startScroll
    ensures x < startX ==> left > startScroll
    ensures x == startX ==> left == startScroll
    ensures left + DragFactor * x == startScroll + DragFactor * startX
  {
    startScroll - (x - startX) * DragFactor
  }

  function Step(d: Drag, offsetLeft: int, e: Event): Drag {
    match e
    case MouseDown(pageX) =>
      d.(isDown := true, active := true, startX := pageX - offsetLeft, startScroll := d.scrollLeft)
    case MouseLeave => d.(isDown := false, active := false)
    case MouseUp => d.(isDown := false, active := false)
    case MouseMove(pageX) =>
      if !d.isDown then d
      else d.(scrollLeft := DragTarget(d.startScroll, d.startX, pageX - offsetLeft))
    case TouchStart(pageX) =>
      d.(touchStartX := pageX - offsetLeft, touchStartScroll := d.scrollLeft)
    case TouchMove(pageX) =>
      d.(scrollLeft := DragTarget(d.touchStartScroll, d.touchStartX, pageX - offsetLeft))
    case Scrolled(left) => d.(scrollLeft := left)
  }

  /** The `active` class is present exactly while the mouse button is down. */
  lemma ActiveWhileDown(d: Drag, offsetLeft: int, e: Event)
    requires d.active == d.isDown
    ensures Step(d, offsetLeft, e).active == Step(d, offsetLeft, e).isDown
  {
  }

  /** While the button is down, a move puts the carousel at the start offset
      minus twice the distance the pointer travelled since the press. */
  lemma DragMove(d: Drag, offsetLeft: int, x0: int, x: int)
    ensures var r := Step(Step(d, offsetLeft, MouseDown(x0)), offsetLeft, MouseMove(x));
      r.scrollLeft == d.scrollLeft - 2 * (x - x0)
  {
  }

  /** A move with the button up changes nothing. */
  lemma MoveWhileUp(d: Drag, offsetLeft: int, x: int)
    requires !d.isDown
    ensures Step(d, offsetLeft, MouseMove(x)) == d
  {
  }

  /** Releasing or leaving ends the drag: later moves do nothing. */
  lemma ReleaseEndsDrag(d: Drag, offsetLeft: int, e: Event, x: int)
    requires e == MouseUp || e == MouseLeave
    ensures var r := Step(d, offsetLeft, e);
      !r.isDown && Step(r, offsetLeft, MouseMove(x)) == r
  {
  }

  /** Moves do not accumulate: after any number of moves, one more puts the
      carousel where a single move from the press would. */
  lemma MovesDoNotAccumulate(d: Drag, offsetLeft: int, x1: int, x2: int)
    requires d.isDown
    ensures Step(Step(d, offsetLeft, MouseMove(x1)), offsetLeft, MouseMove(x2))
      == Step(d, offsetLeft, MouseMove(x2))
  {
  }

  /** Returning the pointer to where the press happened restores the offset
      the drag started from. */
  lemma BackToStart(d: Drag, offsetLeft: int, x0: int, x: int)
    ensures var pressed := Step(d, offsetLeft, MouseDown(x0));
      var r := Step(Step(pressed, offsetLeft, MouseMove(x)), offsetLeft, MouseMove(x0));
      r.scrollLeft == d.scrollLeft
  {
  }

  /** Touch dragging uses the same multiplier: a touch drag and a mouse drag
      over the same distance end at the same offset. */
  lemma TouchMirrorsMouse(d: Drag, offsetLeft: int, x0: int, x: int)
    ensures Step(Step(d, offsetLeft, TouchStart(x0)), offsetLeft, TouchMove(x)).scrollLeft
      == Step(Step(d, offsetLeft, MouseDown(x0)), offsetLeft, MouseMove(x)).scrollLeft
  {
  }

  /** The touchmove handler checks no pressed flag: run on its own, it drags
      from the anchors as initialised, offset 0 at position 0. This is a
      property of the handler code; a browser always sends the touch's own
      `touchstart` through the carousel first. */
  lemma TouchMoveWithoutStart(scrollLeft: int, offsetLeft: int, pageX: int)
    ensures Step(Init(scrollLeft), offsetLeft, TouchMove(pageX)).scrollLeft
      == -2 * (pageX - offsetLeft)
  {
  }

  function Run(d: Drag, offsetLeft: int, events: seq<Event>): Drag
    decreases |events|
  {
    if events == [] then d else Run(Step(d, offsetLeft, events[0]), offsetLeft, events[1..])
  }

  /** Over any sequence of events, `active` stays equal to `isDown`. */
  lemma {:induction false} RunActiveWhileDown(d: Drag, offsetLeft: int, events: seq<Event>)
    requires d.active == d.isDown
    ensures Run(d, offsetLeft, events).active == Run(d, offsetLeft, events).isDown
    decreases |events|
  {
    if events != [] {
      ActiveWhileDown(d, offsetLeft, events[0]);
      RunActiveWhileDown(Step(d, offsetLeft, events[0]), offsetLeft, events[1..]);
    }
  }

  // -----------------------------------------------------------------------
  // Button opacity (`updateButtons`)
  // -----------------------------------------------------------------------

  /** Opacity of the previous button: dimmed at or before the left edge. */
  function PrevOpacity(scrollLeft: int): real {
    if scrollLeft <= 0 then DimmedOpacity else FullOpacity
  }

  /** Opacity of the next button: dimmed within `EndTolerance` pixels of the
      right edge, `scrollWidth - clientWidth`. */
  function NextOpacity(scrollLeft: int, scrollWidth: int, clientWidth: int): real {
    if scrollLeft >= scrollWidth - clientWidth - EndTolerance then DimmedOpacity else FullOpacity
  }

  /** Both buttons, as `updateButtons` sets them. */
  function Opacities(scrollLeft: int, scrollWidth: int, clientWidth: int): (r: (real, real))
    ensures r.0 == DimmedOpacity <==> scrollLeft <= 0
    ensures r.1 == DimmedOpacity <==> scrollLeft + clientWidth + EndTolerance >= scrollWidth
    ensures r.0 == DimmedOpacity || r.0 == FullOpacity
    ensures r.1 == DimmedOpacity || r.1 == FullOpacity
  {
    (PrevOpacity(scrollLeft), NextOpacity(scrollLeft, scrollWidth, clientWidth))
  }

  /** Scrolling left never un-dims the previous button and scrolling right
      never un-dims the next one. */
  lemma DimmingMonotone(a: int, b: int, scrollWidth: int, clientWidth: int)
    requires a <= b
    ensures PrevOpacity(b) == DimmedOpacity ==> PrevOpacity(a) == DimmedOpacity
    ensures NextOpacity(a, scrollWidth, clientWidth) == DimmedOpacity
      ==> NextOpacity(b, scrollWidth, clientWidth) == DimmedOpacity
  {
  }

  /** With more than `EndTolerance` pixels to scroll and the carousel not
      scrolled before its start, at most one button is dimmed. */
  lemma NotBothDimmed(scrollLeft: int, scrollWidth: int, clientWidth: int)
    requires scrollWidth - clientWidth > EndTolerance
    requires scrollLeft >= 0
    ensures PrevOpacity(scrollLeft) == FullOpacity
      || NextOpacity(scrollLeft, scrollWidth, clientWidth) == FullOpacity
  {
  }

  /** Content that fits within `EndTolerance` pixels dims both buttons at
      the start. */
  lemma ShortContentDimsBoth(scrollWidth: int, clientWidth: int)
    requires scrollWidth - clientWidth <= EndTolerance
    ensures Opacities(0, scrollWidth, clientWidth) == (DimmedOpacity, DimmedOpacity)
  {
  }
}
