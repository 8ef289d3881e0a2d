/** Input normalisation: turning the data of a mouse or touch event into the
    point that the gesture handlers store and draw to. */
module Input {
  import opened Wrappers

  /** A point in CSS pixels. */
  datatype Point = Point(x: int, y: int)

  /** The top-left corner of an element's bounding client rectangle, read
      afresh for every mouse event (it moves when the page scrolls). */
  datatype Rect = Rect(left: int, top: int)

  /** The viewport coordinates carried by a mouse event. */
  datatype MouseEvent = MouseEvent(clientX: int, clientY: int)

  /** A touch event as the touch handlers see it: its own `clientX` and
      `clientY` (None when the event has no such property) and its
      `targetTouches` list (None when the event has none), each touch given
      by its viewport coordinates. */
  datatype TouchEvent = TouchEvent(clientX: Option<int>, clientY: Option<int>,
                                   targetTouches: Option<seq<Point>>)

  /** JavaScript truthiness of a numeric property: present and non-zero. */
  predicate Truthy(v: Option<int>) {
    v.Some? && v.value != 0
  }

  /** The position of a mouse event relative to the element's top-left
      corner. */
  function MousePosition(rect: Rect, e: MouseEvent): (p: Point)
    ensures p.x + rect.left == e.clientX && p.y + rect.top == e.clientY
  {
    Point(e.clientX - rect.left, e.clientY - rect.top)
  }

  /** The point a mouse position denotes in viewport coordinates. */
  function ToClient(rect: Rect, p: Point): Point {
    Point(p.x + rect.left, p.y + rect.top)
  }

  /** Normalising and mapping back to the viewport undo each other: the
      client point of a mouse position is the event's own point, and the
      mouse position of an event at the client point of `p` is `p`. */
  lemma MousePositionInverse(rect: Rect, e: MouseEvent, p: Point)
    ensures ToClient(rect, MousePosition(rect, e)) == Point(e.clientX, e.clientY)
    ensures MousePosition(rect, MouseEvent(ToClient(rect, p).x, ToClient(rect, p).y)) == p
  {
  }

  /** Moving the element and the pointer by the same offset leaves the
      position unchanged; an element at the viewport origin sees the client
      point itself. */
  lemma MousePositionTranslation(rect: Rect, e: MouseEvent, dx: int, dy: int)
    ensures MousePosition(Rect(rect.left + dx, rect.top + dy),
                          MouseEvent(e.clientX + dx, e.clientY + dy))
            == MousePosition(rect, e)
    ensures MousePosition(Rect(0, 0), e) == Point(e.clientX, e.clientY)
  {
  }

  /** What a touch handler reads from its event: the point (None when the
      coordinates stay `undefined`) and whether it called `preventDefault`;
      or `Thrown` when reading the first target touch of an empty list
      raises a TypeError, which aborts the handler. */
  datatype TouchRead = Read(pos: Option<Point>, suppressed: bool) | Thrown

  /** The coordinate selection shared by both touch handlers. The
      coordinates are the raw viewport ones: no bounding rectangle is
      subtracted. */
  function TouchPosition(e: TouchEvent): (r: TouchRead)
    ensures r.Thrown? <==> !(Truthy(e.clientX) && Truthy(e.clientY))
                           && e.targetTouches == Some([])
    ensures r.Read? && r.suppressed <==> !(Truthy(e.clientX) && Truthy(e.clientY))
                                         && e.targetTouches.Some? && e.targetTouches.value != []
  {
    if Truthy(e.clientX) && Truthy(e.clientY) then
      Read(Some(Point(e.clientX.value, e.clientY.value)), false)
    else if e.targetTouches.Some? then
      if e.targetTouches.value != [] then Read(Some(e.targetTouches.value[0]), true)
      else Thrown
    else
      Read(None, false)
  }

  /** Where the touch point comes from, case by case: the event's own
      coordinates when both are truthy, otherwise the first target touch,
      otherwise nothing. */
  lemma TouchPositionCases(e: TouchEvent)
    ensures Truthy(e.clientX) && Truthy(e.clientY) ==>
              TouchPosition(e) == Read(Some(Point(e.clientX.value, e.clientY.value)), false)
    ensures !(Truthy(e.clientX) && Truthy(e.clientY)) && e.targetTouches.Some?
            && |e.targetTouches.value| > 0 ==>
              TouchPosition(e) == Read(Some(e.targetTouches.value[0]), true)
    ensures !(Truthy(e.clientX) && Truthy(e.clientY)) && e.targetTouches.None? ==>
              TouchPosition(e) == Read(None, false)
  {
  }

  /** A touch and a mouse event at the same viewport point yield the same
      position exactly when the element sits at the viewport origin: the
      touch path is not element-relative. */
  lemma TouchIsViewportRelative(rect: Rect, c: Point, rest: seq<Point>)
    ensures TouchPosition(TouchEvent(None, None, Some([c] + rest))).pos
              == Some(MousePosition(rect, MouseEvent(c.x, c.y)))
            <==> rect == Rect(0, 0)
  {
  }
}
