/** The canvas element and its five event handlers. The element keeps its
    gesture state (`active`, `lastX`/`lastY`) and its stroke style in data
    attributes that the handlers update in place; here they are the fields
    of a `Canvas` object. The Canvas 2D calls of a move become a returned
    draw command, also appended to the ghost log `Strokes`. */
module GraffitiCanvas {
  import opened Wrappers
  import opened Input
  import opened Gesture

  class Canvas {
    /** The stored `active` attribute is exactly 'true'. */
    var active: bool
    /** The stored (lastX, lastY); None when they are not numbers. */
    var last: Option<Point>
    /** The stored `strokestyle` attribute, if any. */
    var strokeStyle: Option<string>

    /** The gesture state when the element was last initialised, the events
        handled since, and the draw commands they issued. */
    ghost var Origin: State
    ghost var Events: seq<Event>
    ghost var Strokes: seq<Segment>

    function Current(): State
      reads this
    {
      State(active, last)
    }

    /** The colour a move draws in. */
    function Color(): string
      reads this
    {
      StrokeColor(strokeStyle)
    }

    /** The element is consistent, and its state and draw log are exactly
        those of replaying its events since initialisation. */
    ghost predicate Valid()
      reads this
    {
      Consistent(Current())
      && Run(Origin, Color(), Events) == Trace(Current(), Strokes)
    }

    /** An element as the page holds it before initialisation: no data
        attributes. */
    constructor ()
      ensures Valid()
      ensures Current() == Idle && strokeStyle == None
      ensures Events == [] && Strokes == []
    {
      active := false;
      last := None;
      strokeStyle := None;
      Origin := Idle;
      Events := [];
      Strokes := [];
    }

    /** The state set by initialisation: lastX and lastY become null and a
        truthy style is stored; the `active` attribute is left as it is. */
    method Init(style: Option<string>)
      requires Valid()
      modifies this
      ensures Valid()
      ensures active == old(active) && last == None
      ensures strokeStyle == StoredStyle(old(strokeStyle), style)
      ensures Origin == Current() && Events == [] && Strokes == []
    {
      last := None;
      if style.Some? && style.value != "" {
        strokeStyle := style;
      }
      Origin := Current();
      Events := [];
      Strokes := [];
    }

    /** Mouse-down: the gesture becomes active at the element-relative
        position of the event. */
    method StartDrawingMouse(rect: Rect, e: MouseEvent) returns (suppressed: bool)
      requires Valid()
      modifies this
      ensures Valid()
      ensures Step(old(Current()), Color(), MouseDown(rect, e)) == Reaction(Current(), None, suppressed)
      ensures suppressed && active && last == Some(MousePosition(rect, e))
      ensures strokeStyle == old(strokeStyle) && Origin == old(Origin)
      ensures Events == old(Events) + [MouseDown(rect, e)] && Strokes == old(Strokes)
    {
      suppressed := true;
      var pos := MousePosition(rect, e);
      active := true;
      last := Some(pos);
      RunSnoc(Origin, Color(), Events, MouseDown(rect, e));
      Events := Events + [MouseDown(rect, e)];
    }

    /** Mouse-move: nothing unless the gesture is active; otherwise one
        segment from the last point to the event's element-relative
        position, which becomes the last point. */
    method WhileDrawingMouse(rect: Rect, e: MouseEvent) returns (drawn: Option<Segment>, suppressed: bool)
      requires Valid()
      modifies this
      ensures Valid()
      ensures Step(old(Current()), Color(), MouseMove(rect, e)) == Reaction(Current(), drawn, suppressed)
      ensures suppressed
      ensures !old(active) ==> drawn == None && Current() == old(Current())
      ensures old(active) ==>
                drawn == Some(Segment(old(last), Some(MousePosition(rect, e)), Color()))
                && active && last == Some(MousePosition(rect, e))
      ensures Strokes == old(Strokes) + (if drawn.Some? then [drawn.value] else [])
      ensures strokeStyle == old(strokeStyle) && Origin == old(Origin)
      ensures Events == old(Events) + [MouseMove(rect, e)]
    {
      suppressed := true;
      RunSnoc(Origin, Color(), Events, MouseMove(rect, e));
      Events := Events + [MouseMove(rect, e)];
      if !active {
        drawn := None;
        return;
      }
      var pos := MousePosition(rect, e);
      drawn := Some(Segment(last, Some(pos), Color()));
      Strokes := Strokes + [drawn.value];
      last := Some(pos);
    }

    /** Mouse-up: the gesture ends and the last point is cleared, whatever
        the state before. */
    method EndDrawingMouse() returns (suppressed: bool)
      requires Valid()
      modifies this
      ensures Valid()
      ensures Step(old(Current()), Color(), MouseUp) == Reaction(Current(), None, suppressed)
      ensures suppressed && Current() == Idle
      ensures strokeStyle == old(strokeStyle) && Origin == old(Origin)
      ensures Events == old(Events) + [MouseUp] && Strokes == old(Strokes)
    {
      suppressed := true;
      active := false;
      last := None;
      RunSnoc(Origin, Color(), old(Events), MouseUp);
      Events := Events + [MouseUp];
    }

    /** Touch-start: the gesture becomes active at the touch's raw viewport
        coordinates (None when the event offers none). The handler aborts
        with no effect when the event's own clientX/clientY are not both
        truthy and the target-touch list is empty. */
    method StartDrawingTouch(e: TouchEvent) returns (suppressed: bool, aborted: bool)
      requires Valid()
      modifies this
      ensures Valid()
      ensures Step(old(Current()), Color(), TouchStart(e)) == Reaction(Current(), None, suppressed)
      ensures aborted <==> TouchPosition(e).Thrown?
      ensures aborted ==> !suppressed && Current() == old(Current())
      ensures !aborted ==> suppressed == TouchPosition(e).suppressed
                           && active && last == TouchPosition(e).pos
      ensures strokeStyle == old(strokeStyle) && Origin == old(Origin)
      ensures Events == old(Events) + [TouchStart(e)] && Strokes == old(Strokes)
    {
      RunSnoc(Origin, Color(), Events, TouchStart(e));
      Events := Events + [TouchStart(e)];
      var read := TouchPosition(e);
      if read.Thrown? {
        suppressed, aborted := false, true;
        return;
      }
      suppressed, aborted := read.suppressed, false;
      active := true;
      last := read.pos;
    }

    /** Touch-move: the coordinates are read (and default handling
        suppressed) before the activity check; then, as for the mouse, one
        segment to the raw viewport point when the gesture is active. */
    method WhileDrawingTouch(e: TouchEvent) returns (drawn: Option<Segment>, suppressed: bool, aborted: bool)
      requires Valid()
      modifies this
      ensures Valid()
      ensures Step(old(Current()), Color(), TouchMove(e)) == Reaction(Current(), drawn, suppressed)
      ensures aborted <==> TouchPosition(e).Thrown?
      ensures aborted ==> !suppressed && drawn == None && Current() == old(Current())
      ensures !aborted ==> suppressed == TouchPosition(e).suppressed
      ensures !aborted && !old(active) ==> drawn == None && Current() == old(Current())
      ensures !aborted && old(active) ==>
                drawn == Some(Segment(old(last), TouchPosition(e).pos, Color()))
                && active && last == TouchPosition(e).pos
      ensures Strokes == old(Strokes) + (if drawn.Some? then [drawn.value] else [])
      ensures strokeStyle == old(strokeStyle) && Origin == old(Origin)
      ensures Events == old(Events) + [TouchMove(e)]
    {
      RunSnoc(Origin, Color(), Events, TouchMove(e));
      Events := Events + [TouchMove(e)];
      drawn := None;
      var read := TouchPosition(e);
      if read.Thrown? {
        suppressed, aborted := false, true;
        return;
      }
      suppressed, aborted := read.suppressed, false;
      if !active {
        return;
      }
      drawn := Some(Segment(last, read.pos, Color()));
      Strokes := Strokes + [drawn.value];
      last := read.pos;
    }
  }

  /** Every draw command an element has issued since initialisation is in
      its stroke colour. */
  lemma StrokesInCanvasColor(c: Canvas)
    requires c.Valid()
    ensures forall seg :: seg in c.Strokes ==> seg.color == c.Color()
  {
    RunColor(c.Origin, c.Color(), c.Events);
  }

  /** Initialisation by selector, given the elements the selector matches in
      document order: only the first is initialised, and nothing happens
      when there is none. */
  method GcInit(matches: seq<Canvas>, style: Option<string>) returns (bound: Option<Canvas>)
    requires matches != [] ==> matches[0].Valid()
    modifies if matches == [] then {} else {matches[0]}
    ensures matches == [] ==> bound == None
    ensures matches != [] ==>
              var c := matches[0];
              bound == Some(c) && c.Valid()
              && c.active == old(c.active) && c.last == None
              && c.strokeStyle == StoredStyle(old(c.strokeStyle), style)
              && c.Events == [] && c.Strokes == []
  {
    if matches == [] {
      return None;
    }
    var canvas := matches[0];
    canvas.Init(style);
    bound := Some(canvas);
  }
}
