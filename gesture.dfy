/** The per-canvas gesture state machine, as pure functions: what each of
    the five registered handlers does to the state, which draw command it
    issues, and what a whole sequence of events does. */
module Gesture {
  import opened Wrappers
  import opened Input

  /** The gesture part of an element's data attributes. `active` holds
      exactly when the stored `active` value is the string 'true'; `last`
      is the stored (lastX, lastY), None when the stored values are not
      numbers ('null' after a reset, 'undefined' after a touch without
      coordinates). */
  datatype State = State(active: bool, last: Option<Point>)

  /** The state of an element on which no gesture has started. */
  const Idle := State(false, None)

  /** The colour used when no stroke style was stored. */
  const DefaultColor := "black"

  /** One draw command: a straight line from `from` to `to` in `color`. An
      endpoint is None when the handler passed a non-numeric value. */
  datatype Segment = Segment(from: Option<Point>, to: Option<Point>, color: string)

  /** The stored stroke style after initialisation with `arg`: the argument
      when it is truthy (a non-empty string), otherwise whatever was stored
      before. */
  function StoredStyle(prior: Option<string>, arg: Option<string>): (r: Option<string>)
    ensures StrokeColor(r) == if arg.Some? && arg.value != "" then arg.value else StrokeColor(prior)
  {
    if arg.Some? && arg.value != "" then arg else prior
  }

  /** The colour a move draws in: the stored style when it is truthy,
      otherwise the default. */
  function StrokeColor(stored: Option<string>): (c: string)
    ensures c != ""
    ensures c == DefaultColor || (stored.Some? && c == stored.value)
  {
    if stored.Some? && stored.value != "" then stored.value else DefaultColor
  }

  /** A freshly initialised element draws in the given style when that is
      truthy and in black otherwise. */
  lemma InitColor(arg: Option<string>)
    ensures arg.Some? && arg.value != "" ==> StrokeColor(StoredStyle(None, arg)) == arg.value
    ensures arg.None? || arg.value == "" ==> StrokeColor(StoredStyle(None, arg)) == DefaultColor
  {
  }

  /** The events for which the canvas registers a handler. */
  datatype Event =
    | MouseDown(rect: Rect, mouse: MouseEvent)
    | MouseMove(rect: Rect, mouse: MouseEvent)
    | MouseUp
    | TouchStart(touch: TouchEvent)
    | TouchMove(touch: TouchEvent)
  {
    predicate IsMove() { MouseMove? || TouchMove? }
  }

  /** What one handler run does: the new state, the segment it drew (if
      any) and whether it suppressed the browser's default handling. */
  datatype Reaction = Reaction(state: State, drawn: Option<Segment>, suppressed: bool)

  /** A move to `to`: ignored unless the gesture is active; otherwise one
      segment from the last point, after which `to` is the last point. */
  function Advance(s: State, to: Option<Point>, color: string): (r: Reaction)
    ensures r.drawn.Some? <==> s.active
    ensures r.state.active == s.active
    ensures r.drawn.None? ==> r.state == s
    ensures r.drawn.Some? ==> r.state == State(true, to)
    ensures r.drawn.Some? ==> r.drawn.value.from == s.last && r.drawn.value.to == r.state.last
                              && r.drawn.value.color == color
  {
    if !s.active then Reaction(s, None, false)
    else Reaction(State(true, to), Some(Segment(s.last, to, color)), false)
  }

  /** One handler run on an element in state `s` that draws in `color`. */
  function Step(s: State, color: string, e: Event): (r: Reaction)
    ensures e.MouseUp? ==> r.state == Idle && r.suppressed
    ensures !e.MouseUp? && s.active ==> r.state.active
    ensures r.drawn.Some? ==> e.IsMove() && s.active
                              && r.drawn.value.from == s.last && r.drawn.value.to == r.state.last
                              && r.drawn.value.color == color
    ensures r.drawn.None? && e.IsMove() ==> r.state == s
  {
    match e
    case MouseDown(rect, m) =>
      Reaction(State(true, Some(MousePosition(rect, m))), None, true)
    case MouseMove(rect, m) =>
      Advance(s, Some(MousePosition(rect, m)), color).(suppressed := true)
    case MouseUp =>
      Reaction(Idle, None, true)
    case TouchStart(t) =>
      (match TouchPosition(t)
       case Thrown => Reaction(s, None, false)
       case Read(p, sup) => Reaction(State(true, p), None, sup))
    case TouchMove(t) =>
      (match TouchPosition(t)
       case Thrown => Reaction(s, None, false)
       case Read(p, sup) => Advance(s, p, color).(suppressed := sup))
  }

  /** The segment list contributed by one reaction. */
  function Drawn(r: Reaction): seq<Segment> {
    if r.drawn.Some? then [r.drawn.value] else []
  }

  /** The state and the segments drawn so far, after a run of events. */
  datatype Trace = Trace(state: State, segments: seq<Segment>)

  /** Handling `events` in order, starting from `s`. Each event draws at
      most one segment. */
  function Run(s: State, color: string, events: seq<Event>): (t: Trace)
    ensures |t.segments| <= |events|
  {
    if events == [] then Trace(s, [])
    else
      var before := Run(s, color, events[..|events| - 1]);
      var r := Step(before.state, color, events[|events| - 1]);
      Trace(r.state, before.segments + Drawn(r))
  }

  /** Each segment starts where the previous one ended, the first at
      `origin`. */
  ghost predicate Chained(origin: Option<Point>, segs: seq<Segment>) {
    (|segs| > 0 ==> segs[0].from == origin)
    && forall i :: 0 < i < |segs| ==> segs[i].from == segs[i - 1].to
  }

  /** Where a chain from `origin` ends. */
  function EndPoint(origin: Option<Point>, segs: seq<Segment>): Option<Point> {
    if segs == [] then origin else segs[|segs| - 1].to
  }

  /** A state is consistent when an idle gesture has no last point. */
  ghost predicate Consistent(s: State) {
    !s.active ==> s.last == None
  }

  // ---------------------------------------------------------------------
  // Single events

  /** A move while the gesture is not active draws nothing, changes
      nothing, and (for the mouse) still suppresses default handling. */
  lemma MoveWhileIdleIgnored(s: State, color: string, e: Event)
    requires !s.active && e.IsMove()
    ensures Step(s, color, e).state == s && Step(s, color, e).drawn == None
    ensures e.MouseMove? ==> Step(s, color, e).suppressed
  {
  }

  /** Mouse-down activates the gesture at the element-relative position of
      the event, whatever the previous state. */
  lemma MouseDownStarts(s: State, color: string, rect: Rect, m: MouseEvent)
    ensures Step(s, color, MouseDown(rect, m))
            == Reaction(State(true, Some(Point(m.clientX - rect.left, m.clientY - rect.top))), None, true)
  {
  }

  /** A move while active draws exactly one segment from the last point to
      the new one, in the canvas colour, and the new point becomes the last
      point. */
  lemma MoveWhileActiveDraws(s: State, color: string, e: Event)
    requires s.active && e.IsMove()
    requires e.TouchMove? ==> !TouchPosition(e.touch).Thrown?
    ensures var to := if e.MouseMove? then Some(MousePosition(e.rect, e.mouse))
                      else TouchPosition(e.touch).pos;
            Step(s, color, e).drawn == Some(Segment(s.last, to, color))
            && Step(s, color, e).state == State(true, to)
  {
  }

  /** Mouse-up always ends the gesture and clears the last point, so ending
      twice is the same as ending once. */
  lemma MouseUpIdempotent(s: State, color: string)
    ensures Step(s, color, MouseUp).state == Idle
    ensures Step(Step(s, color, MouseUp).state, color, MouseUp) == Step(s, color, MouseUp)
  {
  }

  /** Every handler keeps an idle gesture free of a last point. */
  lemma StepConsistent(s: State, color: string, e: Event)
    requires Consistent(s)
    ensures Consistent(Step(s, color, e).state)
  {
  }

  // ---------------------------------------------------------------------
  // Runs of events

  /** A run consists of the run of its prefix followed by its last event. */
  lemma RunSnoc(s: State, color: string, events: seq<Event>, e: Event)
    ensures var before := Run(s, color, events);
            var r := Step(before.state, color, e);
            Run(s, color, events + [e]) == Trace(r.state, before.segments + Drawn(r))
  {
  }

  /** Handling `a` and then `b` is handling `a + b`: the state carries over
      and the segments concatenate. */
  lemma {:induction false} RunAppend(s: State, color: string, a: seq<Event>, b: seq<Event>)
    ensures var ta := Run(s, color, a);
            var tb := Run(ta.state, color, b);
            Run(s, color, a + b) == Trace(tb.state, ta.segments + tb.segments)
  {
    if b != [] {
      var b' := b[..|b| - 1];
      var e := b[|b| - 1];
      RunAppend(s, color, a, b');
      assert a + b == (a + b') + [e];
      assert b == b' + [e];
      RunSnoc(s, color, a + b', e);
      RunSnoc(Run(s, color, a).state, color, b', e);
    } else {
      assert a + b == a;
    }
  }

  /** Moves on an element whose gesture is not active draw nothing and
      leave its state as it was. */
  lemma {:induction false} IdleMovesIgnored(s: State, color: string, events: seq<Event>)
    requires !s.active
    requires forall i :: 0 <= i < |events| ==> events[i].IsMove()
    ensures Run(s, color, events) == Trace(s, [])
  {
    if events != [] {
      IdleMovesIgnored(s, color, events[..|events| - 1]);
    }
  }

  /** Successive moves draw a chain of contiguous segments starting at the
      last point, and leave the last point at the chain's end. */
  lemma {:induction false} MovesChain(s: State, color: string, events: seq<Event>)
    requires forall i :: 0 <= i < |events| ==> events[i].IsMove()
    ensures var t := Run(s, color, events);
            Chained(s.last, t.segments)
            && t.state.last == EndPoint(s.last, t.segments)
            && t.state.active == s.active
  {
    if events != [] {
      var prefix := events[..|events| - 1];
      MovesChain(s, color, prefix);
      var before := Run(s, color, prefix);
      var r := Step(before.state, color, events[|events| - 1]);
      var segs := before.segments + Drawn(r);
      assert Run(s, color, events).segments == segs;
      assert r.drawn.Some? ==> r.drawn.value.from == before.state.last;
      if r.drawn.Some? {
        var n := |before.segments|;
        assert segs[n] == r.drawn.value;
        forall i | 0 < i < |segs|
          ensures segs[i].from == segs[i - 1].to
        {
          if i < n {
            assert segs[i] == before.segments[i] && segs[i - 1] == before.segments[i - 1];
          } else {
            assert segs[i - 1] == before.segments[n - 1];
          }
        }
        assert n > 0 ==> segs[0] == before.segments[0];
      } else {
        assert segs == before.segments;
      }
    }
  }

  /** When the gesture is active and every move yields a point, each move
      draws exactly one segment. */
  lemma {:induction false} ActiveMovesDrawOneEach(s: State, color: string, events: seq<Event>)
    requires s.active
    requires forall i :: 0 <= i < |events| ==> events[i].IsMove()
    requires forall i :: 0 <= i < |events| && events[i].TouchMove? ==>
               !TouchPosition(events[i].touch).Thrown?
    ensures |Run(s, color, events).segments| == |events|
    ensures Run(s, color, events).state.active
  {
    if events != [] {
      ActiveMovesDrawOneEach(s, color, events[..|events| - 1]);
    }
  }

  /** Every segment of a run is drawn in the canvas colour. */
  lemma {:induction false} RunColor(s: State, color: string, events: seq<Event>)
    ensures forall seg :: seg in Run(s, color, events).segments ==> seg.color == color
  {
    if events != [] {
      RunColor(s, color, events[..|events| - 1]);
    }
  }

  /** Only mouse-up ends a gesture: an active gesture stays active through
      any run without a mouse-up. */
  lemma {:induction false} OnlyMouseUpEnds(s: State, color: string, events: seq<Event>)
    requires s.active
    requires forall i :: 0 <= i < |events| ==> !events[i].MouseUp?
    ensures Run(s, color, events).state.active
  {
    if events != [] {
      OnlyMouseUpEnds(s, color, events[..|events| - 1]);
    }
  }

  /** In particular a gesture started by touch is never ended by touch
      events: after a touch start that reads its coordinates, the gesture
      stays active through any number of touch events. */
  lemma TouchNeverEnds(s: State, color: string, t: TouchEvent, events: seq<Event>)
    requires TouchPosition(t).Read?
    requires forall i :: 0 <= i < |events| ==> events[i].TouchStart? || events[i].TouchMove?
    ensures Run(s, color, [TouchStart(t)] + events).state.active
  {
    RunAppend(s, color, [TouchStart(t)], events);
    RunSnoc(s, color, [], TouchStart(t));
    assert [] + [TouchStart(t)] == [TouchStart(t)];
    OnlyMouseUpEnds(Run(s, color, [TouchStart(t)]).state, color, events);
  }

  /** A run preserves consistency: an idle gesture never holds a last
      point. */
  lemma {:induction false} RunConsistent(s: State, color: string, events: seq<Event>)
    requires Consistent(s)
    ensures Consistent(Run(s, color, events).state)
  {
    if events != [] {
      RunConsistent(s, color, events[..|events| - 1]);
      StepConsistent(Run(s, color, events[..|events| - 1]).state, color, events[|events| - 1]);
    }
  }

  // ---------------------------------------------------------------------
  // Scenarios

  /** Mouse-down at viewport (120, 80) on an element whose top-left is at
      (20, 30) stores (100, 50) and activates the gesture. */
  lemma PointerDownScenario(color: string)
    ensures Step(Idle, color, MouseDown(Rect(20, 30), MouseEvent(120, 80))).state
            == State(true, Some(Point(100, 50)))
  {
  }

  /** Down at (0, 0), then moves to (10, 0) and (10, 10), on an element at
      the viewport origin, draw (0,0)->(10,0) and (10,0)->(10,10) in that
      order. */
  lemma ChainingScenario(color: string)
    ensures Run(Idle, color, [MouseDown(Rect(0, 0), MouseEvent(0, 0)),
                              MouseMove(Rect(0, 0), MouseEvent(10, 0)),
                              MouseMove(Rect(0, 0), MouseEvent(10, 10))]).segments
            == [Segment(Some(Point(0, 0)), Some(Point(10, 0)), color),
                Segment(Some(Point(10, 0)), Some(Point(10, 10)), color)]
  {
    var r := Rect(0, 0);
    var e0, e1, e2 := MouseDown(r, MouseEvent(0, 0)), MouseMove(r, MouseEvent(10, 0)),
                      MouseMove(r, MouseEvent(10, 10));
    RunSnoc(Idle, color, [], e0);
    assert [] + [e0] == [e0];
    RunSnoc(Idle, color, [e0], e1);
    assert [e0] + [e1] == [e0, e1];
    RunSnoc(Idle, color, [e0, e1], e2);
    assert [e0, e1] + [e2] == [e0, e1, e2];
  }

  /** After down, move and up, a further move is ignored. */
  lemma EndThenMoveIgnored(color: string, r: Rect, p1: MouseEvent, p2: MouseEvent, p3: MouseEvent)
    ensures var s := Run(Idle, color, [MouseDown(r, p1), MouseMove(r, p2), MouseUp]).state;
            s == Idle && Step(s, color, MouseMove(r, p3)) == Reaction(Idle, None, true)
  {
    var evs := [MouseDown(r, p1), MouseMove(r, p2), MouseUp];
    RunSnoc(Idle, color, [MouseDown(r, p1), MouseMove(r, p2)], MouseUp);
    assert evs == [MouseDown(r, p1), MouseMove(r, p2)] + [MouseUp];
  }
}
