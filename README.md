# Graffiti Canvas gesture state machine, in Dafny

Graffiti Canvas lets a user draw freehand on a `<canvas>` element with a mouse
or a finger. `gc_init` binds five handlers to the first element a selector
matches. Each element keeps its gesture state in data attributes: whether a
gesture is `active`, the last point (`lastX`, `lastY`), and an optional
`strokestyle`. A mouse-down or touch-start begins a gesture at the event's
point. A mouse-move or touch-move while the gesture is active draws one straight
line from the last point to the new point, then makes the new point the last
point. A mouse-up ends the gesture.

The project has four modules:

- `Wrappers` (wrappers.dfy) holds `Option`, which stands in for `null` and `undefined`.
- `Input` (input.dfy) turns event data into points. A mouse position is made
  relative to the element's bounding rectangle. A touch position is the raw
  viewport point: the event's own `clientX`/`clientY` when both are truthy,
  otherwise the first target touch.
- `Gesture` (gesture.dfy) gives each handler's effect as a pure function.
  `Step` handles one event and `Run` replays a sequence of events. The lemmas
  here state the properties of the protocol.
- `GraffitiCanvas` (canvas.dfy) holds the element as a class, `Canvas`. Its
  handler methods update the fields in place. Each method is proved against
  `Gesture.Step`. The object invariant `Valid()` says that the fields and the
  ghost log of draw commands are exactly what `Gesture.Run` gives when it
  replays the events handled since initialisation. So the `Run` lemmas carry
  over to the object; `StrokesInCanvasColor` does this for the colour.

Three behaviours of the code are easy to miss:

- `gc_init` does not reset `active`; it only nulls `lastX`/`lastY` and stores a
  truthy style. On a fresh element `active` is absent, so the element starts
  idle. A second initialisation in the middle of a gesture leaves it active
  with no last point.
- Touch positions are not made element-relative, unlike mouse positions.
  `Input.TouchIsViewportRelative` states the difference.
- A touch-start whose event has neither truthy coordinates nor `targetTouches`
  stores `undefined` coordinates. It still activates the gesture, so an active
  gesture can have no last point.

## Model

| member | source | states |
|---|---|---|
| `Input.MousePosition` | graffiti-canvas.js:29-35 | Adding the element's top-left corner back to the position gives the event's client point. |
| `Input.MousePositionInverse` | graffiti-canvas.js:29-35 | Normalising and mapping back undo each other in both directions. The client point of a mouse position is the event's own point. An event at the client point of any position `p` normalises to `p`. |
| `Input.MousePositionTranslation` | graffiti-canvas.js:29-35 | Moving the element and the pointer by the same offset leaves the position unchanged. An element at the origin sees the raw client point. |
| `Input.TouchPosition` | graffiti-canvas.js:91-100 | The handler throws exactly when the event's own clientX and clientY are not both truthy and the target-touch list is empty. It suppresses default handling exactly when it falls back to a non-empty target-touch list. |
| `Input.TouchPositionCases` | graffiti-canvas.js:111-120 | The touch point is the event's own coordinates when both are truthy, with no `preventDefault`. Otherwise it is the first target touch, with `preventDefault`. Without `targetTouches` it is undefined. |
| `Input.TouchIsViewportRelative` | graffiti-canvas.js:96-98 | A touch and a mouse event at the same viewport point give the same position if and only if the element's top-left corner is at the origin. |
| `Gesture.StrokeColor` | graffiti-canvas.js:66 | The drawing colour is never empty, and it is either `'black'` or the stored style. |
| `Gesture.StoredStyle` | graffiti-canvas.js:156-158 | After initialisation the element draws in the argument when it is truthy, and otherwise in the colour it drew in before. |
| `Gesture.InitColor` | graffiti-canvas.js:156-158 | An element initialised with a truthy style draws in that style. One initialised without it, or with `""`, draws in `'black'`. |
| `Gesture.Advance` | graffiti-canvas.js:57-72 | The move body shared by both move handlers. It draws exactly when the gesture is active, and never changes the activity flag. Without a draw the state is unchanged. A drawn segment starts at the old last point, ends at the move's point, which becomes the new last point, and uses the given colour. |
| `Gesture.Step` | graffiti-canvas.js:41-135 | One handler run. Mouse-up always leaves the element idle and suppresses default handling. No other event ends an active gesture. Only a move on an active gesture draws, from the old last point to the new last point in the element's colour. A move that draws nothing leaves the state unchanged. |
| `Gesture.Run` | graffiti-canvas.js:149-153 | Handling a sequence of registered events draws at most one segment per event. |
| `Gesture.MoveWhileIdleIgnored` | graffiti-canvas.js:57-59 | A mouse or touch move while not active draws nothing and leaves the state unchanged. The mouse path still suppresses default handling. |
| `Gesture.MouseDownStarts` | graffiti-canvas.js:41-48 | Mouse-down activates the gesture at (clientX - left, clientY - top), whatever the prior state. |
| `Gesture.MoveWhileActiveDraws` | graffiti-canvas.js:63-72 | A move while active draws exactly one segment, from the stored last point to the new point in the element's colour. The new point then becomes the last point. |
| `Gesture.MouseUpIdempotent` | graffiti-canvas.js:79-85 | Mouse-up always leaves the element idle with no last point. Ending twice is the same as ending once. |
| `Gesture.StepConsistent` | graffiti-canvas.js:82-84 | No handler leaves an idle gesture holding a last point. |
| `Gesture.RunSnoc` | graffiti-canvas.js:149-153 | A run is the run of its prefix followed by one handler call for its last event. |
| `Gesture.RunAppend` | graffiti-canvas.js:149-153 | Handling two event sequences one after the other is the same as handling their concatenation: the state carries over and the segments concatenate. |
| `Gesture.IdleMovesIgnored` | graffiti-canvas.js:122-124 | Any number of moves on an inactive element draw nothing and change nothing. |
| `Gesture.MovesChain` | graffiti-canvas.js:125-134 | Successive moves draw contiguous segments: the first starts at the last point, and each later one starts where the previous one ended. At the end the last point is the chain's end, and the activity flag is unchanged. |
| `Gesture.ActiveMovesDrawOneEach` | graffiti-canvas.js:60-72 | While active, moves that yield a point draw exactly one segment each, and the gesture stays active. |
| `Gesture.RunColor` | graffiti-canvas.js:128 | Every segment of any run is drawn in the element's colour. |
| `Gesture.OnlyMouseUpEnds` | graffiti-canvas.js:149-153 | An active gesture stays active through any run that contains no mouse-up. |
| `Gesture.TouchNeverEnds` | graffiti-canvas.js:152-153 | After a touch-start that reads its coordinates, no sequence of touch events ends the gesture. |
| `Gesture.RunConsistent` | graffiti-canvas.js:82-84 | No sequence of events leaves an idle gesture holding a last point. |
| `Gesture.PointerDownScenario` | graffiti-canvas.js:44-47 | Mouse-down at viewport (120, 80) on an element at (20, 30) stores (100, 50) and activates the gesture. |
| `Gesture.ChainingScenario` | graffiti-canvas.js:63-72 | Down at (0,0), then moves to (10,0) and (10,10), draw (0,0)->(10,0) and then (10,0)->(10,10). |
| `Gesture.EndThenMoveIgnored` | graffiti-canvas.js:79-85 | After down, move and up, a further move is ignored and the element stays idle. |
| `GraffitiCanvas.Canvas.constructor` | graffiti-canvas.js:147-148 | An element with no data attributes is idle, has no stored style and has drawn nothing. |
| `GraffitiCanvas.Canvas.Init` | graffiti-canvas.js:154-158 | Initialisation clears the last point and stores a truthy style. The `active` attribute is left as it was. |
| `GraffitiCanvas.Canvas.StartDrawingMouse` | graffiti-canvas.js:41-48 | Mouse-down suppresses default handling. It makes the gesture active at the event's element-relative position, matching `Gesture.Step`. |
| `GraffitiCanvas.Canvas.WhileDrawingMouse` | graffiti-canvas.js:54-73 | Mouse-move always suppresses default handling. When idle it changes nothing. When active it issues and logs one segment from the old last point to the new position, and advances the last point. |
| `GraffitiCanvas.Canvas.EndDrawingMouse` | graffiti-canvas.js:79-85 | Mouse-up suppresses default handling and leaves the element idle with no last point, whatever the prior state. |
| `GraffitiCanvas.Canvas.StartDrawingTouch` | graffiti-canvas.js:91-105 | Touch-start activates the gesture at the raw touch point. It aborts with no effect exactly when the event's own clientX/clientY are not both truthy and the target-touch list is empty. |
| `GraffitiCanvas.Canvas.WhileDrawingTouch` | graffiti-canvas.js:111-135 | Touch-move reads the point and may suppress default handling before the activity check. It then draws and advances exactly as a mouse move does, with the raw touch point. |
| `GraffitiCanvas.StrokesInCanvasColor` | graffiti-canvas.js:128 | Every draw command an element has issued since initialisation is in that element's stroke colour. |
| `GraffitiCanvas.GcInit` | graffiti-canvas.js:142-160 | Only the first matching element is initialised. Nothing happens when no element matches. |

## Left out

- Looking up the selector in the document and registering the listeners are left out. `GcInit` receives the matching elements in document order. The five registered events are the five constructors of `Gesture.Event`.
- The Canvas 2D calls (`getContext`, `beginPath`, `moveTo`, `lineTo`, `stroke`) become a returned `Segment` that is also appended to the ghost log. The canvas ignores non-finite coordinates, so a segment with an undefined endpoint paints nothing. The model does not capture this. The context also ignores a `strokeStyle` that is not a valid CSS colour and keeps its previous one, so a segment's `color` is the colour the handler asks for, not necessarily the colour painted.
- The data attributes are typed fields instead of strings. An absent `active` attribute and `'false'` are both `false`. `'null'` and `'undefined'` coordinates are both `None`.
- Coordinates are integers, not floating-point numbers. The handlers only subtract and copy them. Rectangles and client points can be fractional, so `Input.MousePosition`'s round trip (`p.x + rect.left == e.clientX`) holds only with this exact arithmetic. With doubles the subtraction can round.
- `preventDefault` becomes the `suppressed` result.
- The element is assumed to be a canvas whose `getContext("2d")` returns a context. On any other element an active move throws at graffiti-canvas.js:65 or graffiti-canvas.js:127, before lastX/lastY advance. The model does not capture this.
- An exception in a handler is modelled only for reading the first target touch of an empty list (`aborted`). Other malformed event payloads are out of scope.
- The `if (!foundElem)` branch of `gc_init` is not modelled. `querySelectorAll` always returns a list, so that branch never runs.
- Non-string stroke-style arguments are not modelled. The argument is an optional string, and it is truthy when it is non-empty.
- Adding the same listeners again on a second `gc_init` has no effect in the browser, so it is not modelled.
- GraffitiCanvas.Canvas.Init: the ghost log `Strokes` restarts at each initialisation. It records the draw commands issued since then, not every pixel ever painted.
