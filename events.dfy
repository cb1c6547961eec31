/** The window events the viewer reacts to, and what the event translator
    does with them, as functions: `Step` is one event, `Run` a batch. The
    lemmas below say what a batch does in terms that do not mention `Step`. */
module Events {
  import opened Ints
  import opened Wrappers
  import opened Controls

  datatype MouseButton = LeftButton | RightButton | MiddleButton | OtherButton(code: nat)

  datatype ElementState = Pressed | Released

  /** The virtual key codes the translator distinguishes; every other key is `OtherKey`. */
  datatype VirtualKeyCode = Escape | W | A | S | D | Up | Down | LeftArrow | RightArrow | OtherKey(code: nat)

  datatype KeyboardInput = KeyboardInput(state: ElementState, virtualKeycode: Option<VirtualKeyCode>)

  datatype MouseScrollDelta = LineDelta(rows: real, lines: real) | PixelDelta(xoffset: real, yoffset: real)

  datatype WindowEvent =
    | Closed
    | Resized(width: u32, height: u32)
    | DroppedFile(path: string)
    | MouseInput(button: MouseButton, state: ElementState)
    | CursorMoved(x: real, y: real)
    | MouseWheel(delta: MouseScrollDelta)
    | Keyboard(input: KeyboardInput)
    | OtherWindowEvent

  /** A host event: a window event, or any other kind (device events, wake-ups), which is ignored. */
  datatype Event = Window(event: WindowEvent) | NonWindowEvent

  /** What one keyboard event does: at most one call on the controller, and the flag it returns. */
  datatype KeyOutcome = KeyOutcome(call: Option<ControlCall>, keepRunning: bool)

  /** Everything the translator can change: the controller's navigation state,
      its call log and stored screen size, the viewer's size and the flag. */
  datatype Translation = Translation(
    nav: NavState,
    calls: seq<ControlCall>,
    width: u32,
    height: u32,
    screenWidth: u32,
    screenHeight: u32,
    keepRunning: bool)

  /** The keys that steer in a given direction. */
  function KeysFor(d: CameraMovement): set<VirtualKeyCode>
  {
    match d
    case Forward => {W, Up}
    case Backward => {S, Down}
    case Left => {A, LeftArrow}
    case Right => {D, RightArrow}
  }

  /** The direction a key steers in, if any. */
  function KeyDirection(k: VirtualKeyCode): (r: Option<CameraMovement>)
    ensures forall d :: r == Some(d) <==> k in KeysFor(d)
  {
    match k
    case W | Up => Some(Forward)
    case S | Down => Some(Backward)
    case A | LeftArrow => Some(Left)
    case D | RightArrow => Some(Right)
    case _ => None
  }

  /** `process_input`, as a value: the call it makes and the flag it returns. */
  function KeyCommand(input: KeyboardInput): (r: KeyOutcome)
    ensures !r.keepRunning <==> input.virtualKeycode == Some(Escape) && input.state == Pressed
    ensures r.call.Some? <==> input.virtualKeycode.Some? && KeyDirection(input.virtualKeycode.value).Some?
    ensures r.call.Some? ==>
      r.call.value == ProcessKeyboard(KeyDirection(input.virtualKeycode.value).value, input.state == Pressed)
  {
    var pressed := input.state == Pressed;
    match input.virtualKeycode
    case None => KeyOutcome(None, true)
    case Some(code) =>
      if code == Escape && pressed then KeyOutcome(None, false)
      else match KeyDirection(code)
        case Some(d) => KeyOutcome(Some(ProcessKeyboard(d, pressed)), true)
        case None => KeyOutcome(None, true)
  }

  function CallsOf(call: Option<ControlCall>): seq<ControlCall>
  {
    match call
    case Some(c) => [c]
    case None => []
  }

  /** The argument handed to `process_mouse_scroll` for a wheel event. */
  function ScrollAmount(delta: MouseScrollDelta): real
  {
    match delta
    case PixelDelta(_, yoffset) => yoffset
    case LineDelta(_, lines) => lines * 3.0
  }

  /** The navigation state after a button press. */
  function PressedNav(button: MouseButton, nav: NavState): NavState
  {
    match button
    case LeftButton => Rotating
    case RightButton => Panning
    case _ => nav
  }

  /** Whether releasing `button` ends the drag `nav`. */
  predicate EndsDrag(button: MouseButton, nav: NavState)
  {
    (button == LeftButton && nav == Rotating) || (button == RightButton && nav == Panning)
  }

  /** The navigation state after one event. */
  function NextNav(nav: NavState, e: Event): NavState
  {
    match e
    case Window(MouseInput(button, Pressed)) => PressedNav(button, nav)
    case Window(MouseInput(button, Released)) => if EndsDrag(button, nav) then Idle else nav
    case _ => nav
  }

  /** The calls one event makes on the controller (and its camera), in order. */
  function Emitted(nav: NavState, e: Event): seq<ControlCall>
  {
    match e
    case Window(Resized(width, height)) => [UpdateAspectRatio(width, height)]
    case Window(MouseInput(button, Released)) => if EndsDrag(button, nav) then [HandleMouseUp] else []
    case Window(CursorMoved(x, y)) => [HandleMouseMove(x, y)]
    case Window(MouseWheel(delta)) => [ProcessMouseScroll(ScrollAmount(delta))]
    case Window(Keyboard(input)) => CallsOf(KeyCommand(input).call)
    case _ => []
  }

  /** The keep-running flag after one event: a close clears it, and every
      keyboard event overwrites it with what `process_input` returns. */
  function NextFlag(keepRunning: bool, e: Event): bool
  {
    match e
    case Window(Closed) => false
    case Window(Keyboard(input)) => KeyCommand(input).keepRunning
    case _ => keepRunning
  }

  /** The effect of one event (one run of the closure in `process_events`);
      a resize also stores the new size in the viewer and the controller. */
  function Step(t: Translation, e: Event): Translation
  {
    var t' := t.(nav := NextNav(t.nav, e), calls := t.calls + Emitted(t.nav, e),
                 keepRunning := NextFlag(t.keepRunning, e));
    match e
    case Window(Resized(width, height)) =>
      t'.(width := width, height := height, screenWidth := width, screenHeight := height)
    case _ => t'
  }

  /** The effect of a batch of events, processed front to back. */
  function Run(t: Translation, es: seq<Event>): Translation
  {
    if es == [] then t else Step(Run(t, es[..|es| - 1]), es[|es| - 1])
  }

  lemma {:induction false} RunConcat(t: Translation, a: seq<Event>, b: seq<Event>)
    ensures Run(t, a + b) == Run(Run(t, a), b)
  {
    if b != [] {
      var ab := a + b;
      assert ab[..|ab| - 1] == a + b[..|b| - 1];
      assert ab[|ab| - 1] == b[|b| - 1];
      RunConcat(t, a, b[..|b| - 1]);
    } else {
      assert a + b == a;
    }
  }

  // ---------------------------------------------------------------------
  // The keep-running flag

  /** The events that ask the viewer to stop: a window close, or a press of Escape. */
  predicate StopsLoop(e: Event)
  {
    e == Window(Closed)
    || e == Window(Keyboard(KeyboardInput(Pressed, Some(Escape))))
  }

  predicate IsKeyboard(e: Event)
  {
    e.Window? && e.event.Keyboard?
  }

  /** A batch that starts with the flag set ends with it cleared exactly
      when some close or Escape press is not followed by any later keyboard
      event (each keyboard event overwrites the flag). */
  lemma {:induction false} KeepRunningIff(t: Translation, es: seq<Event>)
    requires t.keepRunning
    ensures !Run(t, es).keepRunning <==>
      exists i :: 0 <= i < |es| && StopsLoop(es[i]) && forall j :: i < j < |es| ==> !IsKeyboard(es[j])
  {
    if es != [] {
      var p, e := es[..|es| - 1], es[|es| - 1];
      KeepRunningIff(t, p);
      var last := |es| - 1;
      if StopsLoop(e) {
        assert !Run(t, es).keepRunning;
        assert StopsLoop(es[last]);
      } else if IsKeyboard(e) {
        assert Run(t, es).keepRunning;
        forall i | 0 <= i < |es| && StopsLoop(es[i])
          ensures exists j :: i < j < |es| && IsKeyboard(es[j])
        {
          assert i != last;
          assert i < last && IsKeyboard(es[last]);
        }
      } else {
        assert Run(t, es).keepRunning == Run(t, p).keepRunning;
        if i :| 0 <= i < |es| && StopsLoop(es[i]) && forall j :: i < j < |es| ==> !IsKeyboard(es[j]) {
          assert i < last && p[i] == es[i];
          forall j | i < j < |p| ensures !IsKeyboard(p[j]) {
            assert p[j] == es[j];
          }
        }
        if i :| 0 <= i < |p| && StopsLoop(p[i]) && forall j :: i < j < |p| ==> !IsKeyboard(p[j]) {
          assert es[i] == p[i];
          forall j | i < j < |es| ensures !IsKeyboard(es[j]) {
            if j < last {
              assert es[j] == p[j];
            }
          }
        }
      }
    }
  }

  // ---------------------------------------------------------------------
  // The navigation state and handle_mouse_up

  function MouseUps(calls: seq<ControlCall>): nat
  {
    if calls == [] then 0
    else MouseUps(calls[..|calls| - 1]) + (if calls[|calls| - 1] == HandleMouseUp then 1 else 0)
  }

  lemma {:induction false} MouseUpsAppend(a: seq<ControlCall>, b: seq<ControlCall>)
    ensures MouseUps(a + b) == MouseUps(a) + MouseUps(b)
  {
    if b == [] {
      assert a + b == a;
    } else {
      var ab := a + b;
      assert ab[..|ab| - 1] == a + b[..|b| - 1];
      MouseUpsAppend(a, b[..|b| - 1]);
    }
  }

  /** A press of the left or the right button. */
  predicate StartsDrag(e: Event)
  {
    e == Window(MouseInput(LeftButton, Pressed)) || e == Window(MouseInput(RightButton, Pressed))
  }

  function DragStarts(es: seq<Event>): nat
  {
    if es == [] then 0 else DragStarts(es[..|es| - 1]) + (if StartsDrag(es[|es| - 1]) then 1 else 0)
  }

  function Dragging(nav: NavState): nat
  {
    if nav == Idle then 0 else 1
  }

  /** One event calls `handle_mouse_up` at most once, and only when it ends a drag. */
  lemma EmittedMouseUps(nav: NavState, e: Event)
    ensures MouseUps(Emitted(nav, e)) == if nav != Idle && NextNav(nav, e) == Idle then 1 else 0
  {
  }

  /** `handle_mouse_up` only ends a drag: over any batch, the calls to it
      (plus one if a drag is still in progress) never outnumber the drags
      started (plus one if a drag was in progress before). */
  lemma {:induction false} MouseUpsBounded(t: Translation, es: seq<Event>)
    ensures MouseUps(Run(t, es).calls) + Dragging(Run(t, es).nav)
         <= MouseUps(t.calls) + DragStarts(es) + Dragging(t.nav)
  {
    if es != [] {
      var p, e := es[..|es| - 1], es[|es| - 1];
      MouseUpsBounded(t, p);
      var before := Run(t, p);
      MouseUpsAppend(before.calls, Emitted(before.nav, e));
      EmittedMouseUps(before.nav, e);
    }
  }

  predicate IsButtonEvent(e: Event)
  {
    e.Window? && e.event.MouseInput?
  }

  /** Events other than mouse buttons leave the navigation state alone and never call `handle_mouse_up`. */
  lemma {:induction false} NonButtonEventsKeepNav(t: Translation, es: seq<Event>)
    requires forall i :: 0 <= i < |es| ==> !IsButtonEvent(es[i])
    ensures Run(t, es).nav == t.nav
    ensures MouseUps(Run(t, es).calls) == MouseUps(t.calls)
  {
    if es != [] {
      var p, e := es[..|es| - 1], es[|es| - 1];
      NonButtonEventsKeepNav(t, p);
      var before := Run(t, p);
      MouseUpsAppend(before.calls, Emitted(before.nav, e));
      EmittedMouseUps(before.nav, e);
    }
  }

  /** A press of a button, any events but button events, and a release of
      the same button: whatever the state before, the drag ends with the
      state back to `Idle` and exactly one call to `handle_mouse_up`. */
  lemma DragRoundTrip(t: Translation, b: MouseButton, moves: seq<Event>)
    requires b == LeftButton || b == RightButton
    requires forall i :: 0 <= i < |moves| ==> !IsButtonEvent(moves[i])
    ensures Run(t, [Window(MouseInput(b, Pressed))] + moves + [Window(MouseInput(b, Released))]).nav == Idle
    ensures MouseUps(Run(t, [Window(MouseInput(b, Pressed))] + moves + [Window(MouseInput(b, Released))]).calls)
         == MouseUps(t.calls) + 1
  {
    var press, release := [Window(MouseInput(b, Pressed))], [Window(MouseInput(b, Released))];
    RunConcat(t, press + moves, release);
    RunConcat(t, press, moves);
    var pressed := Run(t, press);
    assert pressed == Step(t, press[0]);
    assert pressed.calls == t.calls + [] == t.calls;
    NonButtonEventsKeepNav(pressed, moves);
    var dragged := Run(pressed, moves);
    assert Run(dragged, release) == Step(dragged, release[0]);
    MouseUpsAppend(dragged.calls, Emitted(dragged.nav, release[0]));
    EmittedMouseUps(dragged.nav, release[0]);
  }

  // ---------------------------------------------------------------------
  // Zoom calls

  /** The scroll amounts handed to `process_mouse_scroll`, in call order. */
  function Zooms(calls: seq<ControlCall>): seq<real>
  {
    if calls == [] then []
    else
      Zooms(calls[..|calls| - 1])
      + (if calls[|calls| - 1].ProcessMouseScroll? then [calls[|calls| - 1].yoffset] else [])
  }

  lemma {:induction false} ZoomsAppend(a: seq<ControlCall>, b: seq<ControlCall>)
    ensures Zooms(a + b) == Zooms(a) + Zooms(b)
  {
    if b == [] {
      assert a + b == a;
    } else {
      var ab := a + b;
      assert ab[..|ab| - 1] == a + b[..|b| - 1];
      ZoomsAppend(a, b[..|b| - 1]);
    }
  }

  /** The vertical scroll of each wheel event of a batch: pixel deltas as
      they are, line deltas scaled by three; the horizontal part is dropped. */
  function WheelAmounts(es: seq<Event>): seq<real>
  {
    if es == [] then [] else WheelAmounts(es[..|es| - 1]) + WheelAmount(es[|es| - 1])
  }

  /** The vertical scroll a wheel event carries, if it is one. */
  function WheelAmount(e: Event): seq<real>
  {
    match e
    case Window(MouseWheel(PixelDelta(_, y))) => [y]
    case Window(MouseWheel(LineDelta(_, lines))) => [3.0 * lines]
    case _ => []
  }

  lemma ZoomsOfEmitted(nav: NavState, e: Event)
    ensures Zooms(Emitted(nav, e)) == WheelAmount(e)
  {
    var out := Emitted(nav, e);
    if out != [] {
      assert out[..|out| - 1] == [];
    }
  }

  /** Every wheel event, and nothing else, becomes one zoom call, in order. */
  lemma {:induction false} ZoomsFollowWheel(t: Translation, es: seq<Event>)
    ensures Zooms(Run(t, es).calls) == Zooms(t.calls) + WheelAmounts(es)
  {
    if es != [] {
      var p, e := es[..|es| - 1], es[|es| - 1];
      ZoomsFollowWheel(t, p);
      var before := Run(t, p);
      var out := Emitted(before.nav, e);
      ZoomsAppend(before.calls, out);
      ZoomsOfEmitted(before.nav, e);
    }
  }

  // ---------------------------------------------------------------------
  // Cursor and resize calls

  /** The cursor positions handed to `handle_mouse_move`, in call order. */
  function Moves(calls: seq<ControlCall>): seq<(real, real)>
  {
    if calls == [] then []
    else
      Moves(calls[..|calls| - 1])
      + (if calls[|calls| - 1].HandleMouseMove? then [(calls[|calls| - 1].x, calls[|calls| - 1].y)] else [])
  }

  lemma {:induction false} MovesAppend(a: seq<ControlCall>, b: seq<ControlCall>)
    ensures Moves(a + b) == Moves(a) + Moves(b)
  {
    if b == [] {
      assert a + b == a;
    } else {
      var ab := a + b;
      assert ab[..|ab| - 1] == a + b[..|b| - 1];
      MovesAppend(a, b[..|b| - 1]);
    }
  }

  /** The position a cursor-move event carries, if it is one. */
  function CursorPosition(e: Event): seq<(real, real)>
  {
    match e
    case Window(CursorMoved(x, y)) => [(x, y)]
    case _ => []
  }

  /** The position of each cursor-move event of a batch, in order. */
  function CursorPositions(es: seq<Event>): seq<(real, real)>
  {
    if es == [] then [] else CursorPositions(es[..|es| - 1]) + CursorPosition(es[|es| - 1])
  }

  lemma MovesOfEmitted(nav: NavState, e: Event)
    ensures Moves(Emitted(nav, e)) == CursorPosition(e)
  {
    var out := Emitted(nav, e);
    if out != [] {
      assert out[..|out| - 1] == [];
    }
  }

  /** Every cursor move, and nothing else, becomes one `handle_mouse_move`
      call with the same position, in order, whatever the drag state. */
  lemma {:induction false} MovesFollowCursor(t: Translation, es: seq<Event>)
    ensures Moves(Run(t, es).calls) == Moves(t.calls) + CursorPositions(es)
  {
    if es != [] {
      var p, e := es[..|es| - 1], es[|es| - 1];
      MovesFollowCursor(t, p);
      var before := Run(t, p);
      var out := Emitted(before.nav, e);
      MovesAppend(before.calls, out);
      MovesOfEmitted(before.nav, e);
    }
  }

  /** The (width, height) behind each `update_aspect_ratio(width / height)`, in call order. */
  function Aspects(calls: seq<ControlCall>): seq<(u32, u32)>
  {
    if calls == [] then []
    else
      Aspects(calls[..|calls| - 1])
      + (if calls[|calls| - 1].UpdateAspectRatio? then [(calls[|calls| - 1].width, calls[|calls| - 1].height)] else [])
  }

  lemma {:induction false} AspectsAppend(a: seq<ControlCall>, b: seq<ControlCall>)
    ensures Aspects(a + b) == Aspects(a) + Aspects(b)
  {
    if b == [] {
      assert a + b == a;
    } else {
      var ab := a + b;
      assert ab[..|ab| - 1] == a + b[..|b| - 1];
      AspectsAppend(a, b[..|b| - 1]);
    }
  }

  /** The new size a resize event carries, if it is one. */
  function ResizeSize(e: Event): seq<(u32, u32)>
  {
    match e
    case Window(Resized(w, h)) => [(w, h)]
    case _ => []
  }

  /** The new size of each resize event of a batch, in order. */
  function ResizeSizes(es: seq<Event>): seq<(u32, u32)>
  {
    if es == [] then [] else ResizeSizes(es[..|es| - 1]) + ResizeSize(es[|es| - 1])
  }

  lemma AspectsOfEmitted(nav: NavState, e: Event)
    ensures Aspects(Emitted(nav, e)) == ResizeSize(e)
  {
    var out := Emitted(nav, e);
    if out != [] {
      assert out[..|out| - 1] == [];
    }
  }

  /** Every resize, and nothing else, updates the camera's aspect ratio to
      the new width over height, in order; so after a batch whose last
      resize is (w, h), the last aspect update is w / h. */
  lemma {:induction false} AspectsFollowResizes(t: Translation, es: seq<Event>)
    ensures Aspects(Run(t, es).calls) == Aspects(t.calls) + ResizeSizes(es)
  {
    if es != [] {
      var p, e := es[..|es| - 1], es[|es| - 1];
      AspectsFollowResizes(t, p);
      var before := Run(t, p);
      var out := Emitted(before.nav, e);
      AspectsAppend(before.calls, out);
      AspectsOfEmitted(before.nav, e);
    }
  }

  // ---------------------------------------------------------------------
  // Keyboard calls

  /** The (direction, pressed) arguments of the `process_keyboard` calls, in order. */
  function Steering(calls: seq<ControlCall>): seq<(CameraMovement, bool)>
  {
    if calls == [] then []
    else
      Steering(calls[..|calls| - 1])
      + match calls[|calls| - 1] {
          case ProcessKeyboard(d, pressed) => [(d, pressed)]
          case _ => []
        }
  }

  lemma {:induction false} SteeringAppend(a: seq<ControlCall>, b: seq<ControlCall>)
    ensures Steering(a + b) == Steering(a) + Steering(b)
  {
    if b == [] {
      assert a + b == a;
    } else {
      var ab := a + b;
      assert ab[..|ab| - 1] == a + b[..|b| - 1];
      SteeringAppend(a, b[..|b| - 1]);
    }
  }

  /** What a keyboard event on one of the eight steering keys asks for: the
      direction of its key and whether it is a press; nothing for other events. */
  function KeySteer(e: Event): seq<(CameraMovement, bool)>
  {
    match e
    case Window(Keyboard(KeyboardInput(state, Some(k)))) =>
      if k in KeysFor(Forward) then [(Forward, state == Pressed)]
      else if k in KeysFor(Backward) then [(Backward, state == Pressed)]
      else if k in KeysFor(Left) then [(Left, state == Pressed)]
      else if k in KeysFor(Right) then [(Right, state == Pressed)]
      else []
    case _ => []
  }

  function SteeringKeys(es: seq<Event>): seq<(CameraMovement, bool)>
  {
    if es == [] then [] else SteeringKeys(es[..|es| - 1]) + KeySteer(es[|es| - 1])
  }

  lemma SteeringOfEmitted(nav: NavState, e: Event)
    ensures Steering(Emitted(nav, e)) == KeySteer(e)
  {
  }

  /** Every steering key event, and nothing else, becomes one `process_keyboard` call, in order. */
  lemma {:induction false} SteeringFollowsKeys(t: Translation, es: seq<Event>)
    ensures Steering(Run(t, es).calls) == Steering(t.calls) + SteeringKeys(es)
  {
    if es != [] {
      var p, e := es[..|es| - 1], es[|es| - 1];
      SteeringFollowsKeys(t, p);
      var before := Run(t, p);
      var out := Emitted(before.nav, e);
      SteeringAppend(before.calls, out);
      SteeringOfEmitted(before.nav, e);
    }
  }

  // ---------------------------------------------------------------------
  // Resizing

  /** The size of the last resize event of a batch, if there is one. */
  function LastResize(es: seq<Event>): (r: Option<(u32, u32)>)
    ensures r.None? ==> forall i :: 0 <= i < |es| ==> !(es[i].Window? && es[i].event.Resized?)
    ensures r.Some? ==>
      exists i :: 0 <= i < |es| && es[i] == Window(Resized(r.value.0, r.value.1))
        && forall j :: i < j < |es| ==> !(es[j].Window? && es[j].event.Resized?)
  {
    if es == [] then None
    else match es[|es| - 1]
      case Window(Resized(w, h)) => Some((w, h))
      case _ =>
        var r := LastResize(es[..|es| - 1]);
        assert forall j :: 0 <= j < |es| - 1 ==> es[..|es| - 1][j] == es[j];
        r
  }

  /** After a batch, the viewer's size and the controller's screen size are
      those of the last resize event, or what they were if there was none. */
  lemma {:induction false} LastResizeWins(t: Translation, es: seq<Event>)
    ensures LastResize(es).Some? ==>
      var (w, h) := LastResize(es).value;
      Run(t, es).width == w && Run(t, es).height == h
      && Run(t, es).screenWidth == w && Run(t, es).screenHeight == h
    ensures LastResize(es).None? ==>
      Run(t, es).width == t.width && Run(t, es).height == t.height
      && Run(t, es).screenWidth == t.screenWidth && Run(t, es).screenHeight == t.screenHeight
  {
    if es != [] {
      LastResizeWins(t, es[..|es| - 1]);
    }
  }

  /** The last resize of a batch is the last size in its list of resizes. */
  lemma {:induction false} LastResizeIsLastSize(es: seq<Event>)
    ensures LastResize(es).None? <==> ResizeSizes(es) == []
    ensures LastResize(es).Some? ==> ResizeSizes(es)[|ResizeSizes(es)| - 1] == LastResize(es).value
  {
    if es != [] {
      LastResizeIsLastSize(es[..|es| - 1]);
    }
  }

  /** After a batch with a resize, the camera's last aspect-ratio update is
      for the size of the last resize, the size the viewer also stores. */
  lemma AspectMatchesLastResize(t: Translation, es: seq<Event>)
    requires LastResize(es).Some?
    ensures var a := Aspects(Run(t, es).calls);
      a != [] && a[|a| - 1] == LastResize(es).value
            == (Run(t, es).screenWidth, Run(t, es).screenHeight)
  {
    AspectsFollowResizes(t, es);
    LastResizeIsLastSize(es);
    LastResizeWins(t, es);
  }
}
