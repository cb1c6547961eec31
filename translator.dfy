/** The event translator as the viewer runs it: `process_input` and
    `process_events`, each proved to do what `Events.Step` and `Events.Run`
    say to the controller and the viewport. */
module Translator {
  import opened Ints
  import opened Wrappers
  import opened Controls
  import opened Events

  /** The part of a controller and a viewer that the translator can change. */
  function Observe(c: OrbitControls, width: u32, height: u32, keepRunning: bool): Translation
    reads c
  {
    Translation(c.state, c.calls, width, height, c.screenWidth, c.screenHeight, keepRunning)
  }

  /** `process_input`: forwards a steering key to the controller and says
      whether the viewer should keep running. */
  method ProcessInput(input: KeyboardInput, controls: OrbitControls) returns (keepRunning: bool)
    modifies controls
    ensures keepRunning == KeyCommand(input).keepRunning
    ensures controls.calls == old(controls.calls) + CallsOf(KeyCommand(input).call)
    ensures controls.state == old(controls.state)
    ensures controls.position == old(controls.position) && controls.target == old(controls.target)
    ensures controls.screenWidth == old(controls.screenWidth) && controls.screenHeight == old(controls.screenHeight)
  {
    var pressed := input.state == Pressed;
    if input.virtualKeycode.Some? {
      var code := input.virtualKeycode.value;
      if code == Escape && pressed {
        return false;
      }
      match code {
        case W | Up => controls.ProcessKeyboard(Forward, pressed);
        case S | Down => controls.ProcessKeyboard(Backward, pressed);
        case A | LeftArrow => controls.ProcessKeyboard(Left, pressed);
        case D | RightArrow => controls.ProcessKeyboard(Right, pressed);
        case _ =>
      }
    }
    return true;
  }

  /** `process_events`: applies a batch of events in order and returns the
      keep-running flag together with the (possibly resized) viewport. */
  method ProcessEvents(events: seq<Event>, controls: OrbitControls, width: u32, height: u32)
    returns (keepRunning: bool, newWidth: u32, newHeight: u32)
    modifies controls
    ensures Observe(controls, newWidth, newHeight, keepRunning)
         == Run(old(Observe(controls, width, height, true)), events)
    ensures !keepRunning <==>
      exists i :: 0 <= i < |events| && StopsLoop(events[i])
        && forall j :: i < j < |events| ==> !IsKeyboard(events[j])
    ensures match LastResize(events)
      case Some((w, h)) => newWidth == w && newHeight == h
      case None => newWidth == width && newHeight == height
  {
    ghost var start := Observe(controls, width, height, true);
    keepRunning, newWidth, newHeight := true, width, height;
    var i := 0;
    while i < |events|
      invariant 0 <= i <= |events|
      invariant Observe(controls, newWidth, newHeight, keepRunning) == Run(start, events[..i])
    {
      assert events[..i + 1][..i] == events[..i];
      if events[i].Window? {
        match events[i].event {
          case Closed => keepRunning := false;
          case Resized(wd, ht) =>
            newWidth, newHeight := wd, ht;
            controls.UpdateAspectRatio(wd, ht);
            controls.screenWidth, controls.screenHeight := wd, ht;
          case DroppedFile(_) =>
          case MouseInput(button, Pressed) =>
            match button {
              case LeftButton => controls.state := Rotating;
              case RightButton => controls.state := Panning;
              case _ =>
            }
          case MouseInput(button, Released) =>
            if (button == LeftButton && controls.state == Rotating)
               || (button == RightButton && controls.state == Panning) {
              controls.state := Idle;
              controls.HandleMouseUp();
            }
          case CursorMoved(x, y) => controls.HandleMouseMove(x, y);
          case MouseWheel(PixelDelta(_, yoffset)) => controls.ProcessMouseScroll(yoffset);
          case MouseWheel(LineDelta(_, lines)) => controls.ProcessMouseScroll(lines * 3.0);
          case Keyboard(input) => keepRunning := ProcessInput(input, controls);
          case OtherWindowEvent =>
        }
      }
      i := i + 1;
    }
    assert events[..i] == events;
    KeepRunningIff(start, events);
    LastResizeWins(start, events);
  }
}
