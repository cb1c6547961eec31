/** The slice of the orbit-camera controller (the `controls` module of the
    viewer) that the event translator and the viewer touch. Its geometry is
    floating point and is not modelled here, so each operation
    the event translator and the multi-shot capture invoke is recorded, in
    order, in `calls`. Two are not: `set_camera`, modelled by its effect on
    the pose, and the read-only `camera_params` that drawing uses. */
module Controls {
  import opened Ints

  /** A point of world space; the coordinates are carried, never computed. */
  datatype Point = Point(x: real, y: real, z: real)

  /** An eye position and the point it looks at. */
  datatype Pose = Pose(position: Point, target: Point)

  /** `NavState`: which drag is in progress. `Idle` is the source's `NavState::None`. */
  datatype NavState = Idle | Rotating | Panning

  /** `CameraMovement`: the directions of keyboard navigation. */
  datatype CameraMovement = Forward | Backward | Left | Right

  /** A rotation by one equal step of a full turn: the angle `2π / steps` as f32. */
  datatype Angle = TurnStep(steps: u32)

  /** One invocation of an operation of the controller (or of its camera). */
  datatype ControlCall =
    | HandleMouseUp
    | HandleMouseMove(x: real, y: real)
    | ProcessMouseScroll(yoffset: real)
    | ProcessKeyboard(direction: CameraMovement, pressed: bool)
    | UpdateAspectRatio(width: u32, height: u32)
    | RotateObject(angle: Angle)

  /** The pose changes the controller makes on a mouse move, a scroll or a
      rotation are not modelled: those methods may change `position` and
      `target`, and promise nothing about them. */
  class OrbitControls {
    var state: NavState
    var position: Point
    var target: Point
    /** The screen size as last stored; the source keeps it as f32. */
    var screenWidth: u32
    var screenHeight: u32
    /** The logged operations invoked on the controller so far, oldest first. */
    var calls: seq<ControlCall>

    /** `OrbitControls::new(position, width, height)`; the initial target is
        chosen inside the controller and is a parameter here. */
    constructor (position: Point, target: Point, width: u32, height: u32)
      ensures this.state == Idle && this.calls == []
      ensures this.position == position && this.target == target
      ensures screenWidth == width && screenHeight == height
    {
      this.state := Idle;
      this.position := position;
      this.target := target;
      this.screenWidth := width;
      this.screenHeight := height;
      this.calls := [];
    }

    /** Appends one call to the log and changes nothing else. */
    method Record(call: ControlCall)
      modifies this`calls
      ensures calls == old(calls) + [call]
    {
      calls := calls + [call];
    }

    method HandleMouseUp()
      modifies this`calls
      ensures calls == old(calls) + [ControlCall.HandleMouseUp]
    {
      Record(ControlCall.HandleMouseUp);
    }

    method HandleMouseMove(x: real, y: real)
      modifies this`calls, this`position, this`target
      ensures calls == old(calls) + [ControlCall.HandleMouseMove(x, y)]
    {
      Record(ControlCall.HandleMouseMove(x, y));
    }

    method ProcessMouseScroll(yoffset: real)
      modifies this`calls, this`position, this`target
      ensures calls == old(calls) + [ControlCall.ProcessMouseScroll(yoffset)]
    {
      Record(ControlCall.ProcessMouseScroll(yoffset));
    }

    method ProcessKeyboard(direction: CameraMovement, pressed: bool)
      modifies this`calls
      ensures calls == old(calls) + [ControlCall.ProcessKeyboard(direction, pressed)]
    {
      Record(ControlCall.ProcessKeyboard(direction, pressed));
    }

    /** `camera.update_aspect_ratio(width as f32 / height as f32)`. */
    method UpdateAspectRatio(width: u32, height: u32)
      modifies this`calls
      ensures calls == old(calls) + [ControlCall.UpdateAspectRatio(width, height)]
    {
      Record(ControlCall.UpdateAspectRatio(width, height));
    }

    method RotateObject(angle: Angle)
      modifies this`calls, this`position, this`target
      ensures calls == old(calls) + [ControlCall.RotateObject(angle)]
    {
      Record(ControlCall.RotateObject(angle));
    }

    /** `set_camera`: adopts the pose the controller derives from a camera
        node's camera and world transform (that derivation is not modelled). */
    method SetCamera(derived: Pose)
      modifies this`position, this`target
      ensures position == derived.position && target == derived.target
    {
      position := derived.position;
      target := derived.target;
    }
  }
}
