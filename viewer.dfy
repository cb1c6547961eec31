/** The decision logic of `GltfViewer`: which camera pose the viewer starts
    from (the camera branch of `GltfViewer::new`), and the naming and
    sequencing of a multi-shot capture (`multiscreenshot`). */
module Viewer {
  import opened Ints
  import opened Wrappers
  import opened Controls
  import opened ShotNames

  /** `CameraOptions`: a camera node index (-1 when none was asked for) and
      optional explicit eye position and target. */
  datatype CameraOptions = CameraOptions(index: i32, position: Option<Point>, target: Option<Point>, fovy: real)

  /** How the initial camera pose is chosen. */
  datatype CameraChoice =
    | AdoptCameraNode(node: usize, warnIgnoredPose: bool)  // set_camera from that node; warn that --cam-pos/--cam-target are ignored
    | ExitNoSuchCamera                                     // error message, then process::exit(2)
    | FitToBounds(position: Option<Point>, target: Option<Point>)  // set_camera_from_bounds, then the given overrides

  /** What `GltfViewer::new` goes on to do after choosing the camera. */
  datatype Startup = Continue(warned: bool) | Exit(code: int)

  /** The guard `!camera_nodes.is_empty() && !index == -1`. Since `!` is a
      bitwise complement, it holds only for index 0. */
  function UsesCameraNode(cameraNodes: usize, index: i32): (b: bool)
    ensures b <==> cameraNodes > 0 && index == 0
  {
    cameraNodes != 0 && BitNot(index) == -1
  }

  /** The camera branch of `GltfViewer::new`, for a document with
      `cameraNodes` camera nodes. */
  function SelectCamera(cameraNodes: usize, options: CameraOptions): (r: CameraChoice)
    ensures r.AdoptCameraNode? ==> r.node == 0 && 0 < cameraNodes
    ensures r.AdoptCameraNode? ==> (r.warnIgnoredPose <==> options.position.Some? || options.target.Some?)
    ensures r.FitToBounds? <==> cameraNodes == 0 || options.index != 0
    ensures r.FitToBounds? ==> r.position == options.position && r.target == options.target
    ensures r == ExitNoSuchCamera <==>
      cameraNodes > 0 && options.index == 0 && UsizeAsI32(cameraNodes) <= 0
  {
    if UsesCameraNode(cameraNodes, options.index) then
      if options.index >= UsizeAsI32(cameraNodes) then ExitNoSuchCamera
      else AdoptCameraNode(I32AsUsize(options.index), options.position.Some? || options.target.Some?)
    else FitToBounds(options.position, options.target)
  }

  /** For every document with fewer than 2^31 camera nodes, camera node 0 is
      adopted exactly when there is one and index 0 was asked for, and the
      exit with code 2 cannot happen. */
  lemma CameraNodeIff(cameraNodes: usize, options: CameraOptions)
    requires cameraNodes < 0x8000_0000
    ensures SelectCamera(cameraNodes, options).AdoptCameraNode? <==> cameraNodes > 0 && options.index == 0
    ensures SelectCamera(cameraNodes, options) != ExitNoSuchCamera
  {
  }

  /** Index 1 of a document with two cameras does not select the second
      camera: the viewer fits the pose to the scene bounds instead. */
  lemma SecondCameraNotSelected(position: Option<Point>, target: Option<Point>, fovy: real)
    ensures SelectCamera(2, CameraOptions(1, position, target, fovy)) == FitToBounds(position, target)
  {
  }

  /** `camera_nodes.len() as i32` wraps, so a document with 2^31 camera
      nodes makes the index-0 request exit with code 2. */
  lemma TruncatedCountExits(position: Option<Point>, target: Option<Point>, fovy: real)
    ensures SelectCamera(0x8000_0000, CameraOptions(0, position, target, fovy)) == ExitNoSuchCamera
  {
  }

  /** One screenshot written: its file name and size, and how many controller
      calls had been made when it was drawn. Within one capture this says
      which rotations preceded the shot; the pose itself also depends on
      what was set directly (as `ApplyCameraOptions` does) before the calls. */
  datatype Shot = Shot(filename: string, width: u32, height: u32, afterCalls: nat)

  /** The shots of a multi-shot capture of `filename` after `n` rotations:
      shot `i` is named for `i` and drawn after `base + i` controller calls. */
  function MultiShots(filename: string, width: u32, height: u32, base: nat, n: nat): seq<Shot>
  {
    if n == 0 then []
    else MultiShots(filename, width, height, base, n - 1) + [Shot(ShotName(filename, n), width, height, base + n)]
  }

  /** `n` rotations by the same angle. */
  function Rotations(angle: Angle, n: nat): (r: seq<ControlCall>)
    ensures |r| == n && forall k :: 0 <= k < n ==> r[k] == RotateObject(angle)
  {
    if n == 0 then [] else Rotations(angle, n - 1) + [RotateObject(angle)]
  }

  class GltfViewer {
    var width: u32
    var height: u32
    const controls: OrbitControls
    /** For each camera node of the loaded document, the pose `set_camera`
        derives from its camera and final transform. */
    const cameraNodes: seq<Pose>
    /** The pose `set_camera_from_bounds` derives from the scene's bounding box. */
    const boundsPose: Pose
    /** The screenshots written so far, oldest first. */
    var screenshots: seq<Shot>

    /** The part of `GltfViewer::new` before the camera branch: a controller
        looking from (0, 0, 2), sized to the viewport, its camera told the aspect ratio. */
    constructor (width: u32, height: u32, initialTarget: Point, cameraNodes: seq<Pose>, boundsPose: Pose)
      ensures this.width == width && this.height == height
      ensures this.cameraNodes == cameraNodes && this.boundsPose == boundsPose
      ensures screenshots == []
      ensures fresh(controls)
      ensures controls.state == Idle
      ensures controls.position == Point(0.0, 0.0, 2.0) && controls.target == initialTarget
      ensures controls.screenWidth == width && controls.screenHeight == height
      ensures controls.calls == [UpdateAspectRatio(width, height)]
    {
      var c := new OrbitControls(Point(0.0, 0.0, 2.0), initialTarget, width, height);
      c.UpdateAspectRatio(width, height);
      this.width, this.height := width, height;
      this.controls := c;
      this.cameraNodes := cameraNodes;
      this.boundsPose := boundsPose;
      this.screenshots := [];
    }

    /** The camera branch of `GltfViewer::new`: adopts camera node 0, exits
        with code 2, or fits the pose to the bounds and applies the overrides. */
    method ApplyCameraOptions(options: CameraOptions) returns (outcome: Startup)
      requires |cameraNodes| < 0x1_0000_0000_0000_0000
      modifies controls`position, controls`target
      ensures match SelectCamera(|cameraNodes| as usize, options)
        case ExitNoSuchCamera =>
          outcome == Exit(2)
          && controls.position == old(controls.position) && controls.target == old(controls.target)
        case AdoptCameraNode(k, warn) =>
          outcome == Continue(warn) && (k as int) < |cameraNodes|
          && controls.position == cameraNodes[k].position && controls.target == cameraNodes[k].target
        case FitToBounds(p, t) =>
          outcome == Continue(false)
          && controls.position == (if p.Some? then p.value else boundsPose.position)
          && controls.target == (if t.Some? then t.value else boundsPose.target)
    {
      var count := |cameraNodes| as usize;
      if count != 0 && BitNot(options.index) == -1 {
        if options.index >= UsizeAsI32(count) {
          return Exit(2);
        }
        var node := cameraNodes[I32AsUsize(options.index)];
        controls.SetCamera(node);
        outcome := Continue(options.position.Some? || options.target.Some?);
      } else {
        controls.position, controls.target := boundsPose.position, boundsPose.target;
        if options.position.Some? {
          controls.position := options.position.value;
        }
        if options.target.Some? {
          controls.target := options.target.value;
        }
        outcome := Continue(false);
      }
    }

    /** `screenshot`: draws the current view and writes it to `filename`. */
    method Screenshot(filename: string, width: u32, height: u32)
      modifies this`screenshots
      ensures screenshots == old(screenshots) + [Shot(filename, width, height, |controls.calls|)]
    {
      screenshots := screenshots + [Shot(filename, width, height, |controls.calls|)];
    }

    /** `multiscreenshot`: `count` shots, numbered 1 to `count`, each taken
        right after one more rotation by a `count`-th of a full turn. */
    method MultiScreenshot(filename: string, width: u32, height: u32, count: u32)
      requires count < 0xFFFF_FFFF  // `count + 1` must fit in a u32
      modifies this`screenshots, controls`calls, controls`position, controls`target
      ensures controls.calls == old(controls.calls) + Rotations(TurnStep(count), count as nat)
      ensures screenshots == old(screenshots) + MultiShots(filename, width, height, |old(controls.calls)|, count as nat)
      ensures count == 0 ==> controls.position == old(controls.position) && controls.target == old(controls.target)
    {
      ghost var calls0, shots0 := controls.calls, screenshots;
      for i := 1 to count as int + 1
        invariant controls.calls == calls0 + Rotations(TurnStep(count), i - 1)
        invariant screenshots == shots0 + MultiShots(filename, width, height, |calls0|, i - 1)
        invariant i == 1 ==> controls.position == old(controls.position) && controls.target == old(controls.target)
      {
        controls.RotateObject(TurnStep(count));
        var dot := match LastIndexOf(filename, '.') case Some(k) => k case None => |filename|;
        var actualName := InsertStr(filename, dot, "_" + Decimal(i));
        assert actualName == ShotName(filename, i);
        assert |controls.calls| == |calls0| + i;
        Screenshot(actualName, width, height);
      }
    }
  }

  /** The shots of a multi-shot capture: `n` of them, the `k`-th (from 0)
      named for `k + 1` and drawn after `k + 1` more controller calls. */
  lemma {:induction false} MultiShotsAt(filename: string, width: u32, height: u32, base: nat, n: nat, k: nat)
    requires k < n
    ensures |MultiShots(filename, width, height, base, n)| == n
    ensures MultiShots(filename, width, height, base, n)[k]
         == Shot(ShotName(filename, k + 1), width, height, base + k + 1)
  {
    if k < n - 1 {
      MultiShotsAt(filename, width, height, base, n - 1, k);
    } else if n > 1 {
      MultiShotsAt(filename, width, height, base, n - 1, 0);
    }
  }

  /** The file names of a multi-shot capture are pairwise distinct, and each
      splits back into the requested filename and its 1-based shot number. */
  lemma MultiShotNames(filename: string, width: u32, height: u32, base: nat, n: nat)
    ensures var shots := MultiShots(filename, width, height, base, n);
      |shots| == n
      && (forall k :: 0 <= k < n ==> SplitShotName(shots[k].filename) == Some((filename, k + 1)))
      && (forall k, l :: 0 <= k < l < n ==> shots[k].filename != shots[l].filename)
  {
    var shots := MultiShots(filename, width, height, base, n);
    if n > 0 {
      MultiShotsAt(filename, width, height, base, n, 0);
    }
    forall k | 0 <= k < n ensures SplitShotName(shots[k].filename) == Some((filename, k + 1)) {
      MultiShotsAt(filename, width, height, base, n, k);
      ShotNameRoundTrip(filename, k + 1);
    }
    forall k, l | 0 <= k < l < n ensures shots[k].filename != shots[l].filename {
      MultiShotsAt(filename, width, height, base, n, k);
      MultiShotsAt(filename, width, height, base, n, l);
      ShotNamesDistinct(filename, k + 1, l + 1);
    }
  }
}
