# gltf-viewer: the viewer's decision logic, in Dafny

This project models the decision logic of `src/viewer.rs` of gltf-viewer, an
OpenGL viewer for glTF scenes. That logic has four parts:

- **The event translator** (`process_events`, `process_input`). It walks a
  batch of window events. For each one it changes the orbit controller's
  navigation state (`NavState`), calls one of the controller's operations,
  stores a new viewport size, or sets the keep-running flag.
- **Multi-shot capture** (`multiscreenshot`). It takes `count` screenshots.
  Before each one it rotates the scene by one step. Shot `i` gets the
  requested file name with `_i` inserted before its last `.`.
- **Camera selection** (the camera branch of `GltfViewer::new`). The viewer
  either adopts camera node 0, exits with code 2, or fits the pose to the
  scene bounds and then applies the explicit position and target.
- **The orbit controller**, as far as the viewer touches it. Its geometry is
  floating point and is not modelled here, so `Controls.OrbitControls` has the
  `state`, `position`, `target` and screen-size fields that the viewer
  writes, plus `calls`, a log, in order, of every operation the event
  translator and the multi-shot capture invoke on it. Two controller
  operations are not logged: `set_camera`, modelled by its effect on the
  pose, and the read-only `camera_params` that drawing uses.

Files:

- `ints.dfy`: the Rust integer types and their conversions.
- `wrappers.dfy`: the `Option` type.
- `controls.dfy`: the controller.
- `events.dfy`: the events, with `Step` and `Run` giving one event's and a
  batch's effect as functions, and the lemmas about a batch.
- `translator.dfy`: `process_input` and `process_events` as methods,
  proved against `KeyCommand` and `Run` respectively.
- `shot_names.dfy`: multi-shot file names and their inverse.
- `viewer.dfy`: camera selection and the viewer's screenshot methods.

## Notable behaviour of the code

- **The camera guard.** Line 175 tests `!camera_options.index == -1`.
  Rust's `!` on an `i32` is a bitwise complement, equal to `-x - 1`. So
  the guard holds only for index 0. The code around it expects any index
  other than -1: line 176 checks the index against the node count, and the
  error text at lines 177-178 reports the largest valid index, and line
  187 warns that `--cam-pos`/`--cam-target` are ignored when an index is given. As written:
  - index 1 in a document with two cameras falls through to the bounds fit
    (`Viewer.SecondCameraNotSelected`);
  - the explicit position and target are then applied, not ignored.
- **The exit with code 2.** On the guarded path the index is 0, so the
  check `0 >= camera_nodes.len() as i32` can only succeed when that cast
  wraps. That needs a node count whose low 32 bits are 0 or have bit 31
  set (`Viewer.TruncatedCountExits`). Below 2^31 nodes it never happens
  (`Viewer.CameraNodeIff`).
- **Escape and close.** A close event clears the keep-running flag, and
  every keyboard event overwrites it. So a later key event in the same
  batch undoes an earlier close or Escape press (`Events.KeepRunningIff`).
- **Button presses.** A left or right press sets `Rotating` or `Panning`
  whatever the state was before, including in the middle of another drag.

## Model

| member | source | states |
|---|---|---|
| `Events.KeyDirection` | src/viewer.rs:429-432 | a key steers in direction `d` exactly when it is one of the two keys for `d` (W/Up forward, S/Down backward, A/Left left, D/Right right) |
| `Events.KeyCommand` | src/viewer.rs:421-437 | the flag is false exactly for a press of Escape; a call is made exactly for a steering key, and it is `process_keyboard(direction of the key, whether pressed)`; a missing key code makes no call |
| `Events.EmittedMouseUps` | src/viewer.rs:379-397 | one event calls `handle_mouse_up` at most once, and exactly when it takes a drag in progress back to `None` |
| `Events.MouseUpsBounded` | src/viewer.rs:379-397 | over any batch, the `handle_mouse_up` calls (plus one if a drag is still in progress) never outnumber the left/right presses (plus one if a drag was in progress before) |
| `Events.NonButtonEventsKeepNav` | src/viewer.rs:362-416 | events other than mouse buttons never change the navigation state and never call `handle_mouse_up` |
| `Events.DragRoundTrip` | src/viewer.rs:379-397 | a left or right press, any non-button events, then a release of the same button: from any state the result is `None` and exactly one `handle_mouse_up` call |
| `Events.KeepRunningIff` | src/viewer.rs:360-418 | starting from true, a batch returns false exactly when some close or Escape press is followed by no later keyboard event |
| `Events.ZoomsFollowWheel` | src/viewer.rs:403-408 | the zoom calls are exactly the wheel events, in order: a pixel delta's y offset unchanged, a line delta's lines times 3, the other axis dropped |
| `Events.MovesFollowCursor` | src/viewer.rs:399-402 | every cursor move, and nothing else, becomes one `handle_mouse_move` with the same position, in order, in any drag state |
| `Events.AspectsFollowResizes` | src/viewer.rs:366-374 | every resize, and nothing else, becomes one `update_aspect_ratio(w / h)` with that resize's size, in order |
| `Events.AspectMatchesLastResize` | src/viewer.rs:366-374 | after a batch with a resize, the last aspect update is for the last resize's size, which is also the stored screen size |
| `Events.SteeringFollowsKeys` | src/viewer.rs:409-434 | the `process_keyboard` calls are exactly the steering-key events, in order, each with its key's direction and its press state |
| `Events.LastResize` | src/viewer.rs:366-377 | the size of the last resize event of a batch, with no later resize after it, or none when the batch has no resize |
| `Events.LastResizeWins` | src/viewer.rs:366-377 | after a batch, the viewer's size and the controller's screen size are those of the last resize, or unchanged when there was none |
| `Translator.ProcessInput` | src/viewer.rs:421-437 | `process_input` returns `KeyCommand`'s flag, appends its call, and changes nothing else in the controller |
| `Translator.ProcessEvents` | src/viewer.rs:353-419 | `process_events` leaves the navigation state, the call log, the screen size, the viewport size and the flag as `Run` says; the flag is false exactly as in `KeepRunningIff`; the size is the last resize's |
| `Controls.OrbitControls.constructor` | src/viewer.rs:123-125 | a new controller is idle with an empty call log, the given eye position and the given screen size |
| `Controls.OrbitControls.HandleMouseUp` | src/viewer.rs:394 | records one `handle_mouse_up` call |
| `Controls.OrbitControls.HandleMouseMove` | src/viewer.rs:399-402 | records one `handle_mouse_move(x, y)` call; may move the pose |
| `Controls.OrbitControls.ProcessMouseScroll` | src/viewer.rs:403-408 | records one `process_mouse_scroll(amount)` call; may move the pose |
| `Controls.OrbitControls.ProcessKeyboard` | src/viewer.rs:429-432 | records one `process_keyboard(direction, pressed)` call |
| `Controls.OrbitControls.UpdateAspectRatio` | src/viewer.rs:372 | records one aspect-ratio update from a width and a height |
| `Controls.OrbitControls.RotateObject` | src/viewer.rs:343 | records one `rotate_object(angle)` call; may move the pose |
| `Controls.OrbitControls.SetCamera` | src/viewer.rs:182-184 | the controller takes the eye position and target derived from a camera node |
| `ShotNames.LastIndexOf` | src/viewer.rs:344 | `rfind`: the index found holds the character and no later index does; none means the character does not occur |
| `ShotNames.InsertionPoint` | src/viewer.rs:344 | the insertion point is the last `.` of the name, or its length when there is no `.` |
| `ShotNames.Decimal` | src/viewer.rs:346 | the decimal rendering of a number is a non-empty string of digits, with no leading zero (it starts with `0` only for 0), and one digit long exactly below 10 |
| `ShotNames.DecimalRoundTrip` | src/viewer.rs:346 | reading the decimal rendering back gives the number |
| `ShotNames.ShotNameShape` | src/viewer.rs:344-346 | the name of shot `i` keeps the filename before the insertion point, then has `_` and the digits of `i`, then the rest of the filename; its own last `.` is the filename's, moved right |
| `ShotNames.ShotNameRoundTrip` | src/viewer.rs:344-346 | splitting the name of shot `i` gives back the filename and `i` |
| `ShotNames.ShotNamesDistinct` | src/viewer.rs:342-346 | different shot numbers give different names |
| `ShotNames.DotInDirectoryName` | src/viewer.rs:344-346 | `a.dir/f` becomes `a_1.dir/f`, `out.png` becomes `out_4.png` and `noext` becomes `noext_3` |
| `Viewer.UsesCameraNode` | src/viewer.rs:175 | the guard holds exactly when there is a camera node and the index is 0 |
| `Viewer.SelectCamera` | src/viewer.rs:175-198 | adopting a node means node 0, with a warning exactly when a position or target was given; the bounds fit happens exactly when there are no camera nodes or the index is not 0, and carries the given overrides; exit(2) happens exactly when the index is 0 and the node count, cast to i32, is not positive |
| `Viewer.CameraNodeIff` | src/viewer.rs:175-181 | below 2^31 camera nodes, node 0 is adopted exactly when one exists and index 0 was asked for, and exit(2) cannot happen |
| `Viewer.SecondCameraNotSelected` | src/viewer.rs:175 | with two cameras, index 1 leads to the bounds fit with the given overrides |
| `Viewer.TruncatedCountExits` | src/viewer.rs:176-179 | with 2^31 camera nodes, index 0 leads to exit(2) |
| `Viewer.GltfViewer.constructor` | src/viewer.rs:123-128 | a new viewer's controller looks from (0, 0, 2), is sized to the viewport and has had one aspect-ratio update; no screenshots exist |
| `Viewer.GltfViewer.ApplyCameraOptions` | src/viewer.rs:175-198 | the controller's pose after the camera branch: camera node 0's pose, or the bounds pose with each given override applied, or untouched with exit code 2, as `SelectCamera` decides |
| `Viewer.GltfViewer.Screenshot` | src/viewer.rs:313-337 | records one screenshot: file name, size and how many controller calls preceded it |
| `Viewer.GltfViewer.MultiScreenshot` | src/viewer.rs:338-349 | appends exactly `count` rotations by one `count`-th of a turn, and `count` shots numbered 1 to `count`, where shot `i` is drawn right after the `i`-th rotation; for count 0 there is no call and no shot, and the pose is unchanged |
| `Viewer.Rotations` | src/viewer.rs:342-343 | `n` rotation calls, all by the same angle |
| `Viewer.MultiShotsAt` | src/viewer.rs:342-347 | a capture has `n` shots, and the `k`-th is named for `k + 1` and drawn after `k + 1` more controller calls |
| `Viewer.MultiShotNames` | src/viewer.rs:342-347 | the names of a capture are pairwise distinct, and each splits back into the filename and its shot number |
| `Ints.BitNot` | src/viewer.rs:175 | `!x` on an `i32` (modelled as `-x - 1`) is -1 exactly for 0, and flips the sign |
| `Ints.UsizeAsI32` | src/viewer.rs:176 | `as i32` keeps the value modulo 2^32, and keeps it exactly below 2^31 |
| `Ints.I32AsUsize` | src/viewer.rs:181 | `as usize` sign-extends: the result is the one `usize` congruent to the `i32` modulo 2^64 |

## Left out

- Window, GL context and off-screen framebuffer creation, GL state and buffer swapping (src/viewer.rs:78-152, 287). These are foreign graphics and window APIs. For the same reason `gl_window.resize` on a resize event is not recorded; the new size is.
- Screenshot pixel readback, the vertical flip, the colour palette and PNG writing (src/viewer.rs:313-337). These are I/O and library code; `Screenshot` records only which file is written, at what size, and how many controller calls preceded it.
- `load`: the glTF import, its exit(1), and the panic on `http` sources (src/viewer.rs:203-242). This is I/O and external parsing. The camera nodes and the scene's bounds pose are parameters of the viewer.
- `set_camera_from_bounds` and the pose `set_camera` derives from a camera node. Both are f32 geometry with a square root; each is a `Pose` parameter.
- The render loop, its frame timing and `FrameTimer` (src/viewer.rs:266-304). These depend on the clock and on floating point.
- The controller's and the camera's internals: rotation, pan, zoom, projection. That code lives in the `controls` and `render` modules, not in src/viewer.rs, and is not modelled; each call is recorded in `calls` instead. `handle_mouse_move`, `process_mouse_scroll` and `rotate_object` may change `position` and `target`, and the model says nothing about the new pose; so `ProcessEvents` and `MultiScreenshot` promise nothing about the pose either.
- `camera.fovy = camera_options.fovy`, `Camera::default()` and the camera intrinsics `set_camera` copies. Camera internals are not modelled; `CameraOptions.fovy` is carried but unused.
- The constructor's `first_mouse`, `last_x` and `last_y` fields. Nothing in the modelled code reads them.
- `find_color_type`: a mapping over a library enum with an `unreachable!` fallback.
- Log output: the `error!` before `exit(2)` (src/viewer.rs:177-178), the `trace!` on a resize (line 376), and the `println!`s and `error!` in `screenshot` (lines 329-335). Only the warning at line 187 shows in the model, as the `warnIgnoredPose` flag of the choice `Viewer.SelectCamera` makes.
- Floating point: scroll offsets, cursor positions and coordinates are `real`. The f64-to-f32 cursor cast and the rounding of `lines * 3.0` and of `w as f32` are not modelled. The rotation angle `2π / count` is recorded as `TurnStep(count)`.
- Strings are sequences of characters, not UTF-8 bytes. `rfind` returns a byte index, which differs from the character index once a multi-byte character precedes the dot (for `é.png`, byte 2 against character 1). The resulting name is the same, because an ASCII `.` always starts a character, so inserting at its byte index puts `_i` before the same character.
- Viewer.GltfViewer.MultiScreenshot: requires `count < 2^32 - 1`. For `count == u32::MAX` the source's `count + 1` overflows; that panics in a debug build and gives an empty range in a release build.
- Viewer.GltfViewer.ApplyCameraOptions: requires fewer than 2^64 camera nodes, the `usize` range of a 64-bit target.
- Translator.ProcessEvents: the ordering of the host's event queue is an input (the `events` sequence); polling itself is not modelled.
