# 3D town tour: hover highlighters and camera target-seek

A model of the interaction logic of a browser 3D walkthrough viewer (React and three.js).
The rendering and raycasting stay outside the model. What remains is four small state machines:

- **GLB hover highlighter** (`GlbModel`). A frame callback keeps the hovered mesh and its saved
  original material in two refs. On every frame, the first ray hit moves the highlight material
  onto the hit mesh and gives the previous mesh its original material back. It also sets or
  clears the hover record shown beside the pointer. Double-click opens the detail dialog when
  the ray hits something.
- **FBX hover highlighter** (`FbxModel`). The same idea, but the original material is stored on
  the mesh's own `userData`. There is no is-mesh test. The frame is skipped until the model's
  group is mounted. The record is built after the swap.
- **Room viewer** (`RoomViewer`). Pointer-over and pointer-out handlers swap a yellow highlight
  in and out through an `originalMaterials` dictionary. Two meshes are excluded by name. A scene
  traversal marks every mesh interactive. A click on a named object navigates to
  `/room/<name>`.
- **Camera mover** (`RoomTour`). A double-clicked floor hotspot sets a navigation target. While
  the target is set, each frame disables the orbit controls and moves the camera toward the
  target, clamped into the room's box. On arrival it snaps to the clamped target, clears the
  target and enables the controls again. While the controls are enabled, the user can orbit,
  pan and zoom the camera anywhere, also outside the room's box.

Each component is a class whose fields are the source's refs, state and material slots.
Its methods follow the source's statements in order. Each method is proved equal to a pure
step function on a datatype state (`Step`, `Over`, `Out`, `Seek`). The lemmas about those
functions state what the source promises.

The central invariant of the three highlighters is `Underlying`. It is the material table with
every saved original put back. Every handler preserves it. So a highlight never leaks, the
original material comes back exactly, and no other object is touched. The run functions
(`Run`, `Replay`, `Tour`) carry the invariants across any sequence of inputs.

Objects are ids. Materials are values. A hit is the first intersection, given as an input. The
camera's step position and the arrival test are inputs of each frame. Positions are `real`.

## Model

| member | source | states |
|---|---|---|
| `Scene.ColorText` | src/components/GlbModel.tsx:97 | the colour text is `N/A` exactly when the material has no colour, otherwise `#` followed by its hex digits |
| `Scene.Traversal` | src/components/RoomViewer.tsx:94 | a traversal visits the node itself first |
| `Scene.TraversalVisitsSubtrees` | src/components/RoomViewer.tsx:94-100 | a traversal visits every node of every child subtree |
| `GlbModel.Step` | src/components/GlbModel.tsx:70-109 | after a frame, the refs are set together, only the hovered mesh carries the highlight, the saved material is not the highlight, and the table with the highlight taken off is unchanged |
| `GlbModel.NoHitRestores` | src/components/GlbModel.tsx:74-80 | with no hit, a hovered mesh gets its saved material back, both refs become null and the record is set to null; with nothing hovered, nothing changes and nothing is emitted |
| `GlbModel.NewMeshHighlighted` | src/components/GlbModel.tsx:84-93 | a mesh other than the hovered one becomes hovered: its prior material is saved, it carries the highlight, the previous mesh is restored, no other slot changes, and the last record describes it |
| `GlbModel.RehitIsNoop` | src/components/GlbModel.tsx:74-86 | hitting the hovered mesh again changes nothing and emits no record |
| `GlbModel.NonMeshNotHighlighted` | src/components/GlbModel.tsx:74-86 | a non-mesh first hit is not highlighted, any previous highlight is cleared, and no object carries the highlight |
| `GlbModel.StepFrame` | src/components/GlbModel.tsx:75-93 | a frame writes no slot other than those of the previously hovered object and the hit object |
| `GlbModel.RecordDescribesSavedMaterial` | src/components/GlbModel.tsx:95-103 | a record describes the type and colour of the saved original material; its name is never empty and is `Unnamed Object` for an unnamed mesh |
| `GlbModel.RepeatedHitIsIdle` | src/components/GlbModel.tsx:74-86 | a second frame with the same hit swaps no material and emits no record |
| `GlbModel.Run` | src/components/GlbModel.tsx:70-109 | any sequence of frames keeps the one-highlight invariant and the unhighlighted table |
| `GlbModel.LeavingRestoresEverything` | src/components/GlbModel.tsx:74-80 | after any sequence of frames that ends with no hit, nothing is hovered and every slot holds its material from before the sequence, a mesh hovered at the start having its saved original back |
| `GlbModel.Highlighter.constructor` | src/components/GlbModel.tsx:23-24 | both refs start null over a scene that carries no highlight |
| `GlbModel.Highlighter.Tick` | src/components/GlbModel.tsx:70-109 | the frame callback's new refs, slots and `setHoverInfo` calls are those of `Step`, and the invariant is kept |
| `GlbModel.Highlighter.DoubleClick` | src/components/GlbModel.tsx:37-51 | the dialog opens exactly when the ray hits something; hover state is not touched |
| `FbxModel.Step` | src/components/FBXModel.tsx:59-90 | after a frame, only the hovered object carries the highlight, its saved `userData` material is not the highlight, and the table with the highlight taken off is unchanged |
| `FbxModel.UnmountedIsNoop` | src/components/FBXModel.tsx:60 | without the group, a frame changes nothing and emits nothing |
| `FbxModel.NewHitHighlighted` | src/components/FBXModel.tsx:64-72 | any new first hit, mesh or not, becomes hovered: the previous one is restored from its own `userData`, the new one's material is stored in its `userData` and replaced by the highlight, and no other slot changes |
| `FbxModel.RehitIsNoop` | src/components/FBXModel.tsx:66 | re-hitting the hovered object changes nothing |
| `FbxModel.NoHitRestores` | src/components/FBXModel.tsx:83-88 | with no hit, a hovered object is restored, the ref becomes null and the record is null; with nothing hovered nothing changes |
| `FbxModel.RecordDescribesHighlight` | src/components/FBXModel.tsx:72-78 | every record shows the highlight's type and colour, whatever the object's material; an unnamed object reads `Unnamed` |
| `FbxModel.Run` | src/components/FBXModel.tsx:59-90 | any sequence of mounted frames keeps the invariant and the unhighlighted table |
| `FbxModel.LeavingRestoresEverything` | src/components/FBXModel.tsx:83-88 | after any sequence of mounted frames that ends with no hit, nothing is hovered and every slot holds its material from before the sequence, an object hovered at the start having its saved original back |
| `FbxModel.Highlighter.constructor` | src/components/FBXModel.tsx:11 | nothing hovered and no `userData` entries over a scene that carries no highlight |
| `FbxModel.Highlighter.Tick` | src/components/FBXModel.tsx:59-90 | the frame callback's new ref, slots, `userData` and `setHoverInfo` calls are those of `Step`, and the invariant is kept |
| `FbxModel.Highlighter.DoubleClick` | src/components/FBXModel.tsx:20-36 | the dialog opens exactly when the group is mounted and the ray hits something |
| `RoomViewer.Over` | src/components/RoomViewer.tsx:60-80 | pointer-over keeps the invariant: dictionary keys are interactive, non-excluded objects carrying the yellow highlight, and only they carry it; the table with the saved materials put back is unchanged |
| `RoomViewer.Out` | src/components/RoomViewer.tsx:82-90 | pointer-out keeps the same invariant and the same restored table |
| `RoomViewer.OverExcludedIsNoop` | src/components/RoomViewer.tsx:62 | pointer-over on either excluded name changes nothing |
| `RoomViewer.OverHighlights` | src/components/RoomViewer.tsx:64-79 | on an interactive mesh, pointer-over puts on the yellow highlight, sets cursor `pointer` and saves the material only if there is no entry yet; on a non-interactive mesh it does nothing |
| `RoomViewer.OverIsIdempotent` | src/components/RoomViewer.tsx:64-67 | a repeated pointer-over changes nothing, so the saved original is never overwritten |
| `RoomViewer.OutRestores` | src/components/RoomViewer.tsx:84-89 | on an interactive mesh with an entry, pointer-out restores that material, deletes the entry and sets cursor `default`; otherwise it does nothing |
| `RoomViewer.OverThenOut` | src/components/RoomViewer.tsx:64-88 | over then out on an interactive, non-excluded mesh that has no entry yet restores its material and leaves the dictionary as it was |
| `RoomViewer.Replay` | src/components/RoomViewer.tsx:60-90 | any sequence of pointer events keeps the invariant and the restored table |
| `RoomViewer.DrainedMeansRestored` | src/components/RoomViewer.tsx:84-86 | once the dictionary is empty again, every object has exactly its material from before the events |
| `RoomViewer.Mark` | src/components/RoomViewer.tsx:93-101 | scene setup marks every mesh of the traversal interactive, marks nothing else, and keeps the invariant |
| `RoomViewer.ClickRoute` | src/components/RoomViewer.tsx:46-51 | a click navigates exactly when there is a first hit with a non-empty name |
| `RoomViewer.RouteRoundTrip` | src/App.tsx:13 | the navigated path matches the `/room/:roomID` route with the clicked name as `roomID` |
| `RoomViewer.Viewer.constructor` | src/components/RoomViewer.tsx:13 | the dictionary starts empty over a scene that carries no yellow highlight |
| `RoomViewer.Viewer.PointerOver` | src/components/RoomViewer.tsx:60-80 | the handler's new slots, dictionary and cursor are those of `Over` |
| `RoomViewer.Viewer.PointerOut` | src/components/RoomViewer.tsx:82-90 | the handler's new slots, dictionary and cursor are those of `Out` |
| `RoomViewer.Viewer.MarkInteractive` | src/components/RoomViewer.tsx:93-101 | the traversal loop's new interactive flags are those of `Mark` |
| `RoomTour.Clamp` | src/components/RoomTour.tsx:75-81 | the clamp is one of its arguments; it lies in `[lo, hi]`; a value inside is unchanged; below gives `lo` and above gives `hi` |
| `RoomTour.ClampVector` | src/components/RoomTour.tsx:75-81 | the result lies in the box, a point already inside is unchanged, and each component is the point's, the minimum's or the maximum's |
| `RoomTour.ClampVectorIdempotent` | src/components/RoomTour.tsx:75-81 | clamping a clamped point changes nothing |
| `RoomTour.RoomBoxWellFormed` | src/components/RoomTour.tsx:72-73 | the room box is not empty, so every clamp lands inside it |
| `RoomTour.SeekIdleIsNoop` | src/components/RoomTour.tsx:84 | with no target or no camera, a frame changes nothing |
| `RoomTour.SeekControls` | src/components/RoomTour.tsx:90-104 | with a target and a camera, arrival clears it and enables the controls; otherwise the target stays and the controls are disabled |
| `RoomTour.ArrivalSnapsToClampedTarget` | src/components/RoomTour.tsx:88-98 | on arrival the camera is the clamp of (target x, camera y, target z); the target's y does not matter |
| `RoomTour.SeekStaysInRoom` | src/components/RoomTour.tsx:97-103 | after every active frame the camera lies in the room box |
| `RoomTour.HotspotArrivalReachesTarget` | src/components/RoomTour.tsx:128-162 | for each of the three floor hotspots, arrival reaches the target's x and z exactly |
| `RoomTour.OrbitBlockedWhileSeeking` | src/components/RoomTour.tsx:90 | while the controls are disabled (or not mounted), an orbit-controls update does not move the camera |
| `RoomTour.Tour` | src/components/RoomTour.tsx:83-105 | over any sequence of hotspot clicks, frames and orbit moves, the controls are disabled only while a target is set, and while they are disabled the camera is in the room |
| `RoomTour.TourFromStart` | src/components/RoomTour.tsx:83-105 | from the initial camera with enabled controls, a tour that ends with an arrival frame leaves no target and the controls enabled, and the camera in the room when that frame had a target |
| `RoomTour.CameraMover.constructor` | src/components/RoomTour.tsx:116-118 | no target, camera or controls before the canvas exists |
| `RoomTour.CameraMover.CanvasCreated` | src/components/RoomTour.tsx:144 | the canvas's creation fills the camera handle and changes nothing else |
| `RoomTour.CameraMover.ControlsMounted` | src/components/RoomTour.tsx:166-172 | mounting the orbit controls fills their handle, enabled, and changes nothing else |
| `RoomTour.CameraMover.OrbitUpdate` | src/components/RoomTour.tsx:166-172 | an orbit-controls update moves the camera only while the controls are enabled, as `OrbitMove` states |
| `RoomTour.CameraMover.ActivateHotspot` | src/components/RoomTour.tsx:162 | a hotspot at (x, y, z) sets the target to (x, y + 4, z - 6) |
| `RoomTour.CameraMover.Tick` | src/components/RoomTour.tsx:83-105 | the frame callback's new target, camera and controls flag are those of `Seek` |

## Left out

- Raycasting, intersection ordering and the pointer-to-screen-coordinate conversion are library
  float maths. Each handler receives the first hit, or none, as an input.
- The camera's step position (`normalize`, `multiplyScalar`, `add`), the `distanceTo` arrival
  test and `lookAt` are library vector maths. They are inputs of each frame. So the number of
  frames until arrival is not modelled.
- The component recreates the highlight material object on each render, and the room viewer
  creates a new yellow material on each pointer-over. Each is modelled as one distinguished
  material value. The scenes are assumed to start with no object carrying either highlight.
- Every hit lands on an object with a material slot (`HitInScene`). The raycaster only returns
  geometry objects, and those carry a material.
- `GlbModel.NonMeshNotHighlighted` requires that the non-mesh object is not the hovered one. Only
  meshes are ever hovered, but the state does not record which objects are meshes.
- The position and distance texts of the hover record (`toFixed(2)`) and the colour's hex digits
  (`getHexString`) are opaque strings.
- `setTargetPosition(null)` is a React state update. It is modelled as taking effect before the
  next frame.
- `RoomViewer.RouteRoundTrip` covers names without `/`. URL encoding and the `?` and `#`
  characters in a path are not modelled.
- The tree shape of the scene graph is modelled as a node with children. `castShadow`,
  `receiveShadow` and `frustumCulled` are not modelled.
- Listener registration and cleanup are not modelled. They are a lifecycle concern. This includes
  the FBX cleanup, which adds the double-click listener again instead of removing it.
- `CameraController.tsx` is not part of this model. It is float vector nudging, and the tour
  passes it `direction=""` (src/components/RoomTour.tsx:174), so its forward and backward
  movement never acts.
- A re-hit of the hovered object emits no hover record (src/components/GlbModel.tsx:74 and 86,
  src/components/FBXModel.tsx:66), so a record is not refreshed while the same object stays hit.
- The orbit controls' own camera maths (rotation, panning, zoom, damping, the distance limits
  10 to 100 and the fixed polar angle) is library float maths. An orbit update is an input
  position (`Orbit`), and it acts only while the controls are enabled. So the camera is in the
  room only after a seek frame, and not after an orbit update. The controls move the camera
  even without user input on their first update after being enabled again, through the fixed
  polar angle and the distance limits. The initial camera (90, 50, 80) is moved onto the controls' distance limit at the first update.
- Scene node ids stand for object identity. A scene that gives two nodes one id is not modelled.
- `ModelViewer.tsx`, `ModalDialog.tsx` and `App.tsx` are presentation and routing. They are not
  part of this model, except for the room route's pattern.
- Asset loading, the loading indicator, the pulsing hotspot animation and rendering are not
  modelled.
