/**
 * The room tour's camera target-seek.
 *
 * Double-clicking a floor hotspot sets a navigation target.  While a target is
 * set, every frame disables the orbit controls and moves the camera one step
 * toward the target in the horizontal plane, clamped into the room's box; on
 * arrival the camera snaps to the clamped target, the target is cleared and the
 * controls are enabled again.
 *
 * The step position and the arrival test are computed by vector library code
 * from the frame's elapsed time; here they are inputs of the frame.
 */
module RoomTour {
  import opened Scene

  datatype Vec3 = Vec3(x: real, y: real, z: real)

  /** `MathUtils.clamp`: the larger of `lo` and the smaller of `hi` and `v`. */
  function Clamp(v: real, lo: real, hi: real): (r: real)
    ensures r == v || r == lo || r == hi
    ensures lo <= hi ==> lo <= r <= hi
    ensures lo <= v <= hi ==> r == v
    ensures lo <= hi && v < lo ==> r == lo
    ensures lo <= hi && hi < v ==> r == hi
  {
    var m := if v < hi then v else hi;
    if lo > m then lo else m
  }

  /** `v` lies in the axis-aligned box from `lo` to `hi`. */
  predicate InBox(v: Vec3, lo: Vec3, hi: Vec3)
  {
    lo.x <= v.x <= hi.x && lo.y <= v.y <= hi.y && lo.z <= v.z <= hi.z
  }

  /** The box from `lo` to `hi` is not empty. */
  predicate Ordered(lo: Vec3, hi: Vec3)
  {
    lo.x <= hi.x && lo.y <= hi.y && lo.z <= hi.z
  }

  /** `clampVector`: each component clamped into its range. */
  function ClampVector(v: Vec3, lo: Vec3, hi: Vec3): (r: Vec3)
    ensures Ordered(lo, hi) ==> InBox(r, lo, hi)
    ensures InBox(v, lo, hi) ==> r == v
    ensures r.x in {v.x, lo.x, hi.x} && r.y in {v.y, lo.y, hi.y} && r.z in {v.z, lo.z, hi.z}
  {
    Vec3(Clamp(v.x, lo.x, hi.x), Clamp(v.y, lo.y, hi.y), Clamp(v.z, lo.z, hi.z))
  }

  /** Clamping twice is clamping once. */
  lemma ClampVectorIdempotent(v: Vec3, lo: Vec3, hi: Vec3)
    requires Ordered(lo, hi)
    ensures ClampVector(ClampVector(v, lo, hi), lo, hi) == ClampVector(v, lo, hi)
  {
  }

  const RoomMin := Vec3(-159.5063, 5.0, -92.9707)
  const RoomMax := Vec3(160.2180, 50.0, 105.1444)

  /** The camera's position when the canvas is created. */
  const InitialCamera := Vec3(90.0, 50.0, 80.0)

  /** The floor hotspots. */
  const CirclePositions := [Vec3(-85.0, 22.0, -5.0), Vec3(-80.0, 2.0, -55.0), Vec3(105.0, 2.0, 5.0)]

  /** The room box is not empty. */
  lemma RoomBoxWellFormed()
    ensures Ordered(RoomMin, RoomMax)
  {
  }

  /** The navigation target a hotspot at `p` requests. */
  function HotspotTarget(p: Vec3): Vec3
  {
    Vec3(p.x, p.y + 4.0, p.z - 6.0)
  }

  /**
   * The navigation target, the camera handle's position and the orbit
   * controls' `enabled` flag; `None` where the handle is not set yet.
   */
  datatype Rig = Rig(target: Option<Vec3>, camera: Option<Vec3>, controls: Option<bool>)

  /** Where the camera is heading: the target's x and z at the camera's own height. */
  function Heading(target: Vec3, camera: Vec3): Vec3
  {
    Vec3(target.x, camera.y, target.z)
  }

  /**
   * One frame of the camera mover.  `arrived` is the outcome of the
   * distance test, `step` the position one step toward the heading.
   */
  function Seek(r: Rig, arrived: bool, step: Vec3): (r': Rig)
  {
    if r.target.None? || r.camera.None? then r
    else if arrived then
      Rig(None, Some(ClampVector(Heading(r.target.value, r.camera.value), RoomMin, RoomMax)),
          if r.controls.Some? then Some(true) else None)
    else
      Rig(r.target, Some(ClampVector(step, RoomMin, RoomMax)),
          if r.controls.Some? then Some(false) else None)
  }

  /** Without a target or without a camera a frame changes nothing. */
  lemma SeekIdleIsNoop(r: Rig, arrived: bool, step: Vec3)
    requires r.target.None? || r.camera.None?
    ensures Seek(r, arrived, step) == r
  {
  }

  /**
   * While a target is set, a frame on arrival clears it and enables the
   * controls; otherwise the target stays and the controls are disabled.  The
   * controls handle is never created or dropped.
   */
  lemma SeekControls(r: Rig, arrived: bool, step: Vec3)
    requires r.target.Some? && r.camera.Some?
    ensures var r' := Seek(r, arrived, step);
      && r'.controls.Some? == r.controls.Some?
      && (arrived ==> r'.target.None? && (r.controls.Some? ==> r'.controls == Some(true)))
      && (!arrived ==> r'.target == r.target && (r.controls.Some? ==> r'.controls == Some(false)))
  {
  }

  /**
   * On arrival the camera is the clamp of the target's x and z at the camera's
   * previous height: the target's own height plays no part.
   */
  lemma ArrivalSnapsToClampedTarget(r: Rig, step: Vec3)
    requires r.target.Some? && r.camera.Some?
    ensures var c := Seek(r, true, step).camera.value;
      && c.x == Clamp(r.target.value.x, RoomMin.x, RoomMax.x)
      && c.y == Clamp(r.camera.value.y, RoomMin.y, RoomMax.y)
      && c.z == Clamp(r.target.value.z, RoomMin.z, RoomMax.z)
      && (forall y: real :: Seek(r.(target := Some(r.target.value.(y := y))), true, step).camera.value == c)
  {
  }

  /** After every frame that had a target and a camera, the camera is inside the room. */
  lemma SeekStaysInRoom(r: Rig, arrived: bool, step: Vec3)
    requires r.target.Some? && r.camera.Some?
    ensures Seek(r, arrived, step).camera.Some?
    ensures InBox(Seek(r, arrived, step).camera.value, RoomMin, RoomMax)
  {
  }

  /** Each hotspot's target lies within the room horizontally, so arrival reaches its x and z exactly. */
  lemma HotspotArrivalReachesTarget(k: nat, camera: Vec3, controls: Option<bool>, step: Vec3)
    requires k < |CirclePositions|
    ensures var t := HotspotTarget(CirclePositions[k]);
      var c := Seek(Rig(Some(t), Some(camera), controls), true, step).camera.value;
      c.x == t.x && c.z == t.z
  {
  }

  /**
   * A camera write by the orbit controls (a drag, a zoom, or their distance
   * and angle limits).  The controls update only while they are mounted and
   * enabled.
   */
  function OrbitMove(r: Rig, pos: Vec3): (r': Rig)
  {
    if r.controls == Some(true) && r.camera.Some? then r.(camera := Some(pos)) else r
  }

  /** While a seek has the controls disabled, the user cannot move the camera. */
  lemma OrbitBlockedWhileSeeking(r: Rig, pos: Vec3)
    requires r.controls != Some(true)
    ensures OrbitMove(r, pos) == r
  {
  }

  /** An input of the tour: a hotspot double-click, a rendered frame, or an orbit-controls move. */
  datatype TourEvent = Activate(hotspot: Vec3) | Frame(arrived: bool, step: Vec3) | Orbit(pos: Vec3)

  /**
   * What holds at every moment of the tour: the controls are disabled only
   * while a target is set, and while they are disabled the camera is inside the
   * room.  With the controls enabled the user may take the camera anywhere.
   */
  ghost predicate Settled(r: Rig)
  {
    r.controls == Some(false) ==>
      r.target.Some? && (r.camera.Some? ==> InBox(r.camera.value, RoomMin, RoomMax))
  }

  /** The rig after each event of `events`, in order. */
  function Tour(r: Rig, events: seq<TourEvent>): (r': Rig)
    requires Settled(r)
    ensures Settled(r')
    ensures r'.camera.Some? == r.camera.Some? && r'.controls.Some? == r.controls.Some?
    decreases |events|
  {
    if events == [] then r
    else
      var before := Tour(r, events[..|events| - 1]);
      match events[|events| - 1]
      case Activate(p) => before.(target := Some(HotspotTarget(p)))
      case Frame(arrived, step) => Seek(before, arrived, step)
      case Orbit(pos) => OrbitMove(before, pos)
  }

  /**
   * From the canvas's start, with the controls enabled and no target, a tour
   * of hotspot clicks, frames and orbit moves that ends with an arrival frame
   * leaves no target and the controls enabled; when that frame had a target to
   * seek, the camera is inside the room.
   */
  lemma {:induction false} TourFromStart(events: seq<TourEvent>)
    requires events != [] && events[|events| - 1].Frame? && events[|events| - 1].arrived
    ensures var r := Tour(Rig(None, Some(InitialCamera), Some(true)), events);
      && r.target.None?
      && r.controls == Some(true)
      && (Tour(Rig(None, Some(InitialCamera), Some(true)), events[..|events| - 1]).target.Some? ==>
            InBox(r.camera.value, RoomMin, RoomMax))
  {
    var start := Rig(None, Some(InitialCamera), Some(true));
    var before := Tour(start, events[..|events| - 1]);
    var last := events[|events| - 1];
    assert Tour(start, events) == Seek(before, last.arrived, last.step);
    if before.target.None? {
      SeekIdleIsNoop(before, last.arrived, last.step);
      assert before.controls.Some? && before.controls != Some(false);
      assert before.controls.value;
    } else {
      SeekControls(before, last.arrived, last.step);
      SeekStaysInRoom(before, last.arrived, last.step);
    }
  }

  /** The target state of the tour page, the camera handle and the orbit controls handle. */
  class CameraMover {
    var target: Option<Vec3>
    var camera: Option<Vec3>
    var controls: Option<bool>

    function State(): Rig
      reads this
    {
      Rig(target, camera, controls)
    }

    /** The page before the canvas exists: no target, no camera, no controls. */
    constructor ()
      ensures State() == Rig(None, None, None)
    {
      target, camera, controls := None, None, None;
    }

    /** The canvas's `onCreated` hands over the camera at `pos`. */
    method CanvasCreated(pos: Vec3)
      modifies this
      ensures State() == old(State()).(camera := Some(pos))
    {
      camera := Some(pos);
    }

    /** The orbit controls mount, enabled, and fill their ref. */
    method ControlsMounted()
      modifies this
      ensures State() == old(State()).(controls := Some(true))
    {
      controls := Some(true);
    }

    /** The orbit controls' per-frame update, which runs only while they are enabled. */
    method OrbitUpdate(pos: Vec3)
      modifies this
      ensures State() == OrbitMove(old(State()), pos)
    {
      if controls == Some(true) && camera.Some? {
        camera := Some(pos);
      }
    }

    /** Double-click on the hotspot at `p`. */
    method ActivateHotspot(p: Vec3)
      modifies this
      ensures target == Some(Vec3(p.x, p.y + 4.0, p.z - 6.0))
      ensures camera == old(camera) && controls == old(controls)
    {
      target := Some(HotspotTarget(p));
    }

    /** The frame callback, in the order of its statements. */
    method Tick(arrived: bool, step: Vec3)
      modifies this
      ensures State() == Seek(old(State()), arrived, step)
    {
      if target.None? || camera.None? {
        return;
      }
      var current := camera.value;
      var heading := Heading(target.value, current);
      if controls.Some? {
        controls := Some(false);
      }
      if arrived {
        camera := Some(ClampVector(heading, RoomMin, RoomMax));
        target := None;
        if controls.Some? {
          controls := Some(true);
        }
      } else {
        camera := Some(ClampVector(step, RoomMin, RoomMax));
      }
    }
  }
}
