/**
 * The per-frame hover highlighter of the FBX house model.
 *
 * Unlike the GLB highlighter, this one keeps only the hovered mesh in a ref;
 * the material a mesh had before it was highlighted is stored on the mesh
 * itself (`userData.originalMaterial`) and stays there after the mesh is
 * restored.  The frame is skipped while the model's group is not mounted, and
 * every first-hit object is highlighted, mesh or not.
 */
module FbxModel {
  import opened Scene

  /**
   * The material slots, the `userData.originalMaterial` entries of the objects
   * (an object without one has no key) and the hovered-mesh ref.
   */
  datatype HoverState = HoverState(table: Table, saved: Table, hovered: Option<ObjId>)

  /** The state after a frame and the values passed to `setHoverInfo` during it, in call order. */
  datatype TickResult = TickResult(next: HoverState, emitted: seq<Option<HoverInfo>>)

  /**
   * The hovered object carries the highlight and has a saved original that is
   * not the highlight; no other object carries the highlight.
   */
  ghost predicate Consistent(s: HoverState)
  {
    && (s.hovered.Some? ==>
          s.hovered.value in s.table && s.table[s.hovered.value] == HoverHighlight &&
          s.hovered.value in s.saved && s.saved[s.hovered.value] != HoverHighlight)
    && (forall o :: o in s.table && s.table[o] == HoverHighlight ==> s.hovered == Some(o))
  }

  /** The material table with the hovered object's own saved material put back. */
  function Underlying(s: HoverState): Table
    requires Consistent(s)
  {
    if s.hovered.Some? then s.table[s.hovered.value := s.saved[s.hovered.value]] else s.table
  }

  /**
   * The hover record as the component builds it: the material it reads is the
   * one in the mesh's slot at that moment.
   */
  function Info(h: Hit, current: Material): HoverInfo
  {
    HoverInfo(if h.name == "" then "Unnamed" else h.name, h.objType,
              MaterialType(current), ColorText(current), h.position, h.distance)
  }

  /** One frame, stated case by case; `mounted` tells whether the group ref is set. */
  function Step(s: HoverState, mounted: bool, hit: Option<Hit>): (r: TickResult)
    requires Consistent(s) && HitInScene(s.table, hit)
    ensures Consistent(r.next)
    ensures r.next.table.Keys == s.table.Keys
    ensures Underlying(r.next) == Underlying(s)
  {
    if !mounted then TickResult(s, [])
    else
      match hit
      case Some(h) =>
        if s.hovered == Some(h.obj) then TickResult(s, [])
        else
          var base := Underlying(s);
          TickResult(HoverState(base[h.obj := HoverHighlight], s.saved[h.obj := base[h.obj]], Some(h.obj)),
                     [Some(Info(h, HoverHighlight))])
      case None =>
        if s.hovered.Some? then TickResult(HoverState(Underlying(s), s.saved, None), [None])
        else TickResult(s, [])
  }

  /** Without the group the frame changes nothing and emits nothing. */
  lemma UnmountedIsNoop(s: HoverState, hit: Option<Hit>)
    requires Consistent(s) && HitInScene(s.table, hit)
    ensures Step(s, false, hit) == TickResult(s, [])
  {
  }

  /**
   * A new first hit, mesh or not, becomes the hovered object: the previous one
   * is restored from its own saved material, the new one's material is saved on
   * it and replaced by the highlight, and no other slot changes.
   */
  lemma NewHitHighlighted(s: HoverState, h: Hit)
    requires Consistent(s) && h.obj in s.table && s.hovered != Some(h.obj)
    ensures var r := Step(s, true, Some(h));
      && r.next.hovered == Some(h.obj)
      && r.next.saved == s.saved[h.obj := s.table[h.obj]]
      && r.next.table[h.obj] == HoverHighlight
      && (s.hovered.Some? ==> r.next.table[s.hovered.value] == s.saved[s.hovered.value])
      && (forall o :: o in s.table && o != h.obj && s.hovered != Some(o) ==>
            r.next.table[o] == s.table[o])
      && r.emitted == [Some(Info(h, HoverHighlight))]
  {
  }

  /** Hitting the hovered object again changes nothing. */
  lemma RehitIsNoop(s: HoverState, h: Hit)
    requires Consistent(s) && h.obj in s.table && s.hovered == Some(h.obj)
    ensures Step(s, true, Some(h)) == TickResult(s, [])
  {
  }

  /**
   * With no hit, a hovered object gets its saved material back, the ref is
   * cleared and the record is cleared; with nothing hovered nothing changes.
   */
  lemma NoHitRestores(s: HoverState)
    requires Consistent(s)
    ensures var r := Step(s, true, None);
      && r.next.hovered.None?
      && r.next.table == Underlying(s)
      && r.next.saved == s.saved
      && (s.hovered.Some? ==> r.next.table == s.table[s.hovered.value := s.saved[s.hovered.value]] &&
                              r.emitted == [None])
      && (s.hovered.None? ==> r == TickResult(s, []))
  {
  }

  /**
   * The record is built after the swap, so its material type and colour are
   * those of the highlight, whatever the object's own material; an empty name
   * reads `Unnamed`.
   */
  lemma RecordDescribesHighlight(s: HoverState, mounted: bool, hit: Option<Hit>)
    requires Consistent(s) && HitInScene(s.table, hit)
    ensures var r := Step(s, mounted, hit);
      forall i :: 0 <= i < |r.emitted| && r.emitted[i].Some? ==>
        && r.emitted[i].value.materialType == "MeshStandardMaterial"
        && r.emitted[i].value.color == "#4fc3f7"
        && (hit.value.name == "" ==> r.emitted[i].value.name == "Unnamed")
  {
  }

  /** Every hit of a sequence lands on an object of the table. */
  predicate AllInScene(table: Table, hits: seq<Option<Hit>>)
  {
    forall i :: 0 <= i < |hits| ==> HitInScene(table, hits[i])
  }

  /** The state after one mounted frame per element of `hits`. */
  function Run(s: HoverState, hits: seq<Option<Hit>>): (r: HoverState)
    requires Consistent(s) && AllInScene(s.table, hits)
    ensures Consistent(r)
    ensures r.table.Keys == s.table.Keys
    ensures Underlying(r) == Underlying(s)
    decreases |hits|
  {
    if hits == [] then s
    else
      var before := Run(s, hits[..|hits| - 1]);
      Step(before, true, hits[|hits| - 1]).next
  }

  /**
   * Over any sequence of frames that ends with the pointer off every object,
   * every slot holds exactly its material from before the sequence, with the
   * highlight of a mesh hovered at the start taken off again.
   */
  lemma {:induction false} LeavingRestoresEverything(s: HoverState, hits: seq<Option<Hit>>)
    requires Consistent(s)
    requires AllInScene(s.table, hits) && hits != [] && hits[|hits| - 1].None?
    ensures Run(s, hits).table == Underlying(s)
    ensures s.hovered.None? ==> Run(s, hits).table == s.table
    ensures Run(s, hits).hovered.None?
  {
    var before := Run(s, hits[..|hits| - 1]);
    NoHitRestores(before);
  }

  /** The FBX component's hovered-mesh ref and the slots and user data it acts on. */
  class Highlighter {
    var materials: Table
    var originalMaterial: Table
    var hovered: Option<ObjId>

    function State(): HoverState
      reads this
    {
      HoverState(materials, originalMaterial, hovered)
    }

    ghost predicate Valid()
      reads this
    {
      Consistent(State())
    }

    /** Mounting: nothing hovered, no user data yet; the loaded asset carries no highlight. */
    constructor (materials: Table)
      requires forall o :: o in materials ==> materials[o] != HoverHighlight
      ensures Valid() && State() == HoverState(materials, map[], None)
    {
      this.materials := materials;
      originalMaterial := map[];
      hovered := None;
    }

    /** The frame callback, in the order of its statements; returns the `setHoverInfo` calls made. */
    method Tick(mounted: bool, hit: Option<Hit>) returns (emitted: seq<Option<HoverInfo>>)
      requires Valid() && HitInScene(materials, hit)
      modifies this
      ensures Valid()
      ensures TickResult(State(), emitted) == Step(old(State()), mounted, hit)
    {
      emitted := [];
      if !mounted {
        return;
      }
      if hit.Some? {
        var mesh := hit.value.obj;
        if Some(mesh) != hovered {
          if hovered.Some? {
            materials := materials[hovered.value := originalMaterial[hovered.value]];
          }
          hovered := Some(mesh);
          originalMaterial := originalMaterial[mesh := materials[mesh]];
          materials := materials[mesh := HoverHighlight];
          emitted := [Some(Info(hit.value, materials[mesh]))];
        }
      } else {
        if hovered.Some? {
          materials := materials[hovered.value := originalMaterial[hovered.value]];
          hovered := None;
          emitted := [None];
        }
      }
    }

    /** The double-click handler: the dialog opens exactly when the group is mounted and the ray hits something. */
    method DoubleClick(mounted: bool, hit: Option<Hit>) returns (openDialog: bool)
      ensures openDialog <==> mounted && hit.Some?
    {
      openDialog := false;
      if !mounted {
        return;
      }
      if hit.Some? {
        openDialog := true;
      }
    }
  }
}
