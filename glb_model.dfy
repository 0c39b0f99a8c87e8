/**
 * The per-frame hover highlighter of the GLB house model.
 *
 * The component keeps the hovered mesh and the material it had before it was
 * highlighted in two refs.  On every frame the first ray hit (or none) decides
 * whether the highlight moves: the previous mesh gets its saved material back,
 * the newly hit mesh has its material saved and replaced by the highlight, and
 * the hover record shown to the user is set or cleared.
 */
module GlbModel {
  import opened Scene

  /** The two refs and the material slots of the scene. */
  datatype HoverState = HoverState(table: Table, hovered: Option<ObjId>, original: Option<Material>)

  /** The state after a frame and the values passed to `setHoverInfo` during it, in call order. */
  datatype TickResult = TickResult(next: HoverState, emitted: seq<Option<HoverInfo>>)

  /**
   * The two refs are set and cleared together; the hovered mesh is the one and
   * only object that carries the highlight, and the saved material is not the
   * highlight.
   */
  ghost predicate Consistent(s: HoverState)
  {
    && (s.hovered.None? <==> s.original.None?)
    && (s.hovered.Some? ==>
          s.hovered.value in s.table && s.table[s.hovered.value] == HoverHighlight &&
          s.original.value != HoverHighlight)
    && (forall o :: o in s.table && s.table[o] == HoverHighlight ==> s.hovered == Some(o))
  }

  /** The material table with the highlight taken off again: what the scene looks like unhovered. */
  function Underlying(s: HoverState): Table
    requires Consistent(s)
  {
    if s.hovered.Some? then s.table[s.hovered.value := s.original.value] else s.table
  }

  /** The state after the hovered mesh, if any, got its saved material back. */
  function Leave(s: HoverState): (r: HoverState)
    requires Consistent(s)
  {
    if s.hovered.Some? then HoverState(Underlying(s), None, None) else s
  }

  /** The hover record: it describes the mesh and its original material. */
  function Info(h: Hit, original: Material): HoverInfo
  {
    HoverInfo(if h.name == "" then "Unnamed Object" else h.name, h.objType,
              MaterialType(original), ColorText(original), h.position, h.distance)
  }

  /** One frame, stated case by case. */
  function Step(s: HoverState, hit: Option<Hit>): (r: TickResult)
    requires Consistent(s) && HitInScene(s.table, hit)
    ensures Consistent(r.next)
    ensures r.next.table.Keys == s.table.Keys
    ensures Underlying(r.next) == Underlying(s)
  {
    var cleared: seq<Option<HoverInfo>> := if s.hovered.Some? then [None] else [];
    match hit
    case None => TickResult(Leave(s), cleared)
    case Some(h) =>
      if s.hovered == Some(h.obj) then TickResult(s, [])
      else if !h.isMesh then TickResult(Leave(s), cleared)
      else
        var base := Underlying(s);
        TickResult(HoverState(base[h.obj := HoverHighlight], Some(h.obj), Some(base[h.obj])),
                   cleared + [Some(Info(h, base[h.obj]))])
  }

  /** With no hit, a hovered mesh gets its saved material back, both refs are cleared and the record is cleared. */
  lemma NoHitRestores(s: HoverState)
    requires Consistent(s)
    ensures var r := Step(s, None);
      && r.next.hovered.None? && r.next.original.None?
      && r.next.table == Underlying(s)
      && (s.hovered.Some? ==> r.next.table == s.table[s.hovered.value := s.original.value] &&
                              r.emitted == [None])
      && (s.hovered.None? ==> r == TickResult(s, []))
  {
  }

  /**
   * A mesh other than the hovered one becomes the hovered mesh: its prior
   * material is saved, it carries the highlight, the previous mesh has its
   * material back and no other slot changes.
   */
  lemma NewMeshHighlighted(s: HoverState, h: Hit)
    requires Consistent(s) && h.obj in s.table
    requires h.isMesh && s.hovered != Some(h.obj)
    ensures var r := Step(s, Some(h));
      && r.next.hovered == Some(h.obj)
      && r.next.original == Some(s.table[h.obj])
      && r.next.table == Underlying(s)[h.obj := HoverHighlight]
      && r.emitted[|r.emitted| - 1] == Some(Info(h, s.table[h.obj]))
  {
  }

  /** Hitting the hovered mesh again writes no material and sets no record. */
  lemma RehitIsNoop(s: HoverState, h: Hit)
    requires Consistent(s) && h.obj in s.table
    requires s.hovered == Some(h.obj)
    ensures Step(s, Some(h)) == TickResult(s, [])
  {
  }

  /** A first hit that is not a mesh is never highlighted, but a previous highlight is still cleared. */
  lemma NonMeshNotHighlighted(s: HoverState, h: Hit)
    requires Consistent(s) && h.obj in s.table
    requires !h.isMesh && s.hovered != Some(h.obj)
    ensures var r := Step(s, Some(h));
      && r.next.hovered.None?
      && r.next.table == Underlying(s)
      && (forall o :: o in r.next.table ==> r.next.table[o] != HoverHighlight)
  {
  }

  /** A frame writes at most the slots of the previously hovered object and of the hit object. */
  lemma StepFrame(s: HoverState, hit: Option<Hit>, o: ObjId)
    requires Consistent(s) && HitInScene(s.table, hit)
    requires o in s.table && s.hovered != Some(o) && (hit.Some? ==> hit.value.obj != o)
    ensures Step(s, hit).next.table[o] == s.table[o]
  {
  }

  /**
   * Whenever a record is emitted last, it describes the material saved for the
   * now hovered mesh, and its name is never empty.
   */
  lemma RecordDescribesSavedMaterial(s: HoverState, hit: Option<Hit>)
    requires Consistent(s) && HitInScene(s.table, hit)
    ensures var r := Step(s, hit);
      r.emitted != [] && r.emitted[|r.emitted| - 1].Some? ==>
        var info := r.emitted[|r.emitted| - 1].value;
        && r.next.original.Some?
        && info.materialType == MaterialType(r.next.original.value)
        && info.color == ColorText(r.next.original.value)
        && info.name != ""
        && (hit.value.name == "" ==> info.name == "Unnamed Object")
  {
  }

  /** A second frame with the same hit swaps no material and emits no record. */
  lemma {:induction false} RepeatedHitIsIdle(s: HoverState, hit: Option<Hit>)
    requires Consistent(s) && HitInScene(s.table, hit)
    ensures var t := Step(s, hit).next;
      Step(t, hit) == TickResult(t, [])
  {
    var t := Step(s, hit).next;
    match hit
    case None =>
    case Some(h) =>
      assert h.obj in t.table;
      if s.hovered == Some(h.obj) {
        assert t == s;
      } else if h.isMesh {
        assert t.hovered == Some(h.obj);
      } else {
        assert t.hovered.None?;
      }
  }

  /** Every hit of a sequence lands on an object of the table. */
  predicate AllInScene(table: Table, hits: seq<Option<Hit>>)
  {
    forall i :: 0 <= i < |hits| ==> HitInScene(table, hits[i])
  }

  /** The state after one frame per element of `hits`. */
  function Run(s: HoverState, hits: seq<Option<Hit>>): (r: HoverState)
    requires Consistent(s) && AllInScene(s.table, hits)
    ensures Consistent(r)
    ensures r.table.Keys == s.table.Keys
    ensures Underlying(r) == Underlying(s)
    decreases |hits|
  {
    if hits == [] then s
    else
      var before := Run(s, hits[..|hits| - 1]);
      Step(before, hits[|hits| - 1]).next
  }

  /**
   * Over any sequence of frames that ends with the pointer off every object,
   * every slot holds exactly its material from before the sequence, with the
   * highlight of a mesh hovered at the start taken off again.
   */
  lemma {:induction false} LeavingRestoresEverything(s: HoverState, hits: seq<Option<Hit>>)
    requires Consistent(s)
    requires AllInScene(s.table, hits) && hits != [] && hits[|hits| - 1].None?
    ensures Run(s, hits).table == Underlying(s)
    ensures s.hovered.None? ==> Run(s, hits).table == s.table
    ensures Run(s, hits).hovered.None?
  {
    var before := Run(s, hits[..|hits| - 1]);
    NoHitRestores(before);
  }

  /** The GLB component's refs and the material slots they act on. */
  class Highlighter {
    var materials: Table
    var hovered: Option<ObjId>
    var original: Option<Material>

    function State(): HoverState
      reads this
    {
      HoverState(materials, hovered, original)
    }

    ghost predicate Valid()
      reads this
    {
      Consistent(State())
    }

    /** Mounting: both refs are null; the loaded asset carries no highlight. */
    constructor (materials: Table)
      requires forall o :: o in materials ==> materials[o] != HoverHighlight
      ensures Valid() && State() == HoverState(materials, None, None)
    {
      this.materials := materials;
      hovered := None;
      original := None;
    }

    /** The frame callback, in the order of its statements; returns the `setHoverInfo` calls made. */
    method Tick(hit: Option<Hit>) returns (emitted: seq<Option<HoverInfo>>)
      requires Valid() && HitInScene(materials, hit)
      modifies this
      ensures Valid()
      ensures TickResult(State(), emitted) == Step(old(State()), hit)
    {
      emitted := [];
      if hit.None? || Some(hit.value.obj) != hovered {
        match (hovered, original) {
          case (Some(o), Some(m)) =>
            materials := materials[o := m];
            hovered := None;
            original := None;
            emitted := emitted + [None];
          case _ =>
        }
      }
      if hit.Some? {
        var h := hit.value;
        if Some(h.obj) != hovered && h.isMesh {
          var slots := materials;
          match (hovered, original) {
            case (Some(o), Some(m)) =>
              slots := slots[o := m];
            case _ =>
          }
          hovered := Some(h.obj);
          original := Some(slots[h.obj]);
          materials := slots[h.obj := HoverHighlight];
          emitted := emitted + [Some(Info(h, original.value))];
        }
      }
    }

    /** The double-click handler: it opens the dialog exactly when the ray hits something. */
    method DoubleClick(hit: Option<Hit>) returns (openDialog: bool)
      ensures openDialog <==> hit.Some?
    {
      openDialog := false;
      if hit.Some? {
        openDialog := true;
      }
    }
  }
}
