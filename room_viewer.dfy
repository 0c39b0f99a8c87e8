/**
 * The room viewer's pointer highlighter and click navigation.
 *
 * Pointer-over on an interactive mesh saves its material in a dictionary (only
 * the first time) and puts a yellow highlight on it; pointer-out puts the saved
 * material back and drops the entry.  Two meshes are excluded by name.  Every
 * mesh of the scene is marked interactive when the scene is set up, and a click
 * whose first hit has a name navigates to that room.
 */
module RoomViewer {
  import opened Scene

  /** The two mesh names the pointer-over handler ignores. */
  predicate Excluded(name: string)
  {
    name == "Box001_20_-_Defaultwe_0" || name == "Box001_20_-_Default_0"
  }

  /**
   * The material slots, the `originalMaterials` dictionary, the objects whose
   * `userData.interactive` is set, the names of the objects and the document
   * cursor.
   */
  datatype PointerState = PointerState(table: Table, saved: Table, interactive: set<ObjId>,
                                       names: map<ObjId, string>, cursor: string)

  /**
   * Every object has a name; the dictionary's keys are interactive, non-excluded
   * objects of the table that carry the yellow highlight, and their saved
   * materials are not the highlight; an object carries the highlight only while
   * it has an entry.
   */
  ghost predicate Consistent(s: PointerState)
  {
    && s.table.Keys <= s.names.Keys
    && (forall k :: k in s.saved ==>
          && k in s.table && k in s.interactive && !Excluded(s.names[k])
          && s.table[k] == PointerHighlight && s.saved[k] != PointerHighlight)
    && (forall k :: k in s.table && s.table[k] == PointerHighlight ==> k in s.saved)
  }

  /** The material table with every saved material put back. */
  function Underlying(s: PointerState): Table
  {
    s.table + s.saved
  }

  /** The pointer-over handler on object `o`. */
  function Over(s: PointerState, o: ObjId): (r: PointerState)
    requires Consistent(s) && o in s.table
    ensures Consistent(r)
    ensures r.table.Keys == s.table.Keys && r.names == s.names && r.interactive == s.interactive
    ensures Underlying(r) == Underlying(s)
  {
    if Excluded(s.names[o]) then s
    else if o in s.interactive then
      var saved := if o in s.saved then s.saved else s.saved[o := s.table[o]];
      PointerState(s.table[o := PointerHighlight], saved, s.interactive, s.names, "pointer")
    else s
  }

  /** The pointer-out handler on object `o`. */
  function Out(s: PointerState, o: ObjId): (r: PointerState)
    requires Consistent(s) && o in s.table
    ensures Consistent(r)
    ensures r.table.Keys == s.table.Keys && r.names == s.names && r.interactive == s.interactive
    ensures Underlying(r) == Underlying(s)
  {
    if o in s.interactive && o in s.saved then
      PointerState(s.table[o := s.saved[o]], s.saved - {o}, s.interactive, s.names, "default")
    else s
  }

  /** Pointer-over on an excluded name changes nothing. */
  lemma OverExcludedIsNoop(s: PointerState, o: ObjId)
    requires Consistent(s) && o in s.table && Excluded(s.names[o])
    ensures Over(s, o) == s
  {
  }

  /**
   * Pointer-over on an interactive mesh highlights it, sets the `pointer` cursor
   * and saves its material only when it has no entry yet, so a saved original
   * is never overwritten; on a non-interactive mesh it does nothing.
   */
  lemma OverHighlights(s: PointerState, o: ObjId)
    requires Consistent(s) && o in s.table && !Excluded(s.names[o])
    ensures var r := Over(s, o);
      && (o in s.interactive ==>
            && r.table == s.table[o := PointerHighlight]
            && r.cursor == "pointer"
            && o in r.saved
            && r.saved[o] == (if o in s.saved then s.saved[o] else s.table[o])
            && r.saved - {o} == s.saved - {o})
      && (o !in s.interactive ==> r == s)
  {
  }

  /** Repeated pointer-over events change nothing after the first. */
  lemma OverIsIdempotent(s: PointerState, o: ObjId)
    requires Consistent(s) && o in s.table
    ensures Over(Over(s, o), o) == Over(s, o)
  {
  }

  /**
   * Pointer-out on an interactive mesh with an entry restores that material,
   * deletes the entry and sets the `default` cursor; otherwise nothing changes.
   */
  lemma OutRestores(s: PointerState, o: ObjId)
    requires Consistent(s) && o in s.table
    ensures var r := Out(s, o);
      && (o in s.interactive && o in s.saved ==>
            && r.table == s.table[o := s.saved[o]]
            && r.saved == s.saved - {o}
            && r.cursor == "default")
      && (!(o in s.interactive && o in s.saved) ==> r == s)
  {
  }

  /**
   * Over followed by out on an interactive, non-excluded mesh without an entry
   * gives the mesh its original material back and leaves the dictionary as it was.
   */
  lemma {:induction false} OverThenOut(s: PointerState, o: ObjId)
    requires Consistent(s) && o in s.table && o in s.interactive && !Excluded(s.names[o])
    requires o !in s.saved
    ensures var r := Out(Over(s, o), o);
      r.table == s.table && r.saved == s.saved && r.cursor == "default"
  {
    var mid := Over(s, o);
    assert mid.saved == s.saved[o := s.table[o]];
    assert Out(mid, o).saved == mid.saved - {o};
    assert mid.saved - {o} == s.saved;
    assert s.table[o := PointerHighlight][o := s.table[o]] == s.table;
  }

  /** A pointer event: over or out on an object. */
  datatype PointerEvent = PointerOver(obj: ObjId) | PointerOut(obj: ObjId)

  predicate AllInScene(table: Table, events: seq<PointerEvent>)
  {
    forall i :: 0 <= i < |events| ==> events[i].obj in table
  }

  /** The state after the handlers ran for each event of `events`, in order. */
  function Replay(s: PointerState, events: seq<PointerEvent>): (r: PointerState)
    requires Consistent(s) && AllInScene(s.table, events)
    ensures Consistent(r)
    ensures r.table.Keys == s.table.Keys && r.names == s.names && r.interactive == s.interactive
    ensures Underlying(r) == Underlying(s)
    decreases |events|
  {
    if events == [] then s
    else
      var before := Replay(s, events[..|events| - 1]);
      match events[|events| - 1]
      case PointerOver(o) => Over(before, o)
      case PointerOut(o) => Out(before, o)
  }

  /**
   * Once every entry of the dictionary has been drained by pointer-out, each
   * object has exactly the material it had before the events began.
   */
  lemma {:induction false} DrainedMeansRestored(s: PointerState, events: seq<PointerEvent>)
    requires Consistent(s) && s.saved == map[] && AllInScene(s.table, events)
    requires Replay(s, events).saved == map[]
    ensures Replay(s, events).table == s.table
  {
    var r := Replay(s, events);
    assert Underlying(r) == r.table;
    assert Underlying(s) == s.table;
  }

  /** The interactive marking of scene setup: every mesh of the traversal, and no other node. */
  function Mark(s: PointerState, scene: SceneNode): (r: PointerState)
    requires Consistent(s)
    ensures Consistent(r)
    ensures forall d :: d in Traversal(scene) && d.isMesh ==> d.id in r.interactive
    ensures forall o :: o in r.interactive ==>
              o in s.interactive || exists d :: d in Traversal(scene) && d.isMesh && d.id == o
  {
    s.(interactive := s.interactive + MeshIds(Traversal(scene)))
  }

  /** A click navigates to `/room/<name>` exactly when there is a first hit with a non-empty name. */
  function ClickRoute(hit: Option<Hit>): (route: Option<string>)
    ensures route.Some? <==> hit.Some? && hit.value.name != ""
  {
    if hit.Some? && hit.value.name != "" then Some("/room/" + hit.value.name) else None
  }

  /** The `roomID` parameter of a path matched against the `/room/:roomID` route. */
  function RoomParam(path: string): Option<string>
  {
    if |path| > 6 && path[..6] == "/room/" && '/' !in path[6..] then Some(path[6..]) else None
  }

  /** The route a click produces matches the room route with the clicked name as its parameter. */
  lemma RouteRoundTrip(hit: Option<Hit>)
    requires hit.Some? && '/' !in hit.value.name
    ensures ClickRoute(hit).Some? ==> RoomParam(ClickRoute(hit).value) == Some(hit.value.name)
  {
    if hit.value.name != "" {
      var p := "/room/" + hit.value.name;
      assert p[..6] == "/room/" && p[6..] == hit.value.name;
    }
  }

  /** The room viewer's dictionary, interactive flags, cursor and the material slots. */
  class Viewer {
    var materials: Table
    var originalMaterials: Table
    var interactive: set<ObjId>
    const names: map<ObjId, string>
    var cursor: string

    function State(): PointerState
      reads this
    {
      PointerState(materials, originalMaterials, interactive, names, cursor)
    }

    ghost predicate Valid()
      reads this
    {
      Consistent(State())
    }

    /** Loading: an empty dictionary, no flags yet, and no highlight on the asset. */
    constructor (materials: Table, names: map<ObjId, string>)
      requires materials.Keys <= names.Keys
      requires forall o :: o in materials ==> materials[o] != PointerHighlight
      ensures Valid() && State() == PointerState(materials, map[], {}, names, "")
    {
      this.materials := materials;
      originalMaterials := map[];
      interactive := {};
      this.names := names;
      cursor := "";
    }

    method PointerOver(o: ObjId)
      requires Valid() && o in materials
      modifies this
      ensures Valid() && State() == Over(old(State()), o)
    {
      if Excluded(names[o]) {
        return;
      }
      if o in interactive {
        if o !in originalMaterials {
          originalMaterials := originalMaterials[o := materials[o]];
        }
        materials := materials[o := PointerHighlight];
        cursor := "pointer";
      }
    }

    method PointerOut(o: ObjId)
      requires Valid() && o in materials
      modifies this
      ensures Valid() && State() == Out(old(State()), o)
    {
      if o in interactive && o in originalMaterials {
        materials := materials[o := originalMaterials[o]];
        originalMaterials := originalMaterials - {o};
        cursor := "default";
      }
    }

    /** The setup traversal that sets the interactive flag on every mesh. */
    method MarkInteractive(scene: SceneNode)
      requires Valid()
      modifies this
      ensures Valid() && State() == Mark(old(State()), scene)
    {
      var nodes := Traversal(scene);
      var i := 0;
      while i < |nodes|
        invariant 0 <= i <= |nodes|
        invariant interactive == old(interactive) + MeshIds(nodes[..i])
        invariant materials == old(materials) && originalMaterials == old(originalMaterials)
        invariant cursor == old(cursor)
      {
        assert nodes[..i + 1] == nodes[..i] + [nodes[i]];
        if nodes[i].isMesh {
          interactive := interactive + {nodes[i].id};
        }
        i := i + 1;
      }
      assert nodes[..i] == nodes;
    }
  }
}
