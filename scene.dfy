/**
 * The scene-graph vocabulary shared by the viewer components: object identities,
 * the materials that sit in an object's `material` slot, the first ray hit that the
 * raycaster reports, and the hover record shown next to the pointer.
 *
 * Raycasting itself is not modelled: every component receives the first hit (or
 * its absence) as an input.
 */
module Scene {

  datatype Option<+T> = None | Some(value: T)

  /** Identity of a scene object (a mesh or another node of the loaded asset). */
  type ObjId = nat

  /**
   * A material object.  `Loaded` materials come with the asset; the two
   * highlight materials are the ones the components create themselves: the cyan
   * one of the hover highlighters and the yellow one of the room viewer.
   * `color` is the hexadecimal colour text of the material, `None` when the
   * material has no colour.
   */
  datatype Material =
    | Loaded(id: nat, kind: string, color: Option<string>)
    | HoverHighlight
    | PointerHighlight

  /** The `type` string of a material. */
  function MaterialType(m: Material): string
  {
    match m
    case Loaded(_, kind, _) => kind
    case HoverHighlight => "MeshStandardMaterial"
    case PointerHighlight => "MeshStandardMaterial"
  }

  /** The colour of a material as the hover record shows it: `#` and its hex digits, or `N/A`. */
  function ColorText(m: Material): (t: string)
    ensures t == "N/A" <==> m.Loaded? && m.color.None?
    ensures t != "N/A" ==> |t| > 0 && t[0] == '#'
    ensures m.Loaded? && m.color.Some? ==> t == "#" + m.color.value
  {
    match m
    case Loaded(_, _, Some(hex)) =>
      assert ("#" + hex)[0] != "N/A"[0];
      "#" + hex
    case Loaded(_, _, None) => "N/A"
    case HoverHighlight => "#4fc3f7"
    case PointerHighlight => "#ffff00"
  }

  /**
   * The first intersection of a ray: the object hit and the attributes of it that
   * the components read.  `position` and `distance` are the already formatted
   * texts of the object's position and of the hit distance.
   */
  datatype Hit = Hit(obj: ObjId, isMesh: bool, name: string, objType: string,
                     position: string, distance: string)

  /** The record handed to the UI for the hovered object. */
  datatype HoverInfo = HoverInfo(name: string, objType: string, materialType: string,
                                 color: string, position: string, distance: string)

  /** A material table: the current `material` slot of every object that can be hit. */
  type Table = map<ObjId, Material>

  /** Every hit, if any, lands on an object of the table. */
  predicate HitInScene(table: Table, hit: Option<Hit>)
  {
    hit.Some? ==> hit.value.obj in table
  }

  /**
   * A node of the loaded scene graph.  Ids stand for object identity, so two
   * nodes of one scene never share an id.
   */
  datatype SceneNode = SceneNode(id: ObjId, isMesh: bool, children: seq<SceneNode>)

  /** The nodes in the order `traverse` visits them: the node itself, then each child's subtree. */
  function Traversal(n: SceneNode): (r: seq<SceneNode>)
    ensures |r| > 0 && r[0] == n
    decreases n, 0
  {
    [n] + TraversalAll(n.children)
  }

  function TraversalAll(ns: seq<SceneNode>): seq<SceneNode>
    decreases ns, 1
  {
    if ns == [] then [] else Traversal(ns[0]) + TraversalAll(ns[1..])
  }

  /** The ids of the mesh nodes among `ns`. */
  function MeshIds(ns: seq<SceneNode>): set<ObjId>
  {
    set i | 0 <= i < |ns| && ns[i].isMesh :: ns[i].id
  }

  /** Every node of every child subtree is visited by the traversal of the parent. */
  lemma {:induction false} TraversalVisitsSubtrees(n: SceneNode, k: nat, d: SceneNode)
    requires k < |n.children| && d in Traversal(n.children[k])
    ensures d in Traversal(n)
  {
    TraversalAllVisits(n.children, k, d);
  }

  lemma {:induction false} TraversalAllVisits(ns: seq<SceneNode>, k: nat, d: SceneNode)
    requires k < |ns| && d in Traversal(ns[k])
    ensures d in TraversalAll(ns)
    decreases ns
  {
    if k > 0 {
      TraversalAllVisits(ns[1..], k - 1, d);
    }
  }
}
