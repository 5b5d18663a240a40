/**
 * The state `geom3ToBrep` threads through its polygons (lib/geom3-to-brep.ts:145-197): the
 * repository, the vertex cache (vertex key to VERTEX_POINT) and the edge cache (canonical edge
 * key to EDGE_CURVE), with the invariant that ties them together.
 *
 * The vertex key is a parameter `key`: the converter passes the source's `Keys.VertexKeyAsWritten`,
 * and its corrected variant passes `Keys.VertexKey`. All that the topology relies on is that keys
 * never contain '|', the separator of edge keys.
 */
module Topology {
  import opened VecMath
  import opened StringOrder
  import opened Keys
  import opened Step

  /**
   * The converter's state. `base` is the size of the repository when the conversion started:
   * entities from `base` on are the ones the conversion created.
   */
  datatype State = State(repo: Repository, base: nat, vertices: map<Key, Ref>, edges: map<string, Ref>)

  /** The state at the start of a conversion: empty caches over the caller's repository. */
  function Initial(repo: Repository): (st: State)
    ensures st.repo == repo && st.base == |repo|
    ensures st.vertices == map[] && st.edges == map[]
  {
    State(repo, |repo|, map[], map[])
  }

  /** No key contains '|', so edge keys can be split back into their two vertex keys. */
  ghost predicate SeparatorFree(key: Vec3 -> Key) {
    forall p :: '|' !in key(p)
  }

  /** The vertex key of a vertex reference's position. */
  ghost function KeyAt(key: Vec3 -> Key, repo: Repository, v: Ref): Key
    requires IsVertexRef(repo, v)
  {
    key(VertexPosition(repo, v))
  }

  /** A vertex cache entry: `v` is a vertex whose position has key `k`. */
  ghost predicate VertexEntry(key: Vec3 -> Key, repo: Repository, k: Key, v: Ref) {
    IsVertexRef(repo, v) && KeyAt(key, repo, v) == k
  }

  /** `v` is the cached vertex for its own key. */
  ghost predicate CachedVertex(key: Vec3 -> Key, st: State, v: Ref) {
    IsVertexRef(st.repo, v) && KeyAt(key, st.repo, v) in st.vertices && st.vertices[KeyAt(key, st.repo, v)] == v
  }

  /**
   * An edge cache entry: `e` is an EDGE_CURVE created by this conversion between two cached
   * vertices, running from the one with the smaller key to the one with the larger, stored under
   * the canonical key of the pair.
   */
  ghost predicate EdgeEntry(key: Vec3 -> Key, st: State, ek: string, e: Ref) {
    st.base <= e < |st.repo| && st.repo[e].EdgeCurve? &&
    var c := st.repo[e];
    CachedVertex(key, st, c.edgeStart) && CachedVertex(key, st, c.edgeEnd) &&
    LexLess(KeyAt(key, st.repo, c.edgeStart), KeyAt(key, st.repo, c.edgeEnd)) &&
    ek == EdgeKey(KeyAt(key, st.repo, c.edgeStart), KeyAt(key, st.repo, c.edgeEnd)) &&
    c.edgeSameSense
  }

  /** `o` is an ORIENTED_EDGE over an EDGE_CURVE. */
  ghost predicate IsOrientedEdgeRef(repo: Repository, o: Ref) {
    o < |repo| && repo[o].OrientedEdge? && repo[o].edgeElement < |repo| && repo[repo[o].edgeElement].EdgeCurve?
  }

  /** The vertex an oriented edge leaves from: the curve's start when the flag is set, else its end. */
  ghost function EdgeHead(repo: Repository, o: Ref): Ref
    requires IsOrientedEdgeRef(repo, o)
  {
    var c := repo[repo[o].edgeElement];
    if repo[o].orientation then c.edgeStart else c.edgeEnd
  }

  /** The vertex an oriented edge arrives at. */
  ghost function EdgeTail(repo: Repository, o: Ref): Ref
    requires IsOrientedEdgeRef(repo, o)
  {
    var c := repo[repo[o].edgeElement];
    if repo[o].orientation then c.edgeEnd else c.edgeStart
  }

  /** Oriented edge `k` of the loop arrives where oriented edge `k + 1` (cyclically) leaves. */
  ghost predicate Chained(repo: Repository, oes: seq<Ref>, k: nat)
    requires k < |oes| && forall j :: 0 <= j < |oes| ==> IsOrientedEdgeRef(repo, oes[j])
  {
    EdgeTail(repo, oes[k]) == EdgeHead(repo, oes[(k + 1) % |oes|])
  }

  /** A closed loop of at least three oriented edges, each arriving where the next leaves. */
  ghost predicate ClosedLoop(repo: Repository, oes: seq<Ref>) {
    |oes| >= 3 &&
    (forall j :: 0 <= j < |oes| ==> IsOrientedEdgeRef(repo, oes[j])) &&
    (forall k :: 0 <= k < |oes| ==> Chained(repo, oes, k))
  }

  /** An AXIS2_PLACEMENT_3D with a location point, an axis and a reference direction. */
  ghost predicate PlacementShape(repo: Repository, p: Ref) {
    p < |repo| && repo[p].Axis2Placement3D? &&
    var a := repo[p];
    a.location < |repo| && repo[a.location].CartesianPoint? &&
    a.axis < |repo| && repo[a.axis].Direction? &&
    a.refDirection < |repo| && repo[a.refDirection].Direction?
  }

  /** An ADVANCED_FACE on a PLANE, bounded by one FACE_OUTER_BOUND around a closed EDGE_LOOP. */
  ghost predicate FaceShape(repo: Repository, f: Ref) {
    f < |repo| && repo[f].AdvancedFace? &&
    var face := repo[f];
    face.faceSameSense && |face.bounds| == 1 &&
    var b := face.bounds[0];
    b < |repo| && repo[b].FaceOuterBound? && repo[b].boundOrientation &&
    repo[b].bound < |repo| && repo[repo[b].bound].EdgeLoop? &&
    ClosedLoop(repo, repo[repo[b].bound].edgeList) &&
    face.faceGeometry < |repo| && repo[face.faceGeometry].Plane? &&
    PlacementShape(repo, repo[face.faceGeometry].position)
  }

  /** What must hold of a created entity of each kind. */
  ghost predicate EntityOk(st: State, i: nat)
    requires i < |st.repo|
  {
    match st.repo[i]
    case VertexPoint(_) => i in st.vertices.Values
    case EdgeCurve(_, _, _, _) => i in st.edges.Values
    case EdgeLoop(oes) => ClosedLoop(st.repo, oes)
    case AdvancedFace(_, _, _) => FaceShape(st.repo, i)
    case _ => true
  }

  /** Every vertex cache entry is a vertex with that key. */
  ghost predicate VerticesSound(key: Vec3 -> Key, st: State) {
    forall k :: k in st.vertices ==> VertexEntry(key, st.repo, k, st.vertices[k])
  }

  /** Every edge cache entry is a canonical edge between cached vertices. */
  ghost predicate EdgesSound(key: Vec3 -> Key, st: State) {
    forall ek :: ek in st.edges ==> EdgeEntry(key, st, ek, st.edges[ek])
  }

  /**
   * The converter's invariant: the caches are sound, every created VERTEX_POINT and EDGE_CURVE
   * is the cached one for its key, every created EDGE_LOOP is closed and every created
   * ADVANCED_FACE is well formed.
   */
  ghost predicate Valid(key: Vec3 -> Key, st: State) {
    st.base <= |st.repo| &&
    VerticesSound(key, st) && EdgesSound(key, st) &&
    forall i :: st.base <= i < |st.repo| ==> EntityOk(st, i)
  }

  /**
   * `st'` grew from `st`: same start, entities only appended, and cache entries only added,
   * never replaced.
   */
  ghost predicate Extends(st: State, st': State) {
    st'.base == st.base && Grows(st.repo, st'.repo) &&
    (forall k :: k in st.vertices ==> k in st'.vertices && st'.vertices[k] == st.vertices[k]) &&
    (forall ek :: ek in st.edges ==> ek in st'.edges && st'.edges[ek] == st.edges[ek])
  }

  lemma ExtendsTransitive(a: State, b: State, c: State)
    requires Extends(a, b) && Extends(b, c)
    ensures Extends(a, c)
  {
    GrowsTransitive(a.repo, b.repo, c.repo);
  }

  // ---------------------------------------------------------------------------------------------
  // Everything the invariant says about existing entities survives growth.

  lemma KeyAtStable(key: Vec3 -> Key, repo: Repository, repo': Repository, v: Ref)
    requires Grows(repo, repo') && IsVertexRef(repo, v)
    ensures IsVertexRef(repo', v) && KeyAt(key, repo', v) == KeyAt(key, repo, v)
  {
    VertexRefStable(repo, repo', v);
  }

  lemma CachedVertexStable(key: Vec3 -> Key, st: State, st': State, v: Ref)
    requires Extends(st, st') && CachedVertex(key, st, v)
    ensures CachedVertex(key, st', v)
  {
    KeyAtStable(key, st.repo, st'.repo, v);
  }

  lemma EdgeEntryStable(key: Vec3 -> Key, st: State, st': State, ek: string, e: Ref)
    requires Extends(st, st') && EdgeEntry(key, st, ek, e)
    ensures EdgeEntry(key, st', ek, e)
  {
    var c := st.repo[e];
    assert st'.repo[e] == c;
    CachedVertexStable(key, st, st', c.edgeStart);
    CachedVertexStable(key, st, st', c.edgeEnd);
    KeyAtStable(key, st.repo, st'.repo, c.edgeStart);
    KeyAtStable(key, st.repo, st'.repo, c.edgeEnd);
  }

  lemma OrientedEdgeStable(repo: Repository, repo': Repository, o: Ref)
    requires Grows(repo, repo') && IsOrientedEdgeRef(repo, o)
    ensures IsOrientedEdgeRef(repo', o)
    ensures EdgeHead(repo', o) == EdgeHead(repo, o) && EdgeTail(repo', o) == EdgeTail(repo, o)
  {
    assert repo'[o] == repo[o];
    assert repo'[repo[o].edgeElement] == repo[repo[o].edgeElement];
  }

  lemma ClosedLoopStable(repo: Repository, repo': Repository, oes: seq<Ref>)
    requires Grows(repo, repo') && ClosedLoop(repo, oes)
    ensures ClosedLoop(repo', oes)
  {
    forall j | 0 <= j < |oes|
      ensures IsOrientedEdgeRef(repo', oes[j])
      ensures EdgeHead(repo', oes[j]) == EdgeHead(repo, oes[j]) && EdgeTail(repo', oes[j]) == EdgeTail(repo, oes[j])
    {
      OrientedEdgeStable(repo, repo', oes[j]);
    }
    forall k | 0 <= k < |oes|
      ensures Chained(repo', oes, k)
    {
      assert Chained(repo, oes, k);
    }
  }

  lemma PlacementShapeStable(repo: Repository, repo': Repository, p: Ref)
    requires Grows(repo, repo') && PlacementShape(repo, p)
    ensures PlacementShape(repo', p)
  {
    var a := repo[p];
    assert repo'[p] == a;
    assert repo'[a.location] == repo[a.location];
    assert repo'[a.axis] == repo[a.axis];
    assert repo'[a.refDirection] == repo[a.refDirection];
  }

  lemma FaceShapeStable(repo: Repository, repo': Repository, f: Ref)
    requires Grows(repo, repo') && FaceShape(repo, f)
    ensures FaceShape(repo', f)
  {
    var face := repo[f];
    var b := face.bounds[0];
    assert repo'[f] == face;
    assert repo'[b] == repo[b];
    assert repo'[repo[b].bound] == repo[repo[b].bound];
    assert repo'[face.faceGeometry] == repo[face.faceGeometry];
    ClosedLoopStable(repo, repo', repo[repo[b].bound].edgeList);
    PlacementShapeStable(repo, repo', repo[face.faceGeometry].position);
  }

  lemma EntityOkStable(st: State, st': State, i: nat)
    requires Extends(st, st') && i < |st.repo| && EntityOk(st, i)
    ensures i < |st'.repo| && EntityOk(st', i)
  {
    assert st'.repo[i] == st.repo[i];
    match st.repo[i]
    case VertexPoint(_) =>
      var k :| k in st.vertices && st.vertices[k] == i;
      assert st'.vertices[k] == i;
    case EdgeCurve(_, _, _, _) =>
      var ek :| ek in st.edges && st.edges[ek] == i;
      assert st'.edges[ek] == i;
    case EdgeLoop(oes) =>
      ClosedLoopStable(st.repo, st'.repo, oes);
    case AdvancedFace(_, _, _) =>
      FaceShapeStable(st.repo, st'.repo, i);
    case _ =>
  }

  /**
   * The invariant survives any growth whose caches stay sound and whose new entities are in
   * order; this is the step every operation below takes.
   */
  lemma ValidAfterGrowth(key: Vec3 -> Key, st: State, st': State)
    requires Valid(key, st) && Extends(st, st')
    requires VerticesSound(key, st') && EdgesSound(key, st')
    requires forall i :: |st.repo| <= i < |st'.repo| ==> EntityOk(st', i)
    ensures Valid(key, st')
  {
    forall i | st'.base <= i < |st'.repo|
      ensures EntityOk(st', i)
    {
      if i < |st.repo| {
        EntityOkStable(st, st', i);
      }
    }
  }

  /** Edge cache entries stay sound when the repository grows and the vertex cache only gains keys. */
  lemma EdgesSoundStable(key: Vec3 -> Key, st: State, st': State)
    requires EdgesSound(key, st) && Extends(st, st') && st'.edges == st.edges
    ensures EdgesSound(key, st')
  {
    forall ek | ek in st'.edges
      ensures EdgeEntry(key, st', ek, st'.edges[ek])
    {
      EdgeEntryStable(key, st, st', ek, st.edges[ek]);
    }
  }

  /** Vertex cache entries stay sound when the repository grows and the cache is unchanged. */
  lemma VerticesSoundStable(key: Vec3 -> Key, st: State, st': State)
    requires VerticesSound(key, st) && Grows(st.repo, st'.repo) && st'.vertices == st.vertices
    ensures VerticesSound(key, st')
  {
    forall k | k in st'.vertices
      ensures VertexEntry(key, st'.repo, k, st'.vertices[k])
    {
      KeyAtStable(key, st.repo, st'.repo, st.vertices[k]);
    }
  }

  /** Appending an entity that needs no cache entry and is not a loop or face keeps the invariant. */
  lemma AddPlainKeepsValid(key: Vec3 -> Key, st: State, e: Entity)
    requires Valid(key, st)
    requires !e.VertexPoint? && !e.EdgeCurve? && !e.EdgeLoop? && !e.AdvancedFace?
    ensures Valid(key, st.(repo := Step.Add(st.repo, e).0))
    ensures Extends(st, st.(repo := Step.Add(st.repo, e).0))
  {
    var st' := st.(repo := Step.Add(st.repo, e).0);
    AddGrows(st.repo, e);
    VerticesSoundStable(key, st, st');
    EdgesSoundStable(key, st, st');
    ValidAfterGrowth(key, st, st');
  }

  /** Before anything is created the invariant holds, whatever the repository already holds. */
  lemma InitialValid(key: Vec3 -> Key, repo: Repository)
    ensures Valid(key, Initial(repo))
  {
  }

  // ---------------------------------------------------------------------------------------------
  // What the invariant buys: shared topology.

  /** No two VERTEX_POINTs the conversion created have the same vertex key. */
  lemma CreatedVerticesDistinct(key: Vec3 -> Key, st: State, i: nat, j: nat)
    requires Valid(key, st)
    requires st.base <= i < |st.repo| && st.base <= j < |st.repo| && i != j
    requires st.repo[i].VertexPoint? && st.repo[j].VertexPoint?
    ensures IsVertexRef(st.repo, i) && IsVertexRef(st.repo, j)
    ensures KeyAt(key, st.repo, i) != KeyAt(key, st.repo, j)
  {
    assert EntityOk(st, i) && EntityOk(st, j);
    var ki :| ki in st.vertices && st.vertices[ki] == i;
    var kj :| kj in st.vertices && st.vertices[kj] == j;
    assert VertexEntry(key, st.repo, ki, i) && VertexEntry(key, st.repo, kj, j);
  }

  /** A created edge curve joins two different vertices, with different keys. */
  lemma CreatedEdgeProper(key: Vec3 -> Key, st: State, e: Ref)
    requires Valid(key, st) && st.base <= e < |st.repo| && st.repo[e].EdgeCurve?
    ensures IsVertexRef(st.repo, st.repo[e].edgeStart) && IsVertexRef(st.repo, st.repo[e].edgeEnd)
    ensures KeyAt(key, st.repo, st.repo[e].edgeStart) != KeyAt(key, st.repo, st.repo[e].edgeEnd)
    ensures st.repo[e].edgeStart != st.repo[e].edgeEnd
  {
    assert EntityOk(st, e);
    var ek :| ek in st.edges && st.edges[ek] == e;
    assert EdgeEntry(key, st, ek, e);
    LexLessIrreflexive(KeyAt(key, st.repo, st.repo[e].edgeStart));
  }

  /** The unordered pair of vertex keys an EDGE_CURVE joins. */
  ghost function EndKeys(key: Vec3 -> Key, repo: Repository, e: Ref): set<Key>
    requires e < |repo| && repo[e].EdgeCurve?
    requires IsVertexRef(repo, repo[e].edgeStart) && IsVertexRef(repo, repo[e].edgeEnd)
  {
    {KeyAt(key, repo, repo[e].edgeStart), KeyAt(key, repo, repo[e].edgeEnd)}
  }

  /**
   * No two EDGE_CURVEs the conversion created join the same pair of vertex keys, in either
   * order: an edge shared by two faces is one curve.
   */
  lemma CreatedEdgesDistinct(key: Vec3 -> Key, st: State, i: nat, j: nat)
    requires Valid(key, st)
    requires st.base <= i < |st.repo| && st.base <= j < |st.repo| && i != j
    requires st.repo[i].EdgeCurve? && st.repo[j].EdgeCurve?
    ensures IsVertexRef(st.repo, st.repo[i].edgeStart) && IsVertexRef(st.repo, st.repo[i].edgeEnd)
    ensures IsVertexRef(st.repo, st.repo[j].edgeStart) && IsVertexRef(st.repo, st.repo[j].edgeEnd)
    ensures EndKeys(key, st.repo, i) != EndKeys(key, st.repo, j)
  {
    assert EntityOk(st, i) && EntityOk(st, j);
    var ei :| ei in st.edges && st.edges[ei] == i;
    var ej :| ej in st.edges && st.edges[ej] == j;
    assert EdgeEntry(key, st, ei, i) && EdgeEntry(key, st, ej, j);
    var (si, ti) := (KeyAt(key, st.repo, st.repo[i].edgeStart), KeyAt(key, st.repo, st.repo[i].edgeEnd));
    var (sj, tj) := (KeyAt(key, st.repo, st.repo[j].edgeStart), KeyAt(key, st.repo, st.repo[j].edgeEnd));
    EdgeKeySymmetric(si, ti);
  }
}
