/**
 * The STEP entities the converter creates, as tagged records in an append-only repository.
 * `repo.add(e)` appends `e` and returns its index; `ref.resolve(repo)` looks the index up.
 * Entity names (always "") are not modelled.
 */
module Step {
  import opened VecMath

  /** A reference to an entity: its index in the repository. */
  type Ref = nat

  datatype Entity =
    | CartesianPoint(coords: Vec3)
    | VertexPoint(point: Ref)
    | Direction(ratios: Vec3)
    | Vector(vectorDirection: Ref, magnitude: real)
    | Line(pnt: Ref, dir: Ref)
    | EdgeCurve(edgeStart: Ref, edgeEnd: Ref, edgeGeometry: Ref, edgeSameSense: bool)
    | OrientedEdge(edgeElement: Ref, orientation: bool)
    | Axis2Placement3D(location: Ref, axis: Ref, refDirection: Ref)
    | Plane(position: Ref)
    | EdgeLoop(edgeList: seq<Ref>)
    | FaceOuterBound(bound: Ref, boundOrientation: bool)
    | AdvancedFace(bounds: seq<Ref>, faceGeometry: Ref, faceSameSense: bool)
    /** An entity the converter did not create and never inspects. */
    | Other

  type Repository = seq<Entity>

  /** `repo.add(e)`: the repository with `e` appended, and the reference to it. */
  function Add(repo: Repository, e: Entity): (r: (Repository, Ref))
    ensures |r.0| == |repo| + 1
    ensures r.1 < |r.0| && r.0[r.1] == e
    ensures forall i :: 0 <= i < |repo| ==> r.0[i] == repo[i]
  {
    (repo + [e], |repo|)
  }

  /** `repo'` is `repo` with entities appended: every existing reference still resolves the same. */
  ghost predicate Grows(repo: Repository, repo': Repository) {
    |repo| <= |repo'| && forall i :: 0 <= i < |repo| ==> repo'[i] == repo[i]
  }

  lemma {:induction false} GrowsTransitive(a: Repository, b: Repository, c: Repository)
    requires Grows(a, b) && Grows(b, c)
    ensures Grows(a, c)
  {
    forall i | 0 <= i < |a|
      ensures c[i] == a[i]
    {
      assert c[i] == b[i];
    }
  }

  /** Adding never disturbs what is already there, and the new reference resolves to the new entity. */
  lemma AddGrows(repo: Repository, e: Entity)
    ensures Grows(repo, Add(repo, e).0)
    ensures Add(repo, e).0[Add(repo, e).1] == e
    ensures Add(repo, e).1 == |repo|
  {
  }

  /** `v` resolves to a VERTEX_POINT whose point resolves to a CARTESIAN_POINT. */
  ghost predicate IsVertexRef(repo: Repository, v: Ref) {
    v < |repo| && repo[v].VertexPoint? && repo[v].point < |repo| && repo[repo[v].point].CartesianPoint?
  }

  /** The position of a vertex reference. */
  ghost function VertexPosition(repo: Repository, v: Ref): Vec3
    requires IsVertexRef(repo, v)
  {
    repo[repo[v].point].coords
  }

  /** A vertex reference stays a vertex reference, at the same position, as the repository grows. */
  lemma VertexRefStable(repo: Repository, repo': Repository, v: Ref)
    requires Grows(repo, repo') && IsVertexRef(repo, v)
    ensures IsVertexRef(repo', v) && VertexPosition(repo', v) == VertexPosition(repo, v)
  {
    assert repo'[v] == repo[v];
    assert repo'[repo[v].point] == repo[repo[v].point];
  }
}
