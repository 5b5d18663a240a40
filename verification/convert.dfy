/**
 * `geom3ToBrep` itself (lib/geom3-to-brep.ts:145-281): gather the polygons, split them at
 * T-junctions, and turn each into a planar face with shared vertices and edges.
 */
module Convert {
  import opened Common
  import opened Indices
  import opened VecMath
  import opened Keys
  import opened Step
  import opened Topology
  import opened Builder
  import opened Extract
  import Dedup
  import TJunctions

  /** The oriented edges around the face `f`. */
  ghost function LoopEdges(repo: Repository, f: Ref): seq<Ref>
    requires FaceShape(repo, f)
  {
    repo[repo[repo[f].bounds[0]].bound].edgeList
  }

  /**
   * One polygon (lib/geom3-to-brep.ts:214-278): deduplicate, give up below three positions,
   * intern the vertices, build the oriented edges, give up below three of them, and add the face.
   * A face comes out exactly when at least three positions survive deduplication; its loop then
   * walks their vertices in order, and its plane is placed on the first three of them.
   */
  function ConvertPolygon(key: Vec3 -> Key, hypot: Vec3 -> real, st: State, positions: seq<Vec3>): (r: (State, Option<Ref>))
    requires Valid(key, st) && SeparatorFree(key)
    ensures Valid(key, r.0) && Extends(st, r.0)
    ensures r.1.Some? <==> |Dedup.DedupConsecutive(key, positions)| >= 3
    ensures r.1.None? ==> r.0 == st
    ensures r.1.Some? ==> |st.repo| <= r.1.value < |r.0.repo| && FaceShape(r.0.repo, r.1.value)
    ensures r.1.Some? ==>
              var us := Dedup.DedupConsecutive(key, positions);
              OnFrame(r.0.repo, r.1.value, FaceFrame(hypot, us[0], us[1], us[2])) &&
              |LoopEdges(r.0.repo, r.1.value)| == |us| &&
              StepsConnected(key, r.0, us, LoopEdges(r.0.repo, r.1.value), 0)
    ensures r.1.Some? ==> FaceOf(key, hypot, r.0.repo, st.base, r.1.value, Dedup.DedupConsecutive(key, positions))
  {
    var us := Dedup.DedupConsecutive(key, positions);
    if |us| < 3 then (st, None)
    else
      var (st1, refs) := InternFrom(key, st, us, 0);
      CachedAreVertexRefs(key, st1, us, refs);
      Dedup.DedupNoCyclicRepeat(key, positions);
      OrientedEdgesChain(key, hypot, st1, us, refs, 0);
      var (st2, oes) := OrientedEdgesFrom(key, hypot, st1, us, refs, 0);
      if |oes| < 3 then
        assert false;
        (st2, None)
      else
        LoopCloses(key, st2, us, oes);
        var (st3, face) := AssembleFace(key, hypot, st2, us, oes);
        ExtendsTransitive(st, st1, st2);
        ExtendsTransitive(st, st2, st3);
        StepsConnectedStable(key, st2, st3, us, oes);
        ConnectedWalks(key, st3, us, oes);
        (st3, Some(face))
  }

  /**
   * Oriented edge `j`, created at index `base` or later over an edge curve also created there,
   * leads from a vertex whose position has the key of `us[j]` to one whose position has the key
   * of the cyclically next position.
   */
  ghost predicate WalksStep(key: Vec3 -> Key, repo: Repository, base: nat, oes: seq<Ref>, us: seq<Vec3>, j: nat)
    requires j < |oes| == |us|
  {
    IsOrientedEdgeRef(repo, oes[j]) && base <= oes[j] && base <= repo[oes[j]].edgeElement &&
    IsVertexRef(repo, EdgeHead(repo, oes[j])) && IsVertexRef(repo, EdgeTail(repo, oes[j])) &&
    KeyAt(key, repo, EdgeHead(repo, oes[j])) == key(us[j]) &&
    KeyAt(key, repo, EdgeTail(repo, oes[j])) == key(us[(j + 1) % |us|])
  }

  /** The loop `oes` visits the vertices of `us` in order, one oriented edge per step. */
  ghost predicate LoopWalks(key: Vec3 -> Key, repo: Repository, base: nat, oes: seq<Ref>, us: seq<Vec3>) {
    |oes| == |us| && forall j :: 0 <= j < |oes| ==> WalksStep(key, repo, base, oes, us, j)
  }

  /**
   * `f` is the face of the deduplicated polygon `us`, created at index `base` or later: a
   * well-formed face on the plane through its first three positions, whose loop of new oriented
   * edges over new edge curves walks its vertices in order.
   */
  ghost predicate FaceOf(key: Vec3 -> Key, hypot: Vec3 -> real, repo: Repository, base: nat, f: Ref, us: seq<Vec3>) {
    |us| >= 3 && base <= f && FaceShape(repo, f) &&
    OnFrame(repo, f, FaceFrame(hypot, us[0], us[1], us[2])) &&
    LoopWalks(key, repo, base, LoopEdges(repo, f), us)
  }

  /** A loop connected through the vertex cache walks the vertices in the repository itself. */
  lemma ConnectedWalks(key: Vec3 -> Key, st: State, us: seq<Vec3>, oes: seq<Ref>)
    requires Valid(key, st) && |oes| == |us| && StepsConnected(key, st, us, oes, 0)
    ensures LoopWalks(key, st.repo, st.base, oes, us)
  {
    forall j | 0 <= j < |oes|
      ensures WalksStep(key, st.repo, st.base, oes, us, j)
    {
      assert Connects(st, oes[0 + j], key(us[0 + j]), key(us[(0 + j + 1) % |us|]));
      assert VertexEntry(key, st.repo, key(us[j]), st.vertices[key(us[j])]);
      assert VertexEntry(key, st.repo, key(us[(j + 1) % |us|]), st.vertices[key(us[(j + 1) % |us|])]);
    }
  }

  /** A face stays the face of its polygon as entities are appended. */
  lemma FaceOfStable(key: Vec3 -> Key, hypot: Vec3 -> real, repo: Repository, repo': Repository, base: nat,
                      f: Ref, us: seq<Vec3>)
    requires Grows(repo, repo') && FaceOf(key, hypot, repo, base, f, us)
    ensures FaceOf(key, hypot, repo', base, f, us)
  {
    FaceShapeStable(repo, repo', f);
    var g := repo[f].faceGeometry;
    var p := repo[g].position;
    var a := repo[p];
    assert repo'[f] == repo[f] && repo'[g] == repo[g] && repo'[p] == repo[p];
    assert repo'[a.location] == repo[a.location] && repo'[a.axis] == repo[a.axis];
    assert repo'[a.refDirection] == repo[a.refDirection];
    var b := repo[f].bounds[0];
    assert repo'[b] == repo[b] && repo'[repo[b].bound] == repo[repo[b].bound];
    var oes := LoopEdges(repo, f);
    assert LoopEdges(repo', f) == oes;
    forall j | 0 <= j < |oes|
      ensures WalksStep(key, repo', base, oes, us, j)
    {
      assert WalksStep(key, repo, base, oes, us, j);
      OrientedEdgeStable(repo, repo', oes[j]);
      KeyAtStable(key, repo, repo', EdgeHead(repo, oes[j]));
      KeyAtStable(key, repo, repo', EdgeTail(repo, oes[j]));
    }
  }

  lemma StepsConnectedStable(key: Vec3 -> Key, st: State, st': State, us: seq<Vec3>, oes: seq<Ref>)
    requires Extends(st, st') && StepsConnected(key, st, us, oes, 0)
    ensures StepsConnected(key, st', us, oes, 0)
  {
    forall j | 0 <= j < |oes| && 0 + j < |us|
      ensures Connects(st', oes[j], key(us[0 + j]), key(us[(0 + j + 1) % |us|]))
    {
      ConnectsStable(st, st', oes[j], key(us[0 + j]), key(us[(0 + j + 1) % |us|]));
    }
  }

  /** How many of the polygons keep at least three positions after deduplication. */
  ghost function FaceCount(key: Vec3 -> Key, polys: seq<seq<Vec3>>): nat {
    if |polys| == 0 then 0
    else (if |Dedup.DedupConsecutive(key, polys[0])| >= 3 then 1 else 0) + FaceCount(key, polys[1..])
  }

  /** There is at most one face per polygon. */
  lemma {:induction false} FaceCountBound(key: Vec3 -> Key, polys: seq<seq<Vec3>>)
    ensures FaceCount(key, polys) <= |polys|
  {
    if |polys| > 0 {
      FaceCountBound(key, polys[1..]);
    }
  }

  /** Polygons with three positions of pairwise different keys each give exactly one face. */
  lemma {:induction false} FaceCountDistinct(key: Vec3 -> Key, polys: seq<seq<Vec3>>)
    requires forall k :: 0 <= k < |polys| ==> |polys[k]| >= 3 && Dedup.NoCyclicRepeat(key, polys[k])
    ensures FaceCount(key, polys) == |polys|
  {
    if |polys| > 0 {
      Dedup.DedupFromIdentity(key, polys[0], 0);
      assert polys[0][0..] == polys[0];
      FaceCountDistinct(key, polys[1..]);
    }
  }

  /**
   * The indices of the polygons that keep at least three positions after deduplication, in
   * increasing order: the polygons that get a face.
   */
  ghost function FaceIndices(key: Vec3 -> Key, polys: seq<seq<Vec3>>): (idx: seq<nat>)
    ensures |idx| == FaceCount(key, polys)
    ensures Increasing(idx)
    ensures forall j :: 0 <= j < |idx| ==> idx[j] < |polys|
    ensures forall k :: 0 <= k < |polys| ==> (k in idx <==> |Dedup.DedupConsecutive(key, polys[k])| >= 3)
  {
    if |polys| == 0 then []
    else
      var rest := Shift(FaceIndices(key, polys[1..]), 1);
      ShiftMembers(FaceIndices(key, polys[1..]), 1);
      assert forall k :: 0 < k < |polys| ==> polys[1..][k - 1] == polys[k];
      if |Dedup.DedupConsecutive(key, polys[0])| >= 3 then
        assert forall j :: 0 < j < |rest| + 1 ==> ([0] + rest)[j] == rest[j - 1];
        [0] + rest
      else rest
  }

  /** The first polygon is kept: its face comes first, before those of the rest. */
  lemma FaceIndicesCons(key: Vec3 -> Key, polys: seq<seq<Vec3>>)
    requires |polys| > 0 && |Dedup.DedupConsecutive(key, polys[0])| >= 3
    ensures FaceIndices(key, polys) == [0] + Shift(FaceIndices(key, polys[1..]), 1)
  {
  }

  /** The first polygon is dropped: the kept indices are those of the rest, moved up by one. */
  lemma FaceIndicesSkip(key: Vec3 -> Key, polys: seq<seq<Vec3>>)
    requires |polys| > 0 && |Dedup.DedupConsecutive(key, polys[0])| < 3
    ensures FaceIndices(key, polys) == Shift(FaceIndices(key, polys[1..]), 1)
  {
  }

  /** `f` is the face of the polygon `poly`, taken after deduplication. */
  ghost predicate FaceOfPolygon(key: Vec3 -> Key, hypot: Vec3 -> real, repo: Repository, base: nat, f: Ref, poly: seq<Vec3>) {
    FaceOf(key, hypot, repo, base, f, Dedup.DedupConsecutive(key, poly))
  }

  /** Face `faces[j]` is the face of polygon `idx[j]`, for every `j`. */
  ghost predicate FacesFor(key: Vec3 -> Key, hypot: Vec3 -> real, repo: Repository, base: nat, faces: seq<Ref>,
                           polys: seq<seq<Vec3>>, idx: seq<nat>) {
    |faces| == |idx| &&
    forall j :: 0 <= j < |faces| ==> idx[j] < |polys| && FaceOfPolygon(key, hypot, repo, base, faces[j], polys[idx[j]])
  }

  /** Prepending the face of the first polygon to faces indexed into the rest. */
  lemma FacesForPrepend(key: Vec3 -> Key, hypot: Vec3 -> real, repo: Repository, base: nat, f: Ref, rest: seq<Ref>,
                        polys: seq<seq<Vec3>>, tail: seq<nat>)
    requires |polys| > 0 && FaceOfPolygon(key, hypot, repo, base, f, polys[0])
    requires FacesFor(key, hypot, repo, base, rest, polys[1..], tail)
    ensures FacesFor(key, hypot, repo, base, [f] + rest, polys, [0] + Shift(tail, 1))
  {
    var idx := [0] + Shift(tail, 1);
    var faces := [f] + rest;
    forall j | 0 <= j < |faces|
      ensures idx[j] < |polys| && FaceOfPolygon(key, hypot, repo, base, faces[j], polys[idx[j]])
    {
      if j > 0 {
        assert faces[j] == rest[j - 1] && idx[j] == tail[j - 1] + 1;
        assert polys[idx[j]] == polys[1..][tail[j - 1]];
        assert FaceOfPolygon(key, hypot, repo, base, rest[j - 1], polys[1..][tail[j - 1]]);
      }
    }
  }

  /** Faces indexed into the rest, seen as indexed into all the polygons. */
  lemma FacesForShift(key: Vec3 -> Key, hypot: Vec3 -> real, repo: Repository, base: nat, rest: seq<Ref>,
                      polys: seq<seq<Vec3>>, tail: seq<nat>)
    requires |polys| > 0 && FacesFor(key, hypot, repo, base, rest, polys[1..], tail)
    ensures FacesFor(key, hypot, repo, base, rest, polys, Shift(tail, 1))
  {
    var idx := Shift(tail, 1);
    forall j | 0 <= j < |rest|
      ensures idx[j] < |polys| && FaceOfPolygon(key, hypot, repo, base, rest[j], polys[idx[j]])
    {
      assert polys[idx[j]] == polys[1..][tail[j]];
    }
  }

  /** Every face in `faces` is a well-formed face created at index `lo` or later. */
  ghost predicate CreatedFaces(repo: Repository, lo: nat, faces: seq<Ref>) {
    forall j :: 0 <= j < |faces| ==> lo <= faces[j] < |repo| && FaceShape(repo, faces[j])
  }

  /** The faces are in the order they were created, without repeats. */
  lemma FacesCons(repo: Repository, lo: nat, mid: nat, f: Ref, rest: seq<Ref>)
    requires lo <= f < mid && FaceShape(repo, f)
    requires CreatedFaces(repo, mid, rest) && Increasing(rest)
    ensures CreatedFaces(repo, lo, [f] + rest) && Increasing([f] + rest)
  {
    assert forall j :: 0 < j < |rest| + 1 ==> ([f] + rest)[j] == rest[j - 1];
  }

  /**
   * The loop over `rawPolygons` (lib/geom3-to-brep.ts:214-278): the faces, one for each polygon
   * that keeps three positions, in polygon order, each well formed and created by this loop.
   */
  function ConvertAll(key: Vec3 -> Key, hypot: Vec3 -> real, st: State, polys: seq<seq<Vec3>>): (r: (State, seq<Ref>))
    requires Valid(key, st) && SeparatorFree(key)
    ensures Valid(key, r.0) && Extends(st, r.0)
    ensures |r.1| == FaceCount(key, polys)
    ensures CreatedFaces(r.0.repo, |st.repo|, r.1) && Increasing(r.1)
    ensures FacesFor(key, hypot, r.0.repo, st.base, r.1, polys, FaceIndices(key, polys))
    decreases |polys|
  {
    if |polys| == 0 then (st, [])
    else
      var (st1, face) := ConvertPolygon(key, hypot, st, polys[0]);
      var (st2, rest) := ConvertAll(key, hypot, st1, polys[1..]);
      ExtendsTransitive(st, st1, st2);
      if face.Some? then
        FaceShapeStable(st1.repo, st2.repo, face.value);
        FacesCons(st2.repo, |st.repo|, |st1.repo|, face.value, rest);
        FaceOfStable(key, hypot, st1.repo, st2.repo, st.base, face.value, Dedup.DedupConsecutive(key, polys[0]));
        FaceIndicesCons(key, polys);
        FacesForPrepend(key, hypot, st2.repo, st.base, face.value, rest, polys, FaceIndices(key, polys[1..]));
        (st2, [face.value] + rest)
      else
        FaceIndicesSkip(key, polys);
        FacesForShift(key, hypot, st2.repo, st.base, rest, polys, FaceIndices(key, polys[1..]));
        (st2, rest)
  }

  /** The corrected vertex key is one edge keys can be split on. */
  lemma VertexKeySeparatorFree()
    ensures SeparatorFree(VertexKey)
  {
    forall p
      ensures '|' !in VertexKey(p)
    {
    }
  }

  /** The source's vertex key is one edge keys can be split on. */
  lemma VertexKeyAsWrittenSeparatorFree()
    ensures SeparatorFree(VertexKeyAsWritten)
  {
    forall p
      ensures '|' !in VertexKeyAsWritten(p)
    {
    }
  }

  /** The polygons the face loop works on: gathered, then split at T-junctions under `key`. */
  function Polygons(key: Vec3 -> Key, geom: Geom3): (r: seq<seq<Vec3>>)
    ensures |r| == |RawPolygons(geom)| <= |geom.polygons|
    ensures forall k :: 0 <= k < |r| ==> IsSubsequence(RawPolygons(geom)[k], r[k])
  {
    TJunctions.SplitTJunctions(key, RawPolygons(geom))
  }

  /** The whole conversion under the vertex key `key`, with the final converter state. */
  function Run(key: Vec3 -> Key, repo: Repository, geom: Geom3, hypot: Vec3 -> real): (r: (State, seq<Ref>))
    requires SeparatorFree(key)
    ensures Valid(key, r.0) && r.0.base == |repo| && Grows(repo, r.0.repo)
    ensures |r.1| == FaceCount(key, Polygons(key, geom)) <= |geom.polygons|
    ensures CreatedFaces(r.0.repo, |repo|, r.1) && Increasing(r.1)
    ensures FacesFor(key, hypot, r.0.repo, |repo|, r.1, Polygons(key, geom), FaceIndices(key, Polygons(key, geom)))
  {
    InitialValid(key, repo);
    FaceCountBound(key, Polygons(key, geom));
    ConvertAll(key, hypot, Initial(repo), Polygons(key, geom))
  }

  /** Every oriented edge of a polygon's face, and its edge curve, were created at `base` or later. */
  lemma FaceEdgeNew(key: Vec3 -> Key, hypot: Vec3 -> real, repo: Repository, base: nat, f: Ref,
                    poly: seq<Vec3>, a: nat)
    requires FaceOfPolygon(key, hypot, repo, base, f, poly) && a < |LoopEdges(repo, f)|
    ensures IsOrientedEdgeRef(repo, LoopEdges(repo, f)[a])
    ensures base <= LoopEdges(repo, f)[a] && base <= repo[LoopEdges(repo, f)[a]].edgeElement
  {
    assert WalksStep(key, repo, base, LoopEdges(repo, f), Dedup.DedupConsecutive(key, poly), a);
  }

  /**
   * Two oriented edges over created edge curves that join the same two vertices, one way round or
   * the other, run over the same curve, and their flags agree exactly when they leave from the
   * same vertex.
   */
  lemma OrientedEdgesShareCurve(key: Vec3 -> Key, st: State, o1: Ref, o2: Ref)
    requires Valid(key, st) && IsOrientedEdgeRef(st.repo, o1) && IsOrientedEdgeRef(st.repo, o2)
    requires st.base <= st.repo[o1].edgeElement && st.base <= st.repo[o2].edgeElement
    requires (EdgeHead(st.repo, o1) == EdgeHead(st.repo, o2) && EdgeTail(st.repo, o1) == EdgeTail(st.repo, o2)) ||
             (EdgeHead(st.repo, o1) == EdgeTail(st.repo, o2) && EdgeTail(st.repo, o1) == EdgeHead(st.repo, o2))
    ensures st.repo[o1].edgeElement == st.repo[o2].edgeElement
    ensures st.repo[o1].orientation == st.repo[o2].orientation <==> EdgeHead(st.repo, o1) == EdgeHead(st.repo, o2)
  {
    var (c1, c2) := (st.repo[o1].edgeElement, st.repo[o2].edgeElement);
    CreatedEdgeProper(key, st, c1);
    CreatedEdgeProper(key, st, c2);
    if c1 != c2 {
      CreatedEdgesDistinct(key, st, c1, c2);
    }
  }

  /**
   * Two oriented edges of the output loops that join the same two vertices: one way round or the
   * other, they run over one EDGE_CURVE created by this conversion, and their flags agree exactly
   * when they leave from the same vertex. So an edge shared by two faces is one entity, walked
   * with opposite flags.
   */
  lemma RunSharesEdges(key: Vec3 -> Key, repo: Repository, geom: Geom3, hypot: Vec3 -> real,
                       j1: nat, a: nat, j2: nat, b: nat)
    requires SeparatorFree(key)
    requires var (st, faces) := Run(key, repo, geom, hypot);
             j1 < |faces| && j2 < |faces| &&
             a < |LoopEdges(st.repo, faces[j1])| && b < |LoopEdges(st.repo, faces[j2])|
    requires var (st, faces) := Run(key, repo, geom, hypot);
             var (o1, o2) := (LoopEdges(st.repo, faces[j1])[a], LoopEdges(st.repo, faces[j2])[b]);
             (EdgeHead(st.repo, o1) == EdgeHead(st.repo, o2) && EdgeTail(st.repo, o1) == EdgeTail(st.repo, o2)) ||
             (EdgeHead(st.repo, o1) == EdgeTail(st.repo, o2) && EdgeTail(st.repo, o1) == EdgeHead(st.repo, o2))
    ensures var (st, faces) := Run(key, repo, geom, hypot);
            var (o1, o2) := (LoopEdges(st.repo, faces[j1])[a], LoopEdges(st.repo, faces[j2])[b]);
            |repo| <= st.repo[o1].edgeElement == st.repo[o2].edgeElement &&
            (st.repo[o1].orientation == st.repo[o2].orientation <==> EdgeHead(st.repo, o1) == EdgeHead(st.repo, o2))
  {
    var (st, faces) := Run(key, repo, geom, hypot);
    var polys := Polygons(key, geom);
    var idx := FaceIndices(key, polys);
    assert FacesFor(key, hypot, st.repo, |repo|, faces, polys, idx);
    FaceEdgeNew(key, hypot, st.repo, |repo|, faces[j1], polys[idx[j1]], a);
    FaceEdgeNew(key, hypot, st.repo, |repo|, faces[j2], polys[idx[j2]], b);
    OrientedEdgesShareCurve(key, st, LoopEdges(st.repo, faces[j1])[a], LoopEdges(st.repo, faces[j2])[b]);
  }

  /**
   * `geom3ToBrep(repo, geom)`, with `Math.hypot` as the parameter `hypot` and the source's
   * `vertexKey`: the repository with the new entities appended, and the faces, at most one per
   * input polygon, in polygon order, each an ADVANCED_FACE on a plane bounded by a closed loop of
   * oriented edges.
   */
  function Geom3ToBrep(repo: Repository, geom: Geom3, hypot: Vec3 -> real): (r: (Repository, seq<Ref>))
    ensures Grows(repo, r.0)
    ensures |r.1| <= |geom.polygons|
    ensures forall j :: 0 <= j < |r.1| ==> |repo| <= r.1[j] < |r.0| && FaceShape(r.0, r.1[j])
    ensures forall j, k :: 0 <= j < k < |r.1| ==> r.1[j] < r.1[k]
    ensures var polys := Polygons(VertexKeyAsWritten, geom);
            FacesFor(VertexKeyAsWritten, hypot, r.0, |repo|, r.1, polys, FaceIndices(VertexKeyAsWritten, polys))
  {
    VertexKeyAsWrittenSeparatorFree();
    var (st, faces) := Run(VertexKeyAsWritten, repo, geom, hypot);
    (st.repo, faces)
  }

  /**
   * A face comes out exactly for each polygon that keeps three positions under the source's key:
   * the `j`-th face belongs to the `j`-th such polygon, and no other polygon gets one.
   */
  lemma FacesCounted(repo: Repository, geom: Geom3, hypot: Vec3 -> real)
    ensures |Geom3ToBrep(repo, geom, hypot).1| == FaceCount(VertexKeyAsWritten, Polygons(VertexKeyAsWritten, geom))
    ensures var polys := Polygons(VertexKeyAsWritten, geom);
            var idx := FaceIndices(VertexKeyAsWritten, polys);
            var (out, faces) := Geom3ToBrep(repo, geom, hypot);
            && |faces| == |idx|
            && (forall j, k :: 0 <= j < k < |idx| ==> idx[j] < idx[k])
            && (forall k :: 0 <= k < |polys| ==> (k in idx <==> |Dedup.DedupConsecutive(VertexKeyAsWritten, polys[k])| >= 3))
            && (forall j :: 0 <= j < |faces| ==>
                  idx[j] < |polys| && FaceOf(VertexKeyAsWritten, hypot, out, |repo|, faces[j], Dedup.DedupConsecutive(VertexKeyAsWritten, polys[idx[j]])))
  {
    VertexKeyAsWrittenSeparatorFree();
  }

  /** The conversion never creates two vertices with the same key text. */
  lemma VerticesShared(repo: Repository, geom: Geom3, hypot: Vec3 -> real, i: nat, j: nat)
    requires var out := Geom3ToBrep(repo, geom, hypot).0;
             |repo| <= i < |out| && |repo| <= j < |out| && i != j && out[i].VertexPoint? && out[j].VertexPoint?
    ensures var out := Geom3ToBrep(repo, geom, hypot).0;
            IsVertexRef(out, i) && IsVertexRef(out, j) &&
            VertexKeyAsWritten(VertexPosition(out, i)) != VertexKeyAsWritten(VertexPosition(out, j))
  {
    VertexKeyAsWrittenSeparatorFree();
    CreatedVerticesDistinct(VertexKeyAsWritten, Run(VertexKeyAsWritten, repo, geom, hypot).0, i, j);
  }

  /** The conversion never creates two edge curves between the same two key texts. */
  lemma EdgesShared(repo: Repository, geom: Geom3, hypot: Vec3 -> real, i: nat, j: nat)
    requires var out := Geom3ToBrep(repo, geom, hypot).0;
             |repo| <= i < |out| && |repo| <= j < |out| && i != j && out[i].EdgeCurve? && out[j].EdgeCurve?
    ensures var out := Geom3ToBrep(repo, geom, hypot).0;
            IsVertexRef(out, out[i].edgeStart) && IsVertexRef(out, out[i].edgeEnd) &&
            IsVertexRef(out, out[j].edgeStart) && IsVertexRef(out, out[j].edgeEnd) &&
            EndKeys(VertexKeyAsWritten, out, i) != EndKeys(VertexKeyAsWritten, out, j)
  {
    VertexKeyAsWrittenSeparatorFree();
    CreatedEdgesDistinct(VertexKeyAsWritten, Run(VertexKeyAsWritten, repo, geom, hypot).0, i, j);
  }

  /**
   * Two loop edges of the output faces that join the same two vertices run over one EDGE_CURVE
   * created by this call, with equal flags exactly when they leave from the same vertex: a seam
   * between two faces is one edge, walked once each way by a consistently oriented pair.
   */
  lemma FacesShareEdges(repo: Repository, geom: Geom3, hypot: Vec3 -> real, j1: nat, a: nat, j2: nat, b: nat)
    requires var (out, faces) := Geom3ToBrep(repo, geom, hypot);
             j1 < |faces| && j2 < |faces| &&
             a < |LoopEdges(out, faces[j1])| && b < |LoopEdges(out, faces[j2])|
    requires var (out, faces) := Geom3ToBrep(repo, geom, hypot);
             var (o1, o2) := (LoopEdges(out, faces[j1])[a], LoopEdges(out, faces[j2])[b]);
             (EdgeHead(out, o1) == EdgeHead(out, o2) && EdgeTail(out, o1) == EdgeTail(out, o2)) ||
             (EdgeHead(out, o1) == EdgeTail(out, o2) && EdgeTail(out, o1) == EdgeHead(out, o2))
    ensures var (out, faces) := Geom3ToBrep(repo, geom, hypot);
            var (o1, o2) := (LoopEdges(out, faces[j1])[a], LoopEdges(out, faces[j2])[b]);
            |repo| <= out[o1].edgeElement == out[o2].edgeElement &&
            (out[o1].orientation == out[o2].orientation <==> EdgeHead(out, o1) == EdgeHead(out, o2))
  {
    VertexKeyAsWrittenSeparatorFree();
    RunSharesEdges(VertexKeyAsWritten, repo, geom, hypot, j1, a, j2, b);
  }

  // ---------------------------------------------------------------------------------------------
  // The signed-zero split, and the conversion with the corrected key.

  /** A polygon with two corners either side of zero on the x axis, 1e-8 apart. */
  const SplitCorners: seq<Vec3> :=
    [Vec3(-0.00000001, 0.0, 0.0), Vec3(0.00000001, 0.0, 0.0), Vec3(1.0, 0.0, 0.0), Vec3(0.0, 1.0, 0.0)]

  /** A four-corner polygon whose cyclically adjacent corners all differ under `key` keeps them all. */
  lemma FourCornersKept<T, K>(key: T -> K, r: seq<T>)
    requires |r| == 4
    requires key(r[0]) != key(r[1]) && key(r[1]) != key(r[2]) && key(r[2]) != key(r[3]) && key(r[3]) != key(r[0])
    ensures |Dedup.DedupConsecutive(key, r)| == 4
  {
    assert Dedup.StepDiffers(key, r, 3);
    Dedup.DedupFromIdentity(key, r, 0);
    assert r[0..] == r;
  }

  /** A four-corner polygon whose first two corners alone share a key under `key` keeps three. */
  lemma FourCornersOneWelded<T, K>(key: T -> K, r: seq<T>)
    requires |r| == 4
    requires key(r[0]) == key(r[1]) && key(r[1]) != key(r[2]) && key(r[2]) != key(r[3]) && key(r[3]) != key(r[0])
    ensures |Dedup.DedupConsecutive(key, r)| == 3
  {
    assert Dedup.DedupFrom(key, r, 3) == [r[3]];
    assert Dedup.DedupFrom(key, r, 2) == [r[2], r[3]];
    assert Dedup.DedupFrom(key, r, 1) == [r[2], r[3]];
  }

  /** The source's key tells the two corners either side of zero apart, by the sign of x. */
  lemma KeysSplitBySign(p: Vec3, q: Vec3)
    requires p.x < 0.0 && 0.0 <= q.x
    ensures VertexKeyAsWritten(p) != VertexKeyAsWritten(q)
  {
    VertexKeyAsWrittenEqualIff(p, q);
  }

  /** Both keys tell apart corners whose x or y coordinates round to different magnitudes. */
  lemma KeysSplitByMagnitude(p: Vec3, q: Vec3)
    requires Magnitude(p.x) != Magnitude(q.x) || Magnitude(p.y) != Magnitude(q.y)
    ensures VertexKeyAsWritten(p) != VertexKeyAsWritten(q)
    ensures VertexKey(p) != VertexKey(q)
  {
    VertexKeyAsWrittenEqualIff(p, q);
    KeyEqualIffSameRounding(p, q);
    QuantizeParts(p.x);
    QuantizeParts(q.x);
    QuantizeParts(p.y);
    QuantizeParts(q.y);
  }

  /**
   * Under the source's key, `SplitCorners` keeps all four corners, although the first two round to
   * the same position; under the corrected key it keeps three.
   */
  lemma SignedZeroSplitsPolygon()
    ensures |Dedup.DedupConsecutive(VertexKeyAsWritten, SplitCorners)| == 4
    ensures |Dedup.DedupConsecutive(VertexKey, SplitCorners)| == 3
  {
    var ps := SplitCorners;
    assert Magnitude(-0.00000001) == 0 && Magnitude(0.00000001) == 0;
    assert Magnitude(1.0) == 10000000 && Magnitude(0.0) == 0;
    KeysSplitBySign(ps[0], ps[1]);
    KeysSplitByMagnitude(ps[1], ps[2]);
    KeysSplitByMagnitude(ps[2], ps[3]);
    KeysSplitByMagnitude(ps[3], ps[0]);
    FourCornersKept(VertexKeyAsWritten, ps);
    KeyEqualIffSameRounding(ps[0], ps[1]);
    FourCornersOneWelded(VertexKey, ps);
  }

  /**
   * The conversion with the corrected key: positions that round to the same seven-decimal triple
   * share one vertex, whatever the signs of their zero coordinates.
   */
  function Geom3ToBrepWelded(repo: Repository, geom: Geom3, hypot: Vec3 -> real): (r: (Repository, seq<Ref>))
    ensures Grows(repo, r.0)
    ensures |r.1| <= |geom.polygons|
    ensures forall j :: 0 <= j < |r.1| ==> |repo| <= r.1[j] < |r.0| && FaceShape(r.0, r.1[j])
    ensures forall j, k :: 0 <= j < k < |r.1| ==> r.1[j] < r.1[k]
    ensures var polys := Polygons(VertexKey, geom);
            FacesFor(VertexKey, hypot, r.0, |repo|, r.1, polys, FaceIndices(VertexKey, polys))
  {
    VertexKeySeparatorFree();
    var (st, faces) := Run(VertexKey, repo, geom, hypot);
    (st.repo, faces)
  }

  /** With the corrected key, no two created vertices sit at the same rounded position. */
  lemma VerticesWelded(repo: Repository, geom: Geom3, hypot: Vec3 -> real, i: nat, j: nat)
    requires var out := Geom3ToBrepWelded(repo, geom, hypot).0;
             |repo| <= i < |out| && |repo| <= j < |out| && i != j && out[i].VertexPoint? && out[j].VertexPoint?
    ensures var out := Geom3ToBrepWelded(repo, geom, hypot).0;
            IsVertexRef(out, i) && IsVertexRef(out, j) &&
            QuantizeVec(VertexPosition(out, i)) != QuantizeVec(VertexPosition(out, j))
  {
    VertexKeySeparatorFree();
    var out := Geom3ToBrepWelded(repo, geom, hypot).0;
    CreatedVerticesDistinct(VertexKey, Run(VertexKey, repo, geom, hypot).0, i, j);
    KeyEqualIffSameRounding(VertexPosition(out, i), VertexPosition(out, j));
  }

  /** With the corrected key, no two created edge curves join the same two rounded positions. */
  lemma EdgesWelded(repo: Repository, geom: Geom3, hypot: Vec3 -> real, i: nat, j: nat)
    requires var out := Geom3ToBrepWelded(repo, geom, hypot).0;
             |repo| <= i < |out| && |repo| <= j < |out| && i != j && out[i].EdgeCurve? && out[j].EdgeCurve?
    ensures var out := Geom3ToBrepWelded(repo, geom, hypot).0;
            IsVertexRef(out, out[i].edgeStart) && IsVertexRef(out, out[i].edgeEnd) &&
            IsVertexRef(out, out[j].edgeStart) && IsVertexRef(out, out[j].edgeEnd) &&
            EndKeys(VertexKey, out, i) != EndKeys(VertexKey, out, j)
  {
    VertexKeySeparatorFree();
    CreatedEdgesDistinct(VertexKey, Run(VertexKey, repo, geom, hypot).0, i, j);
  }

  /**
   * With the corrected key, two loop edges that join the same two vertices likewise run over one
   * created EDGE_CURVE, with equal flags exactly when they leave from the same vertex.
   */
  lemma FacesShareEdgesWelded(repo: Repository, geom: Geom3, hypot: Vec3 -> real, j1: nat, a: nat, j2: nat, b: nat)
    requires var (out, faces) := Geom3ToBrepWelded(repo, geom, hypot);
             j1 < |faces| && j2 < |faces| &&
             a < |LoopEdges(out, faces[j1])| && b < |LoopEdges(out, faces[j2])|
    requires var (out, faces) := Geom3ToBrepWelded(repo, geom, hypot);
             var (o1, o2) := (LoopEdges(out, faces[j1])[a], LoopEdges(out, faces[j2])[b]);
             (EdgeHead(out, o1) == EdgeHead(out, o2) && EdgeTail(out, o1) == EdgeTail(out, o2)) ||
             (EdgeHead(out, o1) == EdgeTail(out, o2) && EdgeTail(out, o1) == EdgeHead(out, o2))
    ensures var (out, faces) := Geom3ToBrepWelded(repo, geom, hypot);
            var (o1, o2) := (LoopEdges(out, faces[j1])[a], LoopEdges(out, faces[j2])[b]);
            |repo| <= out[o1].edgeElement == out[o2].edgeElement &&
            (out[o1].orientation == out[o2].orientation <==> EdgeHead(out, o1) == EdgeHead(out, o2))
  {
    VertexKeySeparatorFree();
    RunSharesEdges(VertexKey, repo, geom, hypot, j1, a, j2, b);
  }
}
