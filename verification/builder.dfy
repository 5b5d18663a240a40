/**
 * The per-polygon steps of `geom3ToBrep` (lib/geom3-to-brep.ts:152-277): interning vertices and
 * edges in the caches, the loop of oriented edges, and the planar face around it. Every step
 * keeps `Topology.Valid`.
 */
module Builder {
  import opened VecMath
  import opened StringOrder
  import opened Keys
  import opened Step
  import opened Topology
  import Dedup

  // ---------------------------------------------------------------------------------------------
  // Vertices

  /** The two entities a new vertex adds at index `n`: its point, then the vertex on it. */
  function VertexEntities(pos: Vec3, n: nat): seq<Entity> {
    [CartesianPoint(pos), VertexPoint(n)]
  }

  /**
   * `getOrCreateVertex(pos)`: the cached vertex for the key of `pos`, or a new vertex at `pos`
   * that is cached under that key.
   */
  function GetOrCreateVertex(key: Vec3 -> Key, st: State, pos: Vec3): (r: (State, Ref))
    ensures Extends(st, r.0) && r.0.edges == st.edges
    ensures key(pos) in r.0.vertices && r.0.vertices[key(pos)] == r.1
    ensures key(pos) in st.vertices ==> r.0 == st
    ensures key(pos) !in st.vertices ==>
              |st.repo| <= r.1 < |r.0.repo| && IsVertexRef(r.0.repo, r.1) && VertexPosition(r.0.repo, r.1) == pos
    ensures Valid(key, st) ==> Valid(key, r.0)
  {
    var k := key(pos);
    if k in st.vertices then (st, st.vertices[k])
    else
      var n := |st.repo|;
      var st' := st.(repo := st.repo + VertexEntities(pos, n), vertices := st.vertices[k := n + 1]);
      NewVertexKeepsValid(key, st, st', pos);
      (st', n + 1)
  }

  lemma NewVertexKeepsValid(key: Vec3 -> Key, st: State, st': State, pos: Vec3)
    requires key(pos) !in st.vertices
    requires st' == st.(repo := st.repo + VertexEntities(pos, |st.repo|), vertices := st.vertices[key(pos) := |st.repo| + 1])
    ensures Extends(st, st')
    ensures IsVertexRef(st'.repo, |st.repo| + 1) && VertexPosition(st'.repo, |st.repo| + 1) == pos
    ensures Valid(key, st) ==> Valid(key, st')
  {
    var n := |st.repo|;
    assert st'.repo[n + 1] == VertexPoint(n) && st'.repo[n] == CartesianPoint(pos);
    assert Grows(st.repo, st'.repo);
    if Valid(key, st) {
      forall k | k in st'.vertices
        ensures VertexEntry(key, st'.repo, k, st'.vertices[k])
      {
        if k != key(pos) {
          KeyAtStable(key, st.repo, st'.repo, st.vertices[k]);
        }
      }
      EdgesSoundStable(key, st, st');
      assert st'.vertices[key(pos)] == n + 1;
      assert EntityOk(st', n + 1);
      ValidAfterGrowth(key, st, st');
    }
  }

  /** Two positions with the same key get the same vertex, and the second lookup changes nothing. */
  lemma VertexIdempotent(key: Vec3 -> Key, st: State, p: Vec3, q: Vec3)
    requires key(p) == key(q)
    ensures GetOrCreateVertex(key, GetOrCreateVertex(key, st, p).0, q) == GetOrCreateVertex(key, st, p)
  {
  }

  // ---------------------------------------------------------------------------------------------
  // Edges

  /**
   * The four entities a new edge adds at index `n`: the direction, a unit vector along it, the
   * line through the start vertex's point, and the edge curve from `s` to `t` on that line.
   */
  function EdgeEntities(n: nat, d: Vec3, startPoint: Ref, s: Ref, t: Ref): seq<Entity> {
    [Direction(d), Vector(n, 1.0), Line(startPoint, n + 1), EdgeCurve(s, t, n + 2, true)]
  }

  /**
   * The EDGE_CURVE `e` runs from `s` to `t` along a LINE through the point of `s`, whose unit
   * VECTOR points along `dir`.
   */
  ghost predicate LineEdge(repo: Repository, e: Ref, s: Ref, t: Ref, dir: Vec3) {
    e < |repo| && repo[e].EdgeCurve? && repo[e].edgeStart == s && repo[e].edgeEnd == t &&
    s < |repo| && repo[s].VertexPoint? &&
    var g := repo[e].edgeGeometry;
    g < |repo| && repo[g].Line? && repo[g].pnt == repo[s].point &&
    var v := repo[g].dir;
    v < |repo| && repo[v].Vector? && repo[v].magnitude == 1.0 &&
    repo[v].vectorDirection < |repo| && repo[repo[v].vectorDirection] == Direction(dir)
  }

  /** The direction of a new edge from `startPos` to `endPos`, given `Math.hypot`. */
  function EdgeDirection(hypot: Vec3 -> real, startPos: Vec3, endPos: Vec3): (d: Vec3)
    ensures hypot(Subtract(endPos, startPos)) != 0.0 ==>
              VecMath.Add(startPos, Scale(d, hypot(Subtract(endPos, startPos)))) == endPos
    ensures hypot(Subtract(endPos, startPos)) == 0.0 ==> d == DefaultAxis
  {
    Normalize(Subtract(endPos, startPos), hypot(Subtract(endPos, startPos)))
  }

  /**
   * `getOrCreateEdge(aPos, bPos, aRef, bRef)`: the cached edge for the unordered pair of keys,
   * or a new one running from the end with the smaller key to the other; and whether the
   * polygon walks it from `aPos` to `bPos` in the edge's own direction.
   */
  function GetOrCreateEdge(key: Vec3 -> Key, hypot: Vec3 -> real, st: State,
                           aPos: Vec3, bPos: Vec3, aRef: Ref, bRef: Ref): (r: (State, Ref, bool))
    requires IsVertexRef(st.repo, aRef) && IsVertexRef(st.repo, bRef)
    ensures Extends(st, r.0) && r.0.vertices == st.vertices
    ensures r.2 <==> LexLess(key(aPos), key(bPos))
    ensures EdgeKey(key(aPos), key(bPos)) in r.0.edges && r.0.edges[EdgeKey(key(aPos), key(bPos))] == r.1
    ensures EdgeKey(key(aPos), key(bPos)) in st.edges ==> r.0 == st
    ensures EdgeKey(key(aPos), key(bPos)) !in st.edges ==>
              |st.repo| <= r.1 < |r.0.repo| &&
              (r.2 ==> LineEdge(r.0.repo, r.1, aRef, bRef, EdgeDirection(hypot, aPos, bPos))) &&
              (!r.2 ==> LineEdge(r.0.repo, r.1, bRef, aRef, EdgeDirection(hypot, bPos, aPos)))
  {
    var aKey := key(aPos);
    var bKey := key(bPos);
    var eKey := EdgeKey(aKey, bKey);
    var sameDirection := LexLess(aKey, bKey);
    if eKey in st.edges then (st, st.edges[eKey], sameDirection)
    else
      var (s, t, sPos, tPos) := if sameDirection then (aRef, bRef, aPos, bPos) else (bRef, aRef, bPos, aPos);
      var n := |st.repo|;
      var repo' := st.repo + EdgeEntities(n, EdgeDirection(hypot, sPos, tPos), st.repo[s].point, s, t);
      assert repo'[n + 3] == EdgeCurve(s, t, n + 2, true);
      assert repo'[n + 2] == Line(st.repo[s].point, n + 1);
      assert repo'[n + 1] == Vector(n, 1.0) && repo'[n] == Direction(EdgeDirection(hypot, sPos, tPos));
      assert repo'[s] == st.repo[s];
      (st.(repo := repo', edges := st.edges[eKey := n + 3]), n + 3, sameDirection)
  }

  /** The cache entry a new edge curve is stored under is sound. */
  lemma NewEdgeEntry(key: Vec3 -> Key, hypot: Vec3 -> real, st: State,
                     aPos: Vec3, bPos: Vec3, aRef: Ref, bRef: Ref)
    requires Valid(key, st) && key(aPos) != key(bPos) && EdgeKey(key(aPos), key(bPos)) !in st.edges
    requires key(aPos) in st.vertices && st.vertices[key(aPos)] == aRef
    requires key(bPos) in st.vertices && st.vertices[key(bPos)] == bRef
    ensures var (st', e, _) := GetOrCreateEdge(key, hypot, st, aPos, bPos, aRef, bRef);
            EdgeEntry(key, st', EdgeKey(key(aPos), key(bPos)), e)
  {
    var (st', e, same) := GetOrCreateEdge(key, hypot, st, aPos, bPos, aRef, bRef);
    var (ka, kb) := (key(aPos), key(bPos));
    var n := |st.repo|;
    LexLessTrichotomy(ka, kb);
    var (ks, kt, s, t) := if same then (ka, kb, aRef, bRef) else (kb, ka, bRef, aRef);
    assert LexLess(ks, kt);
    assert EdgeKey(ka, kb) == EdgeKey(ks, kt) by {
      EdgeKeySymmetric(ka, kb);
    }
    assert st'.repo[e] == EdgeCurve(s, t, n + 2, true) && e == n + 3;
    KeyAtStable(key, st.repo, st'.repo, s);
    KeyAtStable(key, st.repo, st'.repo, t);
  }

  /**
   * A new edge between two cached vertices keeps the invariant. This is where the canonical
   * direction and the injectivity of edge keys are used.
   */
  lemma EdgeKeepsValid(key: Vec3 -> Key, hypot: Vec3 -> real, st: State,
                       aPos: Vec3, bPos: Vec3, aRef: Ref, bRef: Ref)
    requires Valid(key, st) && key(aPos) != key(bPos)
    requires key(aPos) in st.vertices && st.vertices[key(aPos)] == aRef
    requires key(bPos) in st.vertices && st.vertices[key(bPos)] == bRef
    ensures IsVertexRef(st.repo, aRef) && IsVertexRef(st.repo, bRef)
    ensures Valid(key, GetOrCreateEdge(key, hypot, st, aPos, bPos, aRef, bRef).0)
  {
    var (st', e, same) := GetOrCreateEdge(key, hypot, st, aPos, bPos, aRef, bRef);
    var (ka, kb) := (key(aPos), key(bPos));
    var ek := EdgeKey(ka, kb);
    if ek !in st.edges {
      var n := |st.repo|;
      NewEdgeEntry(key, hypot, st, aPos, bPos, aRef, bRef);
      forall ek' | ek' in st'.edges
        ensures EdgeEntry(key, st', ek', st'.edges[ek'])
      {
        if ek' != ek {
          EdgeEntryStable(key, st, st', ek', st.edges[ek']);
        }
      }
      VerticesSoundStable(key, st, st');
      assert st'.edges[ek] == e;
      assert |st'.repo| == n + 4 && st'.repo[n].Direction? && st'.repo[n + 1].Vector? && st'.repo[n + 2].Line?;
      forall i | n <= i < |st'.repo|
        ensures EntityOk(st', i)
      {
        assert i == n || i == n + 1 || i == n + 2 || i == e;
      }
      ValidAfterGrowth(key, st, st');
    }
  }

  /**
   * Walking an edge the other way round finds the same edge, in the opposite sense, and leaves the
   * state as it was: each shared edge of two faces is one EDGE_CURVE used once in each direction.
   */
  lemma EdgeSymmetric(key: Vec3 -> Key, hypot: Vec3 -> real, st: State,
                      aPos: Vec3, bPos: Vec3, aRef: Ref, bRef: Ref)
    requires IsVertexRef(st.repo, aRef) && IsVertexRef(st.repo, bRef)
    requires key(aPos) != key(bPos)
    ensures var (st1, e1, same1) := GetOrCreateEdge(key, hypot, st, aPos, bPos, aRef, bRef);
            IsVertexRef(st1.repo, aRef) && IsVertexRef(st1.repo, bRef) &&
            var (st2, e2, same2) := GetOrCreateEdge(key, hypot, st1, bPos, aPos, bRef, aRef);
            st2 == st1 && e2 == e1 && same2 == !same1
  {
    var st1 := GetOrCreateEdge(key, hypot, st, aPos, bPos, aRef, bRef).0;
    VertexRefStable(st.repo, st1.repo, aRef);
    VertexRefStable(st.repo, st1.repo, bRef);
    EdgeKeySymmetric(key(aPos), key(bPos));
    LexLessTrichotomy(key(aPos), key(bPos));
  }

  /** With `Math.hypot` giving the true length of a non-zero edge, the edge's direction is a unit vector. */
  lemma EdgeDirectionUnit(hypot: Vec3 -> real, startPos: Vec3, endPos: Vec3)
    requires IsHypot(hypot(Subtract(endPos, startPos)), Subtract(endPos, startPos))
    requires hypot(Subtract(endPos, startPos)) != 0.0
    ensures LengthSq(EdgeDirection(hypot, startPos, endPos)) == 1.0
  {
    NormalizeIsUnit(Subtract(endPos, startPos), hypot(Subtract(endPos, startPos)));
  }

  // ---------------------------------------------------------------------------------------------
  // Oriented edges

  /** Every reference in `refs` is a vertex. */
  ghost predicate AllVertexRefs(repo: Repository, refs: seq<Ref>) {
    forall j :: 0 <= j < |refs| ==> IsVertexRef(repo, refs[j])
  }

  lemma VertexRefsStable(repo: Repository, repo': Repository, refs: seq<Ref>)
    requires Grows(repo, repo') && AllVertexRefs(repo, refs)
    ensures AllVertexRefs(repo', refs)
  {
    forall j | 0 <= j < |refs|
      ensures IsVertexRef(repo', refs[j])
    {
      VertexRefStable(repo, repo', refs[j]);
    }
  }

  /**
   * One step of the edge loop (lib/geom3-to-brep.ts:243-244): the edge between two vertices,
   * found or created, and a new ORIENTED_EDGE over it appended after it.
   */
  function AddOrientedEdge(key: Vec3 -> Key, hypot: Vec3 -> real, st: State,
                           aPos: Vec3, bPos: Vec3, aRef: Ref, bRef: Ref): (r: (State, Ref))
    requires IsVertexRef(st.repo, aRef) && IsVertexRef(st.repo, bRef)
    ensures Extends(st, r.0) && r.0.vertices == st.vertices
    ensures |st.repo| <= r.1 && r.1 + 1 == |r.0.repo| && r.0.repo[r.1].OrientedEdge?
  {
    var (st1, e, same) := GetOrCreateEdge(key, hypot, st, aPos, bPos, aRef, bRef);
    var st2 := st1.(repo := st1.repo + [OrientedEdge(e, same)]);
    assert Extends(st1, st2);
    ExtendsTransitive(st, st1, st2);
    (st2, |st1.repo|)
  }

  /** Every cyclic step of `us` from `i` on joins two different keys. */
  ghost predicate StepsDifferFrom(key: Vec3 -> Key, us: seq<Vec3>, i: nat) {
    forall j :: i <= j < |us| ==> Dedup.StepDiffers(key, us, j)
  }

  /** Every reference in `oes` is an oriented edge created after `st0`. */
  ghost predicate NewOrientedEdges(st0: State, st: State, oes: seq<Ref>) {
    forall j :: 0 <= j < |oes| ==> |st0.repo| <= oes[j] < |st.repo| && st.repo[oes[j]].OrientedEdge?
  }

  /**
   * The oriented edges for the cyclic steps from `i` on of the polygon `us` (whose vertices are
   * `refs`): a step whose two ends share a key is skipped, every other one adds an ORIENTED_EDGE
   * over the edge between its ends.
   */
  function OrientedEdgesFrom(key: Vec3 -> Key, hypot: Vec3 -> real, st: State,
                             us: seq<Vec3>, refs: seq<Ref>, i: nat): (r: (State, seq<Ref>))
    requires |refs| == |us| && i <= |us|
    requires AllVertexRefs(st.repo, refs)
    ensures Extends(st, r.0) && r.0.vertices == st.vertices
    ensures |r.1| <= |us| - i
    ensures StepsDifferFrom(key, us, i) ==> |r.1| == |us| - i
    ensures NewOrientedEdges(st, r.0, r.1)
    decreases |us| - i
  {
    if i == |us| then (st, [])
    else
      var next := (i + 1) % |us|;
      if key(us[i]) == key(us[next]) then
        assert !Dedup.StepDiffers(key, us, i);
        OrientedEdgesFrom(key, hypot, st, us, refs, i + 1)
      else
        var (st2, o) := AddOrientedEdge(key, hypot, st, us[i], us[next], refs[i], refs[next]);
        VertexRefsStable(st.repo, st2.repo, refs);
        var (st3, rest) := OrientedEdgesFrom(key, hypot, st2, us, refs, i + 1);
        ExtendsTransitive(st, st2, st3);
        assert st3.repo[o] == st2.repo[o];
        (st3, [o] + rest)
  }

  /**
   * The oriented edge `o`, created by this conversion over an edge curve also created by it,
   * leaves the vertex cached for `ka` and arrives at the one cached for `kb`.
   */
  ghost predicate Connects(st: State, o: Ref, ka: Key, kb: Key) {
    IsOrientedEdgeRef(st.repo, o) && st.base <= o && st.base <= st.repo[o].edgeElement &&
    ka in st.vertices && kb in st.vertices &&
    EdgeHead(st.repo, o) == st.vertices[ka] && EdgeTail(st.repo, o) == st.vertices[kb]
  }

  lemma ConnectsStable(st: State, st': State, o: Ref, ka: Key, kb: Key)
    requires Extends(st, st') && Connects(st, o, ka, kb)
    ensures Connects(st', o, ka, kb)
  {
    OrientedEdgeStable(st.repo, st'.repo, o);
  }

  /**
   * An oriented edge over the cached edge for the keys `ka`, `kb`, flagged with `ka < kb`, leads
   * from the vertex of `ka` to the vertex of `kb`, whichever way the edge curve itself runs.
   */
  lemma NewOrientedEdgeConnects(key: Vec3 -> Key, st: State, e: Ref, ka: Key, kb: Key)
    requires Valid(key, st) && SeparatorFree(key)
    requires '|' !in ka && '|' !in kb
    requires EdgeKey(ka, kb) in st.edges && st.edges[EdgeKey(ka, kb)] == e
    ensures Connects(st.(repo := st.repo + [OrientedEdge(e, LexLess(ka, kb))]), |st.repo|, ka, kb)
  {
    var st' := st.(repo := st.repo + [OrientedEdge(e, LexLess(ka, kb))]);
    assert EdgeEntry(key, st, EdgeKey(ka, kb), e);
    var c := st.repo[e];
    var (ks, kt) := (KeyAt(key, st.repo, c.edgeStart), KeyAt(key, st.repo, c.edgeEnd));
    EdgeKeyInjective(ka, kb, ks, kt);
    if ka == kt && kb == ks {
      LexLessAsymmetric(ks, kt);
    }
    if LexLess(ka, kb) {
      LexLessAsymmetric(ka, kb);
    }
    assert st'.repo[e] == c;
  }

  /** Oriented edge `j` of `oes` connects the ends of cyclic step `i + j` of the polygon `us`. */
  ghost predicate StepsConnected(key: Vec3 -> Key, st: State, us: seq<Vec3>, oes: seq<Ref>, i: nat) {
    forall j :: 0 <= j < |oes| && i + j < |us| ==> Connects(st, oes[j], key(us[i + j]), key(us[(i + j + 1) % |us|]))
  }

  /**
   * Over a polygon without cyclic repeats whose vertices are cached, every step from `i` on adds
   * an oriented edge, each leading from its step's first vertex to its second, and the invariant
   * holds throughout.
   */
  lemma {:induction false} OrientedEdgesChain(key: Vec3 -> Key, hypot: Vec3 -> real, st: State,
                                               us: seq<Vec3>, refs: seq<Ref>, i: nat)
    requires Valid(key, st) && SeparatorFree(key)
    requires |refs| == |us| && i <= |us| && Dedup.NoCyclicRepeat(key, us)
    requires AllCached(key, st, us, refs)
    requires AllVertexRefs(st.repo, refs)
    ensures Valid(key, OrientedEdgesFrom(key, hypot, st, us, refs, i).0)
    ensures |OrientedEdgesFrom(key, hypot, st, us, refs, i).1| == |us| - i
    ensures StepsConnected(key, OrientedEdgesFrom(key, hypot, st, us, refs, i).0, us,
                           OrientedEdgesFrom(key, hypot, st, us, refs, i).1, i)
    decreases |us| - i
  {
    assert StepsDifferFrom(key, us, i);
    if i < |us| {
      var st2, o := OrientedEdgeStep(key, hypot, st, us, refs, i);
      OrientedEdgesChain(key, hypot, st2, us, refs, i + 1);
      var (st3, rest) := OrientedEdgesFrom(key, hypot, st2, us, refs, i + 1);
      ConnectsStable(st2, st3, o, key(us[i]), key(us[(i + 1) % |us|]));
      ConnectsCons(key, st3, us, i, o, rest);
    }
  }

  /** One step of the chain: the edge of step `i` and its oriented edge, and what they keep. */
  lemma OrientedEdgeStep(key: Vec3 -> Key, hypot: Vec3 -> real, st: State,
                         us: seq<Vec3>, refs: seq<Ref>, i: nat) returns (st2: State, o: Ref)
    requires Valid(key, st) && SeparatorFree(key)
    requires |refs| == |us| && i < |us| && Dedup.NoCyclicRepeat(key, us)
    requires AllCached(key, st, us, refs)
    requires AllVertexRefs(st.repo, refs)
    ensures Valid(key, st2) && Extends(st, st2) && st2.vertices == st.vertices
    ensures AllVertexRefs(st2.repo, refs) && AllCached(key, st2, us, refs)
    ensures Connects(st2, o, key(us[i]), key(us[(i + 1) % |us|]))
    ensures OrientedEdgesFrom(key, hypot, st, us, refs, i) ==
            (OrientedEdgesFrom(key, hypot, st2, us, refs, i + 1).0, [o] + OrientedEdgesFrom(key, hypot, st2, us, refs, i + 1).1)
  {
    var next := (i + 1) % |us|;
    var (ka, kb) := (key(us[i]), key(us[next]));
    assert Dedup.StepDiffers(key, us, i);
    assert Cached(key, st, us[i], refs[i]) && Cached(key, st, us[next], refs[next]);
    EdgeKeepsValid(key, hypot, st, us[i], us[next], refs[i], refs[next]);
    var (st1, e, same) := GetOrCreateEdge(key, hypot, st, us[i], us[next], refs[i], refs[next]);
    o := |st1.repo|;
    st2 := st1.(repo := st1.repo + [OrientedEdge(e, same)]);
    AddPlainKeepsValid(key, st1, OrientedEdge(e, same));
    NewOrientedEdgeConnects(key, st1, e, ka, kb);
    assert Extends(st1, st2);
    ExtendsTransitive(st, st1, st2);
    VertexRefsStable(st.repo, st2.repo, refs);
    assert AddOrientedEdge(key, hypot, st, us[i], us[next], refs[i], refs[next]) == (st2, o);
    forall j | 0 <= j < |us|
      ensures Cached(key, st2, us[j], refs[j])
    {
      assert Cached(key, st, us[j], refs[j]);
    }
  }

  /** Prepending the oriented edge of step `i` to those of the steps after it. */
  lemma ConnectsCons(key: Vec3 -> Key, st: State, us: seq<Vec3>, i: nat, o: Ref, rest: seq<Ref>)
    requires i < |us|
    requires Connects(st, o, key(us[i]), key(us[(i + 1) % |us|]))
    requires StepsConnected(key, st, us, rest, i + 1)
    ensures StepsConnected(key, st, us, [o] + rest, i)
  {
    forall j | 0 <= j < |rest| + 1 && i + j < |us|
      ensures Connects(st, ([o] + rest)[j], key(us[i + j]), key(us[(i + j + 1) % |us|]))
    {
      if j > 0 {
        assert ([o] + rest)[j] == rest[j - 1];
        assert i + 1 + (j - 1) == i + j;
      }
    }
  }

  /** Oriented edges that connect the cyclic steps of a polygon form a closed loop. */
  lemma LoopCloses(key: Vec3 -> Key, st: State, us: seq<Vec3>, oes: seq<Ref>)
    requires |oes| == |us| >= 3
    requires StepsConnected(key, st, us, oes, 0)
    ensures ClosedLoop(st.repo, oes)
  {
    forall k | 0 <= k < |oes|
      ensures Chained(st.repo, oes, k)
    {
      var next := (k + 1) % |oes|;
      assert Connects(st, oes[k], key(us[0 + k]), key(us[(0 + k + 1) % |us|]));
      assert Connects(st, oes[next], key(us[0 + next]), key(us[(0 + next + 1) % |us|]));
    }
  }

  // ---------------------------------------------------------------------------------------------
  // Vertices of a polygon

  /** `v` is the vertex cached for the key of `pos`. */
  ghost predicate Cached(key: Vec3 -> Key, st: State, pos: Vec3, v: Ref) {
    key(pos) in st.vertices && st.vertices[key(pos)] == v
  }

  /** `refs[j]` is the vertex cached for `us[i + j]`. */
  ghost predicate CachedFrom(key: Vec3 -> Key, st: State, us: seq<Vec3>, refs: seq<Ref>, i: nat) {
    forall j :: 0 <= j < |refs| && i + j < |us| ==> Cached(key, st, us[i + j], refs[j])
  }

  /** Every vertex of the polygon `us` is cached, as `refs` in the same order. */
  ghost predicate AllCached(key: Vec3 -> Key, st: State, us: seq<Vec3>, refs: seq<Ref>) {
    |refs| == |us| && forall j :: 0 <= j < |us| ==> Cached(key, st, us[j], refs[j])
  }

  /** `uniquePositions.map(getOrCreateVertex)` from index `i` on, in order. */
  function InternFrom(key: Vec3 -> Key, st: State, us: seq<Vec3>, i: nat): (r: (State, seq<Ref>))
    requires i <= |us|
    ensures Extends(st, r.0) && r.0.edges == st.edges
    ensures |r.1| == |us| - i
    ensures CachedFrom(key, r.0, us, r.1, i)
    ensures Valid(key, st) ==> Valid(key, r.0)
    decreases |us| - i
  {
    if i == |us| then (st, [])
    else
      var (st1, v) := GetOrCreateVertex(key, st, us[i]);
      var (st2, rest) := InternFrom(key, st1, us, i + 1);
      ExtendsTransitive(st, st1, st2);
      assert Cached(key, st2, us[i], v);
      InternedCons(key, st2, us, i, v, rest);
      (st2, [v] + rest)
  }

  lemma InternedCons(key: Vec3 -> Key, st: State, us: seq<Vec3>, i: nat, v: Ref, rest: seq<Ref>)
    requires i < |us| && Cached(key, st, us[i], v)
    requires CachedFrom(key, st, us, rest, i + 1)
    ensures CachedFrom(key, st, us, [v] + rest, i)
  {
    forall j | 0 <= j < |rest| + 1 && i + j < |us|
      ensures Cached(key, st, us[i + j], ([v] + rest)[j])
    {
      if j > 0 {
        assert ([v] + rest)[j] == rest[j - 1];
        assert i + 1 + (j - 1) == i + j;
      }
    }
  }

  /** Every vertex of the polygon is cached, and so each is a vertex reference. */
  lemma CachedAreVertexRefs(key: Vec3 -> Key, st: State, us: seq<Vec3>, refs: seq<Ref>)
    requires Valid(key, st) && |refs| == |us| && CachedFrom(key, st, us, refs, 0)
    ensures AllVertexRefs(st.repo, refs)
    ensures AllCached(key, st, us, refs)
  {
    forall j | 0 <= j < |us|
      ensures Cached(key, st, us[j], refs[j])
    {
      assert Cached(key, st, us[0 + j], refs[j]);
    }
    forall j | 0 <= j < |refs|
      ensures IsVertexRef(st.repo, refs[j])
    {
      assert VertexEntry(key, st.repo, key(us[j]), refs[j]);
    }
  }

  // ---------------------------------------------------------------------------------------------
  // The face

  /** The placement of a face's plane: origin, normal (the axis) and reference direction. */
  datatype Frame = Frame(origin: Vec3, normal: Vec3, refDirection: Vec3)

  lemma DotScale(u: Vec3, v: Vec3, k: real)
    ensures Dot(u, Scale(v, k)) == k * Dot(u, v)
  {
  }

  /**
   * The plane of a face from its first three vertices: it passes through `v0`, its normal is the
   * normalised cross product of the two edges leaving `v0`, and its reference direction is the
   * normalised first edge. When neither normalisation divides by zero, the normal is
   * perpendicular to both edges (so `v1` and `v2` lie in the plane) and to the reference
   * direction. A zero-length normal or first edge falls back to the +Z axis.
   */
  function FaceFrame(hypot: Vec3 -> real, v0: Vec3, v1: Vec3, v2: Vec3): (f: Frame)
    ensures f.origin == v0
    ensures var n := Cross(Subtract(v1, v0), Subtract(v2, v0));
            (hypot(n) != 0.0 ==> Scale(f.normal, hypot(n)) == n) && (hypot(n) == 0.0 ==> f.normal == DefaultAxis)
    ensures var ab := Subtract(v1, v0);
            (hypot(ab) != 0.0 ==> Scale(f.refDirection, hypot(ab)) == ab) && (hypot(ab) == 0.0 ==> f.refDirection == DefaultAxis)
    ensures hypot(Cross(Subtract(v1, v0), Subtract(v2, v0))) != 0.0 ==>
              Dot(f.normal, Subtract(v1, v0)) == 0.0 && Dot(f.normal, Subtract(v2, v0)) == 0.0
    ensures hypot(Cross(Subtract(v1, v0), Subtract(v2, v0))) != 0.0 && hypot(Subtract(v1, v0)) != 0.0 ==>
              Dot(f.normal, f.refDirection) == 0.0
  {
    var ab := Subtract(v1, v0);
    var ac := Subtract(v2, v0);
    var n := Cross(ab, ac);
    var f := Frame(v0, Normalize(n, hypot(n)), Normalize(ab, hypot(ab)));
    if hypot(n) != 0.0 then
      NormalizeKeepsOrthogonality(n, hypot(n), ab);
      NormalizeKeepsOrthogonality(n, hypot(n), ac);
      if hypot(ab) != 0.0 then
        DotScale(f.normal, ab, 1.0 / hypot(ab));
        f
      else f
    else f
  }

  /** With `Math.hypot` giving true lengths, the normal and the reference direction are unit vectors. */
  lemma FaceFrameUnit(hypot: Vec3 -> real, v0: Vec3, v1: Vec3, v2: Vec3)
    requires var n := Cross(Subtract(v1, v0), Subtract(v2, v0)); IsHypot(hypot(n), n) && hypot(n) != 0.0
    requires IsHypot(hypot(Subtract(v1, v0)), Subtract(v1, v0)) && hypot(Subtract(v1, v0)) != 0.0
    ensures LengthSq(FaceFrame(hypot, v0, v1, v2).normal) == 1.0
    ensures LengthSq(FaceFrame(hypot, v0, v1, v2).refDirection) == 1.0
  {
    var n := Cross(Subtract(v1, v0), Subtract(v2, v0));
    NormalizeIsUnit(n, hypot(n));
    NormalizeIsUnit(Subtract(v1, v0), hypot(Subtract(v1, v0)));
  }

  /**
   * The eight entities a face adds at index `n`, in the order they are added: the plane's origin,
   * normal and reference direction, its placement, the plane, the edge loop, its outer bound and
   * the face.
   */
  function FaceEntities(frame: Frame, n: nat, oes: seq<Ref>): seq<Entity> {
    [CartesianPoint(frame.origin), Direction(frame.normal), Direction(frame.refDirection),
     Axis2Placement3D(n, n + 1, n + 2), Plane(n + 3), EdgeLoop(oes), FaceOuterBound(n + 5, true),
     AdvancedFace([n + 6], n + 4, true)]
  }

  /** The face `f` lies on a plane placed at `frame`. */
  ghost predicate OnFrame(repo: Repository, f: Ref, frame: Frame) {
    f < |repo| && repo[f].AdvancedFace? &&
    var g := repo[f].faceGeometry;
    g < |repo| && repo[g].Plane? &&
    var p := repo[g].position;
    p < |repo| && repo[p].Axis2Placement3D? &&
    var a := repo[p];
    a.location < |repo| && repo[a.location] == CartesianPoint(frame.origin) &&
    a.axis < |repo| && repo[a.axis] == Direction(frame.normal) &&
    a.refDirection < |repo| && repo[a.refDirection] == Direction(frame.refDirection)
  }

  /** The outer bound of the face `f` is the edge loop `oes`. */
  ghost predicate BoundedBy(repo: Repository, f: Ref, oes: seq<Ref>) {
    f < |repo| && repo[f].AdvancedFace? && |repo[f].bounds| > 0 &&
    var b := repo[f].bounds[0];
    b < |repo| && repo[b].FaceOuterBound? &&
    repo[b].bound < |repo| && repo[repo[b].bound] == EdgeLoop(oes)
  }

  /**
   * The plane and the face of a polygon (lib/geom3-to-brep.ts:249-277), bounded by the loop `oes`:
   * a well-formed face on the plane through the polygon's first three vertices.
   */
  function AssembleFace(key: Vec3 -> Key, hypot: Vec3 -> real, st: State, us: seq<Vec3>, oes: seq<Ref>): (r: (State, Ref))
    requires |us| >= 3
    ensures Extends(st, r.0) && r.0.vertices == st.vertices && r.0.edges == st.edges
    ensures |st.repo| <= r.1 < |r.0.repo|
    ensures OnFrame(r.0.repo, r.1, FaceFrame(hypot, us[0], us[1], us[2]))
    ensures BoundedBy(r.0.repo, r.1, oes)
    ensures ClosedLoop(st.repo, oes) ==> FaceShape(r.0.repo, r.1)
    ensures Valid(key, st) && ClosedLoop(st.repo, oes) ==> Valid(key, r.0)
  {
    var n := |st.repo|;
    var st' := st.(repo := st.repo + FaceEntities(FaceFrame(hypot, us[0], us[1], us[2]), n, oes));
    NewFaceKeepsValid(key, st, st', FaceFrame(hypot, us[0], us[1], us[2]), oes);
    (st', n + 7)
  }

  lemma NewFaceKeepsValid(key: Vec3 -> Key, st: State, st': State, frame: Frame, oes: seq<Ref>)
    requires st' == st.(repo := st.repo + FaceEntities(frame, |st.repo|, oes))
    ensures Extends(st, st')
    ensures OnFrame(st'.repo, |st.repo| + 7, frame) && BoundedBy(st'.repo, |st.repo| + 7, oes)
    ensures ClosedLoop(st.repo, oes) ==> FaceShape(st'.repo, |st.repo| + 7)
    ensures Valid(key, st) && ClosedLoop(st.repo, oes) ==> Valid(key, st')
  {
    var n := |st.repo|;
    var es := FaceEntities(frame, n, oes);
    assert forall j :: 0 <= j < 8 ==> st'.repo[n + j] == es[j];
    assert Grows(st.repo, st'.repo);
    if ClosedLoop(st.repo, oes) {
      ClosedLoopStable(st.repo, st'.repo, oes);
      assert FaceShape(st'.repo, n + 7);
      if Valid(key, st) {
        VerticesSoundStable(key, st, st');
        EdgesSoundStable(key, st, st');
        assert EntityOk(st', n + 5) && EntityOk(st', n + 7);
        ValidAfterGrowth(key, st, st');
      }
    }
  }
}
