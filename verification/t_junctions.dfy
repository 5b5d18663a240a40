/**
 * T-junction splitting (lib/geom3-to-brep.ts:71-139): every mesh vertex that lies strictly
 * inside an edge of a polygon is inserted into that edge, in order along the edge, so that
 * neighbouring faces end up sharing whole edges.
 *
 * The vertex key is a parameter `key`: the converter passes the source's `Keys.VertexKeyAsWritten`,
 * and its corrected variant passes `Keys.VertexKey`.
 */
module TJunctions {
  import opened Common
  import opened VecMath

  /** Tolerance `splitTJunctions` passes to `pointOnSegment`. */
  const SegmentEps: real := 0.000001

  /** Edges whose squared length is below this are never split. */
  const MinEdgeLengthSq: real := 0.00000000000001

  /** The parameter of `p` along the line through `a` and `b` (0 at `a`, 1 at `b`). */
  function Param(a: Vec3, b: Vec3, p: Vec3): real {
    var ab := Subtract(b, a);
    if LengthSq(ab) == 0.0 then 0.0 else Dot(Subtract(p, a), ab) / LengthSq(ab)
  }

  /**
   * `pointOnSegment(a, b, p, eps)`: the segment is not shorter than `eps`, `p` is within `eps`
   * of its line, and the parameter of `p` lies strictly between `eps` and `1 - eps`. A segment of
   * length zero is rejected even when `eps` is zero, as the source's NaN comparison is false.
   */
  function PointOnSegment(a: Vec3, b: Vec3, p: Vec3, eps: real): (r: bool)
    ensures LengthSq(Subtract(b, a)) < eps * eps ==> !r
    ensures r ==> LengthSq(Subtract(b, a)) > 0.0
    ensures r ==> LengthSq(Cross(Subtract(b, a), Subtract(p, a))) <= eps * eps * LengthSq(Subtract(b, a))
    ensures r ==> eps < Param(a, b, p) < 1.0 - eps
  {
    var ab := Subtract(b, a);
    var ap := Subtract(p, a);
    var abLen2 := LengthSq(ab);
    if abLen2 < eps * eps then false
    else if LengthSq(Cross(ab, ap)) > eps * eps * abLen2 then false
    else if abLen2 == 0.0 then false
    else
      var t := Dot(ap, ab) / abLen2;
      t > eps && t < 1.0 - eps
  }

  /** The start of a segment has parameter 0. */
  lemma ParamAtStart(a: Vec3, b: Vec3)
    ensures Param(a, b, a) == 0.0
  {
    assert Subtract(a, a) == Zero;
  }

  /** The end of a segment of non-zero length has parameter 1. */
  lemma ParamAtEnd(a: Vec3, b: Vec3)
    requires LengthSq(Subtract(b, a)) != 0.0
    ensures Param(a, b, b) == 1.0
  {
    var ab := Subtract(b, a);
    var l := LengthSq(ab);
    assert Dot(ab, ab) == l;
    assert l / l == 1.0;
  }

  /** With a non-negative tolerance, neither end of a segment is ever "on" it. */
  lemma EndpointsNeverOnSegment(a: Vec3, b: Vec3, eps: real)
    requires eps >= 0.0
    ensures !PointOnSegment(a, b, a, eps)
    ensures !PointOnSegment(a, b, b, eps)
  {
    ParamAtStart(a, b);
    if LengthSq(Subtract(b, a)) != 0.0 {
      ParamAtEnd(a, b);
    }
  }

  lemma CrossScaled(u: Vec3, t: real)
    ensures LengthSq(Cross(u, Scale(u, t))) == 0.0
  {
    assert Cross(u, Scale(u, t)) == Zero;
  }

  lemma ParamOfScaled(u: Vec3, t: real)
    requires LengthSq(u) != 0.0
    ensures Dot(Scale(u, t), u) / LengthSq(u) == t
  {
    assert Dot(Scale(u, t), u) == t * LengthSq(u);
  }

  lemma NonNegativeProduct(x: real, y: real)
    requires x >= 0.0 && y >= 0.0
    ensures x * y >= 0.0
  {
  }

  /**
   * Conversely, a point exactly on a long enough segment, strictly inside the tolerance band,
   * is accepted.
   */
  lemma InteriorPointAccepted(a: Vec3, b: Vec3, t: real, eps: real)
    requires LengthSq(Subtract(b, a)) >= eps * eps && LengthSq(Subtract(b, a)) != 0.0
    requires eps < t < 1.0 - eps
    ensures PointOnSegment(a, b, Add(a, Scale(Subtract(b, a), t)), eps)
  {
    var ab := Subtract(b, a);
    var p := Add(a, Scale(ab, t));
    assert Subtract(p, a) == Scale(ab, t);
    CrossScaled(ab, t);
    NonNegativeProduct(eps * eps, LengthSq(ab));
    ParamOfScaled(ab, t);
  }

  // ---------------------------------------------------------------------------------------------
  // The global vertex list: `new Map<string, Vec3>()` filled with `set(vertexKey(v), v)`.

  /** No two elements share a key. */
  ghost predicate DistinctKeys<K>(key: Vec3 -> K, vs: seq<Vec3>) {
    forall i, j :: 0 <= i < j < |vs| ==> key(vs[i]) != key(vs[j])
  }

  /** Position of the element with key `k`, or |vs| when there is none. */
  function IndexOfKey<K(==)>(key: Vec3 -> K, vs: seq<Vec3>, k: K): (i: nat)
    ensures i <= |vs|
    ensures i < |vs| ==> key(vs[i]) == k
    ensures i == |vs| ==> !HasKey(key, vs, k)
    decreases |vs|
  {
    if |vs| == 0 then 0
    else if key(vs[0]) == k then 0
    else
      var j := IndexOfKey(key, vs[1..], k);
      assert forall m :: 1 <= m < |vs| ==> vs[m] == vs[1..][m - 1];
      1 + j
  }

  /**
   * `Map.set(key(v), v)` on the insertion-ordered map, kept as its list of values: an existing
   * entry with the same key is overwritten in place, otherwise `v` is appended.
   */
  function Register<K(==)>(key: Vec3 -> K, vs: seq<Vec3>, v: Vec3): (r: seq<Vec3>)
    requires DistinctKeys(key, vs)
    ensures DistinctKeys(key, r)
    ensures v in r
    ensures forall x :: x in r ==> x == v || x in vs
    ensures forall x :: x in vs && key(x) != key(v) ==> x in r
    ensures HasKey(key, vs, key(v)) ==> |r| == |vs|
    ensures !HasKey(key, vs, key(v)) ==> |r| == |vs| + 1
  {
    var i := IndexOfKey(key, vs, key(v));
    if i < |vs| then
      var r := vs[i := v];
      assert forall m :: 0 <= m < |vs| ==> key(r[m]) == key(vs[m]);
      assert r[i] == v;
      assert forall x :: x in r ==> x == v || x in vs by {
        forall x | x in r ensures x == v || x in vs {
          var m :| 0 <= m < |r| && r[m] == x;
          if m != i {
            assert vs[m] == x;
          }
        }
      }
      assert forall x :: x in vs && key(x) != key(v) ==> x in r by {
        forall x | x in vs && key(x) != key(v) ensures x in r {
          var m :| 0 <= m < |vs| && vs[m] == x;
          assert r[m] == x;
        }
      }
      r
    else
      var r := vs + [v];
      assert forall m :: 0 <= m < |vs| ==> r[m] == vs[m] && key(vs[m]) != key(v);
      r
  }

  /** The values of the vertex map after every position of `flat` was registered in order. */
  function Collect<K(==)>(key: Vec3 -> K, flat: seq<Vec3>): (r: seq<Vec3>)
    ensures DistinctKeys(key, r)
    ensures forall x :: x in r ==> x in flat
    ensures forall i :: 0 <= i < |flat| ==> HasKey(key, r, key(flat[i]))
    decreases |flat|
  {
    if |flat| == 0 then []
    else
      var init := flat[..|flat| - 1];
      var v := flat[|flat| - 1];
      var prev := Collect(key, init);
      var r := Register(key, prev, v);
      assert forall i :: 0 <= i < |flat| ==> HasKey(key, r, key(flat[i])) by {
        forall i | 0 <= i < |flat| ensures HasKey(key, r, key(flat[i])) {
          if i == |flat| - 1 {
            var m :| 0 <= m < |r| && r[m] == v;
          } else {
            assert flat[i] == init[i];
            var m :| 0 <= m < |prev| && key(prev[m]) == key(flat[i]);
            if key(flat[i]) != key(v) {
              var n :| 0 <= n < |r| && r[n] == prev[m];
            } else {
              var n :| 0 <= n < |r| && r[n] == v;
            }
          }
        }
      }
      r
  }

  /** All polygons' positions, one polygon after the other. */
  function Flatten(polys: seq<seq<Vec3>>): (r: seq<Vec3>)
    ensures forall k, x :: 0 <= k < |polys| && x in polys[k] ==> x in r
    ensures forall x :: x in r ==> exists k :: 0 <= k < |polys| && x in polys[k]
  {
    if |polys| == 0 then []
    else
      var rest := Flatten(polys[1..]);
      assert forall k :: 1 <= k < |polys| ==> polys[k] == polys[1..][k - 1];
      polys[0] + rest
  }

  /** `vertexList`: one position per key found anywhere in the mesh. */
  function UniqueVertices<K(==)>(key: Vec3 -> K, polys: seq<seq<Vec3>>): (r: seq<Vec3>)
    ensures DistinctKeys(key, r)
    ensures forall x :: x in r ==> exists k :: 0 <= k < |polys| && x in polys[k]
    ensures forall k, x :: 0 <= k < |polys| && x in polys[k] ==> HasKey(key, r, key(x))
  {
    var flat := Flatten(polys);
    var r := Collect(key, flat);
    assert forall k, x :: 0 <= k < |polys| && x in polys[k] ==> HasKey(key, r, key(x)) by {
      forall k, x | 0 <= k < |polys| && x in polys[k] ensures HasKey(key, r, key(x)) {
        assert x in flat;
        var i :| 0 <= i < |flat| && flat[i] == x;
      }
    }
    r
  }

  // ---------------------------------------------------------------------------------------------
  // Points found on one edge, sorted by their parameter.

  /** An intermediate point with its parameter along the edge. */
  datatype Hit = Hit(t: real, v: Vec3)

  /** `v` is inserted into the edge from `a` to `b`. */
  ghost predicate IsSplitPoint<K>(key: Vec3 -> K, a: Vec3, b: Vec3, v: Vec3) {
    LengthSq(Subtract(b, a)) >= MinEdgeLengthSq &&
    key(v) != key(a) && key(v) != key(b) &&
    PointOnSegment(a, b, v, SegmentEps)
  }

  /** The vertices of `vs`, in order, that lie on the edge and are not one of its ends. */
  function Candidates<K(==)>(key: Vec3 -> K, a: Vec3, b: Vec3, vs: seq<Vec3>): (r: seq<Hit>)
    ensures forall h :: h in r ==> h.v in vs && h.t == Param(a, b, h.v)
    ensures forall h :: h in r ==> key(h.v) != key(a) && key(h.v) != key(b) && PointOnSegment(a, b, h.v, SegmentEps)
    ensures forall v :: v in vs && key(v) != key(a) && key(v) != key(b) && PointOnSegment(a, b, v, SegmentEps) ==>
              Hit(Param(a, b, v), v) in r
    ensures |r| <= |vs|
    ensures IsSubsequence(Points(r), vs)
  {
    if |vs| == 0 then []
    else
      var rest := Candidates(key, a, b, vs[1..]);
      assert forall v :: v in vs ==> v == vs[0] || v in vs[1..];
      var v := vs[0];
      assert vs == [v] + vs[1..];
      if key(v) != key(a) && key(v) != key(b) && PointOnSegment(a, b, v, SegmentEps) then
        PointsAppend([Hit(Param(a, b, v), v)], rest);
        SubsequenceCons(v, Points(rest), vs[1..]);
        [Hit(Param(a, b, v), v)] + rest
      else
        SubsequencePrefix(Points(rest), [v], vs[1..]);
        rest
  }

  ghost predicate SortedByT(hs: seq<Hit>) {
    forall i, j :: 0 <= i < j < |hs| ==> hs[i].t <= hs[j].t
  }

  /** Inserts `h` after every element whose parameter is not larger, keeping equal parameters in arrival order. */
  function InsertHit(s: seq<Hit>, h: Hit): (r: seq<Hit>)
    requires SortedByT(s)
    ensures SortedByT(r)
    ensures multiset(r) == multiset(s) + multiset{h}
  {
    if |s| == 0 then [h]
    else if h.t < s[0].t then
      assert forall j :: 0 <= j < |s| ==> h.t < s[j].t;
      [h] + s
    else
      var rest := InsertHit(s[1..], h);
      assert s == [s[0]] + s[1..];
      assert forall j :: 0 <= j < |rest| ==> s[0].t <= rest[j].t by {
        forall j | 0 <= j < |rest| ensures s[0].t <= rest[j].t {
          assert rest[j] in multiset(rest);
          if rest[j] != h {
            assert rest[j] in s[1..];
          }
        }
      }
      [s[0]] + rest
  }

  /**
   * `intermediates.sort((x, y) => x.t - y.t)`: a stable sort by parameter, as the language's
   * `Array.prototype.sort` is.
   */
  function SortHits(hs: seq<Hit>): (r: seq<Hit>)
    ensures SortedByT(r)
    ensures multiset(r) == multiset(hs)
    decreases |hs|
  {
    if |hs| == 0 then []
    else
      assert hs == hs[..|hs| - 1] + [hs[|hs| - 1]];
      InsertHit(SortHits(hs[..|hs| - 1]), hs[|hs| - 1])
  }

  /** Two sequences with the same multiset have the same elements and the same length. */
  lemma SameElements<T>(a: seq<T>, b: seq<T>)
    requires multiset(a) == multiset(b)
    ensures forall x :: x in a <==> x in b
    ensures |a| == |b|
  {
    assert |multiset(a)| == |multiset(b)|;
    forall x ensures x in a <==> x in b {
      assert x in a <==> x in multiset(a);
      assert x in b <==> x in multiset(b);
    }
  }

  /** The points of a list of hits, in order. */
  function Points(hs: seq<Hit>): (r: seq<Vec3>)
    ensures |r| == |hs|
  {
    if |hs| == 0 then [] else [hs[0].v] + Points(hs[1..])
  }

  /** The point at each position is the point of the hit there. */
  lemma {:induction false} PointsAt(hs: seq<Hit>)
    ensures forall i :: 0 <= i < |hs| ==> Points(hs)[i] == hs[i].v
    decreases |hs|
  {
    if |hs| > 0 {
      PointsAt(hs[1..]);
    }
  }

  lemma {:induction false} PointsAppend(a: seq<Hit>, b: seq<Hit>)
    ensures Points(a + b) == Points(a) + Points(b)
    decreases |a|
  {
    if |a| == 0 {
      assert a + b == b;
    } else {
      assert (a + b)[1..] == a[1..] + b;
      PointsAppend(a[1..], b);
    }
  }

  lemma PointsCons(h: Hit, s: seq<Hit>)
    ensures multiset(Points([h] + s)) == multiset{h.v} + multiset(Points(s))
  {
    PointsAppend([h], s);
    assert Points([h]) == [h.v];
  }

  /** Permuting hits permutes their points. */
  lemma {:induction false} PointsPermute(a: seq<Hit>, b: seq<Hit>)
    requires multiset(a) == multiset(b)
    ensures multiset(Points(a)) == multiset(Points(b))
    decreases |a|
  {
    if |a| == 0 {
      assert |multiset(b)| == 0;
    } else {
      var x := a[0];
      assert x in multiset(b);
      var i :| 0 <= i < |b| && b[i] == x;
      var (pre, post) := (b[..i], b[i + 1..]);
      RemoveFirst(a, b, i);
      PointsPermute(a[1..], pre + post);
      assert Points(a) == [x.v] + Points(a[1..]);
      assert multiset(Points(b)) == multiset(Points(pre + post)) + multiset{x.v} by {
        PointsRemove(pre, x, post);
        SplitAt(b, i);
      }
    }
  }


  /** A sequence is its prefix, the element at `i` and its suffix. */
  lemma SplitAt<T>(b: seq<T>, i: nat)
    requires i < |b|
    ensures b == b[..i] + [b[i]] + b[i + 1..]
  {
  }

  /** Two permutations of each other stay so once the first element of one is removed from the other. */
  lemma RemoveFirst<T>(a: seq<T>, b: seq<T>, i: nat)
    requires multiset(a) == multiset(b) && 0 < |a| && i < |b| && b[i] == a[0]
    ensures multiset(a[1..]) == multiset(b[..i] + b[i + 1..])
  {
    assert b == b[..i] + [b[i]] + b[i + 1..];
    assert multiset(b) == multiset(b[..i] + b[i + 1..]) + multiset{b[i]};
    assert a == [a[0]] + a[1..];
    assert multiset(a) == multiset(a[1..]) + multiset{a[0]};
    assert multiset(a[1..]) == multiset(a) - multiset{a[0]};
    assert multiset(b[..i] + b[i + 1..]) == multiset(b) - multiset{b[i]};
  }


  /** Removing one hit takes one copy of its point from the points. */
  lemma PointsRemove(pre: seq<Hit>, x: Hit, post: seq<Hit>)
    ensures multiset(Points(pre + [x] + post)) == multiset(Points(pre + post)) + multiset{x.v}
  {
    assert pre + [x] + post == pre + ([x] + post);
    PointsAppend(pre, [x] + post);
    PointsCons(x, post);
    PointsAppend(pre, post);
  }


  /** Sorting the hits permutes their points. */
  lemma PointsSortHits(hs: seq<Hit>)
    ensures multiset(Points(SortHits(hs))) == multiset(Points(hs))
  {
    PointsPermute(SortHits(hs), hs);
  }


  /**
   * The points inserted after `a` on the edge from `a` to `b`: nothing on an edge shorter than
   * the threshold, otherwise every split point of `vs`, ordered along the edge.
   */
  function EdgeInserts<K(==)>(key: Vec3 -> K, a: Vec3, b: Vec3, vs: seq<Vec3>): (r: seq<Vec3>)
    ensures LengthSq(Subtract(b, a)) < MinEdgeLengthSq ==> r == []
    ensures forall x :: x in r ==> x in vs && IsSplitPoint(key, a, b, x)
    ensures forall v :: v in vs && IsSplitPoint(key, a, b, v) ==> v in r
    ensures forall i, j :: 0 <= i < j < |r| ==> Param(a, b, r[i]) <= Param(a, b, r[j])
    ensures |r| <= |vs|
  {
    if LengthSq(Subtract(b, a)) < MinEdgeLengthSq then []
    else
      InsertsSound(key, a, b, vs);
      InsertsComplete(key, a, b, vs);
      InsertsOrdered(key, a, b, vs);
      Points(SortHits(Candidates(key, a, b, vs)))
  }

  lemma InsertsSound<K>(key: Vec3 -> K, a: Vec3, b: Vec3, vs: seq<Vec3>)
    requires LengthSq(Subtract(b, a)) >= MinEdgeLengthSq
    ensures forall x :: x in Points(SortHits(Candidates(key, a, b, vs))) ==> x in vs && IsSplitPoint(key, a, b, x)
    ensures |Points(SortHits(Candidates(key, a, b, vs)))| <= |vs|
  {
    var hs := Candidates(key, a, b, vs);
    var sorted := SortHits(hs);
    var r := Points(sorted);
    PointsAt(sorted);
    SameElements(sorted, hs);
    forall x | x in r ensures x in vs && IsSplitPoint(key, a, b, x) {
      var i :| 0 <= i < |r| && r[i] == x;
      assert sorted[i] in hs;
    }
  }

  /** Each vertex of `vs` is inserted on an edge at most as often as it occurs in `vs`. */
  lemma InsertsOnce<K>(key: Vec3 -> K, a: Vec3, b: Vec3, vs: seq<Vec3>)
    ensures multiset(EdgeInserts(key, a, b, vs)) <= multiset(vs)
  {
    if LengthSq(Subtract(b, a)) >= MinEdgeLengthSq {
      var hs := Candidates(key, a, b, vs);
      SubsequenceMultiset(Points(hs), vs);
      PointsSortHits(hs);
    }
  }


  lemma InsertsComplete<K>(key: Vec3 -> K, a: Vec3, b: Vec3, vs: seq<Vec3>)
    requires LengthSq(Subtract(b, a)) >= MinEdgeLengthSq
    ensures forall v :: v in vs && IsSplitPoint(key, a, b, v) ==> v in Points(SortHits(Candidates(key, a, b, vs)))
  {
    var hs := Candidates(key, a, b, vs);
    var sorted := SortHits(hs);
    var r := Points(sorted);
    PointsAt(sorted);
    SameElements(sorted, hs);
    forall v | v in vs && IsSplitPoint(key, a, b, v) ensures v in r {
      var h := Hit(Param(a, b, v), v);
      assert h in hs;
      var i :| 0 <= i < |sorted| && sorted[i] == h;
      assert r[i] == v;
    }
  }

  lemma InsertsOrdered<K>(key: Vec3 -> K, a: Vec3, b: Vec3, vs: seq<Vec3>)
    ensures var r := Points(SortHits(Candidates(key, a, b, vs)));
            forall i, j :: 0 <= i < j < |r| ==> Param(a, b, r[i]) <= Param(a, b, r[j])
  {
    var hs := Candidates(key, a, b, vs);
    var sorted := SortHits(hs);
    var r := Points(sorted);
    PointsAt(sorted);
    SameElements(sorted, hs);
    assert forall i :: 0 <= i < |r| ==> Param(a, b, r[i]) == sorted[i].t by {
      forall i | 0 <= i < |r| ensures Param(a, b, r[i]) == sorted[i].t {
        assert sorted[i] in hs;
      }
    }
  }

  // ---------------------------------------------------------------------------------------------
  // Splitting whole polygons.

  /** `x` is a split point of edge `j` of `poly` (the edge from vertex `j` to the next, cyclically). */
  ghost predicate SplitsEdge<K>(key: Vec3 -> K, poly: seq<Vec3>, j: nat, x: Vec3)
    requires j < |poly|
  {
    IsSplitPoint(key, poly[j], poly[(j + 1) % |poly|], x)
  }

  /** `x` is one of the mesh's vertices `vs` and a split point of some edge of `poly` from vertex `i` on. */
  ghost predicate InsertedFrom<K>(key: Vec3 -> K, poly: seq<Vec3>, vs: seq<Vec3>, i: nat, x: Vec3) {
    x in vs && exists j :: i <= j < |poly| && SplitsEdge(key, poly, j, x)
  }

  /** The split polygon from vertex `i` on: each vertex followed by the points inserted on its outgoing edge. */
  /** How many points are inserted on the edges of `poly` from vertex `i` on, summed edge by edge. */
  ghost function InsertCount<K>(key: Vec3 -> K, poly: seq<Vec3>, vs: seq<Vec3>, i: nat): nat
    requires i <= |poly|
    decreases |poly| - i
  {
    if i == |poly| then 0
    else |EdgeInserts(key, poly[i], poly[(i + 1) % |poly|], vs)| + InsertCount(key, poly, vs, i + 1)
  }

  function SplitFrom<K(==)>(key: Vec3 -> K, poly: seq<Vec3>, vs: seq<Vec3>, i: nat): (r: seq<Vec3>)
    requires i <= |poly|
    ensures IsSubsequence(poly[i..], r)
    ensures forall x :: x in r ==> x in poly[i..] || InsertedFrom(key, poly, vs, i, x)
    decreases |poly| - i
  {
    if i == |poly| then []
    else
      var rest := SplitFrom(key, poly, vs, i + 1);
      SplitFromStep(key, poly, vs, i, rest);
      [poly[i]] + EdgeInserts(key, poly[i], poly[(i + 1) % |poly|], vs) + rest
  }

  /** One step of the split keeps the polygon's vertices in order and adds only inserted points. */
  lemma SplitFromStep<K>(key: Vec3 -> K, poly: seq<Vec3>, vs: seq<Vec3>, i: nat, rest: seq<Vec3>)
    requires i < |poly|
    requires IsSubsequence(poly[i + 1..], rest)
    requires forall x :: x in rest ==> x in poly[i + 1..] || InsertedFrom(key, poly, vs, i + 1, x)
    ensures var r := [poly[i]] + EdgeInserts(key, poly[i], poly[(i + 1) % |poly|], vs) + rest;
            IsSubsequence(poly[i..], r) && forall x :: x in r ==> x in poly[i..] || InsertedFrom(key, poly, vs, i, x)
  {
    var ins := EdgeInserts(key, poly[i], poly[(i + 1) % |poly|], vs);
    assert poly[i..] == [poly[i]] + poly[i + 1..];
    SubsequenceInsert(poly[i], poly[i + 1..], ins, rest);
    SplitFromMembers(key, poly, vs, i, ins, rest);
  }

  /** The split polygon from vertex `i` on holds those vertices and the points inserted on their edges, and nothing more. */
  lemma {:induction false} SplitFromLength<K>(key: Vec3 -> K, poly: seq<Vec3>, vs: seq<Vec3>, i: nat)
    requires i <= |poly|
    ensures |SplitFrom(key, poly, vs, i)| == |poly| - i + InsertCount(key, poly, vs, i)
    decreases |poly| - i
  {
    if i < |poly| {
      var ins := EdgeInserts(key, poly[i], poly[(i + 1) % |poly|], vs);
      var rest := SplitFrom(key, poly, vs, i + 1);
      assert SplitFrom(key, poly, vs, i) == [poly[i]] + ins + rest;
      SplitFromLength(key, poly, vs, i + 1);
    }
  }

  /** The members of one step of the split come from the polygon or are inserted points. */
  lemma SplitFromMembers<K>(key: Vec3 -> K, poly: seq<Vec3>, vs: seq<Vec3>, i: nat, ins: seq<Vec3>, rest: seq<Vec3>)
    requires i < |poly|
    requires forall x :: x in ins ==> x in vs && IsSplitPoint(key, poly[i], poly[(i + 1) % |poly|], x)
    requires forall x :: x in rest ==> x in poly[i + 1..] || InsertedFrom(key, poly, vs, i + 1, x)
    ensures forall x :: x in [poly[i]] + ins + rest ==> x in poly[i..] || InsertedFrom(key, poly, vs, i, x)
  {
    assert poly[i..] == [poly[i]] + poly[i + 1..];
    forall x | x in [poly[i]] + ins + rest
      ensures x in poly[i..] || InsertedFrom(key, poly, vs, i, x)
    {
      if x in ins {
        assert SplitsEdge(key, poly, i, x);
      } else if x in rest && !(x in poly[i + 1..]) {
        var j :| i + 1 <= j < |poly| && SplitsEdge(key, poly, j, x);
      }
    }
  }

  /** Every split point of every edge from vertex `i` on is inserted. */
  lemma {:induction false} SplitFromComplete<K>(key: Vec3 -> K, poly: seq<Vec3>, vs: seq<Vec3>, i: nat, j: nat, x: Vec3)
    requires i <= j < |poly| && x in vs && SplitsEdge(key, poly, j, x)
    ensures x in SplitFrom(key, poly, vs, i)
    decreases |poly| - i
  {
    var ins := EdgeInserts(key, poly[i], poly[(i + 1) % |poly|], vs);
    var rest := SplitFrom(key, poly, vs, i + 1);
    assert SplitFrom(key, poly, vs, i) == [poly[i]] + ins + rest;
    if j == i {
      assert x in ins;
    } else {
      SplitFromComplete(key, poly, vs, i + 1, j, x);
    }
  }

  /** `splitTJunctions`: every polygon with the mesh's split points inserted into its edges. */
  function SplitTJunctions<K(==)>(key: Vec3 -> K, polys: seq<seq<Vec3>>): (r: seq<seq<Vec3>>)
    ensures |r| == |polys|
    ensures forall k :: 0 <= k < |polys| ==> |r[k]| == |polys[k]| + InsertCount(key, polys[k], UniqueVertices(key, polys), 0)
    ensures forall k :: 0 <= k < |polys| ==> IsSubsequence(polys[k], r[k])
    ensures forall k, x :: 0 <= k < |polys| && x in r[k] ==>
              x in polys[k] || InsertedFrom(key, polys[k], UniqueVertices(key, polys), 0, x)
  {
    var vs := UniqueVertices(key, polys);
    assert forall k :: 0 <= k < |polys| ==> polys[k][0..] == polys[k];
    assert forall k :: 0 <= k < |polys| ==> |SplitFrom(key, polys[k], vs, 0)| == |polys[k]| + InsertCount(key, polys[k], vs, 0) by {
      forall k | 0 <= k < |polys| {
        SplitFromLength(key, polys[k], vs, 0);
      }
    }
    seq(|polys|, k requires 0 <= k < |polys| => SplitFrom(key, polys[k], vs, 0))
  }

  /**
   * Conversely, nothing is missed: a mesh vertex that is a split point of an edge of polygon `k`
   * appears in the split polygon `k`.
   */
  lemma SplitTJunctionsComplete<K>(key: Vec3 -> K, polys: seq<seq<Vec3>>, k: nat, j: nat, x: Vec3)
    requires k < |polys| && j < |polys[k]|
    requires x in UniqueVertices(key, polys) && SplitsEdge(key, polys[k], j, x)
    ensures x in SplitTJunctions(key, polys)[k]
  {
    SplitFromComplete(key, polys[k], UniqueVertices(key, polys), 0, j, x);
  }

  /** `block` occurs in `r` as a contiguous run starting at index `m`. */
  ghost predicate BlockAt(r: seq<Vec3>, block: seq<Vec3>, m: nat) {
    m + |block| <= |r| && r[m..m + |block|] == block
  }

  /** `block` occurs in `r` as a contiguous run. */
  ghost predicate HasBlock(r: seq<Vec3>, block: seq<Vec3>) {
    exists m: nat :: BlockAt(r, block, m)
  }

  lemma BlockAtStart(block: seq<Vec3>, rest: seq<Vec3>)
    ensures HasBlock(block + rest, block)
  {
    assert BlockAt(block + rest, block, 0);
  }

  lemma BlockAfter(pre: seq<Vec3>, rest: seq<Vec3>, block: seq<Vec3>)
    requires HasBlock(rest, block)
    ensures HasBlock(pre + rest, block)
  {
    var m: nat :| BlockAt(rest, block, m);
    assert (pre + rest)[|pre| + m..|pre| + m + |block|] == rest[m..m + |block|];
    assert BlockAt(pre + rest, block, |pre| + m);
  }

  /** Vertex `j` of the polygon is followed at once by the points inserted on its outgoing edge. */
  lemma {:induction false} SplitFromBlock<K>(key: Vec3 -> K, poly: seq<Vec3>, vs: seq<Vec3>, i: nat, j: nat)
    requires i <= j < |poly|
    ensures HasBlock(SplitFrom(key, poly, vs, i), [poly[j]] + EdgeInserts(key, poly[j], poly[(j + 1) % |poly|], vs))
    decreases |poly| - i
  {
    var ins := EdgeInserts(key, poly[i], poly[(i + 1) % |poly|], vs);
    var rest := SplitFrom(key, poly, vs, i + 1);
    assert SplitFrom(key, poly, vs, i) == ([poly[i]] + ins) + rest;
    if j == i {
      BlockAtStart([poly[i]] + ins, rest);
    } else {
      SplitFromBlock(key, poly, vs, i + 1, j);
      BlockAfter([poly[i]] + ins, rest, [poly[j]] + EdgeInserts(key, poly[j], poly[(j + 1) % |poly|], vs));
    }
  }

  /**
   * In split polygon `k`, every original vertex is followed at once by the points inserted on
   * its outgoing edge, which are ordered along that edge.
   */
  lemma SplitTJunctionsBlocks<K>(key: Vec3 -> K, polys: seq<seq<Vec3>>, k: nat, j: nat)
    requires k < |polys| && j < |polys[k]|
    ensures HasBlock(SplitTJunctions(key, polys)[k],
                     [polys[k][j]] + EdgeInserts(key, polys[k][j], polys[k][(j + 1) % |polys[k]|], UniqueVertices(key, polys)))
  {
    SplitFromBlock(key, polys[k], UniqueVertices(key, polys), 0, j);
  }
}
