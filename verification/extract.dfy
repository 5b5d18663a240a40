/**
 * Reading the input mesh (lib/geom3-to-brep.ts:29-65 and 199-208): the loosely typed vertex
 * descriptors a `geom3` may carry, `extractPosition`, and the gathering of transformed polygons.
 */
module Extract {
  import opened Common
  import opened VecMath

  /**
   * One entry of a coordinate array, as `Number` sees it: a value that converts to the finite
   * number `value`, or one that converts to NaN.
   */
  datatype Component = Num(value: real) | NotNumeric

  /** A `pos` or `position` property: an array of entries, or something that is not an array. */
  datatype Field = ArrayField(items: seq<Component>) | NotArray

  /**
   * A vertex descriptor: a bare coordinate array, an object with optional `pos` and `position`
   * properties, or anything else (null, a number, ...).
   */
  datatype Vertex = ArrayVertex(items: seq<Component>) | ObjectVertex(pos: Option<Field>, position: Option<Field>) | OtherVertex

  /** `Number(c) || 0`: an entry that converts to NaN reads as 0. */
  function ToNumber(c: Component): real {
    match c
    case Num(r) => r
    case NotNumeric => 0.0
  }

  /** The position held by the first three entries of an array. */
  function Triple(items: seq<Component>): Vec3
    requires |items| >= 3
  {
    Vec3(ToNumber(items[0]), ToNumber(items[1]), ToNumber(items[2]))
  }

  /** The property is present and is an array of at least three entries. */
  predicate HasTriple(f: Option<Field>) {
    f.Some? && f.value.ArrayField? && |f.value.items| >= 3
  }

  /** The descriptor holds coordinates `extractPosition` can use. */
  predicate Usable(v: Vertex) {
    match v
    case ArrayVertex(items) => |items| >= 3
    case ObjectVertex(pos, position) => HasTriple(pos) || HasTriple(position)
    case OtherVertex => false
  }

  /**
   * `extractPosition(vertex)`: a bare array of at least three entries is the position itself;
   * otherwise `pos` is used when it is such an array, then `position`; anything else is the
   * origin.
   */
  function ExtractPosition(v: Vertex): (p: Vec3)
    ensures !Usable(v) ==> p == Zero
    ensures v.ArrayVertex? && Usable(v) ==> p == Triple(v.items)
    ensures v.ObjectVertex? && HasTriple(v.pos) ==> p == Triple(v.pos.value.items)
    ensures v.ObjectVertex? && !HasTriple(v.pos) && HasTriple(v.position) ==> p == Triple(v.position.value.items)
  {
    match v
    case ArrayVertex(items) =>
      if |items| >= 3 then Triple(items) else Zero
    case ObjectVertex(pos, position) =>
      if HasTriple(pos) then Triple(pos.value.items)
      else if HasTriple(position) then Triple(position.value.items)
      else Zero
    case OtherVertex => Zero
  }

  /** The three coordinates of `p` as array entries. */
  function Coordinates(p: Vec3): (items: seq<Component>)
    ensures |items| == 3
  {
    [Num(p.x), Num(p.y), Num(p.z)]
  }

  /**
   * Every way of writing a position down reads back as that position: as a bare array (with any
   * trailing entries), as `pos`, or as `position` when `pos` is missing or unusable.
   */
  lemma ExtractRoundTrip(p: Vec3, extra: seq<Component>, other: Option<Field>)
    ensures ExtractPosition(ArrayVertex(Coordinates(p) + extra)) == p
    ensures ExtractPosition(ObjectVertex(Some(ArrayField(Coordinates(p) + extra)), other)) == p
    ensures !HasTriple(other) ==> ExtractPosition(ObjectVertex(other, Some(ArrayField(Coordinates(p) + extra)))) == p
  {
    assert (Coordinates(p) + extra)[..3] == Coordinates(p);
  }

  /** `pos` wins over `position` whenever both are usable. */
  lemma PosBeforePosition(p: Vec3, q: Vec3)
    ensures ExtractPosition(ObjectVertex(Some(ArrayField(Coordinates(p))), Some(ArrayField(Coordinates(q))))) == p
  {
  }

  /** A short array is not read at all, not even its first entries. */
  lemma ShortArrayIsOrigin(items: seq<Component>)
    requires |items| < 3
    ensures ExtractPosition(ArrayVertex(items)) == Zero
    ensures ExtractPosition(ObjectVertex(Some(ArrayField(items)), Some(ArrayField(items)))) == Zero
  {
  }

  // ---------------------------------------------------------------------------------------------
  // Polygons

  /** A polygon entry: its `vertices` property may be missing. */
  datatype Polygon = Polygon(vertices: Option<seq<Vertex>>)

  /**
   * The input mesh: its polygons (an entry may be null or undefined) and an optional transform
   * (`color` is not read by the conversion).
   */
  datatype Geom3 = Geom3(polygons: seq<Option<Polygon>>, transforms: Option<seq<real>>)

  /** The polygon entry is present and has at least three vertices: it is converted. */
  predicate Kept(p: Option<Polygon>) {
    p.Some? && p.value.vertices.Some? && |p.value.vertices.value| >= 3
  }

  /** The transformed positions of a polygon's vertices, in order. */
  function Positions(vs: seq<Vertex>, transforms: Option<seq<real>>): (r: seq<Vec3>)
    ensures |r| == |vs|
    ensures forall j :: 0 <= j < |vs| ==> r[j] == ApplyTransform(ExtractPosition(vs[j]), transforms)
  {
    seq(|vs|, j requires 0 <= j < |vs| => ApplyTransform(ExtractPosition(vs[j]), transforms))
  }

  /** `rawPolygons` from the polygon entries `ps`: the kept ones, as transformed positions. */
  function RawFrom(ps: seq<Option<Polygon>>, transforms: Option<seq<real>>): (r: seq<seq<Vec3>>)
    ensures |r| <= |ps|
    ensures forall k :: 0 <= k < |r| ==> |r[k]| >= 3
  {
    if |ps| == 0 then []
    else
      var rest := RawFrom(ps[1..], transforms);
      if Kept(ps[0]) then [Positions(ps[0].value.vertices.value, transforms)] + rest else rest
  }

  /** The polygons the conversion works on, before T-junction splitting. */
  function RawPolygons(geom: Geom3): (r: seq<seq<Vec3>>)
    ensures |r| <= |geom.polygons|
    ensures forall k :: 0 <= k < |r| ==> |r[k]| >= 3
  {
    RawFrom(geom.polygons, geom.transforms)
  }

  /** Gathering distributes over concatenation: each entry is decided on its own. */
  lemma {:induction false} RawFromAppend(ps: seq<Option<Polygon>>, qs: seq<Option<Polygon>>, transforms: Option<seq<real>>)
    ensures RawFrom(ps + qs, transforms) == RawFrom(ps, transforms) + RawFrom(qs, transforms)
  {
    if |ps| > 0 {
      assert (ps + qs)[1..] == ps[1..] + qs;
      RawFromAppend(ps[1..], qs, transforms);
    } else {
      assert ps + qs == qs;
    }
  }

  /** Entries that are not kept contribute nothing. */
  lemma {:induction false} RawFromDropped(ps: seq<Option<Polygon>>, transforms: Option<seq<real>>)
    requires forall k :: 0 <= k < |ps| ==> !Kept(ps[k])
    ensures RawFrom(ps, transforms) == []
  {
    if |ps| > 0 {
      RawFromDropped(ps[1..], transforms);
    }
  }

  /** When every entry is kept, polygon `k` is the transformed positions of entry `k`. */
  lemma {:induction false} RawFromAllKept(ps: seq<Option<Polygon>>, transforms: Option<seq<real>>)
    requires forall k :: 0 <= k < |ps| ==> Kept(ps[k])
    ensures |RawFrom(ps, transforms)| == |ps|
    ensures forall k :: 0 <= k < |ps| && Kept(ps[k]) ==> RawFrom(ps, transforms)[k] == Positions(ps[k].value.vertices.value, transforms)
  {
    if |ps| > 0 {
      RawFromAllKept(ps[1..], transforms);
      var r := RawFrom(ps, transforms);
      forall k | 0 < k < |ps|
        ensures r[k] == Positions(ps[k].value.vertices.value, transforms)
      {
        assert r[k] == RawFrom(ps[1..], transforms)[k - 1];
        assert ps[1..][k - 1] == ps[k];
      }
    }
  }
}
